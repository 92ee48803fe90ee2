/**
 * The ordering of block tags in a doc comment (DocComment.sortTags): tags are ranked
 * by kind in the order of the "Order of Tags" section of Oracle's How to Write Doc
 * Comments for the Javadoc Tool, `@throws` tags with arguments are ordered by their
 * exception name ignoring case, and all other ties keep their position in the source.
 *
 * The source pairs each tag with its position and sorts that list with List.sort, a
 * stable sort.  The model sorts the pairs with an insertion sort on an array, specified
 * by a functional insertion sort; whenever the comparison is a total preorder, every
 * stable sort agrees with it.
 */
module TagSort {
  import opened JavaText
  import opened Wrappers
  import opened BlockTags

  /** A tag together with its position in the comment. */
  datatype Entry = Entry(tag: BlockTag, index: int)

  /** Integer.MAX_VALUE, the rank of a kind without a listed place. */
  const UnknownRank: int := 0x7fff_ffff

  /** The tagOrder table: author, version, param, return, throws, see, since, serial*, deprecated. */
  function Rank(kind: string): (r: int)
    ensures 0 <= r <= UnknownRank
    ensures r == 4 <==> kind == "throws"
  {
    if kind == "author" then 0
    else if kind == "version" then 1
    else if kind == "param" then 2
    else if kind == "return" then 3
    else if kind == "throws" then 4
    else if kind == "see" then 5
    else if kind == "since" then 6
    else if kind == "serial" || kind == "serialField" || kind == "serialData" then 7
    else if kind == "deprecated" then 8
    else UnknownRank
  }

  /** Integer.compare and Integer.compareTo: the sign of `a - b`. */
  function Sign(a: int, b: int): int {
    if a < b then -1 else if a == b then 0 else 1
  }

  /** Both entries are `@throws` tags that carry an exception name. */
  predicate NamedThrows(e1: Entry, e2: Entry) {
    e1.tag.kind == "throws" && e2.tag.kind == "throws"
    && e1.tag.argument.Some? && e2.tag.argument.Some?
  }

  /** The comparator handed to List.sort; only the sign of the result matters. */
  function Compare(e1: Entry, e2: Entry): int {
    var order1 := Rank(e1.tag.kind);
    var order2 := Rank(e2.tag.kind);
    if order1 != order2 then Sign(order1, order2)
    else if NamedThrows(e1, e2) then CompareIgnoreCase(e1.tag.argument.value, e2.tag.argument.value)
    else Sign(e1.index, e2.index)
  }

  /** The comparator is antisymmetric: swapping the arguments negates the sign. */
  lemma CompareAntisymmetric(e1: Entry, e2: Entry)
    ensures Compare(e1, e2) > 0 <==> Compare(e2, e1) < 0
    ensures Compare(e1, e2) == 0 <==> Compare(e2, e1) == 0
  {
    if Rank(e1.tag.kind) == Rank(e2.tag.kind) && NamedThrows(e1, e2) {
      CompareIgnoreCaseAntisymmetric(e1.tag.argument.value, e2.tag.argument.value);
    }
  }

  /** A `@throws` tag without an exception name, the case that makes the comparator non-transitive. */
  predicate UnnamedThrows(e: Entry) {
    e.tag.kind == "throws" && e.tag.argument.None?
  }

  /** With no unnamed `@throws` tag among the three, "not after" is transitive. */
  lemma CompareTransitive(e1: Entry, e2: Entry, e3: Entry)
    requires !UnnamedThrows(e1) && !UnnamedThrows(e2) && !UnnamedThrows(e3)
    requires Compare(e1, e2) <= 0 && Compare(e2, e3) <= 0
    ensures Compare(e1, e3) <= 0
  {
    if Rank(e1.tag.kind) == Rank(e2.tag.kind) == Rank(e3.tag.kind) && NamedThrows(e1, e2) {
      CompareIgnoreCaseTransitive(e1.tag.argument.value, e2.tag.argument.value,
                                  e3.tag.argument.value);
    }
  }

  /**
   * Three entries on which the comparator is not transitive: two named `@throws` tags
   * whose names are in the opposite order of their positions, and an unnamed one between.
   */
  lemma CompareNotTransitive()
    ensures var a := Entry(BlockTag("throws", Some("B"), "", " "), 0);
      var b := Entry(BlockTag("throws", None, "", " "), 1);
      var c := Entry(BlockTag("throws", Some("A"), "", " "), 2);
      Compare(a, b) < 0 && Compare(b, c) < 0 && Compare(c, a) < 0
  {
  }

  /** A comparison whose sign flips when its arguments are swapped. */
  ghost predicate Antisymmetric(cmp: (Entry, Entry) -> int) {
    forall e1, e2 :: (cmp(e1, e2) > 0 <==> cmp(e2, e1) < 0) && (cmp(e1, e2) == 0 <==> cmp(e2, e1) == 0)
  }

  lemma CompareIsAntisymmetric()
    ensures Antisymmetric(Compare)
  {
    forall e1, e2
      ensures (Compare(e1, e2) > 0 <==> Compare(e2, e1) < 0)
              && (Compare(e1, e2) == 0 <==> Compare(e2, e1) == 0)
    {
      CompareAntisymmetric(e1, e2);
    }
  }

  // ---------------------------------------------------------------------------
  // The reference sort, for any comparison
  // ---------------------------------------------------------------------------

  /** Where inserting `x` from the right stops: past every element that compares after it. */
  function InsertPosition(s: seq<Entry>, x: Entry, cmp: (Entry, Entry) -> int): (p: nat)
    ensures p <= |s|
  {
    if s == [] || cmp(s[|s| - 1], x) <= 0 then |s|
    else InsertPosition(s[..|s| - 1], x, cmp)
  }

  /** Everything behind the insertion point compares after `x`; the element before it does not. */
  lemma {:induction false} InsertPositionBounds(s: seq<Entry>, x: Entry, cmp: (Entry, Entry) -> int)
    ensures var p := InsertPosition(s, x, cmp);
      (forall i :: p <= i < |s| ==> cmp(s[i], x) > 0) && (p == 0 || cmp(s[p - 1], x) <= 0)
  {
    if s != [] && cmp(s[|s| - 1], x) > 0 {
      InsertPositionBounds(s[..|s| - 1], x, cmp);
    }
  }

  /** One insertion step: `x` moves left past every element that compares after it. */
  function Insert(s: seq<Entry>, x: Entry, cmp: (Entry, Entry) -> int): (r: seq<Entry>)
    ensures |r| == |s| + 1
  {
    if s == [] || cmp(s[|s| - 1], x) <= 0 then s + [x]
    else Insert(s[..|s| - 1], x, cmp) + [s[|s| - 1]]
  }

  /** Inserting puts `x` at the insertion point and keeps the order of the others. */
  lemma {:induction false} InsertShape(s: seq<Entry>, x: Entry, cmp: (Entry, Entry) -> int)
    ensures var p := InsertPosition(s, x, cmp);
      Insert(s, x, cmp) == s[..p] + [x] + s[p..]
  {
    if s != [] && cmp(s[|s| - 1], x) > 0 {
      var init := s[..|s| - 1];
      InsertShape(init, x, cmp);
      var p := InsertPosition(init, x, cmp);
      assert init[..p] == s[..p];
      assert init[p..] + [s[|s| - 1]] == s[p..];
    }
  }

  /** Insertion sort: the sorted prefix, with the last element inserted into it. */
  function SortBy(s: seq<Entry>, cmp: (Entry, Entry) -> int): (r: seq<Entry>)
    ensures |r| == |s|
  {
    if s == [] then [] else Insert(SortBy(s[..|s| - 1], cmp), s[|s| - 1], cmp)
  }

  /** The tags paired with their positions. */
  function Indexed(tags: seq<BlockTag>): (r: seq<Entry>)
    ensures |r| == |tags|
    ensures forall i :: 0 <= i < |r| ==> r[i] == Entry(tags[i], i)
  {
    seq(|tags|, i requires 0 <= i < |tags| => Entry(tags[i], i))
  }

  /** The tags of a list of entries, in order. */
  function Tags(s: seq<Entry>): (r: seq<BlockTag>)
    ensures |r| == |s|
  {
    if s == [] then [] else Tags(s[..|s| - 1]) + [s[|s| - 1].tag]
  }

  lemma {:induction false} TagsAt(s: seq<Entry>)
    ensures forall i :: 0 <= i < |s| ==> Tags(s)[i] == s[i].tag
  {
    if s != [] {
      TagsAt(s[..|s| - 1]);
    }
  }

  /** DocComment.sortTags: lists of at most one tag are returned as they are. */
  function SortedTags(tags: seq<BlockTag>): seq<BlockTag> {
    if |tags| <= 1 then tags else Tags(SortBy(Indexed(tags), Compare))
  }

  // ---------------------------------------------------------------------------
  // The sort on an array
  // ---------------------------------------------------------------------------

  /** DocComment.sortTags: pair each tag with its position, sort the pairs, read off the tags. */
  method SortTags(tags: seq<BlockTag>) returns (sorted: seq<BlockTag>)
    ensures sorted == SortedTags(tags)
  {
    if |tags| <= 1 {
      return tags;
    }
    var entries := new Entry[|tags|](i requires 0 <= i < |tags| => Entry(tags[i], i));
    assert entries[..] == Indexed(tags);
    InsertionSort(entries, Compare);
    sorted := ReadTags(entries);
  }

  /** The tags of the sorted entries, read off in order. */
  method ReadTags(entries: array<Entry>) returns (sorted: seq<BlockTag>)
    ensures sorted == Tags(entries[..])
  {
    sorted := [];
    for i := 0 to entries.Length
      invariant sorted == Tags(entries[..i])
    {
      assert entries[..i + 1][..i] == entries[..i];
      sorted := sorted + [entries[i].tag];
    }
    assert entries[..entries.Length] == entries[..];
  }

  /** List.sort with a comparator: sorts the array in place, with the result of the reference sort. */
  method InsertionSort(a: array<Entry>, cmp: (Entry, Entry) -> int)
    modifies a
    ensures a[..] == SortBy(old(a[..]), cmp)
  {
    ghost var original := a[..];
    for i := 0 to a.Length
      invariant a[..i] == SortBy(original[..i], cmp)
      invariant a[i..] == original[i..]
    {
      InsertAt(a, i, cmp);
      assert original[..i + 1][..i] == original[..i];
    }
    assert a[..a.Length] == a[..];
    assert original[..a.Length] == original;
  }

  /** Moves `a[i]` left past the elements of `a[..i]` that compare after it. */
  method InsertAt(a: array<Entry>, i: nat, cmp: (Entry, Entry) -> int)
    requires i < a.Length
    modifies a
    ensures a[..i + 1] == Insert(old(a[..i]), old(a[i]), cmp)
    ensures a[i + 1..] == old(a[i + 1..])
  {
    ghost var sortedPrefix := a[..i];
    ghost var rest := a[i + 1..];
    var x := a[i];
    var j := i;
    assert sortedPrefix[..j] == sortedPrefix && sortedPrefix[j..] == [];
    while j > 0 && cmp(a[j - 1], x) > 0
      invariant j <= i
      invariant Shifting(a, i, j, sortedPrefix, rest, x, cmp)
    {
      ShiftOne(a, i, j, sortedPrefix, rest, x, cmp);
      j := j - 1;
    }
    PlaceAt(a, i, j, sortedPrefix, rest, x, cmp);
  }

  /**
   * The inner loop's state: `a[..j]` is untouched, the prefix behind `j` has moved one
   * place right, and inserting into what is left gives the whole insertion.
   */
  ghost predicate Shifting(a: array<Entry>, i: nat, j: nat, sortedPrefix: seq<Entry>, rest: seq<Entry>,
                           x: Entry, cmp: (Entry, Entry) -> int)
    reads a
  {
    j <= i < a.Length && |sortedPrefix| == i
    && (forall k :: 0 <= k < j ==> a[k] == sortedPrefix[k])
    && (forall k :: j < k <= i ==> a[k] == sortedPrefix[k - 1])
    && a[i + 1..] == rest
    && Insert(sortedPrefix, x, cmp) == Insert(sortedPrefix[..j], x, cmp) + sortedPrefix[j..]
  }

  /** One step of the inner loop: the element before the gap moves into it. */
  method ShiftOne(a: array<Entry>, i: nat, j: nat, ghost sortedPrefix: seq<Entry>, ghost rest: seq<Entry>,
                  x: Entry, cmp: (Entry, Entry) -> int)
    requires 0 < j && Shifting(a, i, j, sortedPrefix, rest, x, cmp) && cmp(a[j - 1], x) > 0
    modifies a
    ensures Shifting(a, i, j - 1, sortedPrefix, rest, x, cmp)
  {
    InsertStep(sortedPrefix, j, x, cmp);
    a[j] := a[j - 1];
  }

  /** Where the inner loop stops, `x` goes into the gap. */
  method PlaceAt(a: array<Entry>, i: nat, j: nat, ghost sortedPrefix: seq<Entry>, ghost rest: seq<Entry>,
                 x: Entry, cmp: (Entry, Entry) -> int)
    requires Shifting(a, i, j, sortedPrefix, rest, x, cmp) && (j == 0 || cmp(a[j - 1], x) <= 0)
    modifies a
    ensures a[..i + 1] == Insert(sortedPrefix, x, cmp)
    ensures a[i + 1..] == rest
  {
    a[j] := x;
    InsertStop(sortedPrefix, j, x, cmp);
    Shifted(a[..i + 1], sortedPrefix, j, x);
  }

  /** A list that agrees with `s` before `j`, holds `x` at `j` and `s` shifted by one after it. */
  lemma Shifted(b: seq<Entry>, s: seq<Entry>, j: nat, x: Entry)
    requires |b| == |s| + 1 && j <= |s| && b[j] == x
    requires forall k :: 0 <= k < j ==> b[k] == s[k]
    requires forall k :: j < k < |b| ==> b[k] == s[k - 1]
    ensures b == s[..j] + [x] + s[j..]
  {
  }

  /** Moving `x` left past an element that compares after it. */
  lemma InsertStep(s: seq<Entry>, j: nat, x: Entry, cmp: (Entry, Entry) -> int)
    requires 0 < j <= |s| && cmp(s[j - 1], x) > 0
    ensures Insert(s[..j], x, cmp) + s[j..] == Insert(s[..j - 1], x, cmp) + s[j - 1..]
  {
    assert s[..j][..j - 1] == s[..j - 1];
    assert s[j - 1..] == [s[j - 1]] + s[j..];
  }

  /** Where the inner loop stops, `x` is placed. */
  lemma InsertStop(s: seq<Entry>, j: nat, x: Entry, cmp: (Entry, Entry) -> int)
    requires j <= |s| && (j == 0 || cmp(s[j - 1], x) <= 0)
    ensures Insert(s[..j], x, cmp) == s[..j] + [x]
  {
  }

  // ---------------------------------------------------------------------------
  // What the reference sort promises
  // ---------------------------------------------------------------------------

  /** The sort rearranges the entries and neither adds nor drops one. */
  lemma {:induction false} SortByPermutes(s: seq<Entry>, cmp: (Entry, Entry) -> int)
    ensures multiset(SortBy(s, cmp)) == multiset(s)
  {
    if s != [] {
      var init, x := s[..|s| - 1], s[|s| - 1];
      SortByPermutes(init, cmp);
      InsertPermutes(SortBy(init, cmp), x, cmp);
      assert s == init + [x];
    }
  }

  /** Inserting `x` adds it once and keeps every other entry. */
  lemma {:induction false} InsertPermutes(t: seq<Entry>, x: Entry, cmp: (Entry, Entry) -> int)
    ensures multiset(Insert(t, x, cmp)) == multiset(t) + multiset{x}
  {
    if t != [] && cmp(t[|t| - 1], x) > 0 {
      var init, last := t[..|t| - 1], t[|t| - 1];
      InsertPermutes(init, x, cmp);
      assert t == init + [last];
      assert Insert(t, x, cmp) == Insert(init, x, cmp) + [last];
    }
  }

  /** Putting `y` between two lists adds it once to what the two hold. */
  lemma MultisetMiddle<T>(a: seq<T>, y: T, b: seq<T>)
    ensures multiset(a + [y] + b) == multiset(a + b) + multiset{y}
  {
    calc {
      multiset(a + [y] + b);
      multiset(a) + multiset([y]) + multiset(b);
      multiset(a) + multiset(b) + multiset{y};
    }
  }

  /** The tags of the sorted entries are the input's tags, each as often as before. */
  lemma {:induction false} SortByKeepsTags(s: seq<Entry>, cmp: (Entry, Entry) -> int)
    ensures multiset(Tags(SortBy(s, cmp))) == multiset(Tags(s))
  {
    if s != [] {
      var x := s[|s| - 1];
      SortByKeepsTags(s[..|s| - 1], cmp);
      InsertKeepsTags(SortBy(s[..|s| - 1], cmp), x, cmp);
      assert Tags(s) == Tags(s[..|s| - 1]) + [x.tag];
    }
  }

  /** Inserting `x` adds its tag to the tags and changes nothing else about them. */
  lemma InsertKeepsTags(t: seq<Entry>, x: Entry, cmp: (Entry, Entry) -> int)
    ensures multiset(Tags(Insert(t, x, cmp))) == multiset(Tags(t)) + multiset{x.tag}
  {
    var p := InsertPosition(t, x, cmp);
    TagsOfInsert(t, x, cmp);
    TagsConcat(t[..p], t[p..]);
    assert t[..p] + t[p..] == t;
    MultisetMiddle(Tags(t[..p]), x.tag, Tags(t[p..]));
  }

  /** The tags after inserting `x`: those before the insertion point, its tag, the rest. */
  lemma TagsOfInsert(t: seq<Entry>, x: Entry, cmp: (Entry, Entry) -> int)
    ensures var p := InsertPosition(t, x, cmp);
      Tags(Insert(t, x, cmp)) == Tags(t[..p]) + [x.tag] + Tags(t[p..])
  {
    var p := InsertPosition(t, x, cmp);
    InsertShape(t, x, cmp);
    TagsConcat(t[..p] + [x], t[p..]);
    TagsConcat(t[..p], [x]);
  }

  lemma TagsConcat(s: seq<Entry>, t: seq<Entry>)
    ensures Tags(s + t) == Tags(s) + Tags(t)
  {
    TagsAt(s + t);
    TagsAt(s);
    TagsAt(t);
    forall i | 0 <= i < |s + t|
      ensures Tags(s + t)[i] == (Tags(s) + Tags(t))[i]
    {
      if i >= |s| {
        assert (s + t)[i] == t[i - |s|];
      }
    }
  }

  /** Neighbours in the list are in comparison order. */
  predicate AdjacentInOrder(s: seq<Entry>, cmp: (Entry, Entry) -> int) {
    forall i :: 0 < i < |s| ==> cmp(s[i - 1], s[i]) <= 0
  }

  /** Entries that tie keep their relative order of position. */
  predicate TiesByPosition(s: seq<Entry>, cmp: (Entry, Entry) -> int) {
    forall i, j :: 0 <= i < j < |s| && cmp(s[i], s[j]) == 0 ==> s[i].index < s[j].index
  }

  /** Inserting keeps neighbours in order: the element before `x` is not after it, the one behind it is. */
  lemma InsertInOrder(s: seq<Entry>, x: Entry, cmp: (Entry, Entry) -> int)
    requires Antisymmetric(cmp) && AdjacentInOrder(s, cmp)
    ensures AdjacentInOrder(Insert(s, x, cmp), cmp)
  {
    var p := InsertPosition(s, x, cmp);
    var r := Insert(s, x, cmp);
    InsertPositionBounds(s, x, cmp);
    InsertShape(s, x, cmp);
    forall i | 0 < i < |r|
      ensures cmp(r[i - 1], r[i]) <= 0
    {
      if i < p {
        assert r[i - 1] == s[i - 1] && r[i] == s[i];
      } else if i == p + 1 {
        assert r[i - 1] == x && r[i] == s[p];
        assert cmp(s[p], x) > 0;
      } else if i > p + 1 {
        assert r[i - 1] == s[i - 2] && r[i] == s[i - 1];
      }
    }
  }

  /** Every entry placed behind `x` compares after it, so no tie lands behind the newcomer. */
  lemma InsertKeepsTies(s: seq<Entry>, x: Entry, cmp: (Entry, Entry) -> int)
    requires Antisymmetric(cmp) && TiesByPosition(s, cmp)
    requires forall i :: 0 <= i < |s| ==> s[i].index < x.index
    ensures TiesByPosition(Insert(s, x, cmp), cmp)
  {
    var r := Insert(s, x, cmp);
    forall i, j | 0 <= i < j < |r| && cmp(r[i], r[j]) == 0
      ensures r[i].index < r[j].index
    {
      InsertedPairTies(s, x, cmp, i, j);
    }
  }

  /** One pair of the inserted list: if they tie, the earlier one came first in the input. */
  lemma InsertedPairTies(s: seq<Entry>, x: Entry, cmp: (Entry, Entry) -> int, i: nat, j: nat)
    requires Antisymmetric(cmp) && TiesByPosition(s, cmp)
    requires forall k :: 0 <= k < |s| ==> s[k].index < x.index
    requires i < j <= |s|
    ensures var r := Insert(s, x, cmp);
      cmp(r[i], r[j]) == 0 ==> r[i].index < r[j].index
  {
    var p := InsertPosition(s, x, cmp);
    var r := Insert(s, x, cmp);
    InsertPositionBounds(s, x, cmp);
    InsertShape(s, x, cmp);
    if j < p {
      assert r[i] == s[i] && r[j] == s[j];
    } else if j == p {
      assert r[i] == s[i] && r[j] == x;
    } else if i < p {
      assert r[i] == s[i] && r[j] == s[j - 1];
    } else if i == p {
      assert r[i] == x && r[j] == s[j - 1];
      assert cmp(s[j - 1], x) > 0;
    } else {
      assert r[i] == s[i - 1] && r[j] == s[j - 1];
    }
  }

  /** Entries whose positions all come before `bound`. */
  predicate IndicesBelow(s: seq<Entry>, bound: int) {
    forall i :: 0 <= i < |s| ==> s[i].index < bound
  }

  lemma IndicesBelowPermuted(s: seq<Entry>, t: seq<Entry>, bound: int)
    requires multiset(s) == multiset(t) && IndicesBelow(t, bound)
    ensures IndicesBelow(s, bound)
  {
    forall i | 0 <= i < |s|
      ensures s[i].index < bound
    {
      assert s[i] in multiset(t);
    }
  }

  /**
   * Under an antisymmetric comparison the sorted list has its neighbours in order, and
   * entries that tie appear in the order of their positions, provided the positions
   * increase along the input: the sort is stable.
   */
  lemma {:induction false} SortByOrdered(s: seq<Entry>, cmp: (Entry, Entry) -> int)
    requires Antisymmetric(cmp)
    requires forall i, j :: 0 <= i < j < |s| ==> s[i].index < s[j].index
    ensures AdjacentInOrder(SortBy(s, cmp), cmp)
    ensures TiesByPosition(SortBy(s, cmp), cmp)
  {
    if s != [] {
      var init := s[..|s| - 1];
      SortByOrdered(init, cmp);
      SortByPermutes(init, cmp);
      IndicesBelowPermuted(SortBy(init, cmp), init, s[|s| - 1].index);
      InsertInOrder(SortBy(init, cmp), s[|s| - 1], cmp);
      InsertKeepsTies(SortBy(init, cmp), s[|s| - 1], cmp);
    }
  }

  // ---------------------------------------------------------------------------
  // The comparator's order along a list
  // ---------------------------------------------------------------------------

  /** Neighbour order extends to every pair once no unnamed `@throws` tag is involved. */
  lemma {:induction false} AdjacentToPairwise(s: seq<Entry>, i: nat, j: nat)
    requires AdjacentInOrder(s, Compare)
    requires forall k :: 0 <= k < |s| ==> !UnnamedThrows(s[k])
    requires i < j < |s|
    ensures Compare(s[i], s[j]) <= 0
    decreases j - i
  {
    if i + 1 < j {
      AdjacentToPairwise(s, i + 1, j);
      CompareTransitive(s[i], s[i + 1], s[j]);
    }
  }

  /** Ranks never decrease along neighbours in comparator order. */
  lemma {:induction false} AdjacentRanks(s: seq<Entry>, i: nat, j: nat)
    requires AdjacentInOrder(s, Compare)
    requires i < j < |s|
    ensures Rank(s[i].tag.kind) <= Rank(s[j].tag.kind)
    decreases j - i
  {
    assert Compare(s[i], s[i + 1]) <= 0;
    if i + 1 < j {
      AdjacentRanks(s, i + 1, j);
    }
  }

  // ---------------------------------------------------------------------------
  // The promises, stated on sortTags
  // ---------------------------------------------------------------------------

  /** Lists of at most one tag come back unchanged. */
  lemma SortTagsShort(tags: seq<BlockTag>)
    requires |tags| <= 1
    ensures SortedTags(tags) == tags
  {
  }

  /** The sorted tags are the input tags rearranged: each occurs as often as before. */
  lemma SortTagsPermutes(tags: seq<BlockTag>)
    ensures multiset(SortedTags(tags)) == multiset(tags)
  {
    if |tags| > 1 {
      SortByKeepsTags(Indexed(tags), Compare);
      TagsOfIndexed(tags);
    }
  }

  lemma TagsOfIndexed(tags: seq<BlockTag>)
    ensures Tags(Indexed(tags)) == tags
  {
    TagsAt(Indexed(tags));
  }

  /** The entries behind the sorted tags: each is a tag with the position it had in the input. */
  lemma SortedEntriesFromInput(tags: seq<BlockTag>, i: nat)
    requires |tags| > 1 && i < |tags|
    ensures var e := SortBy(Indexed(tags), Compare)[i];
      0 <= e.index < |tags| && e.tag == tags[e.index] && SortedTags(tags)[i] == e.tag
  {
    SortByPermutes(Indexed(tags), Compare);
    TagsAt(SortBy(Indexed(tags), Compare));
    assert SortBy(Indexed(tags), Compare)[i] in multiset(Indexed(tags));
  }

  /** The sorted entries are in comparator order and stable. */
  lemma SortedEntriesOrdered(tags: seq<BlockTag>)
    ensures AdjacentInOrder(SortBy(Indexed(tags), Compare), Compare)
    ensures TiesByPosition(SortBy(Indexed(tags), Compare), Compare)
  {
    CompareIsAntisymmetric();
    SortByOrdered(Indexed(tags), Compare);
  }

  /** The sorted tags have non-decreasing rank: author first, unknown kinds last. */
  lemma SortTagsByRank(tags: seq<BlockTag>, i: nat, j: nat)
    requires i < j < |tags|
    ensures Rank(SortedTags(tags)[i].kind) <= Rank(SortedTags(tags)[j].kind)
  {
    if |tags| > 1 {
      SortedEntriesOrdered(tags);
      AdjacentRanks(SortBy(Indexed(tags), Compare), i, j);
      TagsAt(SortBy(Indexed(tags), Compare));
    }
  }

  /** With every `@throws` tag named, no sorted entry is an unnamed `@throws`, so the order is total. */
  lemma SortedEntriesPairwise(tags: seq<BlockTag>, i: nat, j: nat)
    requires forall k :: 0 <= k < |tags| && tags[k].kind == "throws" ==> tags[k].argument.Some?
    requires |tags| > 1 && i < j < |tags|
    ensures Compare(SortBy(Indexed(tags), Compare)[i], SortBy(Indexed(tags), Compare)[j]) <= 0
  {
    var s := SortBy(Indexed(tags), Compare);
    SortedEntriesOrdered(tags);
    forall k | 0 <= k < |s|
      ensures !UnnamedThrows(s[k])
    {
      SortedEntriesFromInput(tags, k);
    }
    AdjacentToPairwise(s, i, j);
  }

  /**
   * When every `@throws` tag names its exception, the `@throws` tags are in case-insensitive
   * order of those names.
   */
  lemma SortTagsThrowsByName(tags: seq<BlockTag>, i: nat, j: nat)
    requires forall k :: 0 <= k < |tags| && tags[k].kind == "throws" ==> tags[k].argument.Some?
    requires i < j < |tags|
    requires SortedTags(tags)[i].kind == "throws" && SortedTags(tags)[j].kind == "throws"
    ensures SortedTags(tags)[i].argument.Some? && SortedTags(tags)[j].argument.Some?
    ensures CompareIgnoreCase(SortedTags(tags)[i].argument.value,
                              SortedTags(tags)[j].argument.value) <= 0
  {
    if |tags| > 1 {
      SortedEntriesPairwise(tags, i, j);
      SortedEntriesFromInput(tags, i);
      SortedEntriesFromInput(tags, j);
    }
  }

  /**
   * Source order: two sorted entries of the same rank come in the order of their positions
   * unless they are `@throws` tags whose names differ ignoring case; equal names keep their
   * source order.  This needs every `@throws` tag to be named.
   */
  lemma SortTagsSourceOrder(tags: seq<BlockTag>, i: nat, j: nat)
    requires forall k :: 0 <= k < |tags| && tags[k].kind == "throws" ==> tags[k].argument.Some?
    requires |tags| > 1 && i < j < |tags|
    ensures var s := SortBy(Indexed(tags), Compare);
      Rank(s[i].tag.kind) == Rank(s[j].tag.kind)
      && !(NamedThrows(s[i], s[j])
           && CompareIgnoreCase(s[i].tag.argument.value, s[j].tag.argument.value) != 0)
      ==> s[i].index < s[j].index
  {
    SortedEntriesOrdered(tags);
    SortedEntriesPairwise(tags, i, j);
  }
}
