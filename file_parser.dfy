/**
 * FileParser: the line-based driver that replaces every doc comment of a source file
 * with its canonical rendering, and the character-level scanner that cuts a source
 * text into doc-comment chunks and the runs of text between them.
 */
module FileParser {
  import opened JavaText
  import opened Wrappers
  import DocComments

  // ---------------------------------------------------------------------------
  // parseLines
  // ---------------------------------------------------------------------------

  /** A line whose form without leading whitespace starts a doc comment. */
  predicate OpensComment(line: string) {
    StartsWith(StripLeading(line), "/**")
  }

  /** An opening line that, without leading whitespace, also ends with the closing delimiter. */
  predicate ClosesOnOpeningLine(line: string) {
    EndsWith(StripLeading(line), "*/")
  }

  /** A later line that ends the comment: its trim ends with the closing delimiter. */
  predicate ClosesComment(line: string) {
    EndsWith(Trim(line), "*/")
  }

  /**
   * The last line of the comment group that opens at line `i`: line `i` itself when it
   * closes there, else the first later line that closes it, else the number of lines.
   */
  function GroupLast(lines: seq<string>, i: nat): (e: nat)
    requires i < |lines|
    ensures i <= e <= |lines|
  {
    if ClosesOnOpeningLine(lines[i]) then i else DocComments.FirstWhere(lines, i + 1, ClosesComment)
  }

  /** Lines `i` to `e` joined by the line ending; when `e` is past the last line, the line ending follows. */
  function GroupJoin(lines: seq<string>, i: nat, e: nat, lineEnding: string): string
    requires i <= e <= |lines|
  {
    if e < |lines| then Join(lineEnding, lines[i..e + 1]) else Join(lineEnding, lines[i..]) + lineEnding
  }

  /** The text of the comment group that opens at line `i`. */
  function GroupText(lines: seq<string>, i: nat, lineEnding: string): string
    requires i < |lines|
  {
    GroupJoin(lines, i, GroupLast(lines, i), lineEnding)
  }

  /** The comment parsed and rendered again, its line feeds turned into the line ending. */
  function FixedComment(text: string, lineEnding: string, isName: string -> bool): string {
    Replace(DocComments.Render(DocComments.ParseComment(text, isName)), "\n", lineEnding)
  }

  /** The fixer parseLines applies to each comment group's text. */
  function Fixer(lineEnding: string, isName: string -> bool): string -> string {
    text => FixedComment(text, lineEnding, isName)
  }

  /**
   * FileParser.parseLines from line `i` on, for any fixer: a line that opens no comment
   * is kept as it is; a comment group is replaced by its fixed text, or by nothing when
   * that is empty.
   */
  function FixLinesFrom(lines: seq<string>, lineEnding: string, fix: string -> string, i: nat): seq<string>
    decreases |lines| - i
  {
    if i >= |lines| then []
    else if !OpensComment(lines[i]) then [lines[i]] + FixLinesFrom(lines, lineEnding, fix, i + 1)
    else
      var fixed := fix(GroupText(lines, i, lineEnding));
      (if fixed == [] then [] else [fixed]) + FixLinesFrom(lines, lineEnding, fix, GroupLast(lines, i) + 1)
  }

  /** FileParser.parseLines over the whole line list. */
  function ParseLinesSpec(lines: seq<string>, lineEnding: string, isName: string -> bool): seq<string> {
    FixLinesFrom(lines, lineEnding, Fixer(lineEnding, isName), 0)
  }

  /** One step of FixLinesFrom over a comment group. */
  lemma FixLinesFromGroup(lines: seq<string>, lineEnding: string, fix: string -> string, i: nat,
                           entry: seq<string>, next: nat)
    requires i < |lines| && OpensComment(lines[i]) && next == GroupLast(lines, i) + 1
    requires var fixed := fix(GroupText(lines, i, lineEnding)); entry == if fixed == [] then [] else [fixed]
    ensures FixLinesFrom(lines, lineEnding, fix, i) == entry + FixLinesFrom(lines, lineEnding, fix, next)
  {
    var fixed := fix(GroupText(lines, i, lineEnding));
    assert FixLinesFrom(lines, lineEnding, fix, i)
        == (if fixed == [] then [] else [fixed]) + FixLinesFrom(lines, lineEnding, fix, GroupLast(lines, i) + 1);
  }

  /** One step of FixLinesFrom over a line outside comments. */
  lemma FixLinesFromPlain(lines: seq<string>, lineEnding: string, fix: string -> string, i: nat,
                           entry: seq<string>, next: nat)
    requires i < |lines| && !OpensComment(lines[i]) && entry == [lines[i]] && next == i + 1
    ensures FixLinesFrom(lines, lineEnding, fix, i) == entry + FixLinesFrom(lines, lineEnding, fix, next)
  {
  }

  lemma Assoc<T>(a: seq<T>, b: seq<T>, c: seq<T>)
    ensures a + (b + c) == (a + b) + c
  {
  }

  /** From `r + a == w` and `a == b + c`, moving `b` over to `r`. */
  lemma AppendStep<T>(r: seq<T>, a: seq<T>, b: seq<T>, c: seq<T>, w: seq<T>)
    requires r + a == w && a == b + c
    ensures (r + b) + c == w
  {
  }

  lemma SliceCons<T>(s: seq<T>, i: nat, k: nat)
    requires i < k <= |s|
    ensures s[i..k] == [s[i]] + s[i + 1..k]
  {
  }

  lemma ConsStep<T>(a: seq<T>, x: T, b: seq<T>, c: seq<T>, d: seq<T>, e: seq<T>)
    requires a == [x] + b && b == c + d && e == [x] + c
    ensures a == e + d
  {
  }

  /**
   * The inner loop of parseLines, for any closing test: after an opening line `i` that
   * does not close, take in lines up to and including the first that closes.
   */
  method CollectComment(lines: seq<string>, i: nat, lineEnding: string, closes: string -> bool)
    returns (text: string, last: nat)
    requires i < |lines|
    ensures last == DocComments.FirstWhere(lines, i + 1, closes)
    ensures i + 1 <= last <= |lines| && text == GroupJoin(lines, i, last, lineEnding)
  {
    text := lines[i] + lineEnding;
    last := i + 1;
    assert lines[i..last] == [lines[i]];
    while last < |lines|
      invariant i + 1 <= last <= |lines|
      invariant DocComments.FirstWhere(lines, i + 1, closes) == DocComments.FirstWhere(lines, last, closes)
      invariant text == Join(lineEnding, lines[i..last]) + lineEnding
      decreases |lines| - last
    {
      var current := lines[last];
      text := text + current;
      assert lines[i..last + 1] == lines[i..last] + [current];
      JoinSnoc(lineEnding, lines[i..last], current);
      if closes(current) {
        return;
      }
      text := text + lineEnding;
      last := last + 1;
    }
    assert lines[i..last] == lines[i..];
  }

  /** The lines of the group that opens at line `i`, as parseLines collects them. */
  method CollectGroup(lines: seq<string>, i: nat, lineEnding: string) returns (javadoc: string, last: nat)
    requires i < |lines| && OpensComment(lines[i])
    ensures last == GroupLast(lines, i)
    ensures javadoc == GroupText(lines, i, lineEnding)
  {
    var trimmed := StripLeading(lines[i]);
    if !EndsWith(trimmed, "*/") {
      javadoc, last := CollectComment(lines, i, lineEnding, ClosesComment);
    } else {
      javadoc := lines[i];
      last := i;
      assert lines[i..i + 1] == [lines[i]];
    }
  }

  /**
   * One pass of the loop of parseLines at line `i`: the entry it adds (none for a
   * comment that renders to nothing) and the line after those it consumed.
   */
  method FixLinesStep(lines: seq<string>, lineEnding: string, fix: string -> string, i: nat)
    returns (entry: seq<string>, next: nat)
    requires i < |lines|
    ensures i < next <= |lines| + 1 && |entry| <= 1
    ensures FixLinesFrom(lines, lineEnding, fix, i) == entry + FixLinesFrom(lines, lineEnding, fix, next)
  {
    var line := lines[i];
    var trimmed := StripLeading(line);
    if StartsWith(trimmed, "/**") {
      var javadoc, last := CollectGroup(lines, i, lineEnding);
      var fixed := fix(javadoc);
      if fixed != [] {
        entry := [fixed];
      } else {
        entry := [];
      }
      next := last + 1;
      FixLinesFromGroup(lines, lineEnding, fix, i, entry, next);
    } else {
      entry := [line];
      next := i + 1;
      FixLinesFromPlain(lines, lineEnding, fix, i, entry, next);
    }
  }

  /** The loop of parseLines, for any fixer of comment groups. */
  method FixLines(lines: seq<string>, lineEnding: string, fix: string -> string) returns (result: seq<string>)
    ensures result == FixLinesFrom(lines, lineEnding, fix, 0)
  {
    result := [];
    var i := 0;
    while i < |lines|
      invariant i <= |lines| + 1
      invariant result + FixLinesFrom(lines, lineEnding, fix, i) == FixLinesFrom(lines, lineEnding, fix, 0)
      decreases |lines| + 1 - i
    {
      var entry, next := FixLinesStep(lines, lineEnding, fix, i);
      AppendStep(result, FixLinesFrom(lines, lineEnding, fix, i), entry,
        FixLinesFrom(lines, lineEnding, fix, next), FixLinesFrom(lines, lineEnding, fix, 0));
      result := result + entry;
      i := next;
    }
  }

  /**
   * FileParser.parseLines: each comment group goes through DocComment.parse and
   * toJava (as the functions DocComments.Parse and DocComments.ToJava are proved to
   * compute) and has its line feeds turned into the line ending.
   */
  method ParseLines(lines: seq<string>, lineEnding: string, isName: string -> bool) returns (result: seq<string>)
    ensures result == ParseLinesSpec(lines, lineEnding, isName)
  {
    result := FixLines(lines, lineEnding, Fixer(lineEnding, isName));
  }

  // ---------------------------------------------------------------------------
  // Properties of parseLines
  // ---------------------------------------------------------------------------

  /** Lines that open no comment are copied through unchanged, in order. */
  lemma {:induction false} FixLinesCopiesPlainLines(lines: seq<string>, lineEnding: string, fix: string -> string, i: nat, k: nat)
    requires i <= k <= |lines|
    requires forall j :: i <= j < k ==> !OpensComment(lines[j])
    ensures FixLinesFrom(lines, lineEnding, fix, i) == lines[i..k] + FixLinesFrom(lines, lineEnding, fix, k)
    decreases k - i
  {
    if i < k {
      FixLinesCopiesPlainLines(lines, lineEnding, fix, i + 1, k);
      assert !OpensComment(lines[i]);
      SliceCons(lines, i, k);
      ConsStep(FixLinesFrom(lines, lineEnding, fix, i), lines[i], FixLinesFrom(lines, lineEnding, fix, i + 1),
        lines[i + 1..k], FixLinesFrom(lines, lineEnding, fix, k), lines[i..k]);
    } else {
      assert lines[i..k] == [];
    }
  }

  /** A file in which no line opens a doc comment comes out of parseLines as it went in. */
  lemma ParseLinesWithoutComments(lines: seq<string>, lineEnding: string, isName: string -> bool)
    requires forall j :: 0 <= j < |lines| ==> !OpensComment(lines[j])
    ensures ParseLinesSpec(lines, lineEnding, isName) == lines
  {
    FixLinesCopiesPlainLines(lines, lineEnding, Fixer(lineEnding, isName), 0, |lines|);
  }

  /**
   * A doc comment that opens and closes on a line of its own is replaced by its fixed
   * text.
   */
  lemma FixOneLineComment(line: string, lineEnding: string, fix: string -> string)
    requires OpensComment(line) && ClosesOnOpeningLine(line)
    ensures FixLinesFrom([line], lineEnding, fix, 0) == if fix(line) == [] then [] else [fix(line)]
  {
    var lines := [line];
    assert lines[0..1] == lines;
    assert GroupText(lines, 0, lineEnding) == line;
  }

  /** parseLines never produces more lines than it was given: each group becomes at most one. */
  lemma {:induction false} FixLinesNoLonger(lines: seq<string>, lineEnding: string, fix: string -> string, i: nat)
    requires i <= |lines|
    ensures |FixLinesFrom(lines, lineEnding, fix, i)| <= |lines| - i
    decreases |lines| - i
  {
    if i < |lines| {
      if !OpensComment(lines[i]) {
        FixLinesNoLonger(lines, lineEnding, fix, i + 1);
      } else {
        var e := GroupLast(lines, i);
        if e < |lines| {
          FixLinesNoLonger(lines, lineEnding, fix, e + 1);
        }
      }
    }
  }

  /**
   * A character absent from every input line and from every fixed comment is absent
   * from every output line.
   */
  lemma {:induction false} FixLinesAvoid(lines: seq<string>, lineEnding: string, fix: string -> string, i: nat, c: char)
    requires forall j :: 0 <= j < |lines| ==> c !in lines[j]
    requires forall t :: c !in fix(t)
    ensures forall x :: x in FixLinesFrom(lines, lineEnding, fix, i) ==> c !in x
    decreases |lines| - i
  {
    if i < |lines| {
      if !OpensComment(lines[i]) {
        FixLinesAvoid(lines, lineEnding, fix, i + 1, c);
      } else {
        FixLinesAvoid(lines, lineEnding, fix, GroupLast(lines, i) + 1, c);
      }
    }
  }

  /**
   * What parseLines may put out for line `j`: the line itself when it opens no
   * comment, else the fixed text of the comment group it opens.
   */
  predicate EntryFor(lines: seq<string>, lineEnding: string, fix: string -> string, j: nat, x: string)
    requires j < |lines|
  {
    if OpensComment(lines[j]) then x == fix(GroupText(lines, j, lineEnding)) else x == lines[j]
  }

  /**
   * Every line parseLines puts out is an input line that opens no comment, given back
   * unchanged, or the fixed text of a comment group.
   */
  lemma {:induction false} FixLinesEntries(lines: seq<string>, lineEnding: string, fix: string -> string, i: nat)
    requires i <= |lines|
    ensures forall x :: x in FixLinesFrom(lines, lineEnding, fix, i) ==>
      exists j :: i <= j < |lines| && EntryFor(lines, lineEnding, fix, j, x)
    decreases |lines| - i
  {
    if i < |lines| {
      var next := if OpensComment(lines[i]) then GroupLast(lines, i) + 1 else i + 1;
      if next <= |lines| {
        FixLinesEntries(lines, lineEnding, fix, next);
      }
      forall x | x in FixLinesFrom(lines, lineEnding, fix, i)
        ensures exists j :: i <= j < |lines| && EntryFor(lines, lineEnding, fix, j, x)
      {
        if x !in FixLinesFrom(lines, lineEnding, fix, next) {
          assert EntryFor(lines, lineEnding, fix, i, x);
        }
      }
    }
  }

  /**
   * The lines of one whole comment: the first opens it; it closes on that line and is
   * alone, or it runs to a later line that is the first to close it.
   */
  predicate CompleteGroup(group: seq<string>) {
    group != [] && OpensComment(group[0])
    && (if ClosesOnOpeningLine(group[0]) then |group| == 1
        else |group| >= 2 && ClosesComment(group[|group| - 1])
             && forall k :: 0 < k < |group| - 1 ==> !ClosesComment(group[k]))
  }

  /** The first line after `i` that closes a comment is the one at `m` when none between does. */
  lemma ClosingLineAt(lines: seq<string>, i: nat, m: nat)
    requires i < m < |lines| && ClosesComment(lines[m])
    requires forall k :: i < k < m ==> !ClosesComment(lines[k])
    ensures DocComments.FirstWhere(lines, i + 1, ClosesComment) == m
  {
    DocComments.FirstWhereIsFirst(lines, i + 1, ClosesComment);
  }

  /** A whole comment at `i`, stated line by line on the file's lines. */
  lemma CompleteGroupLines(lines: seq<string>, i: nat, n: nat)
    requires i + n <= |lines| && CompleteGroup(lines[i..i + n])
    ensures n >= 1 && OpensComment(lines[i])
    ensures ClosesOnOpeningLine(lines[i]) ==> n == 1
    ensures !ClosesOnOpeningLine(lines[i]) ==>
      n >= 2 && ClosesComment(lines[i + n - 1]) && forall k :: i < k < i + n - 1 ==> !ClosesComment(lines[k])
  {
    var group := lines[i..i + n];
    assert group[0] == lines[i] && group[n - 1] == lines[i + n - 1];
    forall k | i < k < i + n - 1
      ensures !ClosesComment(lines[k]) || ClosesOnOpeningLine(lines[i])
    {
      assert group[k - i] == lines[k];
    }
  }

  /** The group parseLines collects at an opening line `i` whose last line is `e`. */
  lemma GroupTextTo(lines: seq<string>, i: nat, e: nat, lineEnding: string)
    requires i <= e < |lines| && GroupLast(lines, i) == e
    ensures GroupText(lines, i, lineEnding) == Join(lineEnding, lines[i..e + 1])
  {
  }

  /** A whole comment found at line `i` is the group parseLines collects there. */
  lemma GroupAt(lines: seq<string>, i: nat, n: nat)
    requires i + n <= |lines| && CompleteGroup(lines[i..i + n])
    ensures OpensComment(lines[i]) && GroupLast(lines, i) == i + n - 1
  {
    CompleteGroupLines(lines, i, n);
    if !ClosesOnOpeningLine(lines[i]) {
      ClosingLineAt(lines, i, i + n - 1);
    }
  }

  /** Lines before `p` that open no comment are copied to the front of the output. */
  lemma FixLinesPrefix(lines: seq<string>, lineEnding: string, fix: string -> string, p: nat)
    requires p <= |lines|
    requires forall k :: 0 <= k < p ==> !OpensComment(lines[k])
    ensures FixLinesFrom(lines, lineEnding, fix, 0) == lines[..p] + FixLinesFrom(lines, lineEnding, fix, p)
  {
    FixLinesCopiesPlainLines(lines, lineEnding, fix, 0, p);
    assert lines[0..p] == lines[..p];
  }

  /** Lines from `e` on that open no comment are the rest of the output, unchanged. */
  lemma FixLinesSuffix(lines: seq<string>, lineEnding: string, fix: string -> string, e: nat)
    requires e <= |lines|
    requires forall k :: e <= k < |lines| ==> !OpensComment(lines[k])
    ensures FixLinesFrom(lines, lineEnding, fix, e) == lines[e..]
  {
    FixLinesCopiesPlainLines(lines, lineEnding, fix, e, |lines|);
    assert FixLinesFrom(lines, lineEnding, fix, |lines|) == [];
    assert lines[e..|lines|] == lines[e..];
  }

  /** parseLines over lines that open no comment except for the group at `p`, which ends at `e`. */
  lemma FixLinesAroundGroupAt(lines: seq<string>, p: nat, e: nat, lineEnding: string, fix: string -> string,
                              entry: seq<string>)
    requires p < e <= |lines| && OpensComment(lines[p]) && GroupLast(lines, p) + 1 == e
    requires forall k :: 0 <= k < p ==> !OpensComment(lines[k])
    requires forall k :: e <= k < |lines| ==> !OpensComment(lines[k])
    requires var fixed := fix(GroupText(lines, p, lineEnding)); entry == if fixed == [] then [] else [fixed]
    ensures FixLinesFrom(lines, lineEnding, fix, 0) == lines[..p] + entry + lines[e..]
  {
    FixLinesPrefix(lines, lineEnding, fix, p);
    FixLinesFromGroup(lines, lineEnding, fix, p, entry, e);
    FixLinesSuffix(lines, lineEnding, fix, e);
  }

  /**
   * Lines that open no comment before and after one whole comment come out of
   * parseLines unchanged, around the comment's fixed text (or nothing, when that is
   * empty).
   */
  lemma FixLinesAroundGroup(pre: seq<string>, group: seq<string>, post: seq<string>,
                            lineEnding: string, fix: string -> string)
    requires CompleteGroup(group)
    requires forall k :: 0 <= k < |pre| ==> !OpensComment(pre[k])
    requires forall k :: 0 <= k < |post| ==> !OpensComment(post[k])
    ensures var fixed := fix(Join(lineEnding, group));
      FixLinesFrom(pre + group + post, lineEnding, fix, 0)
      == pre + (if fixed == [] then [] else [fixed]) + post
  {
    var lines := pre + group + post;
    var p := |pre|;
    var e := p + |group|;
    assert lines[..p] == pre && lines[p..e] == group && lines[e..] == post;
    forall k | 0 <= k < p
      ensures !OpensComment(lines[k])
    {
      assert lines[k] == pre[k];
    }
    forall k | e <= k < |lines|
      ensures !OpensComment(lines[k])
    {
      assert lines[k] == post[k - e];
    }
    GroupAt(lines, p, |group|);
    GroupTextTo(lines, p, e - 1, lineEnding);
    var fixed := fix(Join(lineEnding, group));
    FixLinesAroundGroupAt(lines, p, e, lineEnding, fix, if fixed == [] then [] else [fixed]);
  }

  /** Replacing every line feed by a text without one leaves no line feed. */
  lemma {:induction false} ReplaceRemovesNewlines(s: string, replacement: string)
    requires '\n' !in replacement
    ensures '\n' !in Replace(s, "\n", replacement)
    decreases |s|
  {
    if |s| >= 1 {
      if IsAt(s, "\n", 0) {
        ReplaceRemovesNewlines(s[1..], replacement);
      } else {
        assert s[..1] == [s[0]];
        ReplaceRemovesNewlines(s[1..], replacement);
      }
    }
  }

  /** With a line ending that has no line feed, parseLines leaves no line feed in any line it gives back. */
  lemma ParseLinesNoNewline(lines: seq<string>, lineEnding: string, isName: string -> bool)
    requires '\n' !in lineEnding
    requires forall j :: 0 <= j < |lines| ==> '\n' !in lines[j]
    ensures forall x :: x in ParseLinesSpec(lines, lineEnding, isName) ==> '\n' !in x
  {
    var fix := Fixer(lineEnding, isName);
    forall t
      ensures '\n' !in fix(t)
    {
      ReplaceRemovesNewlines(DocComments.Render(DocComments.ParseComment(t, isName)), lineEnding);
    }
    FixLinesAvoid(lines, lineEnding, fix, 0, '\n');
  }

  /** A group that does not close on its opening line runs to the first later line that closes it. */
  lemma GroupRunsToClosingLine(lines: seq<string>, i: nat, lineEnding: string)
    requires i < |lines| && OpensComment(lines[i]) && !ClosesOnOpeningLine(lines[i])
    ensures var e := GroupLast(lines, i);
      i < e && (forall j :: i < j < e ==> !ClosesComment(lines[j])) && (e < |lines| ==> ClosesComment(lines[e]))
  {
    DocComments.FirstWhereIsFirst(lines, i + 1, ClosesComment);
  }

  // ---------------------------------------------------------------------------
  // findNextJavadocStart
  // ---------------------------------------------------------------------------

  /** The start of the line holding position `j`: just after the last line feed before it. */
  function LineStart(s: string, j: nat): (k: nat)
    requires j <= |s|
    ensures k <= j
    decreases j
  {
    if j == 0 || s[j - 1] == '\n' then j else LineStart(s, j - 1)
  }

  /** The line starts after a line feed, or at the start of the text, and holds none before `j`. */
  lemma {:induction false} LineStartIsStart(s: string, j: nat)
    requires j <= |s|
    ensures var k := LineStart(s, j);
      (k == 0 || s[k - 1] == '\n') && forall m :: k <= m < j ==> s[m] != '\n'
    decreases j
  {
    if j > 0 && s[j - 1] != '\n' {
      LineStartIsStart(s, j - 1);
    }
  }

  /** A `//` stands between the start of the line and position `j`. */
  predicate CommentedOut(s: string, j: nat)
    requires j <= |s|
  {
    Contains(s[LineStart(s, j)..j], "//")
  }

  /** The first opening delimiter at or after `index` that is not commented out, or -1. */
  function NextJavadocStart(s: string, index: nat): (r: int)
    ensures r == -1 || (index <= r && r + 3 <= |s|)
    decreases |s| - index
  {
    if index >= |s| then -1
    else
      var js := IndexOf(s, "/**", index);
      if js == -1 then -1
      else if CommentedOut(s, js) then NextJavadocStart(s, js + 3)
      else js
  }

  /** The backward scan of findNextJavadocStart. */
  method FindLineStart(s: string, j: nat) returns (k: nat)
    requires j <= |s|
    ensures k == LineStart(s, j)
  {
    k := j;
    while k > 0 && s[k - 1] != '\n'
      invariant k <= j && LineStart(s, k) == LineStart(s, j)
    {
      k := k - 1;
    }
  }

  /** FileParser.findNextJavadocStart. */
  method FindNextJavadocStart(s: string, startIndex: nat) returns (r: int)
    ensures r == NextJavadocStart(s, startIndex)
  {
    var index := startIndex;
    while index < |s|
      invariant NextJavadocStart(s, index) == NextJavadocStart(s, startIndex)
      decreases |s| - index
    {
      var javadocStart := IndexOf(s, "/**", index);
      if javadocStart == -1 {
        return -1;
      }
      var lineStart := FindLineStart(s, javadocStart);
      var linePrefix := s[lineStart..javadocStart];
      if Contains(linePrefix, "//") {
        index := javadocStart + 3;
        continue;
      }
      return javadocStart;
    }
    return -1;
  }

  /** Two occurrences of the opening delimiter never overlap. */
  lemma OpenersApart(s: string, j: nat, k: nat)
    requires IsAt(s, "/**", j) && IsAt(s, "/**", k) && j < k
    ensures j + 3 <= k
  {
    assert s[k] == s[k..k + 3][0] == '/';
    assert s[j + 1] == s[j..j + 3][1] == '*';
    assert s[j + 2] == s[j..j + 3][2] == '*';
  }

  /** The openers that one step of findNextJavadocStart passes over: all before `js`, and `js` itself. */
  lemma SkippedOpeners(s: string, index: nat, js: nat, k: nat)
    requires js == IndexOf(s, "/**", index) && CommentedOut(s, js)
    requires index <= k < js + 3 && IsAt(s, "/**", k)
    ensures CommentedOut(s, k)
  {
    if k > js {
      OpenersApart(s, js, k);
    }
  }

  /**
   * What findNextJavadocStart finds: -1 or an opening delimiter at or after `index`
   * with no `//` earlier on its line; every opening delimiter it passes over is
   * commented out.
   */
  lemma {:induction false} NextJavadocStartIsNext(s: string, index: nat)
    ensures var r := NextJavadocStart(s, index);
      r == -1 || (index <= r && IsAt(s, "/**", r) && !CommentedOut(s, r))
    ensures var r := NextJavadocStart(s, index);
      forall k :: index <= k && (r == -1 || k < r) && IsAt(s, "/**", k) ==> CommentedOut(s, k)
    decreases |s| - index
  {
    if index < |s| {
      var js := IndexOf(s, "/**", index);
      if js == -1 {
        assert NextJavadocStart(s, index) == -1;
      } else if CommentedOut(s, js) {
        assert NextJavadocStart(s, index) == NextJavadocStart(s, js + 3);
        NextJavadocStartIsNext(s, js + 3);
        SkippedOpenersAll(s, index, js);
      } else {
        assert NextJavadocStart(s, index) == js;
      }
    }
  }

  /** Every opener from `index` up to a commented-out `js` found by the search is commented out. */
  lemma SkippedOpenersAll(s: string, index: nat, js: nat)
    requires js == IndexOf(s, "/**", index) && CommentedOut(s, js)
    ensures forall k :: index <= k < js + 3 && IsAt(s, "/**", k) ==> CommentedOut(s, k)
  {
    forall k | index <= k < js + 3 && IsAt(s, "/**", k)
      ensures CommentedOut(s, k)
    {
      SkippedOpeners(s, index, js, k);
    }
  }

  // ---------------------------------------------------------------------------
  // Non-comment chunks
  // ---------------------------------------------------------------------------

  /** FileParser.removeOneLeadingTrailingNewline. */
  function RemoveOneLeadingTrailingNewline(text: string): (r: string)
    ensures |r| <= |text|
  {
    if text == [] then text
    else
      var a := if StartsWith(text, "\n") then text[1..] else text;
      if EndsWith(a, "\n") then a[..|a| - 1] else a
  }

  /**
   * At most one line feed goes from each end and nothing else changes: the result is the
   * text less a leading and a trailing line feed, exactly those that are there.
   */
  lemma RemoveOneLeadingTrailingNewlineCuts(text: string)
    ensures var r := RemoveOneLeadingTrailingNewline(text);
      var lead := if text != [] && text[0] == '\n' then 1 else 0;
      var trail := if |text| > lead && text[|text| - 1] == '\n' then 1 else 0;
      r == text[lead..|text| - trail]
  {
    if text != [] {
      StartsWithChar(text, '\n');
      var a := if StartsWith(text, "\n") then text[1..] else text;
      EndsWithChar(a, '\n');
    }
  }

  /**
   * The chunks addNonJavadocChunk appends for one run of non-comment text, with
   * applyChunkFixes given as `fixes`.
   */
  function NonJavadocChunks(chunk: string, fixes: string -> string): seq<string>
    decreases |chunk|
  {
    var processed := RemoveOneLeadingTrailingNewline(chunk);
    if processed == [] then []
    else
      var d := IndexOf(processed, "\n\n", 0);
      if d >= 0 then
        var before := processed[..d];
        var after := processed[d + 2..];
        (if before == [] then [] else [before]) + [""] + (if after == [] then [] else NonJavadocChunks(after, fixes))
      else RunTail(chunk, processed, fixes)
  }

  /**
   * The chunks of a run that holds no blank line: one line feed left at the end is cut
   * off as an empty chunk; otherwise the run goes through `fixes`, and an empty chunk
   * follows when that took away a closing brace or more than three characters, or
   * anything at all from a run that ended with a line feed.
   */
  function RunTail(chunk: string, processed: string, fixes: string -> string): seq<string> {
    if EndsWith(processed, "\n") then
      var content := processed[..|processed| - 1];
      (if content == [] then [] else [content]) + [""]
    else
      var fixed := fixes(processed);
      var removedTrailingBrace := EndsWith(processed, "}") && !EndsWith(fixed, "}");
      var removedSignificantContent := |fixed| < |processed| - 3;
      if removedTrailingBrace || removedSignificantContent || (EndsWith(chunk, "\n") && |fixed| < |processed|) then
        [fixed, ""]
      else
        [fixed]
  }

  /** One line feed left at the end of a run without blank lines is cut off as an empty chunk. */
  lemma RunTailNewline(chunk: string, processed: string, fixes: string -> string)
    requires EndsWith(processed, "\n")
    ensures var content := processed[..|processed| - 1];
      RunTail(chunk, processed, fixes) == (if content == [] then [] else [content]) + [""]
  {
  }

  /** Otherwise the run goes through `fixes`, perhaps followed by an empty chunk. */
  lemma RunTailFixed(chunk: string, processed: string, fixes: string -> string, fixed: string, extra: bool)
    requires !EndsWith(processed, "\n") && fixed == fixes(processed)
    requires extra == ((EndsWith(processed, "}") && !EndsWith(fixed, "}")) || |fixed| < |processed| - 3
      || (EndsWith(chunk, "\n") && |fixed| < |processed|))
    ensures RunTail(chunk, processed, fixes) == if extra then [fixed, ""] else [fixed]
  {
  }

  /** A run without a blank line adds what RunTail gives. */
  lemma NonJavadocChunksTail(chunk: string, fixes: string -> string)
    requires RemoveOneLeadingTrailingNewline(chunk) != []
    requires IndexOf(RemoveOneLeadingTrailingNewline(chunk), "\n\n", 0) < 0
    ensures NonJavadocChunks(chunk, fixes) == RunTail(chunk, RemoveOneLeadingTrailingNewline(chunk), fixes)
  {
  }

  /** A run with a blank line adds the text before it, an empty chunk, and the chunks of the rest. */
  lemma NonJavadocChunksBlank(chunk: string, fixes: string -> string, d: nat)
    requires d == IndexOf(RemoveOneLeadingTrailingNewline(chunk), "\n\n", 0)
    ensures var processed := RemoveOneLeadingTrailingNewline(chunk);
      var before := processed[..d];
      var after := processed[d + 2..];
      NonJavadocChunks(chunk, fixes)
      == (if before == [] then [] else [before]) + [""] + (if after == [] then [] else NonJavadocChunks(after, fixes))
  {
  }

  /** FileParser.addNonJavadocChunk: appends the chunks of one run to the list. */
  method AddNonJavadocChunk(chunk: string, chunks: seq<string>, fixes: string -> string) returns (out: seq<string>)
    ensures out == chunks + NonJavadocChunks(chunk, fixes)
    decreases |chunk|
  {
    out := chunks;
    var processed := RemoveOneLeadingTrailingNewline(chunk);
    if processed == [] {
      assert out == chunks + [];
      return;
    }
    var doubleNewline := IndexOf(processed, "\n\n", 0);
    if doubleNewline >= 0 {
      var before := processed[..doubleNewline];
      var after := processed[doubleNewline + 2..];
      NonJavadocChunksBlank(chunk, fixes, doubleNewline);
      ghost var head := (if before == [] then [] else [before]) + [""];
      if before != [] {
        out := out + [before];
      }
      out := out + [""];
      assert out == chunks + head;
      if after != [] {
        out := AddNonJavadocChunk(after, out, fixes);
        Assoc(chunks, head, NonJavadocChunks(after, fixes));
      } else {
        assert head + [] == head;
      }
    } else {
      NonJavadocChunksTail(chunk, fixes);
      if EndsWith(processed, "\n") {
        var content := processed[..|processed| - 1];
        RunTailNewline(chunk, processed, fixes);
        if content != [] {
          out := out + [content];
        }
        out := out + [""];
      } else {
        var fixed := fixes(processed);
        var removedTrailingBrace := EndsWith(processed, "}") && !EndsWith(fixed, "}");
        var removedSignificantContent := |fixed| < |processed| - 3;
        var extra := removedTrailingBrace || removedSignificantContent || (EndsWith(chunk, "\n") && |fixed| < |processed|);
        RunTailFixed(chunk, processed, fixes, fixed, extra);
        if extra {
          out := out + [fixed, ""];
        } else {
          out := out + [fixed];
        }
      }
    }
  }

  /** A run adds nothing exactly when it is empty once one line feed is off each end. */
  lemma NonJavadocChunksEmptyIff(chunk: string, fixes: string -> string)
    ensures NonJavadocChunks(chunk, fixes) == [] <==> RemoveOneLeadingTrailingNewline(chunk) == []
  {
  }

  /**
   * A run holding a blank line is cut at its first one: the text before it (when there
   * is any, and it holds no blank line) and then an empty chunk for the blank line.
   */
  lemma NonJavadocChunksSplitAtBlankLine(chunk: string, fixes: string -> string)
    requires Contains(RemoveOneLeadingTrailingNewline(chunk), "\n\n")
    ensures var processed := RemoveOneLeadingTrailingNewline(chunk);
      var d := IndexOf(processed, "\n\n", 0);
      var r := NonJavadocChunks(chunk, fixes);
      0 <= d && !Contains(processed[..d], "\n\n")
      && (d == 0 ==> r[0] == "")
      && (d > 0 ==> r[0] == processed[..d] && r[1] == "")
  {
    var processed := RemoveOneLeadingTrailingNewline(chunk);
    ContainsIndexOf(processed, "\n\n");
    var d := IndexOf(processed, "\n\n", 0);
    if Contains(processed[..d], "\n\n") {
      var k :| 0 <= k <= d && IsAt(processed[..d], "\n\n", k);
      assert processed[..d][k..k + 2] == processed[k..k + 2];
      assert IsAt(processed, "\n\n", k);
      assert false;
    }
  }

  // ---------------------------------------------------------------------------
  // extractChunks
  // ---------------------------------------------------------------------------

  /** Chunks found so far in front of the outcome of the rest of the scan. */
  function Prepend(prefix: seq<string>, r: Result<seq<string>, nat>): Result<seq<string>, nat> {
    match r
    case Success(v) => Success(prefix + v)
    case Failure(e) => Failure(e)
  }

  /**
   * The scan of extractChunks from `index` on: the failure carries the position of an
   * opening delimiter that is never closed.
   */
  function ChunksFrom(s: string, index: nat, fixes: string -> string): Result<seq<string>, nat>
    decreases |s| - index
  {
    if index >= |s| then Success([])
    else
      var js := NextJavadocStart(s, index);
      if js == -1 then Success(NonJavadocChunks(s[index..], fixes))
      else
        var before := if js > index then NonJavadocChunks(s[index..js], fixes) else [];
        var je := IndexOf(s, "*/", js);
        if je == -1 then Failure(js)
        else Prepend(before + [s[js..je + 2]], ChunksFrom(s, je + 2, fixes))
  }

  /** FileParser.extractChunks on the text the reader delivers. */
  function ExtractChunksSpec(s: string, fixes: string -> string): Result<seq<string>, nat> {
    if s == [] then Success([]) else ChunksFrom(s, 0, fixes)
  }

  /** Chunks put in front in two steps are put in front at once. */
  lemma PrependTwice(a: seq<string>, b: seq<string>, r: Result<seq<string>, nat>)
    ensures Prepend(a, Prepend(b, r)) == Prepend(a + b, r)
  {
    if r.Success? {
      assert a + (b + r.value) == (a + b) + r.value;
    }
  }

  /** The scan at `index` when no opening delimiter is left: the rest is one run. */
  lemma ChunksFromLastRun(s: string, index: nat, fixes: string -> string)
    requires index < |s| && NextJavadocStart(s, index) == -1
    ensures ChunksFrom(s, index, fixes) == Success(NonJavadocChunks(s[index..], fixes))
  {
  }

  /** The scan at `index` when the next opening delimiter is never closed. */
  lemma ChunksFromUnclosed(s: string, index: nat, js: nat, fixes: string -> string)
    requires index < |s| && NextJavadocStart(s, index) == js && IndexOf(s, "*/", js) == -1
    ensures ChunksFrom(s, index, fixes) == Failure(js)
  {
  }

  /** The scan at `index` when the next opening delimiter `js` is closed at `je`. */
  lemma ChunksFromComment(s: string, index: nat, js: nat, je: nat, fixes: string -> string)
    requires index < |s| && NextJavadocStart(s, index) == js && IndexOf(s, "*/", js) == je
    ensures ChunksFrom(s, index, fixes)
      == Prepend((if js > index then NonJavadocChunks(s[index..js], fixes) else []) + [s[js..je + 2]],
                 ChunksFrom(s, je + 2, fixes))
  {
    assert IsAt(s, "*/", je);
    var before := if js > index then NonJavadocChunks(s[index..js], fixes) else [];
    var rest := ChunksFrom(s, je + 2, fixes);
    assert ChunksFrom(s, index, fixes) == Prepend(before + [s[js..je + 2]], rest);
  }

  /**
   * One closed comment further on: the chunks found so far, the run before the comment
   * and the comment itself, in front of the scan after its closer.
   */
  lemma ChunksFromCommentStep(s: string, index: nat, js: nat, je: nat, fixes: string -> string,
                              chunks: seq<string>, out: seq<string>, next: nat)
    requires index < |s| && NextJavadocStart(s, index) == js && IndexOf(s, "*/", js) == je && next == je + 2
    requires out == chunks + (if js > index then NonJavadocChunks(s[index..js], fixes) else []) + [s[js..je + 2]]
    ensures index < next <= |s|
    ensures Prepend(chunks, ChunksFrom(s, index, fixes)) == Prepend(out, ChunksFrom(s, next, fixes))
  {
    ChunksFromComment(s, index, js, je, fixes);
    var added := (if js > index then NonJavadocChunks(s[index..js], fixes) else []) + [s[js..je + 2]];
    assert out == chunks + added;
    PrependTwice(chunks, added, ChunksFrom(s, next, fixes));
  }

  /** Nothing in front leaves the outcome as it is; in front of an empty success, the chunks alone. */
  lemma PrependEmpty(chunks: seq<string>, r: Result<seq<string>, nat>)
    ensures Prepend([], r) == r
    ensures Prepend(chunks, Success([])) == Success(chunks)
  {
    if r.Success? {
      assert [] + r.value == r.value;
    }
    assert chunks + [] == chunks;
  }

  /** How one pass of the loop of extractChunks ends: the scan is over, it failed, or it goes on. */
  datatype ScanStep = Done | Unclosed(position: nat) | Continue(index: nat)

  /**
   * One pass of the loop of extractChunks at `index`, appending to `chunks`: the run
   * before the next opening delimiter, then the comment up to its closer.
   */
  method ExtractStep(sourceText: string, index: nat, chunks: seq<string>, fixes: string -> string)
    returns (out: seq<string>, step: ScanStep)
    requires index < |sourceText|
    ensures step.Done? ==> Prepend(chunks, ChunksFrom(sourceText, index, fixes)) == Success(out)
    ensures step.Unclosed? ==> ChunksFrom(sourceText, index, fixes) == Failure(step.position)
    ensures step.Continue? ==> (index < step.index <= |sourceText|
      && Prepend(chunks, ChunksFrom(sourceText, index, fixes)) == Prepend(out, ChunksFrom(sourceText, step.index, fixes)))
  {
    var javadocStart := FindNextJavadocStart(sourceText, index);
    if javadocStart == -1 {
      ChunksFromLastRun(sourceText, index, fixes);
      var remaining := sourceText[index..];
      out := AddNonJavadocChunk(remaining, chunks, fixes);
      return out, Done;
    }
    out := chunks;
    if javadocStart > index {
      var beforeJavadoc := sourceText[index..javadocStart];
      out := AddNonJavadocChunk(beforeJavadoc, out, fixes);
    }
    var javadocEnd := IndexOf(sourceText, "*/", javadocStart);
    if javadocEnd == -1 {
      ChunksFromUnclosed(sourceText, index, javadocStart, fixes);
      return out, Unclosed(javadocStart);
    }
    out := out + [sourceText[javadocStart..javadocEnd + 2]];
    step := Continue(javadocEnd + 2);
    ChunksFromCommentStep(sourceText, index, javadocStart, javadocEnd, fixes, chunks, out, step.index);
  }

  /** FileParser.extractChunks. */
  method ExtractChunks(sourceText: string, fixes: string -> string) returns (r: Result<seq<string>, nat>)
    ensures r == ExtractChunksSpec(sourceText, fixes)
  {
    if |sourceText| == 0 {
      return Success([]);
    }
    var chunks := [];
    var index := 0;
    PrependEmpty(chunks, ChunksFrom(sourceText, 0, fixes));
    while index < |sourceText|
      invariant index <= |sourceText|
      invariant ChunksFrom(sourceText, 0, fixes) == Prepend(chunks, ChunksFrom(sourceText, index, fixes))
      decreases |sourceText| - index
    {
      var step;
      chunks, step := ExtractStep(sourceText, index, chunks, fixes);
      match step
      case Done =>
        return Success(chunks);
      case Unclosed(position) =>
        return Failure(position);
      case Continue(next) =>
        index := next;
    }
    PrependEmpty(chunks, ChunksFrom(sourceText, index, fixes));
    return Success(chunks);
  }
}
