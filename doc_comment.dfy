/**
 * Doc comments (DocComment and its subclass SingleLineComment): parsing the raw text of
 * a `/** ... */` comment into a description and block tags, the constructor's
 * normalisation of the description, and rendering back to canonical Javadoc text.
 */
module DocComments {
  import opened JavaText
  import opened Wrappers
  import Strings
  import opened BlockTags
  import TagSort

  /**
   * A parsed comment: a DocComment with its description, sorted tags and indentation,
   * or a SingleLineComment, whose tag list is always empty.
   */
  datatype Comment =
    | DocComment(description: string, tags: seq<BlockTag>, indent: string)
    | SingleLineComment(description: string, indent: string)

  /** DocComment.getBlockTags. */
  function TagsOf(c: Comment): seq<BlockTag> {
    match c
    case DocComment(_, tags, _) => tags
    case SingleLineComment(_, _) => []
  }

  // ---------------------------------------------------------------------------
  // The constructor: normalising the description
  // ---------------------------------------------------------------------------

  /** The description with its first character upper-cased. */
  function Capitalized(d: string): (r: string)
    requires d != []
    ensures |r| == |d| && r[1..] == d[1..]
  {
    [ToUpper(d[0])] + d[1..]
  }

  /**
   * The constructor as written: a description that is not blank is capitalised and
   * trimmed, and gains a period when it then ends with a letter or digit and not with a
   * URL.  `None` stands for the StringIndexOutOfBoundsException of `charAt(-1)` when
   * nothing is left after trimming.
   */
  function NormalizeDescriptionAsWritten(d: string): Option<string> {
    if IsBlank(d) then Some(d)
    else
      var t := Trim(Capitalized(d));
      if t == [] then None
      else if IsLetterOrDigit(t[|t| - 1]) && !Strings.UrlAtEnd(t) then Some(t + ".")
      else Some(t)
  }

  /** The corrected constructor: a description that trims to nothing is stored empty. */
  function NormalizeDescription(d: string): string {
    if IsBlank(d) then d
    else
      var t := Trim(Capitalized(d));
      if t != [] && IsLetterOrDigit(t[|t| - 1]) && !Strings.UrlAtEnd(t) then t + "." else t
  }

  /** A control character other than whitespace is not blank, yet trims away: the source throws. */
  lemma ControlCharacterDescriptionThrows()
    ensures !IsBlank("\U{1}") && NormalizeDescriptionAsWritten("\U{1}") == None
  {
    assert !IsWhitespace("\U{1}"[0]);
  }

  /**
   * The constructor as written fails exactly on descriptions that are not blank but hold
   * only characters up to U+0020, and elsewhere agrees with the corrected one.
   */
  lemma NormalizeDescriptionAgrees(d: string)
    ensures NormalizeDescriptionAsWritten(d).None?
            <==> (!IsBlank(d) && forall i :: 0 <= i < |d| ==> IsTrimmable(d[i]))
    ensures NormalizeDescriptionAsWritten(d).Some?
            ==> NormalizeDescriptionAsWritten(d).value == NormalizeDescription(d)
  {
    if !IsBlank(d) {
      var c := Capitalized(d);
      TrimEmptyIff(c);
      assert IsTrimmable(c[0]) <==> IsTrimmable(d[0]);
      assert forall i :: 1 <= i < |d| ==> c[i] == d[i];
    }
  }

  /**
   * What the constructor does with a description: a blank one is kept; any other one is
   * capitalised and trimmed, and gains a period exactly when it then ends with a letter
   * or digit and does not end with a URL.
   */
  lemma NormalizeDescriptionCases(d: string)
    ensures IsBlank(d) ==> NormalizeDescription(d) == d
    ensures !IsBlank(d) ==>
      var t := Trim(Capitalized(d));
      (NormalizeDescription(d) == t + "."
       <==> (t != [] && IsLetterOrDigit(t[|t| - 1]) && !Strings.UrlAtEnd(t)))
      && (NormalizeDescription(d) == t || NormalizeDescription(d) == t + ".")
  {
    if !IsBlank(d) {
      var t := Trim(Capitalized(d));
      assert |t + "."| != |t|;
    }
  }

  /** When the description starts with a visible character, that character comes out upper-cased. */
  lemma NormalizeDescriptionCapitalizes(d: string)
    requires d != [] && !IsTrimmable(d[0])
    ensures var r := NormalizeDescription(d);
      r != [] && r[0] == ToUpper(d[0]) && !IsLower(r[0])
  {
    assert !IsWhitespace(d[0]);
    var c := Capitalized(d);
    assert !IsTrimmable(c[0]);
    assert TrimStart(c) == c;
    TrimEndPrefix(c);
  }

  /**
   * A description that starts with a visible character that is not lower case, ends with
   * a visible character, and needs no period is left alone by the constructor.
   */
  lemma NormalizedIsFixed(r: string)
    requires r != [] && !IsLower(r[0]) && !IsTrimmable(r[0]) && !IsTrimmable(r[|r| - 1])
    requires !IsLetterOrDigit(r[|r| - 1]) || Strings.UrlAtEnd(r)
    ensures NormalizeDescription(r) == r
  {
    assert !IsBlank(r) by {
      assert !IsWhitespace(r[0]);
    }
    var c := Capitalized(r);
    assert c == r;
    TrimNoop(r);
  }

  /** Normalising twice changes nothing more, for a description that starts with a visible character. */
  lemma NormalizeDescriptionIdempotent(d: string)
    requires d == [] || !IsTrimmable(d[0])
    ensures NormalizeDescription(NormalizeDescription(d)) == NormalizeDescription(d)
  {
    if d != [] && !IsBlank(d) {
      var t := Trim(Capitalized(d));
      NormalizeDescriptionCapitalizes(d);
      NormalizeDescriptionCases(d);
      var r := NormalizeDescription(d);
      if r == t + "." {
        assert r[|r| - 1] == '.';
      }
      NormalizedIsFixed(r);
    }
  }

  /**
   * Without a visible first character normalising is not idempotent, as written or
   * corrected: the first character is upper-cased before the trim, so a leading space
   * takes the capital and the word after it is capitalised only on a second pass.
   */
  lemma NormalizeDescriptionNotIdempotent()
    ensures NormalizeDescriptionAsWritten(" a") == Some("a.") && NormalizeDescription(" a") == "a."
    ensures NormalizeDescriptionAsWritten("a.") == Some("A.") && NormalizeDescription("a.") == "A."
  {
    var d := " a";
    assert !IsBlank(d) by {
      assert d[1] == 'a';
    }
    assert Capitalized(d) == d;
    assert Trim(d) == "a" by {
      assert IsTrimmable(d[0]);
      TrimNoop("a");
    }
    assert !Strings.UrlAtEnd("a") by {
      Strings.LastTokenOfToken("a");
    }
    assert IsLetterOrDigit('a');
    assert NormalizeDescription(d) == "a" + ".";
    assert NormalizeDescriptionAsWritten(d) == Some("a" + ".");
    assert "a" + "." == "a.";
    var e := "a.";
    assert !IsBlank(e) by {
      assert e[0] == 'a';
    }
    assert Capitalized(e) == "A.";
    TrimNoop("A.");
  }

  /** DocComment's constructor, with the normalisation carried out step by step. */
  method NormalizeDescriptionStep(description: string) returns (d: string)
    ensures d == NormalizeDescription(description)
  {
    d := description;
    if !IsBlank(d) {
      var first := d[0];
      d := Trim([ToUpper(first)] + d[1..]);
      if d != [] {
        var url := Strings.EndsWithURL(d);
        if IsLetterOrDigit(d[|d| - 1]) && !url {
          d := d + ".";
        }
      }
    }
  }

  /** The DocComment constructor: normalised description, sorted tags, `indent` spaces. */
  method NewDocComment(description: string, tags: seq<BlockTag>, indent: nat) returns (c: Comment)
    ensures c == DocComment(NormalizeDescription(description), TagSort.SortedTags(tags), Spaces(indent))
  {
    var d := NormalizeDescriptionStep(description);
    var sorted := TagSort.SortTags(tags);
    c := DocComment(d, sorted, Spaces(indent));
  }

  /** The SingleLineComment constructor: the DocComment one with no tags. */
  method NewSingleLineComment(description: string, indent: nat) returns (c: Comment)
    ensures c == SingleLineComment(NormalizeDescription(description), Spaces(indent))
    ensures TagsOf(c) == []
  {
    var d := NormalizeDescriptionStep(description);
    c := SingleLineComment(d, Spaces(indent));
  }

  // ---------------------------------------------------------------------------
  // The margin after the asterisk
  // ---------------------------------------------------------------------------

  /** Number of leading space characters. */
  function LeadingSpaces(s: string): (n: nat)
    ensures n <= |s|
    ensures forall i :: 0 <= i < n ==> s[i] == ' '
    ensures n == |s| || s[n] != ' '
  {
    if s != [] && s[0] == ' ' then 1 + LeadingSpaces(s[1..]) else 0
  }

  /** Removes at most `p` leading spaces: the margin, and never any text. */
  function StripMargin(s: string, p: nat): (r: string)
    ensures |r| <= |s| && r == s[|s| - |r|..]
    ensures |s| - |r| <= p
    ensures forall i :: 0 <= i < |s| - |r| ==> s[i] == ' '
    ensures |s| - |r| < p ==> r == [] || r[0] != ' '
  {
    var k := if p < LeadingSpaces(s) then p else LeadingSpaces(s);
    s[k..]
  }

  /**
   * A body line as the parser reads it, as written: leading whitespace goes; after an
   * asterisk, if a space follows, `p` characters are cut whatever they are.  `None`
   * stands for the StringIndexOutOfBoundsException when fewer than `p` remain.
   */
  function CleanLineAsWritten(line: string, p: nat): Option<string> {
    var t := StripLeading(line);
    if StartsWith(t, "*") then
      var after := t[1..];
      if StartsWith(after, " ") then (if p <= |after| then Some(after[p..]) else None)
      else Some(after)
    else Some(t)
  }

  /** A body line as the parser reads it, with at most `p` spaces of margin removed. */
  function CleanLine(line: string, p: nat): string {
    var t := StripLeading(line);
    if StartsWith(t, "*") then
      var after := t[1..];
      if StartsWith(after, " ") then StripMargin(after, p) else after
    else t
  }

  /** Where the margin really is `p` spaces, cutting and stripping agree. */
  lemma CleanLineAgrees(line: string, p: nat)
    requires var t := StripLeading(line);
      StartsWith(t, "*") && StartsWith(t[1..], " ") ==> p <= LeadingSpaces(t[1..])
    ensures CleanLineAsWritten(line, p) == Some(CleanLine(line, p))
  {
  }

  /**
   * With a margin of two or more, a tag line ` * @w` loses its `@` and more, so that it
   * no longer starts a tag when `w` holds no `@`; stripping only spaces keeps `@w`.
   */
  lemma CleanLineCutsTag(w: string, p: nat)
    requires p >= 2 && |w| + 2 >= p
    ensures CleanLineAsWritten(" * @" + w, p) == Some(w[p - 2..])
    ensures '@' !in w ==> !StartsWith(StripLeading(w[p - 2..]), "@")
    ensures CleanLine(" * @" + w, p) == "@" + w
  {
    var after := " @" + w;
    AsteriskTagLine(w);
    assert after[p..] == w[p - 2..];
    CleanTagLine(w, p);
    if '@' !in w {
      var r := StripLeading(w[p - 2..]);
      StripLeadingSuffix(w[p - 2..]);
      if r != [] {
        assert r[0] in w;
      }
    }
  }

  lemma AsteriskTagLine(w: string)
    ensures StripLeading(" * @" + w) == "* @" + w && ("* @" + w)[1..] == " @" + w
  {
    assert " * @" + w == " *" + (" @" + w);
    StripAsteriskLine(" @" + w);
  }

  lemma CleanTagLine(w: string, p: nat)
    requires p >= 1
    ensures CleanLine(" * @" + w, p) == "@" + w
  {
    var after := " @" + w;
    AsteriskTagLine(w);
    assert after[1..] == "@" + w;
    assert LeadingSpaces(after) == 1;
  }

  /** A margin of two or more exceeds an asterisk line holding one space: the source throws. */
  lemma CleanLineThrows(p: nat)
    requires p >= 2
    ensures CleanLineAsWritten(" * ", p) == None
    ensures CleanLine(" * ", p) == ""
  {
    assert " * " == " *" + " ";
    StripAsteriskLine(" ");
    assert LeadingSpaces(" ") == 1;
  }

  /** Leading whitespace goes from an asterisk line indented by one space. */
  lemma StripAsteriskLine(after: string)
    ensures StripLeading(" *" + after) == "*" + after
    ensures ("*" + after)[1..] == after
  {
    assert (" *" + after)[1..] == "*" + after;
  }

  // ---------------------------------------------------------------------------
  // findPostAsteriskIndent
  // ---------------------------------------------------------------------------

  /** A trimmed line that counts towards the margin: an asterisk line, not `*` alone, not a closer. */
  predicate CountsForMargin(line: string) {
    StartsWith(line, "*") && !EndsWith(line, "*/") && line != "*"
  }

  /** A trimmed line where the scan stops: the first block tag. */
  predicate StopsMarginScan(line: string) {
    StartsWith(line, "* @")
  }

  /** The indentation after the asterisk of a line that counts. */
  function MarginOf(line: string): nat
    requires CountsForMargin(line)
  {
    Strings.IndentWidth(line[1..])
  }

  /** How the margin scan sees one trimmed line. */
  datatype MarginLine = TagStart | Margin(width: nat) | Ignored

  function ClassifyMargin(line: string): (m: MarginLine)
    ensures m.TagStart? <==> StopsMarginScan(line)
    ensures m.Margin? <==> !StopsMarginScan(line) && CountsForMargin(line)
  {
    if StopsMarginScan(line) then TagStart
    else if CountsForMargin(line) then Margin(MarginOf(line))
    else Ignored
  }

  /** The scan's view of every line of the comment. */
  function MarginLines(lines: seq<string>): (ms: seq<MarginLine>)
    ensures |ms| == |lines|
  {
    seq(|lines|, k requires 0 <= k < |lines| => ClassifyMargin(Trim(lines[k])))
  }

  /** The smaller of a width and an optional one. */
  function MinWith(w: nat, m: Option<nat>): nat {
    if m.Some? && m.value < w then m.value else w
  }

  /** The least margin of the counting lines from `i` up to the scan's stop, if any counts. */
  function MinMargin(ms: seq<MarginLine>, i: nat): Option<nat>
    decreases |ms| - i
  {
    if i >= |ms| then None
    else match ms[i]
      case TagStart => None
      case Margin(w) => Some(MinWith(w, MinMargin(ms, i + 1)))
      case Ignored => MinMargin(ms, i + 1)
  }

  /** At least one space after the asterisk. */
  function AtLeastOne(m: Option<nat>): (p: nat)
    ensures p >= 1
  {
    if m.Some? && m.value >= 1 then m.value else 1
  }

  /** DocComment.findPostAsteriskIndent: the least margin of the lines after the first. */
  function PostAsteriskIndent(raw: string): (p: nat)
    ensures p >= 1
  {
    AtLeastOne(MinMargin(MarginLines(Split(Char('\n'), raw)), 1))
  }

  /** The loop variable `minSpaces` (-1 for none yet) combined with what the rest of the scan finds. */
  function Combine(minSpaces: int, rest: Option<nat>): Option<nat> {
    if minSpaces < 0 then rest else Some(MinWith(minSpaces, rest))
  }

  /** Taking a counting line into `minSpaces` is taking it into the rest of the scan. */
  lemma CombineMargin(before: int, after: int, w: nat, rest: Option<nat>)
    requires before >= -1
    requires after == if before == -1 || w < before then w else before
    ensures Combine(after, rest) == Combine(before, Some(MinWith(w, rest)))
  {
  }

  /** One step of findPostAsteriskIndent's loop: whether it stops here, and the new `minSpaces`. */
  method MarginStep(line: string, minSpaces: int) returns (stop: bool, next: int)
    requires minSpaces >= -1
    ensures stop <==> ClassifyMargin(line).TagStart?
    ensures next >= -1
    ensures !stop ==> match ClassifyMargin(line)
      case Margin(w) => next == (if minSpaces == -1 || w < minSpaces then w else minSpaces)
      case _ => next == minSpaces
  {
    next := minSpaces;
    if StartsWith(line, "* @") {
      return true, next;
    }
    if StartsWith(line, "*") && !EndsWith(line, "*/") && line != "*" {
      var lineIndent := Strings.FindIndent(line[1..]);
      if minSpaces == -1 || lineIndent < minSpaces {
        next := lineIndent;
      }
    }
    stop := false;
  }

  /** A line that is not a tag line keeps the scan's invariant one line on. */
  lemma MarginScanStep(ms: seq<MarginLine>, i: nat, minSpaces: int, next: int)
    requires 1 <= i < |ms| && minSpaces >= -1 && !ms[i].TagStart?
    requires Combine(minSpaces, MinMargin(ms, i)) == MinMargin(ms, 1)
    requires match ms[i]
      case Margin(w) => next == (if minSpaces == -1 || w < minSpaces then w else minSpaces)
      case _ => next == minSpaces
    ensures Combine(next, MinMargin(ms, i + 1)) == MinMargin(ms, 1)
  {
    if ms[i].Margin? {
      CombineMargin(minSpaces, next, ms[i].width, MinMargin(ms, i + 1));
    }
  }

  /** Where the scan stops, `minSpaces` raised to one is the least margin raised to one. */
  lemma MarginScanDone(ms: seq<MarginLine>, i: nat, minSpaces: int)
    requires minSpaces >= -1 && (i >= |ms| || ms[i].TagStart?)
    requires Combine(minSpaces, MinMargin(ms, i)) == MinMargin(ms, 1)
    ensures AtLeastOne(MinMargin(ms, 1)) == if minSpaces < 1 then 1 else minSpaces
  {
  }

  /** One step of the scan over line `i`, keeping what the rest of the scan will find. */
  method ScanLine(line: string, ghost ms: seq<MarginLine>, ghost i: nat, minSpaces: int) returns (stop: bool, next: int)
    requires 1 <= i < |ms| && ms[i] == ClassifyMargin(line) && minSpaces >= -1
    requires Combine(minSpaces, MinMargin(ms, i)) == MinMargin(ms, 1)
    ensures stop ==> ms[i].TagStart?
    ensures !stop ==> next >= -1 && Combine(next, MinMargin(ms, i + 1)) == MinMargin(ms, 1)
  {
    stop, next := MarginStep(line, minSpaces);
    if !stop {
      MarginScanStep(ms, i, minSpaces, next);
    }
  }

  /** DocComment.findPostAsteriskIndent: a scan from the second line that stops at the first tag. */
  method FindPostAsteriskIndent(raw: string) returns (p: nat)
    ensures p == PostAsteriskIndent(raw)
  {
    var lines := Split(Char('\n'), raw);
    ghost var ms := MarginLines(lines);
    var minSpaces: int := -1;
    var i := 1;
    while i < |lines|
      invariant i >= 1 && minSpaces >= -1
      invariant Combine(minSpaces, MinMargin(ms, i)) == MinMargin(ms, 1)
      decreases |lines| - i
    {
      var stop, next := ScanLine(Trim(lines[i]), ms, i, minSpaces);
      if stop {
        break;
      }
      minSpaces := next;
      i := i + 1;
    }
    MarginScanDone(ms, i, minSpaces);
    if minSpaces < 1 {
      minSpaces := 1;
    }
    p := minSpaces;
  }

  /** Where the margin scan stops: the first tag line from `i`, or the end. */
  function MarginScanEnd(ms: seq<MarginLine>, i: nat): (e: nat)
    ensures i <= e || |ms| < i
    ensures e <= |ms| || e == i
    decreases |ms| - i
  {
    if i >= |ms| || ms[i].TagStart? then i
    else MarginScanEnd(ms, i + 1)
  }

  /** No counting line before the scan's stop has a margin below what the scan from `i` finds. */
  lemma {:induction false} MinMarginIsLowest(ms: seq<MarginLine>, i: nat, k: nat)
    requires i <= k < MarginScanEnd(ms, i) && ms[k].Margin?
    ensures MinMargin(ms, i).Some? && MinMargin(ms, i).value <= ms[k].width
    decreases |ms| - i
  {
    if k > i {
      MinMarginIsLowest(ms, i + 1, k);
    }
  }

  /** What the scan from `i` finds is the margin of a counting line before its stop. */
  lemma {:induction false} MinMarginIsAttained(ms: seq<MarginLine>, i: nat) returns (k: nat)
    requires MinMargin(ms, i).Some?
    ensures i <= k < MarginScanEnd(ms, i) && ms[k].Margin?
    ensures MinMargin(ms, i).value == ms[k].width
    decreases |ms| - i
  {
    var rest := MinMargin(ms, i + 1);
    if ms[i].Margin? && (rest.None? || rest.value >= ms[i].width) {
      k := i;
    } else {
      k := MinMarginIsAttained(ms, i + 1);
    }
  }

  /**
   * findPostAsteriskIndent is at least 1; it ignores the first line and every line from
   * the first `* @` line on; it is no larger than the margin of any counting line that
   * has one, and when it exceeds 1 some counting line has exactly that margin.
   */
  lemma PostAsteriskIndentIsLeast(raw: string)
    ensures var ms := MarginLines(Split(Char('\n'), raw));
      var e := MarginScanEnd(ms, 1);
      var p := PostAsteriskIndent(raw);
      p >= 1
      && (forall k :: 1 <= k < e && ms[k].Margin? ==> p <= AtLeastOne(Some(ms[k].width)))
      && (p > 1 ==> exists k :: 1 <= k < e && ms[k].Margin? && p == ms[k].width)
  {
    var ms := MarginLines(Split(Char('\n'), raw));
    forall k | 1 <= k < MarginScanEnd(ms, 1) && ms[k].Margin?
      ensures PostAsteriskIndent(raw) <= AtLeastOne(Some(ms[k].width))
    {
      MinMarginIsLowest(ms, 1, k);
    }
    if PostAsteriskIndent(raw) > 1 {
      var k := MinMarginIsAttained(ms, 1);
    }
  }

  // ---------------------------------------------------------------------------
  // parse: the lines of the body
  // ---------------------------------------------------------------------------

  /** Drops a leading run of the regular-expression class `\s`. */
  function SkipRegexSpace(s: string): (r: string)
    ensures |r| <= |s|
    ensures r == [] || !IsRegexSpace(r[0])
  {
    if s != [] && IsRegexSpace(s[0]) then SkipRegexSpace(s[1..]) else s
  }

  /** What the skip leaves is a suffix, and everything it skipped is regex whitespace. */
  lemma {:induction false} SkipRegexSpaceSuffix(s: string)
    ensures var r := SkipRegexSpace(s);
      r == s[|s| - |r|..] && forall i :: 0 <= i < |s| - |r| ==> IsRegexSpace(s[i])
  {
    if s != [] && IsRegexSpace(s[0]) {
      SkipRegexSpaceSuffix(s[1..]);
    }
  }

  /** `line.matches("^\\s*\\*\\s*@.*")`: the line that ends the lines a tag absorbs. */
  predicate MatchesTagLine(line: string) {
    var a := SkipRegexSpace(line);
    a != [] && a[0] == '*'
    && var b := SkipRegexSpace(a[1..]);
       b != [] && b[0] == '@' && forall i :: 1 <= i < |b| ==> !IsLineTerminator(b[i])
  }

  /** A cleaned body line that, stripped of leading whitespace, begins a block tag. */
  predicate StartsTag(cleaned: string) {
    var h := StripLeading(cleaned);
    h != [] && h[0] == '@'
  }

  /** A raw body line once cleaned and stripped of leading whitespace. */
  function TagHead(line: string, p: nat): string {
    StripLeading(CleanLine(line, p))
  }

  /** A raw body line that, once cleaned, starts a new block tag. */
  predicate IsTagStart(line: string, p: nat) {
    StartsTag(CleanLine(line, p))
  }

  /** The first line from `i` on that satisfies `pred`, or the number of lines. */
  function FirstWhere(xs: seq<string>, i: nat, pred: string -> bool): (f: nat)
    requires i <= |xs|
    ensures i <= f <= |xs|
    decreases |xs| - i
  {
    if i == |xs| || pred(xs[i]) then i else FirstWhere(xs, i + 1, pred)
  }

  lemma {:induction false} FirstWhereIsFirst(xs: seq<string>, i: nat, pred: string -> bool)
    requires i <= |xs|
    ensures var f := FirstWhere(xs, i, pred);
      (f < |xs| ==> pred(xs[f])) && forall k :: i <= k < f ==> !pred(xs[k])
    decreases |xs| - i
  {
    if i < |xs| && !pred(xs[i]) {
      FirstWhereIsFirst(xs, i + 1, pred);
    }
  }

  /** Each line transformed by `f`. */
  function MapLines(xs: seq<string>, f: string -> string): (r: seq<string>)
    ensures |r| == |xs|
  {
    seq(|xs|, k requires 0 <= k < |xs| => f(xs[k]))
  }

  /** Lines that agree up to `n` map to lines that agree up to `n`. */
  lemma MapLinesPrefix(xs: seq<string>, ys: seq<string>, f: string -> string, n: nat)
    requires n <= |xs| && n <= |ys| && xs[..n] == ys[..n]
    ensures MapLines(xs, f)[..n] == MapLines(ys, f)[..n]
  {
    assert forall j :: 0 <= j < n ==> xs[j] == xs[..n][j] && ys[j] == ys[..n][j];
  }

  /** The first i + 1 mapped lines are the first i and then line i mapped. */
  lemma MapLinesSnoc(xs: seq<string>, f: string -> string, i: nat, y: string)
    requires i < |xs| && y == f(xs[i])
    ensures MapLines(xs, f)[..i + 1] == MapLines(xs, f)[..i] + [y]
  {
  }

  /** The concatenation of what `piece` makes of lines `from` up to `to`. */
  function ConcatMap(xs: seq<string>, from: nat, to: nat, piece: string -> string): string
    requires from <= to <= |xs|
  {
    if to == from then "" else ConcatMap(xs, from, to - 1, piece) + piece(xs[to - 1])
  }

  /** Appending the next line's piece to a prefix followed by a concatenation. */
  lemma ConcatMapStep(head: string, xs: seq<string>, from: nat, to: nat, piece: string -> string,
                      before: string, after: string)
    requires from <= to < |xs|
    requires before == head + ConcatMap(xs, from, to, piece) && after == before + piece(xs[to])
    ensures after == head + ConcatMap(xs, from, to + 1, piece)
  {
    assert ConcatMap(xs, from, to + 1, piece) == ConcatMap(xs, from, to, piece) + piece(xs[to]);
  }

  /**
   * The walk of parse is written once over four parameters, which parse fixes: how a
   * line is cleaned (`clean`), which lines end a tag (`endsTag`), what an absorbed line
   * adds to its tag (`piece`) and how a tag's text becomes a tag (`parse`).
   */

  /** The first line from `k` on that starts a tag once cleaned by `clean`, or the number of lines. */
  function FirstStart(lines: seq<string>, clean: string -> string, k: nat): (f: nat)
    requires k <= |lines|
    ensures k <= f <= |lines|
    decreases |lines| - k
  {
    if k == |lines| || StartsTag(clean(lines[k])) then k else FirstStart(lines, clean, k + 1)
  }

  lemma {:induction false} FirstStartIsFirst(lines: seq<string>, clean: string -> string, k: nat)
    requires k <= |lines|
    ensures var f := FirstStart(lines, clean, k);
      (f < |lines| ==> StartsTag(clean(lines[f]))) && forall j :: k <= j < f ==> !StartsTag(clean(lines[j]))
    decreases |lines| - k
  {
    if k < |lines| && !StartsTag(clean(lines[k])) {
      FirstStartIsFirst(lines, clean, k + 1);
    }
  }

  /** `parse` accepts every text that begins with `@`. */
  ghost predicate ParsesTags(parse: string --> BlockTag) {
    forall t: string :: t != [] && t[0] == '@' ==> parse.requires(t)
  }

  /** The lines without their leading run of empty ones. */
  function DropLeadingEmpty(xs: seq<string>): (r: seq<string>)
    ensures |r| <= |xs|
    ensures r == [] || r[0] != []
  {
    if xs != [] && xs[0] == [] then DropLeadingEmpty(xs[1..]) else xs
  }

  /** Description text from its cleaned lines: leading empty lines dropped, the rest joined by newlines. */
  function DescriptionOf(xs: seq<string>): string {
    Join("\n", DropLeadingEmpty(xs))
  }

  /** The description the walk builds: the cleaned lines before the first one that starts a tag. */
  function DescriptionWith(lines: seq<string>, clean: string -> string): string {
    DescriptionOf(MapLines(lines, clean)[..FirstStart(lines, clean, 0)])
  }

  /** The text the walk hands to `parse` for the tag that starts at line `k`. */
  function TagTextWith(lines: seq<string>, clean: string -> string, endsTag: string -> bool,
                       piece: string -> string, k: nat): (t: string)
    requires k < |lines| && StartsTag(clean(lines[k]))
    ensures t != [] && t[0] == '@'
  {
    StripLeading(clean(lines[k])) + ConcatMap(lines, k + 1, FirstWhere(lines, k + 1, endsTag), piece)
  }

  /**
   * The tags the walk builds from line `k` on: a line that does not start a tag adds
   * none; one that does starts a tag, which absorbs every following line up to the
   * next one that ends a tag.
   */
  function TagsWith(lines: seq<string>, clean: string -> string, endsTag: string -> bool,
                    piece: string -> string, parse: string --> BlockTag, k: nat): seq<BlockTag>
    requires k <= |lines| && ParsesTags(parse)
    decreases |lines| - k
  {
    if k == |lines| then []
    else if !StartsTag(clean(lines[k])) then TagsWith(lines, clean, endsTag, piece, parse, k + 1)
    else [parse(TagTextWith(lines, clean, endsTag, piece, k))]
         + TagsWith(lines, clean, endsTag, piece, parse, FirstWhere(lines, k + 1, endsTag))
  }

  /** The cleaning parse does, as a function value. */
  function Cleaner(p: nat): string -> string {
    line => CleanLine(line, p)
  }

  /** BlockTag.parse, as a function value. */
  function TagParser(isName: string -> bool): (parse: string --> BlockTag)
    ensures ParsesTags(parse)
  {
    t requires t != [] && t[0] == '@' => BlockTags.Parse(t, isName)
  }

  /** What a line absorbed by a tag adds to it: nothing when its trim ends with `*`, else a newline and the raw line. */
  function ContinuationPiece(line: string): string {
    var t := Trim(line);
    if t != [] && t[|t| - 1] == '*' then "" else "\n" + line
  }

  /** The first line from `j` on that matches the tag pattern, or the number of lines. */
  function NextTagLine(lines: seq<string>, j: nat): (e: nat)
    requires j <= |lines|
    ensures j <= e <= |lines|
  {
    FirstWhere(lines, j, MatchesTagLine)
  }

  /** The lines from `j` up to the next tag line do not match the tag pattern. */
  lemma NextTagLineIsNext(lines: seq<string>, j: nat)
    requires j <= |lines|
    ensures var e := NextTagLine(lines, j);
      (e < |lines| ==> MatchesTagLine(lines[e]))
      && forall k :: j <= k < e ==> !MatchesTagLine(lines[k])
  {
    FirstWhereIsFirst(lines, j, MatchesTagLine);
  }

  /** The description parse builds from the body lines when the margin is `p`. */
  function BodyDescription(lines: seq<string>, p: nat): string {
    DescriptionWith(lines, Cleaner(p))
  }

  /** The tags parse builds from the body lines when the margin is `p`. */
  function BodyTags(lines: seq<string>, p: nat, isName: string -> bool): seq<BlockTag> {
    TagsWith(lines, Cleaner(p), MatchesTagLine, ContinuationPiece, TagParser(isName), 0)
  }

  lemma {:induction false} DropLeadingEmptySnoc(xs: seq<string>, t: string)
    ensures DropLeadingEmpty(xs + [t])
            == if DropLeadingEmpty(xs) == [] then DropLeadingEmpty([t]) else DropLeadingEmpty(xs) + [t]
  {
    if xs == [] {
      assert xs + [t] == [t];
    } else if xs[0] == [] {
      assert (xs + [t])[1..] == xs[1..] + [t];
      DropLeadingEmptySnoc(xs[1..], t);
    } else {
      assert DropLeadingEmpty(xs + [t]) == xs + [t];
    }
  }

  lemma {:induction false} JoinStartsWithFirst(sep: string, ys: seq<string>)
    requires ys != []
    ensures StartsWith(Join(sep, ys), ys[0])
  {
    if |ys| > 1 {
      var init := ys[..|ys| - 1];
      JoinStartsWithFirst(sep, init);
      assert init[0] == ys[0];
    }
  }

  /** Appending a cleaned line to the description: a newline first unless the description is still empty. */
  lemma DescriptionOfSnoc(xs: seq<string>, t: string)
    ensures DescriptionOf(xs + [t])
            == if |DescriptionOf(xs)| > 0 then DescriptionOf(xs) + "\n" + t else t
  {
    DropLeadingEmptySnoc(xs, t);
    var ys := DropLeadingEmpty(xs);
    if ys != [] {
      JoinStartsWithFirst("\n", ys);
      assert (ys + [t])[..|ys|] == ys;
    }
  }

  /**
   * The inner loop of parse, for any line test and any piece: from line `start`, whose
   * text so far is `head`, take in following lines while the next one fails `endsTag`,
   * adding what `piece` makes of each.  Stops at the last line it took in.
   */
  method AbsorbLines(lines: seq<string>, start: nat, head: string,
                     endsTag: string -> bool, piece: string -> string)
    returns (text: string, last: nat)
    requires start < |lines|
    ensures last + 1 == FirstWhere(lines, start + 1, endsTag)
    ensures text == head + ConcatMap(lines, start + 1, last + 1, piece)
  {
    text := head;
    last := start;
    while last < |lines| - 1 && !endsTag(lines[last + 1])
      invariant start <= last < |lines|
      invariant FirstWhere(lines, start + 1, endsTag) == FirstWhere(lines, last + 1, endsTag)
      invariant text == head + ConcatMap(lines, start + 1, last + 1, piece)
      decreases |lines| - last
    {
      last := last + 1;
      ghost var before := text;
      text := text + piece(lines[last]);
      ConcatMapStep(head, lines, start + 1, last, piece, before, text);
    }
  }

  /** The description after the walk has taken in the first `i` lines, none of them starting a tag. */
  function DescriptionSoFar(lines: seq<string>, clean: string -> string, i: nat): string
    requires i <= |lines|
  {
    if i == 0 then ""
    else
      var d := DescriptionSoFar(lines, clean, i - 1);
      var t := clean(lines[i - 1]);
      if |d| > 0 then d + "\n" + t else t
  }

  /** Built line by line, the description is the cleaned lines without leading empty ones, joined. */
  lemma {:induction false} DescriptionSoFarIsDescription(lines: seq<string>, clean: string -> string, i: nat)
    requires i <= |lines|
    ensures DescriptionSoFar(lines, clean, i) == DescriptionOf(MapLines(lines, clean)[..i])
  {
    if i > 0 {
      DescriptionSoFarIsDescription(lines, clean, i - 1);
      MapLinesSnoc(lines, clean, i - 1, clean(lines[i - 1]));
      DescriptionOfSnoc(MapLines(lines, clean)[..i - 1], clean(lines[i - 1]));
    } else {
      assert MapLines(lines, clean)[..0] == [];
    }
  }

  /** A line that starts a tag gives that tag, then the tags from the line that ends it. */
  lemma TagsWithStart(lines: seq<string>, clean: string -> string, endsTag: string -> bool,
                      piece: string -> string, parse: string --> BlockTag, k: nat)
    requires k < |lines| && ParsesTags(parse) && StartsTag(clean(lines[k]))
    ensures TagsWith(lines, clean, endsTag, piece, parse, k)
            == [parse(TagTextWith(lines, clean, endsTag, piece, k))]
               + TagsWith(lines, clean, endsTag, piece, parse, FirstWhere(lines, k + 1, endsTag))
  {
  }

  /** A line that starts no tag adds none. */
  lemma TagsWithSkip(lines: seq<string>, clean: string -> string, endsTag: string -> bool,
                     piece: string -> string, parse: string --> BlockTag, k: nat)
    requires k < |lines| && ParsesTags(parse) && !StartsTag(clean(lines[k]))
    ensures TagsWith(lines, clean, endsTag, piece, parse, k) == TagsWith(lines, clean, endsTag, piece, parse, k + 1)
  {
  }

  /** One more description line: a newline first unless the description is still empty. */
  lemma DescriptionSoFarStep(lines: seq<string>, clean: string -> string, i: nat, before: string, after: string)
    requires i < |lines| && before == DescriptionSoFar(lines, clean, i)
    requires after == (if |before| > 0 then before + "\n" else before) + clean(lines[i])
    ensures after == DescriptionSoFar(lines, clean, i + 1)
  {
  }

  /** A line that starts no tag is passed over by the search for the first one that does. */
  lemma FirstStartSkip(lines: seq<string>, clean: string -> string, k: nat)
    requires k < |lines| && !StartsTag(clean(lines[k]))
    ensures FirstStart(lines, clean, k) == FirstStart(lines, clean, k + 1)
  {
  }

  /**
   * Where the walk stands before line `i`, `f` being the first line that starts a tag
   * and `all` the tags of the whole body: before the first tag, the description holds
   * the lines so far and no tag is built yet; after it, the description is complete
   * and the tags built so far and those still to come make up `all`.
   */
  ghost predicate WalkState(lines: seq<string>, clean: string -> string, endsTag: string -> bool,
                            piece: string -> string, parse: string --> BlockTag, f: nat, all: seq<BlockTag>,
                            i: nat, inBlockTags: bool, description: string, tags: seq<BlockTag>)
    requires ParsesTags(parse)
  {
    i <= |lines|
    && (!inBlockTags ==>
          FirstStart(lines, clean, i) == f && description == DescriptionSoFar(lines, clean, i) && tags == []
          && TagsWith(lines, clean, endsTag, piece, parse, i) == all)
    && (inBlockTags ==>
          f < i && f <= |lines| && description == DescriptionSoFar(lines, clean, f)
          && tags + TagsWith(lines, clean, endsTag, piece, parse, i) == all)
  }

  /** The tags built so far and those still to come, one tag line on. */
  lemma TagsStep(lines: seq<string>, clean: string -> string, endsTag: string -> bool,
                 piece: string -> string, parse: string --> BlockTag, all: seq<BlockTag>,
                 i: nat, tags: seq<BlockTag>, next: nat, newTags: seq<BlockTag>)
    requires ParsesTags(parse) && i < |lines| && StartsTag(clean(lines[i]))
    requires tags + TagsWith(lines, clean, endsTag, piece, parse, i) == all
    requires next == FirstWhere(lines, i + 1, endsTag)
    requires newTags == tags + [parse(TagTextWith(lines, clean, endsTag, piece, i))]
    ensures newTags + TagsWith(lines, clean, endsTag, piece, parse, next) == all
  {
    TagsWithStart(lines, clean, endsTag, piece, parse, i);
    var tag := parse(TagTextWith(lines, clean, endsTag, piece, i));
    var rest := TagsWith(lines, clean, endsTag, piece, parse, next);
    assert tags + [tag] + rest == tags + ([tag] + rest);
  }

  /** A tag line moves the walk past the lines the tag absorbs, adding that tag. */
  lemma WalkStateTag(lines: seq<string>, clean: string -> string, endsTag: string -> bool,
                     piece: string -> string, parse: string --> BlockTag, f: nat, all: seq<BlockTag>,
                     i: nat, inBlockTags: bool, description: string, tags: seq<BlockTag>,
                     next: nat, nowInBlockTags: bool, newDescription: string, newTags: seq<BlockTag>)
    requires ParsesTags(parse) && i < |lines| && StartsTag(clean(lines[i]))
    requires WalkState(lines, clean, endsTag, piece, parse, f, all, i, inBlockTags, description, tags)
    requires next == FirstWhere(lines, i + 1, endsTag) && nowInBlockTags && newDescription == description
    requires newTags == tags + [parse(TagTextWith(lines, clean, endsTag, piece, i))]
    ensures WalkState(lines, clean, endsTag, piece, parse, f, all, next, nowInBlockTags, newDescription, newTags)
  {
    if !inBlockTags {
      assert f == i;
      assert tags + TagsWith(lines, clean, endsTag, piece, parse, i) == all;
    }
    TagsStep(lines, clean, endsTag, piece, parse, all, i, tags, next, newTags);
  }

  /** Any other line moves the walk one line on, extending the description before the first tag. */
  lemma WalkStateLine(lines: seq<string>, clean: string -> string, endsTag: string -> bool,
                      piece: string -> string, parse: string --> BlockTag, f: nat, all: seq<BlockTag>,
                      i: nat, inBlockTags: bool, description: string, tags: seq<BlockTag>,
                      next: nat, nowInBlockTags: bool, newDescription: string, newTags: seq<BlockTag>)
    requires ParsesTags(parse) && i < |lines| && !StartsTag(clean(lines[i]))
    requires WalkState(lines, clean, endsTag, piece, parse, f, all, i, inBlockTags, description, tags)
    requires next == i + 1 && nowInBlockTags == inBlockTags && newTags == tags
    requires newDescription == if inBlockTags then description
                               else (if |description| > 0 then description + "\n" else description) + clean(lines[i])
    ensures WalkState(lines, clean, endsTag, piece, parse, f, all, next, nowInBlockTags, newDescription, newTags)
  {
    TagsWithSkip(lines, clean, endsTag, piece, parse, i);
    if !inBlockTags {
      DescriptionSoFarStep(lines, clean, i, description, newDescription);
      FirstStartSkip(lines, clean, i);
    }
  }

  /** A tag line: the tag absorbs the lines that follow it, up to the next one that ends a tag. */
  method WalkTagLine(lines: seq<string>, clean: string -> string, endsTag: string -> bool,
                     piece: string -> string, parse: string --> BlockTag, ghost f: nat, ghost all: seq<BlockTag>,
                     i: nat, inBlockTags: bool, description: string, tags: seq<BlockTag>)
    returns (next: nat, nowInBlockTags: bool, newDescription: string, newTags: seq<BlockTag>)
    requires ParsesTags(parse) && i < |lines| && StartsTag(clean(lines[i]))
    requires WalkState(lines, clean, endsTag, piece, parse, f, all, i, inBlockTags, description, tags)
    ensures i < next && nowInBlockTags && newDescription == description
    ensures WalkState(lines, clean, endsTag, piece, parse, f, all, next, nowInBlockTags, newDescription, newTags)
  {
    var text, last := AbsorbLines(lines, i, StripLeading(clean(lines[i])), endsTag, piece);
    assert text == TagTextWith(lines, clean, endsTag, piece, i);
    next, nowInBlockTags, newDescription, newTags := last + 1, true, description, tags + [parse(text)];
    WalkStateTag(lines, clean, endsTag, piece, parse, f, all, i, inBlockTags, description, tags,
                 next, nowInBlockTags, newDescription, newTags);
  }

  /** Any other line: before the first tag it joins the description, after it it is dropped. */
  method WalkOtherLine(lines: seq<string>, clean: string -> string, endsTag: string -> bool,
                       piece: string -> string, parse: string --> BlockTag, ghost f: nat, ghost all: seq<BlockTag>,
                       i: nat, inBlockTags: bool, description: string, tags: seq<BlockTag>)
    returns (next: nat, nowInBlockTags: bool, newDescription: string, newTags: seq<BlockTag>)
    requires ParsesTags(parse) && i < |lines| && !StartsTag(clean(lines[i]))
    requires WalkState(lines, clean, endsTag, piece, parse, f, all, i, inBlockTags, description, tags)
    ensures next == i + 1 && nowInBlockTags == inBlockTags && newTags == tags
    ensures WalkState(lines, clean, endsTag, piece, parse, f, all, next, nowInBlockTags, newDescription, newTags)
  {
    newDescription := description;
    if !inBlockTags {
      if |newDescription| > 0 {
        newDescription := newDescription + "\n";
      }
      newDescription := newDescription + clean(lines[i]);
    }
    next, nowInBlockTags, newTags := i + 1, inBlockTags, tags;
    WalkStateLine(lines, clean, endsTag, piece, parse, f, all, i, inBlockTags, description, tags,
                  next, nowInBlockTags, newDescription, newTags);
  }

  /** The walk over the body lines of DocComment.parse: description lines, then tags. */
  method WalkBody(lines: seq<string>, clean: string -> string, endsTag: string -> bool,
                  piece: string -> string, parse: string --> BlockTag)
    returns (description: string, tags: seq<BlockTag>)
    requires ParsesTags(parse)
    ensures description == DescriptionWith(lines, clean)
    ensures tags == TagsWith(lines, clean, endsTag, piece, parse, 0)
  {
    ghost var f := FirstStart(lines, clean, 0);
    ghost var all := TagsWith(lines, clean, endsTag, piece, parse, 0);
    description := "";
    tags := [];
    var inBlockTags := false;
    var i := 0;
    while i < |lines|
      invariant WalkState(lines, clean, endsTag, piece, parse, f, all, i, inBlockTags, description, tags)
      decreases |lines| - i
    {
      if StartsTag(clean(lines[i])) {
        i, inBlockTags, description, tags := WalkTagLine(lines, clean, endsTag, piece, parse, f, all, i, inBlockTags, description, tags);
      } else {
        i, inBlockTags, description, tags := WalkOtherLine(lines, clean, endsTag, piece, parse, f, all, i, inBlockTags, description, tags);
      }
    }
    WalkDone(lines, clean, endsTag, piece, parse, f, all, i, inBlockTags, description, tags);
  }

  /** When the walk has passed the last line, it holds the description and every tag. */
  lemma WalkDone(lines: seq<string>, clean: string -> string, endsTag: string -> bool,
                 piece: string -> string, parse: string --> BlockTag, f: nat, all: seq<BlockTag>,
                 i: nat, inBlockTags: bool, description: string, tags: seq<BlockTag>)
    requires ParsesTags(parse) && f == FirstStart(lines, clean, 0)
    requires all == TagsWith(lines, clean, endsTag, piece, parse, 0)
    requires WalkState(lines, clean, endsTag, piece, parse, f, all, i, inBlockTags, description, tags)
    requires i >= |lines|
    ensures description == DescriptionWith(lines, clean) && tags == all
  {
    DescriptionSoFarIsDescription(lines, clean, f);
    if inBlockTags {
      assert TagsWith(lines, clean, endsTag, piece, parse, i) == [];
    } else {
      assert f == FirstStart(lines, clean, i) == |lines|;
    }
  }

  /** DocComment.parse's walk over the body lines, with margin `p`. */
  method ParseBody(lines: seq<string>, p: nat, isName: string -> bool)
    returns (description: string, tags: seq<BlockTag>)
    ensures description == BodyDescription(lines, p)
    ensures tags == BodyTags(lines, p, isName)
  {
    description, tags := WalkBody(lines, Cleaner(p), MatchesTagLine, ContinuationPiece, TagParser(isName));
  }

  // ---------------------------------------------------------------------------
  // What the walk builds
  // ---------------------------------------------------------------------------

  /** Leading whitespace removed in part first does not change what stripping leaves. */
  lemma {:induction false} StripLeadingDrop(s: string, n: nat)
    requires n <= |s| && forall i :: 0 <= i < n ==> IsWhitespace(s[i])
    ensures StripLeading(s[n..]) == StripLeading(s)
    decreases n
  {
    if n > 0 {
      assert s[1..][n - 1..] == s[n..];
      StripLeadingDrop(s[1..], n - 1);
    }
  }

  /** Stripping leading whitespace after the regular-expression spaces are gone. */
  lemma StripLeadingSkip(s: string)
    ensures StripLeading(SkipRegexSpace(s)) == StripLeading(s)
  {
    SkipRegexSpaceSuffix(s);
    StripLeadingDrop(s, |s| - |SkipRegexSpace(s)|);
  }

  /** After an asterisk, cleaning and stripping leave what stripping alone leaves. */
  lemma CleanAsteriskLine(line: string, p: nat)
    requires var t := StripLeading(line); t != [] && t[0] == '*'
    ensures TagHead(line, p) == StripLeading(StripLeading(line)[1..])
  {
    var t := StripLeading(line);
    StartsWithChar(t, '*');
    var after := t[1..];
    StartsWithChar(after, ' ');
    if StartsWith(after, " ") {
      var m := StripMargin(after, p);
      StripLeadingDrop(after, |after| - |m|);
    }
  }

  /** A line of the pattern that ends a tag (`* @...`) always starts the next tag. */
  lemma MatchingLineStartsTag(line: string, p: nat)
    requires MatchesTagLine(line)
    ensures IsTagStart(line, p)
  {
    var a := SkipRegexSpace(line);
    assert StripLeading(line) == a by {
      StripLeadingSkip(line);
    }
    CleanAsteriskLine(line, p);
    var b := SkipRegexSpace(a[1..]);
    assert StripLeading(a[1..]) == b by {
      StripLeadingSkip(a[1..]);
    }
  }

  /** The first line from `k` that starts a tag is the one before which no line does. */
  lemma {:induction false} FirstStartAt(lines: seq<string>, clean: string -> string, k: nat, f: nat)
    requires k <= f <= |lines|
    requires f < |lines| ==> StartsTag(clean(lines[f]))
    requires forall j :: k <= j < f ==> !StartsTag(clean(lines[j]))
    ensures FirstStart(lines, clean, k) == f
    decreases f - k
  {
    if k < f {
      FirstStartAt(lines, clean, k + 1, f);
    }
  }

  /**
   * The description is made of exactly the lines before the first line that starts a
   * tag: cleaned, without leading empty ones, joined by newlines.
   */
  lemma BodyDescriptionBeforeFirstTag(lines: seq<string>, p: nat, f: nat)
    requires f <= |lines|
    requires f < |lines| ==> IsTagStart(lines[f], p)
    requires forall j :: 0 <= j < f ==> !IsTagStart(lines[j], p)
    ensures BodyDescription(lines, p) == Join("\n", DropLeadingEmpty(MapLines(lines[..f], Cleaner(p))))
  {
    FirstStartAt(lines, Cleaner(p), 0, f);
    assert MapLines(lines, Cleaner(p))[..f] == MapLines(lines[..f], Cleaner(p));
  }

  /** Lines after the first one that starts a tag do not change the description. */
  lemma DescriptionWithPrefix(lines: seq<string>, other: seq<string>, clean: string -> string, f: nat)
    requires f < |lines| && f < |other| && lines[..f + 1] == other[..f + 1]
    requires FirstStart(lines, clean, 0) == f
    ensures DescriptionWith(other, clean) == DescriptionWith(lines, clean)
  {
    assert FirstStart(other, clean, 0) == f by {
      FirstStartIsFirst(lines, clean, 0);
      assert forall j :: 0 <= j <= f ==> other[j] == lines[..f + 1][j];
      FirstStartAt(other, clean, 0, f);
    }
    assert lines[..f] == other[..f] by {
      assert lines[..f] == lines[..f + 1][..f];
      assert other[..f] == other[..f + 1][..f];
    }
    MapLinesPrefix(lines, other, clean, f);
  }

  /** Whatever follows the first tag line, including lines that start no tag, never reaches the description. */
  lemma DescriptionIgnoresTagSection(lines: seq<string>, other: seq<string>, p: nat, f: nat)
    requires f < |lines| && f < |other| && lines[..f + 1] == other[..f + 1]
    requires IsTagStart(lines[f], p)
    requires forall j :: 0 <= j < f ==> !IsTagStart(lines[j], p)
    ensures BodyDescription(other, p) == BodyDescription(lines, p)
  {
    FirstStartAt(lines, Cleaner(p), 0, f);
    DescriptionWithPrefix(lines, other, Cleaner(p), f);
  }

  /**
   * A tag that starts at line `k` takes in the lines after it up to the next line of the
   * tag pattern, which starts the next tag; of those lines, each one whose trim ends
   * with `*` adds nothing and each other one adds a newline and the raw line.
   */
  lemma TagAbsorbsUpToNextTagLine(lines: seq<string>, p: nat, isName: string -> bool, k: nat)
    requires k < |lines| && IsTagStart(lines[k], p)
    ensures var e := NextTagLine(lines, k + 1);
      var text := TagHead(lines[k], p) + ConcatMap(lines, k + 1, e, ContinuationPiece);
      text != [] && text[0] == '@'
      && TagsWith(lines, Cleaner(p), MatchesTagLine, ContinuationPiece, TagParser(isName), k)
         == [BlockTags.Parse(text, isName)]
            + TagsWith(lines, Cleaner(p), MatchesTagLine, ContinuationPiece, TagParser(isName), e)
      && (forall j :: k < j < e ==> !MatchesTagLine(lines[j]))
      && (e < |lines| ==> IsTagStart(lines[e], p))
  {
    var e := NextTagLine(lines, k + 1);
    NextTagLineIsNext(lines, k + 1);
    if e < |lines| {
      MatchingLineStartsTag(lines[e], p);
    }
  }

  // ---------------------------------------------------------------------------
  // parse
  // ---------------------------------------------------------------------------

  /**
   * The trimmed body without its opening delimiter (slash and two asterisks) and without
   * its closing one (two asterisks and a slash, or one), trimmed again once the closing
   * one is cut.
   */
  function StripDelimiters(body: string): (r: string)
    ensures |r| <= |body|
  {
    var b := if StartsWith(body, "/**") then body[3..] else body;
    if EndsWith(b, "**/") then Trim(b[..|b| - 3])
    else if EndsWith(b, "*/") then Trim(b[..|b| - 2])
    else b
  }

  /** The raw text with its line ending, whichever it is, turned into `\n`. */
  function Normalized(raw: string): string {
    Replace(raw, Strings.DetectLineEnding(raw), "\n")
  }

  /** The single-line path is taken: the trimmed text has no newline and the stripped body no `@`. */
  predicate TakesSingleLinePath(text: string) {
    !Contains(Trim(text), "\n") && !Contains(StripDelimiters(Trim(text)), "@")
  }

  /** DocComment.parse: what the raw text of a comment becomes. */
  function ParseComment(raw: string, isName: string -> bool): Comment {
    var text := Normalized(raw);
    var indent := Spaces(Strings.IndentWidth(text));
    var body := StripDelimiters(Trim(text));
    if TakesSingleLinePath(text) then
      SingleLineComment(NormalizeDescription(Trim(body)), indent)
    else
      var lines := Split(Char('\n'), body);
      var p := PostAsteriskIndent(text);
      DocComment(NormalizeDescription(BodyDescription(lines, p)), TagSort.SortedTags(BodyTags(lines, p, isName)), indent)
  }

  /** DocComment.parse, step by step. */
  method Parse(raw: string, isName: string -> bool) returns (c: Comment)
    ensures c == ParseComment(raw, isName)
  {
    var lineEnding := Strings.DetectLineEnding(raw);
    var text := Replace(raw, lineEnding, "\n");
    var tagIndent := Strings.FindIndent(text);
    var postAsteriskIndent := FindPostAsteriskIndent(text);
    var body := Trim(text);
    var singleLine := !Contains(body, "\n");
    if StartsWith(body, "/**") {
      body := body[3..];
    }
    if EndsWith(body, "**/") {
      body := Trim(body[..|body| - 3]);
    } else if EndsWith(body, "*/") {
      body := Trim(body[..|body| - 2]);
    }
    assert body == StripDelimiters(Trim(text));
    if singleLine && !Contains(body, "@") {
      c := NewSingleLineComment(Trim(body), tagIndent);
    } else {
      var lines := Split(Char('\n'), body);
      var description, tags := ParseBody(lines, postAsteriskIndent, isName);
      c := NewDocComment(description, tags, tagIndent);
    }
  }

  /**
   * parse gives a single-line comment exactly when the trimmed text has no newline and
   * the body, delimiters stripped, has no `@`; its description is then that body,
   * trimmed and normalised, and it has no tags.
   */
  lemma ParseSingleLine(raw: string, isName: string -> bool)
    ensures var text := Normalized(raw);
      var c := ParseComment(raw, isName);
      (c.SingleLineComment? <==> !Contains(Trim(text), "\n") && !Contains(StripDelimiters(Trim(text)), "@"))
      && (c.SingleLineComment? ==>
            c.description == NormalizeDescription(Trim(StripDelimiters(Trim(text)))) && TagsOf(c) == [])
  {
  }

  /**
   * The tags of a parsed comment are those the walk builds, as a permutation, in
   * non-decreasing rank.
   */
  lemma ParseSortsTags(raw: string, isName: string -> bool, i: nat, j: nat)
    ensures var c := ParseComment(raw, isName);
      var text := Normalized(raw);
      c.DocComment? ==>
        var tags := BodyTags(Split(Char('\n'), StripDelimiters(Trim(text))), PostAsteriskIndent(text), isName);
        multiset(c.tags) == multiset(tags)
        && (i < j < |c.tags| ==> TagSort.Rank(c.tags[i].kind) <= TagSort.Rank(c.tags[j].kind))
  {
    var c := ParseComment(raw, isName);
    if c.DocComment? {
      var text := Normalized(raw);
      var tags := BodyTags(Split(Char('\n'), StripDelimiters(Trim(text))), PostAsteriskIndent(text), isName);
      TagSort.SortTagsPermutes(tags);
      if i < j < |c.tags| {
        TagSort.SortTagsByRank(tags, i, j);
      }
    }
  }

  // ---------------------------------------------------------------------------
  // toJava
  // ---------------------------------------------------------------------------

  /** One description line: the indentation and ` *`, then a space and the line unless it is empty. */
  function DescriptionLine(indent: string, line: string): string {
    indent + " *" + (if line == [] then "" else " " + line) + "\n"
  }

  /** The description lines, each rendered, in order. */
  function DescriptionBlock(indent: string, lines: seq<string>): string {
    if lines == [] then ""
    else DescriptionBlock(indent, lines[..|lines| - 1]) + DescriptionLine(indent, lines[|lines| - 1])
  }

  /** The tags, each rendered after the indentation, in order. */
  function TagBlock(indent: string, tags: seq<BlockTag>, aligned: bool): string {
    if tags == [] then ""
    else TagBlock(indent, tags[..|tags| - 1], aligned) + indent + TagLine(tags[|tags| - 1], aligned)
  }

  /** The opening line, then `middle`, then the closing line. */
  function Framed(indent: string, middle: string): string {
    indent + "/**\n" + middle + indent + " */"
  }

  /**
   * Between the opening and closing lines: the description lines, a ` *` line between
   * description and tags when there are both, and the tags, aligned on their own
   * spacing only when there are two or more.
   */
  function DocBody(description: string, tags: seq<BlockTag>, indent: string): string {
    (if !IsBlank(description) then DescriptionBlock(indent, Split(OptCrLf, description)) else "")
    + (if tags == [] then ""
       else (if !IsBlank(description) then indent + " *\n" else "") + TagBlock(indent, tags, |tags| > 1))
  }

  /** DocComment.toJava: nothing for a blank description without tags, else the framed body. */
  function RenderDoc(description: string, tags: seq<BlockTag>, indent: string): string {
    if IsBlank(description) && tags == [] then "" else Framed(indent, DocBody(description, tags, indent))
  }

  /** The description as SingleLineComment.toJava writes it: a period added unless it ends with `.`, `!`, `?` or a URL. */
  function WithPeriod(d: string): string {
    if !EndsWith(d, ".") && !EndsWith(d, "!") && !EndsWith(d, "?") && !Strings.UrlAtEnd(d) then d + "." else d
  }

  /** SingleLineComment.toJava: nothing for a blank description, else the one-line comment. */
  function RenderSingle(description: string, indent: string): string {
    if IsBlank(description) then ""
    else indent + "/** " + (if description != [] then WithPeriod(description) else "") + " */"
  }

  /** toJava, for either kind of comment. */
  function Render(c: Comment): string {
    match c
    case DocComment(d, tags, indent) => RenderDoc(d, tags, indent)
    case SingleLineComment(d, indent) => RenderSingle(d, indent)
  }

  /** The description loop of toJava: appends each description line. */
  method AppendDescription(s0: string, indent: string, lines: seq<string>) returns (s: string)
    ensures s == s0 + DescriptionBlock(indent, lines)
  {
    s := s0;
    for i := 0 to |lines|
      invariant s == s0 + DescriptionBlock(indent, lines[..i])
    {
      ghost var before := s;
      s := s + indent + " *";
      if lines[i] != [] {
        s := s + " " + lines[i];
      }
      s := s + "\n";
      assert s == before + DescriptionLine(indent, lines[i]);
      assert lines[..i + 1][..i] == lines[..i];
    }
    assert lines[..|lines|] == lines;
  }

  /** The tag loop of toJava: appends each tag after the indentation. */
  method AppendTags(s0: string, indent: string, tags: seq<BlockTag>, aligned: bool) returns (s: string)
    ensures s == s0 + TagBlock(indent, tags, aligned)
  {
    s := s0;
    for i := 0 to |tags|
      invariant s == s0 + TagBlock(indent, tags[..i], aligned)
    {
      var line := BlockTags.ToJava(tags[i], aligned);
      TagBlockStep(s0, indent, tags, aligned, i, s, line);
      s := s + indent + line;
    }
    assert tags[..|tags|] == tags;
  }

  /** One more tag line after the ones already appended. */
  lemma TagBlockStep(s0: string, indent: string, tags: seq<BlockTag>, aligned: bool, i: nat, s: string, line: string)
    requires i < |tags| && s == s0 + TagBlock(indent, tags[..i], aligned) && line == TagLine(tags[i], aligned)
    ensures s + indent + line == s0 + TagBlock(indent, tags[..i + 1], aligned)
  {
    assert tags[..i + 1][..i] == tags[..i];
    assert TagBlock(indent, tags[..i + 1], aligned) == TagBlock(indent, tags[..i], aligned) + indent + line;
  }

  /** toJava, appending to a builder. */
  method ToJava(c: Comment) returns (s: string)
    ensures s == Render(c)
  {
    if c.SingleLineComment? {
      return RenderSingle(c.description, c.indent);
    }
    s := ToJavaDoc(c.description, c.tags, c.indent);
  }

  /** DocComment.toJava: the opening line, the body, the closing line. */
  method ToJavaDoc(description: string, tags: seq<BlockTag>, indent: string) returns (s: string)
    ensures s == RenderDoc(description, tags, indent)
  {
    if IsBlank(description) && tags == [] {
      return "";
    }
    s := indent + "/**\n";
    s := AppendBody(s, description, tags, indent);
    s := s + indent + " */";
  }

  /** The part of toJava between the opening and the closing line. */
  method AppendBody(s0: string, description: string, tags: seq<BlockTag>, indent: string) returns (s: string)
    ensures s == s0 + DocBody(description, tags, indent)
  {
    s := s0;
    ghost var d := if !IsBlank(description) then DescriptionBlock(indent, Split(OptCrLf, description)) else "";
    if !IsBlank(description) {
      s := AppendDescription(s, indent, Split(OptCrLf, description));
    }
    assert s == s0 + d;
    if tags != [] {
      ghost var separator := if !IsBlank(description) then indent + " *\n" else "";
      if !IsBlank(description) {
        s := s + (indent + " *\n");
      }
      assert s == s0 + d + separator;
      s := AppendTags(s, indent, tags, |tags| > 1);
      Assoc4(s0, d, separator, TagBlock(indent, tags, |tags| > 1));
    } else {
      assert d + "" == d;
    }
  }

  lemma Assoc4(a: string, b: string, c: string, e: string)
    ensures a + b + c + e == a + (b + (c + e))
  {
  }

  /** toJava gives the empty text exactly for a blank description without tags. */
  lemma RenderDocEmptyIff(description: string, tags: seq<BlockTag>, indent: string)
    ensures RenderDoc(description, tags, indent) == "" <==> IsBlank(description) && tags == []
  {
    if !(IsBlank(description) && tags == []) {
      assert |Framed(indent, DocBody(description, tags, indent))| >= |indent + "/**\n"| > 0;
    }
  }

  /** Any other comment opens with the indented `/**` line and closes with the indented ` */`. */
  lemma RenderDocShape(description: string, tags: seq<BlockTag>, indent: string)
    requires !(IsBlank(description) && tags == [])
    ensures var r := RenderDoc(description, tags, indent);
      StartsWith(r, indent + "/**\n") && EndsWith(r, indent + " */")
  {
    FramedShape(indent, DocBody(description, tags, indent));
  }

  lemma FramedShape(indent: string, middle: string)
    ensures var r := Framed(indent, middle);
      StartsWith(r, indent + "/**\n") && EndsWith(r, indent + " */")
  {
    var open, close := indent + "/**\n", indent + " */";
    var r := open + middle + close;
    assert r[..|open|] == open;
    assert r[|r| - |close|..] == close;
  }

  /** An empty description line renders as ` *` alone; a rendered line ends in a space only if its text does. */
  lemma DescriptionLineTrailingSpace(indent: string, line: string)
    ensures line == [] ==> DescriptionLine(indent, line) == indent + " *\n"
    ensures EndsWith(DescriptionLine(indent, line), " \n") <==> line != [] && line[|line| - 1] == ' '
  {
    var r := DescriptionLine(indent, line);
    assert r[|r| - 1] == '\n';
    if line == [] {
      assert r[|r| - 2] == '*';
    } else {
      assert r[|r| - 2] == line[|line| - 1];
    }
    if r[|r| - 2] == ' ' {
      assert r[|r| - 2..] == " \n";
    }
  }

  /** A comment with both a description and tags keeps them apart by exactly one ` *` line. */
  lemma RenderDocSeparator(description: string, tags: seq<BlockTag>, indent: string)
    requires !IsBlank(description) && tags != []
    ensures DocBody(description, tags, indent)
            == DescriptionBlock(indent, Split(OptCrLf, description)) + indent + " *\n" + TagBlock(indent, tags, |tags| > 1)
  {
    var d := DescriptionBlock(indent, Split(OptCrLf, description));
    var t := TagBlock(indent, tags, |tags| > 1);
    assert DocBody(description, tags, indent) == d + ((indent + " *\n") + t);
    Regroup(d, indent, " *\n", t);
  }

  lemma Regroup(a: string, b: string, c: string, d: string)
    ensures a + ((b + c) + d) == a + b + c + d
  {
  }

  /** A comment with a single tag renders the same whatever that tag's original spacing. */
  lemma SingleTagIgnoresSpacing(description: string, tag: BlockTag, spaces: string, indent: string)
    ensures RenderDoc(description, [tag], indent) == RenderDoc(description, [tag.(spaces := spaces)], indent)
  {
    assert TagBlock(indent, [tag], false) == indent + TagLine(tag, false);
    assert TagBlock(indent, [tag.(spaces := spaces)], false) == indent + TagLine(tag.(spaces := spaces), false);
  }

  /** A blank single-line comment renders as nothing. */
  lemma RenderSingleBlank(description: string, indent: string)
    requires IsBlank(description)
    ensures RenderSingle(description, indent) == ""
  {
  }

  /**
   * Any other single-line comment is exactly the indentation, `/** `, the description
   * with at most one period added, and ` */`; the period is added exactly when the
   * description does not end with `.`, `!`, `?` or a URL.
   */
  lemma RenderSingleShape(description: string, indent: string)
    requires !IsBlank(description)
    ensures var e := WithPeriod(description);
      RenderSingle(description, indent) == indent + "/** " + e + " */"
      && (e == description || e == description + ".")
      && (e == description + "." <==>
            !EndsWith(description, ".") && !EndsWith(description, "!") && !EndsWith(description, "?")
            && !Strings.UrlAtEnd(description))
  {
    assert |description + "."| != |description|;
  }

  /** If neither the description nor the indentation holds a line feed, neither does the output. */
  lemma RenderSingleOneLine(description: string, indent: string)
    requires '\n' !in description && '\n' !in indent
    ensures '\n' !in RenderSingle(description, indent)
  {
    if !IsBlank(description) {
      assert '\n' !in WithPeriod(description);
    }
  }
}
