/**
 * The parts of java.lang.String, java.lang.Character and java.util.regex that the
 * Javadoc normaliser relies on, stated over `seq<char>`. Character classes follow
 * Java for code points below 128; every other code point is treated as a character
 * that is neither whitespace, nor a letter, nor upper or lower case.
 */
module JavaText {

  // ---------------------------------------------------------------------------
  // Character classes
  // ---------------------------------------------------------------------------

  /** Character.isWhitespace: space, tab, LF, VT, FF, CR and U+001C..U+001F. */
  predicate IsWhitespace(c: char) {
    c == ' ' || ('\t' <= c <= '\r') || ('\U{1C}' <= c <= '\U{1F}')
  }

  /** The regular-expression class `\s`: space, tab, LF, VT, FF and CR. */
  predicate IsRegexSpace(c: char) {
    c == ' ' || ('\t' <= c <= '\r')
  }

  /** The characters that `.` does not match when no flag is given. */
  predicate IsLineTerminator(c: char) {
    c == '\n' || c == '\r' || c == '\U{85}' || c == '\U{2028}' || c == '\U{2029}'
  }

  /** What String.trim removes: every character up to and including U+0020. */
  predicate IsTrimmable(c: char) {
    c <= ' '
  }

  predicate IsUpper(c: char) { 'A' <= c <= 'Z' }

  predicate IsLower(c: char) { 'a' <= c <= 'z' }

  predicate IsLetterOrDigit(c: char) { IsUpper(c) || IsLower(c) || ('0' <= c <= '9') }

  function ToLower(c: char): (r: char)
    ensures !IsUpper(r)
    ensures IsUpper(c) <==> r != c
  {
    if IsUpper(c) then (c as int + 32) as char else c
  }

  function ToUpper(c: char): (r: char)
    ensures !IsLower(r)
    ensures IsLower(c) <==> r != c
  {
    if IsLower(c) then (c as int - 32) as char else c
  }

  /** String.toLowerCase, character by character. */
  function LowerCase(s: string): (r: string)
    ensures |r| == |s|
    ensures forall i :: 0 <= i < |s| ==> r[i] == ToLower(s[i])
  {
    seq(|s|, i requires 0 <= i < |s| => ToLower(s[i]))
  }

  // ---------------------------------------------------------------------------
  // Searching
  // ---------------------------------------------------------------------------

  /** `sub` occurs in `s` starting at position `i`. */
  predicate IsAt(s: string, sub: string, i: int) {
    0 <= i && i + |sub| <= |s| && s[i..i + |sub|] == sub
  }

  predicate StartsWith(s: string, prefix: string) {
    |prefix| <= |s| && s[..|prefix|] == prefix
  }

  predicate EndsWith(s: string, suffix: string) {
    |suffix| <= |s| && s[|s| - |suffix|..] == suffix
  }

  /** Starting with a one-character string is having that character first. */
  lemma StartsWithChar(s: string, c: char)
    ensures StartsWith(s, [c]) <==> s != [] && s[0] == c
  {
    if s != [] && s[0] == c {
      assert s[..1] == [c];
    }
  }

  /** Ending with a one-character string is having that character last. */
  lemma EndsWithChar(s: string, c: char)
    ensures EndsWith(s, [c]) <==> s != [] && s[|s| - 1] == c
  {
    if s != [] && s[|s| - 1] == c {
      assert s[|s| - 1..] == [c];
    }
  }

  predicate Contains(s: string, sub: string) {
    exists i :: 0 <= i <= |s| && IsAt(s, sub, i)
  }

  /** String.indexOf(sub, from): the first occurrence at or after `from`, or -1. */
  function IndexOf(s: string, sub: string, from: nat): (r: int)
    ensures r == -1 || (from <= r && IsAt(s, sub, r))
    ensures r == -1 ==> forall k :: from <= k ==> !IsAt(s, sub, k)
    ensures r != -1 ==> forall k :: from <= k < r ==> !IsAt(s, sub, k)
    decreases |s| - from
  {
    if from + |sub| > |s| then -1
    else if IsAt(s, sub, from) then from
    else IndexOf(s, sub, from + 1)
  }

  lemma ContainsIndexOf(s: string, sub: string)
    ensures Contains(s, sub) <==> IndexOf(s, sub, 0) != -1
  {
    if Contains(s, sub) {
      var i :| 0 <= i <= |s| && IsAt(s, sub, i);
    }
  }

  /** The first occurrence of a character is found wherever the text before it lacks it. */
  lemma IndexOfFirst(x: string, c: char, y: string)
    requires c !in x
    ensures IndexOf(x + [c] + y, [c], 0) == |x|
  {
    var s := x + [c] + y;
    assert s[|x|..|x| + 1] == [c];
    assert IsAt(s, [c], |x|);
    forall k | 0 <= k < |x|
      ensures !IsAt(s, [c], k)
    {
      assert s[k] == x[k];
    }
  }

  /** A character that does not occur is not found. */
  lemma IndexOfAbsent(s: string, c: char)
    requires c !in s
    ensures IndexOf(s, [c], 0) == -1
  {
    var r := IndexOf(s, [c], 0);
    if r != -1 {
      assert s[r..r + 1][0] == s[r];
    }
  }

  // ---------------------------------------------------------------------------
  // Trimming
  // ---------------------------------------------------------------------------

  function TrimStart(s: string): (r: string)
    ensures |r| <= |s|
    ensures r == [] || !IsTrimmable(r[0])
    ensures forall i :: 0 <= i < |s| - |r| ==> IsTrimmable(s[i])
  {
    if s != [] && IsTrimmable(s[0]) then TrimStart(s[1..]) else s
  }

  /** What TrimStart leaves is a suffix of the text. */
  lemma {:induction false} TrimStartSuffix(s: string)
    ensures TrimStart(s) == s[|s| - |TrimStart(s)|..]
  {
    if s != [] && IsTrimmable(s[0]) {
      TrimStartSuffix(s[1..]);
      assert s[1..][|s| - 1 - |TrimStart(s)|..] == s[|s| - |TrimStart(s)|..];
    }
  }

  function TrimEnd(s: string): (r: string)
    ensures |r| <= |s|
    ensures r == [] || !IsTrimmable(r[|r| - 1])
    ensures forall i :: |r| <= i < |s| ==> IsTrimmable(s[i])
  {
    if s != [] && IsTrimmable(s[|s| - 1]) then TrimEnd(s[..|s| - 1]) else s
  }

  /** What TrimEnd leaves is a prefix of the text. */
  lemma {:induction false} TrimEndPrefix(s: string)
    ensures TrimEnd(s) == s[..|TrimEnd(s)|]
  {
    if s != [] && IsTrimmable(s[|s| - 1]) {
      TrimEndPrefix(s[..|s| - 1]);
      assert s[..|s| - 1][..|TrimEnd(s)|] == s[..|TrimEnd(s)|];
    }
  }

  /** String.trim: drop every leading and trailing character up to U+0020. */
  function Trim(s: string): (r: string)
    ensures |r| <= |s|
    ensures r == [] || (!IsTrimmable(r[0]) && !IsTrimmable(r[|r| - 1]))
  {
    var t := TrimStart(s);
    TrimEndPrefix(t);
    TrimEnd(t)
  }

  /** Trimming text that has no trimmable character at either end changes nothing. */
  lemma TrimNoop(s: string)
    requires s == [] || (!IsTrimmable(s[0]) && !IsTrimmable(s[|s| - 1]))
    ensures Trim(s) == s
  {
  }

  /** Trimming leaves nothing exactly when every character is a space or a control character. */
  lemma {:induction false} TrimEmptyIff(s: string)
    ensures Trim(s) == [] <==> forall i :: 0 <= i < |s| ==> IsTrimmable(s[i])
  {
    if s != [] && IsTrimmable(s[0]) {
      TrimEmptyIff(s[1..]);
      assert forall i :: 1 <= i < |s| ==> s[i] == s[1..][i - 1];
    }
  }

  /** String.stripLeading: drop leading whitespace in the sense of Character.isWhitespace. */
  function StripLeading(s: string): (r: string)
    ensures |r| <= |s|
    ensures r == [] || !IsWhitespace(r[0])
    ensures forall i :: 0 <= i < |s| - |r| ==> IsWhitespace(s[i])
  {
    if s != [] && IsWhitespace(s[0]) then StripLeading(s[1..]) else s
  }

  /** What stripLeading leaves is a suffix of the text. */
  lemma {:induction false} StripLeadingSuffix(s: string)
    ensures StripLeading(s) == s[|s| - |StripLeading(s)|..]
  {
    if s != [] && IsWhitespace(s[0]) {
      StripLeadingSuffix(s[1..]);
      assert s[1..][|s| - 1 - |StripLeading(s)|..] == s[|s| - |StripLeading(s)|..];
    }
  }

  /** String.isBlank. */
  predicate IsBlank(s: string) {
    forall i :: 0 <= i < |s| ==> IsWhitespace(s[i])
  }

  // ---------------------------------------------------------------------------
  // Building
  // ---------------------------------------------------------------------------

  /** " ".repeat(n). */
  function Spaces(n: nat): (r: string)
    ensures |r| == n && forall i :: 0 <= i < n ==> r[i] == ' '
  {
    seq(n, _ => ' ')
  }

  /** String.join(sep, parts). */
  function Join(sep: string, parts: seq<string>): string {
    if parts == [] then []
    else if |parts| == 1 then parts[0]
    else Join(sep, parts[..|parts| - 1]) + sep + parts[|parts| - 1]
  }

  /** Joining one more part adds the separator and that part. */
  lemma JoinSnoc(sep: string, parts: seq<string>, x: string)
    requires parts != []
    ensures Join(sep, parts + [x]) == Join(sep, parts) + sep + x
  {
    assert (parts + [x])[..|parts|] == parts;
  }

  /** String.replace(target, replacement): non-overlapping occurrences, left to right. */
  function Replace(s: string, target: string, replacement: string): string
    requires target != []
  {
    if |s| < |target| then s
    else if IsAt(s, target, 0) then replacement + Replace(s[|target|..], target, replacement)
    else [s[0]] + Replace(s[1..], target, replacement)
  }

  /** String.regionMatches(true, 0, prefix, 0, |prefix|) on a string at least as long as the prefix. */
  predicate StartsWithIgnoreCase(s: string, prefix: string) {
    |prefix| <= |s| && forall i :: 0 <= i < |prefix| ==> ToLower(s[i]) == ToLower(prefix[i])
  }

  /**
   * String.compareToIgnoreCase: the difference of the first pair of differing folded
   * characters, else the difference of the lengths.
   */
  function CompareIgnoreCase(a: string, b: string): int {
    if a == [] || b == [] then |a| - |b|
    else if ToLower(a[0]) != ToLower(b[0]) then ToLower(a[0]) as int - ToLower(b[0]) as int
    else CompareIgnoreCase(a[1..], b[1..])
  }

  lemma {:induction false} CompareIgnoreCaseAntisymmetric(a: string, b: string)
    ensures CompareIgnoreCase(a, b) == -CompareIgnoreCase(b, a)
  {
    if a != [] && b != [] && ToLower(a[0]) == ToLower(b[0]) {
      CompareIgnoreCaseAntisymmetric(a[1..], b[1..]);
    }
  }

  lemma {:induction false} CompareIgnoreCaseTransitive(a: string, b: string, c: string)
    requires CompareIgnoreCase(a, b) <= 0 && CompareIgnoreCase(b, c) <= 0
    ensures CompareIgnoreCase(a, c) <= 0
  {
    if a != [] && b != [] && c != []
      && ToLower(a[0]) == ToLower(b[0]) && ToLower(b[0]) == ToLower(c[0]) {
      CompareIgnoreCaseTransitive(a[1..], b[1..], c[1..]);
    }
  }

  // ---------------------------------------------------------------------------
  // Regular-expression splitting
  // ---------------------------------------------------------------------------

  /** The separators the normaliser hands to String.split. */
  datatype Pattern =
    | Char(c: char)   // a one-character literal such as " " or "\n"
    | OptCrLf         // "\r?\n"
    | LineBreak       // "\R"
    | SpaceRun        // "\s+"

  /** The characters `\R` matches on their own: LF, VT, FF, CR, NEL and the two Unicode separators. */
  predicate IsLineBreak(c: char) {
    c in {'\n', '\U{B}', '\U{C}', '\r', '\U{85}', '\U{2028}', '\U{2029}'}
  }

  /** Length of the match of `p` that starts exactly at position `i` (0 when there is none). */
  function MatchLen(p: Pattern, s: string, i: nat): (k: nat)
    requires i < |s|
    ensures i + k <= |s|
    decreases |s| - i
  {
    match p
    case Char(c) => if s[i] == c then 1 else 0
    case OptCrLf =>
      if s[i] == '\r' && i + 1 < |s| && s[i + 1] == '\n' then 2
      else if s[i] == '\n' then 1 else 0
    case LineBreak =>
      if s[i] == '\r' && i + 1 < |s| && s[i + 1] == '\n' then 2
      else if s[i] in {'\n', '\U{B}', '\U{C}', '\r', '\U{85}', '\U{2028}', '\U{2029}'} then 1
      else 0
    case SpaceRun =>
      if !IsRegexSpace(s[i]) then 0
      else if i + 1 < |s| then 1 + MatchLen(p, s, i + 1) else 1
  }

  /**
   * The pieces between successive leftmost matches of `p`, scanning from `i`, where
   * the current piece started at `start`.
   */
  function Pieces(p: Pattern, s: string, start: nat, i: nat): (r: seq<string>)
    requires start <= i <= |s|
    ensures |r| >= 1
    decreases |s| - i
  {
    if i == |s| then [s[start..]]
    else
      var k := MatchLen(p, s, i);
      if k > 0 then [s[start..i]] + Pieces(p, s, i + k, i + k)
      else Pieces(p, s, start, i + 1)
  }

  function DropTrailingEmpty(parts: seq<string>): (r: seq<string>)
    ensures |r| <= |parts|
    ensures r == [] || r[|r| - 1] != []
    ensures forall i :: |r| <= i < |parts| ==> parts[i] == []
  {
    if parts != [] && parts[|parts| - 1] == [] then DropTrailingEmpty(parts[..|parts| - 1])
    else parts
  }

  /** What DropTrailingEmpty leaves is a prefix of the parts. */
  lemma {:induction false} DropTrailingEmptyPrefix(parts: seq<string>)
    ensures DropTrailingEmpty(parts) == parts[..|DropTrailingEmpty(parts)|]
  {
    if parts != [] && parts[|parts| - 1] == [] {
      DropTrailingEmptyPrefix(parts[..|parts| - 1]);
      assert parts[..|parts| - 1][..|DropTrailingEmpty(parts)|] == parts[..|DropTrailingEmpty(parts)|];
    }
  }

  /**
   * String.split(regex) with limit 0: the input itself when nothing matches, otherwise
   * the pieces with trailing empty strings removed.
   */
  function Split(p: Pattern, s: string): seq<string> {
    var pieces := Pieces(p, s, 0, 0);
    if |pieces| == 1 then pieces else DropTrailingEmpty(pieces)
  }

  /** String.split(String.valueOf(sep), 3): at most two cuts, trailing empty strings kept. */
  function SplitLimit3(s: string, sep: char): (r: seq<string>)
    ensures 1 <= |r| <= 3
    ensures StartsWith(s, r[0])
  {
    var i := IndexOf(s, [sep], 0);
    if i < 0 then [s]
    else
      var rest := s[i + 1..];
      var j := IndexOf(rest, [sep], 0);
      if j < 0 then [s[..i], rest] else [s[..i], rest[..j], rest[j + 1..]]
  }

  /** Splitting `a sep b sep c`, with no separator in `a` or `b`, gives the three parts. */
  lemma SplitLimit3Three(a: string, b: string, c: string, sep: char)
    requires sep !in a && sep !in b
    ensures SplitLimit3(a + [sep] + b + [sep] + c, sep) == [a, b, c]
  {
    var s := a + [sep] + b + [sep] + c;
    var tail := b + [sep] + c;
    assert s == a + [sep] + tail;
    IndexOfFirst(a, sep, tail);
    assert s[..|a|] == a;
    assert s[|a| + 1..] == tail;
    IndexOfFirst(b, sep, c);
    assert tail[..|b|] == b;
    assert tail[|b| + 1..] == c;
  }

  /** Splitting `a sep b`, with no separator in `a` or `b`, gives the two parts. */
  lemma SplitLimit3Two(a: string, b: string, sep: char)
    requires sep !in a && sep !in b
    ensures SplitLimit3(a + [sep] + b, sep) == [a, b]
  {
    var s := a + [sep] + b;
    IndexOfFirst(a, sep, b);
    assert s[..|a|] == a;
    assert s[|a| + 1..] == b;
    IndexOfAbsent(b, sep);
  }

  /** A text without the separator is not split. */
  lemma SplitLimit3One(a: string, sep: char)
    requires sep !in a
    ensures SplitLimit3(a, sep) == [a]
  {
    IndexOfAbsent(a, sep);
  }

  // ---------------------------------------------------------------------------
  // Joining and splitting lines
  // ---------------------------------------------------------------------------

  /** Joining a part in front of at least one more adds that part and the separator. */
  lemma {:induction false} JoinCons(sep: string, x: string, rest: seq<string>)
    requires rest != []
    ensures Join(sep, [x] + rest) == x + sep + Join(sep, rest)
    decreases |rest|
  {
    var parts := [x] + rest;
    assert parts[..|parts| - 1] == [x] + rest[..|rest| - 1];
    if |rest| == 1 {
      assert parts[..|parts| - 1] == [x];
    } else {
      JoinCons(sep, x, rest[..|rest| - 1]);
    }
  }

  /** A character in neither the separator nor any part is not in the joined text. */
  lemma {:induction false} JoinAvoids(sep: string, parts: seq<string>, c: char)
    requires c !in sep
    requires forall k :: 0 <= k < |parts| ==> c !in parts[k]
    ensures c !in Join(sep, parts)
    decreases |parts|
  {
    if |parts| > 1 {
      JoinAvoids(sep, parts[..|parts| - 1], c);
    }
  }

  /** Containing a one-character string is containing that character. */
  lemma ContainsChar(s: string, c: char)
    ensures Contains(s, [c]) <==> c in s
  {
    if c in s {
      var i :| 0 <= i < |s| && s[i] == c;
      assert s[i..i + 1] == [c];
      assert IsAt(s, [c], i);
    }
    if Contains(s, [c]) {
      var i :| 0 <= i <= |s| && IsAt(s, [c], i);
      assert s[i..i + 1][0] == s[i];
    }
  }

  /** Replacing a character by itself changes nothing. */
  lemma {:induction false} ReplaceByItself(s: string, c: char)
    ensures Replace(s, [c], [c]) == s
    decreases |s|
  {
    if |s| >= 1 {
      ReplaceByItself(s[1..], c);
      if IsAt(s, [c], 0) {
        assert s == [c] + s[1..];
      } else {
        assert s == [s[0]] + s[1..];
      }
    }
  }

  /** With no match from `i` on, the current piece runs to the end of the text. */
  lemma {:induction false} PiecesWithoutMatch(p: Pattern, s: string, start: nat, i: nat)
    requires start <= i <= |s|
    requires forall j :: i <= j < |s| ==> MatchLen(p, s, j) == 0
    ensures Pieces(p, s, start, i) == [s[start..]]
    decreases |s| - i
  {
    if i < |s| {
      PiecesWithoutMatch(p, s, start, i + 1);
    }
  }

  /** No match at `i`: the current piece goes on. */
  lemma PiecesSkip(p: Pattern, s: string, start: nat, i: nat)
    requires start <= i < |s| && MatchLen(p, s, i) == 0
    ensures Pieces(p, s, start, i) == Pieces(p, s, start, i + 1)
  {
  }

  /** A match at `i`: the current piece ends there and the next starts after the match. */
  lemma PiecesCut(p: Pattern, s: string, start: nat, i: nat, k: nat)
    requires start <= i < |s| && k == MatchLen(p, s, i) && k > 0
    ensures Pieces(p, s, start, i) == [s[start..i]] + Pieces(p, s, i + k, i + k)
  {
  }

  /** The first match at or after `i`, at `m`, ends the current piece. */
  lemma {:induction false} PiecesUpToMatch(p: Pattern, s: string, start: nat, i: nat, m: nat)
    requires start <= i <= m < |s|
    requires forall j :: i <= j < m ==> MatchLen(p, s, j) == 0
    requires MatchLen(p, s, m) > 0
    ensures var k := MatchLen(p, s, m);
      Pieces(p, s, start, i) == [s[start..m]] + Pieces(p, s, m + k, m + k)
    decreases m - i
  {
    if i < m {
      PiecesSkip(p, s, start, i);
      PiecesUpToMatch(p, s, start, i + 1, m);
    } else {
      PiecesCut(p, s, start, m, MatchLen(p, s, m));
    }
  }

  /** Every character of the line is outside the `\R` class. */
  predicate NoLineBreak(line: string) {
    forall i :: 0 <= i < |line| ==> !IsLineBreak(line[i])
  }

  /** Inside a line without line breaks, `\R` matches nowhere. */
  lemma NoMatchInLine(s: string, start: nat, line: string, j: nat)
    requires start <= j < start + |line| <= |s| && s[start..start + |line|] == line && NoLineBreak(line)
    ensures MatchLen(LineBreak, s, j) == 0
  {
    assert s[j] == s[start..start + |line|][j - start] == line[j - start];
    assert !IsLineBreak(line[j - start]);
  }

  /** A single line without line breaks, up to the end of the text, is one piece. */
  lemma PiecesOfOneLine(s: string, start: nat, line: string)
    requires start <= |s| && s[start..] == line && NoLineBreak(line)
    ensures Pieces(LineBreak, s, start, start) == [line]
  {
    assert s[start..start + |line|] == line;
    forall j | start <= j < |s|
      ensures MatchLen(LineBreak, s, j) == 0
    {
      NoMatchInLine(s, start, line, j);
    }
    PiecesWithoutMatch(LineBreak, s, start, start);
  }

  /** The first of several joined lines is cut off at the line feed that follows it. */
  lemma PiecesOfFirstLine(s: string, start: nat, lines: seq<string>)
    requires start <= |s| && |lines| > 1 && NoLineBreak(lines[0])
    requires s[start..] == Join("\n", lines)
    ensures var m := start + |lines[0]|;
      m < |s| && s[m + 1..] == Join("\n", lines[1..])
      && Pieces(LineBreak, s, start, start) == [lines[0]] + Pieces(LineBreak, s, m + 1, m + 1)
  {
    JoinCons("\n", lines[0], lines[1..]);
    assert [lines[0]] + lines[1..] == lines;
    var m := start + |lines[0]|;
    assert s[start..] == lines[0] + "\n" + Join("\n", lines[1..]);
    assert s[m] == s[start..][|lines[0]|] == '\n';
    assert s[start..m] == s[start..][..|lines[0]|] == lines[0];
    forall j | start <= j < m
      ensures MatchLen(LineBreak, s, j) == 0
    {
      NoMatchInLine(s, start, lines[0], j);
    }
    assert MatchLen(LineBreak, s, m) == 1;
    PiecesUpToMatch(LineBreak, s, start, start, m);
    assert s[m + 1..] == s[start..][|lines[0]| + 1..];
  }

  /** Lines joined by line feeds, from `start` on, are cut back into those lines. */
  lemma {:induction false} PiecesOfJoinedLines(s: string, start: nat, lines: seq<string>)
    requires start <= |s| && lines != []
    requires forall k :: 0 <= k < |lines| ==> NoLineBreak(lines[k])
    requires s[start..] == Join("\n", lines)
    ensures Pieces(LineBreak, s, start, start) == lines
    decreases |lines|
  {
    if |lines| == 1 {
      PiecesOfOneLine(s, start, lines[0]);
    } else {
      PiecesOfFirstLine(s, start, lines);
      PiecesOfJoinedLines(s, start + |lines[0]| + 1, lines[1..]);
      assert [lines[0]] + lines[1..] == lines;
    }
  }

  /**
   * Splitting lines joined by line feeds on `\R` gives the lines back, less the empty
   * lines at the end when there are at least two.
   */
  lemma SplitJoinedLines(lines: seq<string>)
    requires lines != []
    requires forall k :: 0 <= k < |lines| ==> NoLineBreak(lines[k])
    ensures Split(LineBreak, Join("\n", lines)) == if |lines| == 1 then lines else DropTrailingEmpty(lines)
  {
    var s := Join("\n", lines);
    assert s[0..] == s;
    PiecesOfJoinedLines(s, 0, lines);
  }

  /** A character absent from the text is absent from every piece. */
  lemma {:induction false} PiecesAvoid(p: Pattern, s: string, start: nat, i: nat, c: char)
    requires start <= i <= |s| && c !in s
    ensures forall x :: x in Pieces(p, s, start, i) ==> c !in x
    decreases |s| - i
  {
    if i < |s| {
      var k := MatchLen(p, s, i);
      if k > 0 {
        PiecesAvoid(p, s, i + k, i + k, c);
      } else {
        PiecesAvoid(p, s, start, i + 1, c);
      }
    }
  }

  /** A character absent from the text is absent from every string split gives. */
  lemma SplitAvoids(p: Pattern, s: string, c: char)
    requires c !in s
    ensures forall k :: 0 <= k < |Split(p, s)| ==> c !in Split(p, s)[k]
  {
    var pieces := Pieces(p, s, 0, 0);
    PiecesAvoid(p, s, 0, 0, c);
    DropTrailingEmptyPrefix(pieces);
    var r := Split(p, s);
    forall k | 0 <= k < |r|
      ensures c !in r[k]
    {
      assert r[k] == pieces[k];
      assert pieces[k] in pieces;
    }
  }
}
