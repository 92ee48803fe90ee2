/**
 * Text classifiers of the normaliser: the width of a line's indentation, the line
 * ending a text uses, and the heuristic that decides whether a text ends with a URL.
 */
module Strings {
  import opened JavaText
  import opened Wrappers

  // ---------------------------------------------------------------------------
  // Indentation
  // ---------------------------------------------------------------------------

  predicate IsIndentChar(c: char) { c == ' ' || c == '\t' }

  /** Length of the longest prefix of `s` made only of spaces and tabs. */
  function LeadingIndentLength(s: string): (k: nat)
    ensures k <= |s|
    ensures forall i :: 0 <= i < k ==> IsIndentChar(s[i])
    ensures k == |s| || !IsIndentChar(s[k])
  {
    if s != [] && IsIndentChar(s[0]) then 1 + LeadingIndentLength(s[1..]) else 0
  }

  function Occurrences(s: string, c: char): (n: nat)
    ensures n <= |s|
  {
    if s == [] then 0 else Occurrences(s[..|s| - 1], c) + (if s[|s| - 1] == c then 1 else 0)
  }

  lemma {:induction false} OccurrencesOfTwo(s: string, a: char, b: char)
    requires a != b
    ensures Occurrences(s, a) + Occurrences(s, b) <= |s|
  {
    if s != [] {
      OccurrencesOfTwo(s[..|s| - 1], a, b);
    }
  }

  /**
   * The indentation of `s` in columns: the spaces plus four times the tabs of its
   * leading run of spaces and tabs.
   */
  function IndentWidth(s: string): (w: nat)
    ensures w <= 4 * |s|
    ensures s == [] || !IsIndentChar(s[0]) ==> w == 0
  {
    var k := LeadingIndentLength(s);
    OccurrencesOfTwo(s[..k], ' ', '\t');
    Occurrences(s[..k], ' ') + 4 * Occurrences(s[..k], '\t')
  }

  /** Strings.findIndent: walks the leading spaces and tabs, a tab counting as four. */
  method FindIndent(s: string) returns (indent: nat)
    ensures indent == IndentWidth(s)
  {
    indent := 0;
    for i := 0 to |s|
      invariant forall j :: 0 <= j < i ==> IsIndentChar(s[j])
      invariant indent == Occurrences(s[..i], ' ') + 4 * Occurrences(s[..i], '\t')
    {
      assert s[..i + 1][..i] == s[..i];
      if s[i] == ' ' {
        indent := indent + 1;
      } else if s[i] == '\t' {
        indent := indent + 4;
      } else {
        assert LeadingIndentLength(s) == i by { LeadingIndentLengthAt(s, i); }
        return;
      }
    }
    assert s[..|s|] == s;
    assert LeadingIndentLength(s) == |s| by { LeadingIndentLengthAt(s, |s|); }
  }

  lemma LeadingIndentLengthAt(s: string, i: nat)
    requires i <= |s|
    requires forall j :: 0 <= j < i ==> IsIndentChar(s[j])
    requires i == |s| || !IsIndentChar(s[i])
    ensures LeadingIndentLength(s) == i
  {
  }

  // ---------------------------------------------------------------------------
  // Line endings
  // ---------------------------------------------------------------------------

  /** Strings.detectLineEnding: CRLF if it occurs anywhere, else CR if any, else LF. */
  function DetectLineEnding(code: string): (r: string)
    ensures r == "\r\n" || r == "\r" || r == "\n"
    ensures r == "\r\n" <==> Contains(code, "\r\n")
    ensures r == "\r" <==> Contains(code, "\r") && !Contains(code, "\r\n")
    ensures r == "\n" <==> !Contains(code, "\r")
    ensures r != "\n" ==> Contains(code, r)
  {
    if Contains(code, "\r\n") then
      var i :| 0 <= i <= |code| && IsAt(code, "\r\n", i);
      assert code[i] == '\r';
      assert code[i..i + 1] == "\r";
      assert IsAt(code, "\r", i);
      "\r\n"
    else if Contains(code, "\r") then "\r"
    else "\n"
  }

  // ---------------------------------------------------------------------------
  // URLs
  // ---------------------------------------------------------------------------

  const UrlSchemes: seq<string> := ["http://", "https://", "ftp://", "ftps://", "file://", "mailto:"]

  /**
   * The top-level domains isLikelyDomain lists, in the source's order. Every entry of
   * the source's table is a dot followed by one of these names (".com", ".org", ...).
   */
  const TldNames: seq<string> := [
    "com", "org", "net", "edu", "gov", "mil", "info", "biz",
    "co", "io", "ly", "me", "tv", "cc", "ws", "in", "uk",
    "de", "fr", "jp", "cn", "au", "ca", "ru", "br", "it",
    "nl", "es", "se", "no", "dk", "fi", "pl", "ch", "be",
    "cz", "at", "hu", "sk", "si", "hr", "bg", "ro", "gr",
    "pt", "ie", "lv", "lt", "ee", "is", "mt", "cy", "lu"
  ]

  /** The lower-cased word ends with `.name`, optionally followed by a slash. */
  predicate EndsWithTld(lowerWord: string, name: string) {
    EndsWith(lowerWord, "." + name) || EndsWith(lowerWord, "." + name + "/")
  }

  /** Some listed TLD ends the lower-cased word, optionally followed by a slash. */
  predicate EndsWithListedTld(lowerWord: string) {
    exists i :: 0 <= i < |TldNames| && EndsWithTld(lowerWord, TldNames[i])
  }

  /** Strings.isLikelyDomain, as the source states it: a dot, and a listed TLD at the end. */
  predicate LikelyDomain(word: string) {
    Contains(word, ".") && EndsWithListedTld(LowerCase(word))
  }

  /** Strings.isLikelyDomain: the dot test, then the TLD table in order, returning at the first match. */
  method IsLikelyDomain(word: string) returns (b: bool)
    ensures b == LikelyDomain(word)
  {
    if !Contains(word, ".") {
      return false;
    }
    var lowerWord := LowerCase(word);
    for i := 0 to |TldNames|
      invariant forall j :: 0 <= j < i ==> !EndsWithTld(lowerWord, TldNames[j])
    {
      var tld := "." + TldNames[i];
      if EndsWith(lowerWord, tld) || EndsWith(lowerWord, tld + "/") {
        assert EndsWithTld(lowerWord, TldNames[i]);
        return true;
      }
    }
    return false;
  }

  /**
   * The dot test in isLikelyDomain is implied by the TLD test: every TLD starts with a
   * dot, and lower-casing never produces a dot. So a word is a likely domain exactly
   * when, lower-cased, it ends with a listed TLD, optionally followed by a slash.
   */
  lemma LikelyDomainIff(word: string)
    ensures LikelyDomain(word) <==> EndsWithListedTld(LowerCase(word))
  {
    var lw := LowerCase(word);
    if EndsWithListedTld(lw) {
      var i :| 0 <= i < |TldNames| && EndsWithTld(lw, TldNames[i]);
      DotBeforeTld(word, TldNames[i]);
    }
  }

  lemma DotBeforeTld(word: string, name: string)
    requires EndsWithTld(LowerCase(word), name)
    ensures Contains(word, ".")
  {
    var lw := LowerCase(word);
    var tld := "." + name;
    var at := if EndsWith(lw, tld) then |lw| - |tld| else |lw| - |tld| - 1;
    assert lw[at] == '.' by {
      if EndsWith(lw, tld) {
        assert lw[at..][0] == tld[0];
      } else {
        assert lw[at..][0] == (tld + "/")[0];
      }
    }
    assert word[at] == '.';
    assert word[at..at + 1] == ".";
    assert IsAt(word, ".", at);
  }

  /** The last token of `text` once trimmed and split at runs of `\s`, if any. */
  function LastToken(text: string): Option<string> {
    var trimmed := Trim(text);
    if trimmed == [] then None
    else
      var words := Split(SpaceRun, trimmed);
      if |words| == 0 then None else Some(words[|words| - 1])
  }

  /** The token contains one of the listed URL schemes. */
  predicate HasScheme(token: string) {
    exists i :: 0 <= i < |UrlSchemes| && Contains(token, UrlSchemes[i])
  }

  /** The tests endsWithURL applies to the last token, in the source's order. */
  predicate LooksLikeUrl(token: string) {
    HasScheme(token)
    || StartsWith(token, "www.") || StartsWith(token, "ftp.")
    || (Contains(token, ".") && LikelyDomain(token))
  }

  /** Strings.endsWithURL, as a predicate on the text. */
  predicate UrlAtEnd(text: string) {
    LastToken(text).Some? && LooksLikeUrl(LastToken(text).value)
  }

  /** Strings.endsWithURL: finds the last token and tries schemes, prefixes and domains in turn. */
  method EndsWithURL(text: string) returns (b: bool)
    ensures b == UrlAtEnd(text)
  {
    if Trim(text) == [] {
      return false;
    }
    var trimmed := Trim(text);
    var words := Split(SpaceRun, trimmed);
    if |words| == 0 {
      return false;
    }
    var lastWord := words[|words| - 1];
    assert LastToken(text) == Some(lastWord);
    for i := 0 to |UrlSchemes|
      invariant forall j :: 0 <= j < i ==> !Contains(lastWord, UrlSchemes[j])
    {
      if Contains(lastWord, UrlSchemes[i]) {
        assert HasScheme(lastWord);
        return true;
      }
    }
    assert !HasScheme(lastWord);
    if StartsWith(lastWord, "www.") || StartsWith(lastWord, "ftp.") {
      return true;
    }
    if Contains(lastWord, ".") {
      var domain := IsLikelyDomain(lastWord);
      if domain {
        return true;
      }
    }
    return false;
  }

  /**
   * endsWithURL in terms of the last token alone: a scheme anywhere in it, a `www.` or
   * `ftp.` prefix, or a listed TLD at its end (the dot test being redundant).
   */
  lemma UrlAtEndCases(text: string)
    ensures UrlAtEnd(text) <==>
      (LastToken(text).Some? &&
       (HasScheme(LastToken(text).value)
        || StartsWith(LastToken(text).value, "www.") || StartsWith(LastToken(text).value, "ftp.")
        || EndsWithListedTld(LowerCase(LastToken(text).value))))
  {
    if LastToken(text).Some? {
      LikelyDomainIff(LastToken(text).value);
    }
  }

  /** Empty or whitespace-only text never ends with a URL. */
  lemma BlankHasNoUrl(text: string)
    requires IsBlank(text)
    ensures LastToken(text) == None
    ensures !UrlAtEnd(text)
  {
    BlankTrimsToEmpty(text);
  }

  lemma {:induction false} BlankTrimsToEmpty(text: string)
    requires IsBlank(text)
    ensures TrimStart(text) == [] && Trim(text) == []
  {
    if text != [] {
      assert IsWhitespace(text[0]);
      BlankTrimsToEmpty(text[1..]);
    }
  }

  /** A token: nonempty, and no character of it is whitespace or a control character. */
  predicate IsToken(w: string) {
    w != [] && forall i :: 0 <= i < |w| ==> !IsTrimmable(w[i])
  }

  /**
   * Only the last token counts: whatever precedes a token and the whitespace before it,
   * a scheme or a domain in it included, the last token of the text is that token.
   */
  lemma LastTokenAfterSpace(prefix: string, sep: char, w: string)
    requires IsRegexSpace(sep) && IsToken(w)
    ensures LastToken(prefix + [sep] + w) == Some(w)
    ensures UrlAtEnd(prefix + [sep] + w) == LooksLikeUrl(w)
  {
    var s := prefix + [sep] + w;
    var n := |s|;
    assert s[n - |w|..] == w;
    assert s[n - |w| - 1] == sep;
    TrimKeepsToken(s, w);
    var t := Trim(s);
    if |t| == |w| {
      assert t == w;
      NoSpaceSinglePiece(w, 0, 0);
    } else {
      assert t[|t| - |w|..] == w;
      assert t[|t| - |w| - 1] == sep;
      SplitLastIsToken(t, w);
    }
  }

  /** Trimming text that ends with a token keeps the token and what precedes it untrimmed. */
  lemma TrimKeepsToken(s: string, w: string)
    requires IsToken(w) && |w| <= |s| && s[|s| - |w|..] == w
    ensures |w| <= |Trim(s)| && Trim(s) == s[|s| - |Trim(s)|..]
  {
    var n := |s|;
    var lead := TrimStart(s);
    TrimStartSuffix(s);
    TrimEndPrefix(lead);
    assert s[n - |w|] == w[0] && !IsTrimmable(s[n - |w|]);
    assert |lead| >= |w|;
    assert lead[|lead| - 1] == s[n - 1] == w[|w| - 1];
    assert TrimEnd(lead) == lead;
  }

  lemma LastTokenOfToken(w: string)
    requires IsToken(w)
    ensures LastToken(w) == Some(w)
    ensures UrlAtEnd(w) == LooksLikeUrl(w)
  {
    assert TrimStart(w) == w;
    assert TrimEnd(w) == w;
    NoSpaceSinglePiece(w, 0, 0);
  }

  lemma {:induction false} SpaceRunEnd(s: string, i: nat)
    requires i < |s| && IsRegexSpace(s[i])
    ensures var k := MatchLen(SpaceRun, s, i);
      k >= 1 && (forall j :: i <= j < i + k ==> IsRegexSpace(s[j]))
      && (i + k == |s| || !IsRegexSpace(s[i + k]))
    decreases |s| - i
  {
    if i + 1 < |s| && IsRegexSpace(s[i + 1]) {
      SpaceRunEnd(s, i + 1);
    }
  }

  lemma {:induction false} NoSpaceSinglePiece(s: string, start: nat, i: nat)
    requires start <= i <= |s|
    requires forall j :: i <= j < |s| ==> !IsRegexSpace(s[j])
    ensures Pieces(SpaceRun, s, start, i) == [s[start..]]
    decreases |s| - i
  {
    if i < |s| {
      NoSpaceSinglePiece(s, start, i + 1);
    }
  }

  lemma {:induction false} LastPieceIsToken(s: string, w: string, start: nat, i: nat)
    requires IsToken(w) && |w| < |s| && s[|s| - |w|..] == w
    requires IsRegexSpace(s[|s| - |w| - 1])
    requires start <= i < |s| - |w|
    ensures var ps := Pieces(SpaceRun, s, start, i); ps[|ps| - 1] == w
    decreases |s| - i
  {
    var n := |s|;
    var b := n - |w|;
    assert forall j :: b <= j < n ==> s[j] == w[j - b];
    if IsRegexSpace(s[i]) {
      SpaceRunEnd(s, i);
      var k := MatchLen(SpaceRun, s, i);
      if i + k < b {
        LastPieceIsToken(s, w, i + k, i + k);
      } else {
        NoSpaceSinglePiece(s, b, b);
      }
    } else {
      assert i + 1 < b;
      LastPieceIsToken(s, w, start, i + 1);
    }
  }

  lemma SplitLastIsToken(s: string, w: string)
    requires IsToken(w) && |w| < |s| && s[|s| - |w|..] == w
    requires IsRegexSpace(s[|s| - |w| - 1])
    ensures var words := Split(SpaceRun, s); |words| >= 1 && words[|words| - 1] == w
  {
    LastPieceIsToken(s, w, 0, 0);
    var ps := Pieces(SpaceRun, s, 0, 0);
    if |ps| > 1 {
      assert DropTrailingEmpty(ps) == ps;
    }
  }
}
