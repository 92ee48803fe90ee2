/**
 * Block tags (`@param x the value`, `@return the sum`, ...): how a tag line is cut into
 * kind, argument, text and spacing, how the constructor normalises the text, and how a
 * tag is rendered back as one comment line.
 */
module BlockTags {
  import opened JavaText
  import opened Wrappers
  import Strings

  /**
   * A block tag. `kind` is the tag name without `@`; `argument` is the parameter or
   * exception name of tags that take one; `spaces` is the spacing found between the
   * argument and the text, used when the tags of a comment are aligned.
   */
  datatype BlockTag = BlockTag(kind: string, argument: Option<string>, text: string, spaces: string)

  /** The kinds whose second word is part of the text rather than an argument. */
  const NoArgumentTags: set<string> :=
    {"return", "deprecated", "author", "serial", "see", "serialData", "since", "version"}

  /** First words that stay capitalised whatever the name lookup says. */
  const ProperNouns: set<string> := {"Java"}

  /** Abbreviations whose final period is kept at the end of a tag's text. */
  const Abbreviations: seq<string> := [
    "Inc.", "Ltd.", "Corp.", "Co.", "LLC.", "LLP.", "LP.",
    "Jr.", "Sr.", "Esq.",
    "Dr.", "Mr.", "Mrs.", "Ms.", "Miss.", "Prof.",
    "Ph.D.", "M.D.", "M.B.A.", "B.A.", "B.S.", "M.A.", "M.S.",
    "Ave.", "St.", "Rd.", "Blvd.", "Dept.", "Univ.",
    "etc.", "e.g.", "i.e.", "cf.", "vs.", "vol.", "no.", "pp."
  ]

  // ---------------------------------------------------------------------------
  // The first word of a text
  // ---------------------------------------------------------------------------

  /** Length of the longest prefix of `s` with no whitespace character. */
  function WordLength(s: string): (k: nat)
    ensures k <= |s|
    ensures forall i :: 0 <= i < k ==> !IsWhitespace(s[i])
    ensures k == |s| || IsWhitespace(s[k])
  {
    if s != [] && !IsWhitespace(s[0]) then 1 + WordLength(s[1..]) else 0
  }

  lemma WordLengthAt(s: string, i: nat)
    requires i <= |s|
    requires forall j :: 0 <= j < i ==> !IsWhitespace(s[j])
    requires i == |s| || IsWhitespace(s[i])
    ensures WordLength(s) == i
  {
  }

  /** The longest prefix of `s` without whitespace, so the word is followed by whitespace or the end. */
  function Word(s: string): (w: string)
    ensures |w| <= |s| && w == s[..|w|]
    ensures forall i :: 0 <= i < |w| ==> !IsWhitespace(w[i])
    ensures |w| == |s| || IsWhitespace(s[|w|])
  {
    s[..WordLength(s)]
  }

  /** The first word of the trimmed text. */
  function FirstWord(text: string): string {
    Word(Trim(text))
  }

  /** BlockTag.extractFirstWord: trims, then advances an end index up to the first whitespace. */
  method ExtractFirstWord(text: string) returns (word: string)
    ensures word == FirstWord(text)
  {
    var trimmed := Trim(text);
    var endIndex := 0;
    while endIndex < |trimmed| && !IsWhitespace(trimmed[endIndex])
      invariant endIndex <= |trimmed|
      invariant forall j :: 0 <= j < endIndex ==> !IsWhitespace(trimmed[j])
    {
      endIndex := endIndex + 1;
    }
    WordLengthAt(trimmed, endIndex);
    word := trimmed[..endIndex];
  }

  /** An acronym: three or more characters, none of them lower case. */
  predicate Acronym(word: string) {
    |word| >= 3 && forall i :: 0 <= i < |word| ==> !IsLower(word[i])
  }

  /** BlockTag.isAcronym: the length test, then a scan for a lower-case character. */
  method IsAcronym(word: string) returns (b: bool)
    ensures b == Acronym(word)
  {
    if |word| < 3 {
      return false;
    }
    for i := 0 to |word|
      invariant forall j :: 0 <= j < i ==> !IsLower(word[j])
    {
      if IsLower(word[i]) {
        return false;
      }
    }
    return true;
  }

  // ---------------------------------------------------------------------------
  // When the first letter is lower-cased
  // ---------------------------------------------------------------------------

  /** An upper-case letter after the first character of the text's first word. */
  predicate SecondCapital(text: string) {
    exists i :: 1 <= i < WordLength(text) && IsUpper(text[i])
  }

  /**
   * BlockTag.shouldLowerCase: the kind is not author, see or deprecated; the text
   * starts with a capital; its first word is not Java, not a name, not an acronym; and
   * no other capital follows in that word. `isName` stands for Names.isName.
   */
  predicate LowerCaseWanted(kind: string, text: string, isName: string -> bool)
    requires text != []
  {
    kind != "author" && kind != "see" && kind != "deprecated"
    && IsUpper(text[0])
    && FirstWord(text) !in ProperNouns
    && !isName(FirstWord(text))
    && !Acronym(FirstWord(text))
    && !SecondCapital(text)
  }

  /** BlockTag.shouldLowerCase: the early exits, then a scan of the first word for a capital. */
  method ShouldLowerCase(kind: string, text: string, isName: string -> bool) returns (b: bool)
    requires text != []
    ensures b == LowerCaseWanted(kind, text, isName)
  {
    if kind == "author" || kind == "see" || kind == "deprecated" {
      return false;
    }
    if !IsUpper(text[0]) {
      return false;
    }
    var firstWord := ExtractFirstWord(text);
    if firstWord in ProperNouns {
      return false;
    }
    if isName(firstWord) {
      return false;
    }
    var acronym := IsAcronym(firstWord);
    if acronym {
      return false;
    }
    for i := 1 to |text|
      invariant forall j :: 1 <= j < i ==> !IsWhitespace(text[j]) && !IsUpper(text[j])
    {
      if IsWhitespace(text[i]) {
        WordLengthAt(text, i);
        return true;
      }
      if IsUpper(text[i]) {
        assert WordLength(text) == |text| || IsWhitespace(text[WordLength(text)]);
        return false;
      }
    }
    WordLengthAt(text, |text|);
    return true;
  }

  // ---------------------------------------------------------------------------
  // Abbreviations
  // ---------------------------------------------------------------------------

  /** BlockTag.endsWithAbbreviation: non-empty, three or more characters once trimmed, a listed ending. */
  predicate AbbreviationAtEnd(text: string) {
    text != []
    && |Trim(text)| >= 3
    && exists i :: 0 <= i < |Abbreviations| && EndsWith(Trim(text), Abbreviations[i])
  }

  /** BlockTag.endsWithAbbreviation: the early exits, then a scan of the abbreviation table. */
  method EndsWithAbbreviation(text: string) returns (b: bool)
    ensures b == AbbreviationAtEnd(text)
  {
    if text == [] {
      return false;
    }
    var trimmed := Trim(text);
    if |trimmed| < 3 {
      return false;
    }
    for i := 0 to |Abbreviations|
      invariant forall j :: 0 <= j < i ==> !EndsWith(trimmed, Abbreviations[j])
    {
      if EndsWith(trimmed, Abbreviations[i]) {
        return true;
      }
    }
    return false;
  }

  lemma AbbreviationLength(i: nat)
    requires i < |Abbreviations|
    ensures |Abbreviations[i]| >= 3
  {
    if i < 10 {
    } else if i < 20 {
    } else if i < 30 {
    } else {
    }
  }

  /**
   * The two early exits of endsWithAbbreviation are implied by the table test: every
   * abbreviation has at least three characters. So the text ends with an abbreviation
   * exactly when its trimmed form ends with a listed one.
   */
  lemma AbbreviationAtEndIff(text: string)
    ensures AbbreviationAtEnd(text)
        <==> exists i :: 0 <= i < |Abbreviations| && EndsWith(Trim(text), Abbreviations[i])
  {
    if i :| 0 <= i < |Abbreviations| && EndsWith(Trim(text), Abbreviations[i]) {
      AbbreviationLength(i);
    }
  }

  // ---------------------------------------------------------------------------
  // The constructor's normalisation chain
  // ---------------------------------------------------------------------------

  /** Step 1: `exception` is written `throws`. */
  function CanonicalKind(kind: string): string {
    if kind == "exception" then "throws" else kind
  }

  /** Step 2: a leading `- ` bullet is dropped and the rest trimmed. */
  function DropBullet(text: string): (r: string)
    ensures |r| <= |text|
  {
    if StartsWith(text, "- ") then Trim(text[2..]) else text
  }

  /** Step 3: in `@return` text, a leading `returns ` or else `return ` (any case) is dropped. */
  function DropReturnWord(kind: string, text: string): (r: string)
    ensures |r| <= |text|
  {
    if kind == "return" && text != [] then
      if |text| > 8 && StartsWithIgnoreCase(text, "returns ") then text[8..]
      else if |text| > 7 && StartsWithIgnoreCase(text, "return ") then text[7..]
      else text
    else text
  }

  /** Step 4: the first character is lower-cased when shouldLowerCase says so. */
  function LowerFirst(kind: string, text: string, isName: string -> bool): (r: string)
    ensures |r| == |text|
  {
    if text != [] && LowerCaseWanted(kind, text, isName) then [ToLower(text[0])] + text[1..]
    else text
  }

  /** Whether step 5 drops the final period: one sentence, not deprecated, no abbreviation. */
  predicate PeriodDropped(kind: string, text: string) {
    !Contains(text, ". ") && !Contains(text, ".\n") && EndsWith(text, ".")
    && kind != "deprecated" && !AbbreviationAtEnd(text)
  }

  /** Trimming keeps a final period. */
  lemma PeriodSurvivesTrim(text: string)
    requires EndsWith(text, ".")
    ensures |Trim(text)| >= 1 && Trim(text)[|Trim(text)| - 1] == '.'
  {
    Strings.TrimKeepsToken(text, ".");
  }

  /** Step 5: the trimmed text without its final period, when PeriodDropped holds. */
  function DropPeriod(kind: string, text: string): (r: string)
    ensures |r| <= |text|
  {
    if PeriodDropped(kind, text) then
      PeriodSurvivesTrim(text);
      var trimmed := Trim(text);
      trimmed[..|trimmed| - 1]
    else text
  }

  /**
   * The BlockTag constructor applied to raw fields: the kind is canonical, the argument
   * and spacing are kept, and the text goes through the five steps in order. The text
   * never grows, and the kind is never `exception`.
   */
  function Normalize(raw: BlockTag, isName: string -> bool): (tag: BlockTag)
    ensures tag.kind != "exception"
    ensures raw.kind == "exception" ==> tag.kind == "throws"
    ensures raw.kind != "exception" ==> tag.kind == raw.kind
    ensures tag.argument == raw.argument && tag.spaces == raw.spaces
    ensures |tag.text| <= |raw.text|
  {
    var kind := CanonicalKind(raw.kind);
    var text := DropPeriod(kind, LowerFirst(kind, DropReturnWord(kind, DropBullet(raw.text)), isName));
    BlockTag(kind, raw.argument, text, raw.spaces)
  }

  /** The BlockTag constructor: reassigns the kind and the text step by step. */
  method NewBlockTag(kind: string, argument: Option<string>, text: string, spaces: string,
                     isName: string -> bool) returns (tag: BlockTag)
    ensures tag == Normalize(BlockTag(kind, argument, text, spaces), isName)
  {
    var k := kind;
    if k == "exception" {
      k := "throws";
    }
    var t := text;
    if StartsWith(t, "- ") {
      t := Trim(t[2..]);
    }
    t := StripReturnWord(k, t);
    t := LowerCaseFirst(k, t, isName);
    t := StripPeriod(k, t);
    tag := BlockTag(k, argument, t, spaces);
  }

  /** The constructor's step that removes a leading `returns ` or `return ` from a return tag. */
  method StripReturnWord(k: string, text: string) returns (t: string)
    ensures t == DropReturnWord(k, text)
  {
    t := text;
    if k == "return" && t != [] {
      if |t| > 8 && StartsWithIgnoreCase(t, "returns ") {
        t := t[8..];
      } else if |t| > 7 && StartsWithIgnoreCase(t, "return ") {
        t := t[7..];
      }
    }
  }

  /** The constructor's step that lower-cases the first letter when the heuristics ask for it. */
  method LowerCaseFirst(k: string, text: string, isName: string -> bool) returns (t: string)
    ensures t == LowerFirst(k, text, isName)
  {
    t := text;
    if t != [] {
      var lower := ShouldLowerCase(k, t, isName);
      if lower {
        t := [ToLower(t[0])] + t[1..];
      }
    }
  }

  /** The constructor's step that drops the closing period of a one-sentence tag text. */
  method StripPeriod(k: string, text: string) returns (t: string)
    ensures t == DropPeriod(k, text)
  {
    t := text;
    if !Contains(t, ". ") && !Contains(t, ".\n") && EndsWith(t, ".") && k != "deprecated" {
      var abbreviation := EndsWithAbbreviation(t);
      if !abbreviation {
        assert PeriodDropped(k, t);
        PeriodSurvivesTrim(t);
        var trimmed := Trim(t);
        t := trimmed[..|trimmed| - 1];
      } else {
        assert !PeriodDropped(k, t);
      }
    } else {
      assert !PeriodDropped(k, t);
    }
  }

  /** The bullet step yields the rest after `- `, trimmed, and leaves other text alone. */
  lemma DropBulletResult(text: string)
    ensures StartsWith(text, "- ") ==> DropBullet(text) == Trim(text[2..])
    ensures !StartsWith(text, "- ") ==> DropBullet(text) == text
    ensures |DropBullet(text)| <= |text|
  {
  }

  /**
   * The return step removes a prefix exactly when the kind is `return` and the text is
   * longer than a case-insensitive `returns ` or `return ` at its start; what remains
   * is the text after that prefix, never empty.
   */
  lemma DropReturnWordIff(kind: string, text: string)
    ensures var r := DropReturnWord(kind, text);
      (r != text <==>
        (kind == "return"
         && ((|text| > 8 && StartsWithIgnoreCase(text, "returns "))
             || (|text| > 7 && StartsWithIgnoreCase(text, "return ")))))
      && r == text[|text| - |r|..]
      && (r != text ==> r != [])
  {
  }

  /** `returnsValue` is not a prefix `returns ` followed by text, so it is kept. */
  lemma ReturnsValueKept()
    ensures DropReturnWord("return", "returnsValue") == "returnsValue"
  {
    assert !StartsWithIgnoreCase("returnsValue", "returns ") by {
      assert ToLower("returnsValue"[7]) != ToLower("returns "[7]);
    }
    assert !StartsWithIgnoreCase("returnsValue", "return ") by {
      assert ToLower("returnsValue"[6]) != ToLower("return "[6]);
    }
  }

  /**
   * Lower-casing changes at most the first character, and changes it exactly when
   * shouldLowerCase holds; so it never fires for author, see or deprecated tags, for
   * text not starting with a capital, for Java, names, acronyms, or a second capital.
   */
  lemma LowerFirstIff(kind: string, text: string, isName: string -> bool)
    ensures var r := LowerFirst(kind, text, isName);
      |r| == |text|
      && (text != [] ==> r[1..] == text[1..] && (r[0] == text[0] || r[0] == ToLower(text[0])))
      && (r != text <==> text != [] && LowerCaseWanted(kind, text, isName))
  {
    var r := LowerFirst(kind, text, isName);
    if text != [] && LowerCaseWanted(kind, text, isName) {
      assert r[0] != text[0];
    }
  }

  /**
   * The period step changes the text exactly when PeriodDropped holds, and then yields
   * the trimmed text with its final period removed.
   */
  lemma DropPeriodIff(kind: string, text: string)
    ensures var r := DropPeriod(kind, text);
      (r != text <==> PeriodDropped(kind, text))
      && (PeriodDropped(kind, text) ==> r + "." == Trim(text))
  {
    if PeriodDropped(kind, text) {
      PeriodSurvivesTrim(text);
      var trimmed := Trim(text);
      assert trimmed[|trimmed| - 1] == '.';
      assert trimmed[..|trimmed| - 1] + "." == trimmed;
    }
  }

  /** A period that closes a listed abbreviation is kept, whatever the kind. */
  lemma AbbreviationKeepsPeriod(kind: string, text: string, i: nat)
    requires i < |Abbreviations| && EndsWith(Trim(text), Abbreviations[i])
    ensures DropPeriod(kind, text) == text
  {
    AbbreviationAtEndIff(text);
  }

  // ---------------------------------------------------------------------------
  // Parsing a tag line
  // ---------------------------------------------------------------------------

  /**
   * The fields BlockTag.parse hands to the constructor for a line starting with `@`:
   * the line is split at the first two spaces; for kinds without an argument the text
   * is the second word and the trimmed rest, for the others the second word is the
   * argument, the text is the trimmed rest, and the spacing is one more space than the
   * rest's indentation.
   */
  function ParseFields(line: string): BlockTag
    requires line != [] && line[0] == '@'
  {
    var parts := SplitLimit3(line, ' ');
    var kind := parts[0][1..];
    if kind in NoArgumentTags then
      var text := (if |parts| > 1 then parts[1] else "") + (if |parts| > 2 then " " + Trim(parts[2]) else "");
      BlockTag(kind, None, text, " ")
    else
      var argument := if |parts| > 1 then Some(parts[1]) else None;
      var text := if |parts| > 2 then Trim(parts[2]) else "";
      var spaces := if |parts| > 2 then Spaces(Strings.IndentWidth(parts[2]) + 1) else " ";
      BlockTag(kind, argument, text, spaces)
  }

  /** BlockTag.parse: the fields of the line, normalised by the constructor. */
  function Parse(line: string, isName: string -> bool): (tag: BlockTag)
    requires line != [] && line[0] == '@'
    ensures tag.kind != "exception"
  {
    Normalize(ParseFields(line), isName)
  }

  /** A line holding only `@kind` has no argument, empty text and single spacing. */
  lemma ParseKindOnly(kind: string)
    requires ' ' !in kind
    ensures ParseFields("@" + kind) == BlockTag(kind, None, "", " ")
  {
    SplitLimit3One("@" + kind, ' ');
  }

  /** `@kind word`: the word is the argument, or the text for kinds without an argument. */
  lemma ParseKindWord(kind: string, word: string)
    requires ' ' !in kind && ' ' !in word
    ensures ParseFields("@" + kind + " " + word)
      == if kind in NoArgumentTags then BlockTag(kind, None, word, " ")
         else BlockTag(kind, Some(word), "", " ")
  {
    SplitLimit3Two("@" + kind, word, ' ');
    assert ("@" + kind)[1..] == kind;
  }

  /**
   * `@kind word rest`, for a kind without an argument: the text is `word`, a space and
   * the trimmed rest.
   */
  lemma ParseNoArgumentLine(kind: string, word: string, rest: string)
    requires ' ' !in kind && ' ' !in word && kind in NoArgumentTags
    ensures ParseFields("@" + kind + " " + word + " " + rest)
      == BlockTag(kind, None, word + " " + Trim(rest), " ")
  {
    SplitLimit3Three("@" + kind, word, rest, ' ');
    assert ("@" + kind)[1..] == kind;
  }

  /**
   * `@kind word rest`, for a kind with an argument: `word` is the argument, the text is
   * the trimmed rest, and the spacing is one more space than the indentation of the rest.
   */
  lemma ParseArgumentLine(kind: string, word: string, rest: string)
    requires ' ' !in kind && ' ' !in word && kind !in NoArgumentTags
    ensures ParseFields("@" + kind + " " + word + " " + rest)
      == BlockTag(kind, Some(word), Trim(rest), Spaces(Strings.IndentWidth(rest) + 1))
  {
    SplitLimit3Three("@" + kind, word, rest, ' ');
    assert ("@" + kind)[1..] == kind;
  }

  // ---------------------------------------------------------------------------
  // Blank tags and rendering
  // ---------------------------------------------------------------------------

  /**
   * BlockTag.isBlank: only param, return and throws tags can be blank; a return tag is
   * blank when its text is only spaces and control characters, a param or throws tag
   * when its argument is missing or such, and its text too.
   */
  predicate IsBlankTag(tag: BlockTag) {
    if !(tag.kind == "param" || tag.kind == "return" || tag.kind == "throws") then false
    else if tag.kind == "return" then Trim(tag.text) == []
    else (tag.argument.None? || Trim(tag.argument.value) == []) && Trim(tag.text) == []
  }

  /** isBlank in terms of characters: blank parts hold nothing above U+0020. */
  lemma IsBlankTagIff(tag: BlockTag)
    ensures IsBlankTag(tag) <==>
      (tag.kind == "param" || tag.kind == "return" || tag.kind == "throws")
      && (forall i :: 0 <= i < |tag.text| ==> IsTrimmable(tag.text[i]))
      && (tag.kind != "return" && tag.argument.Some? ==>
            forall i :: 0 <= i < |tag.argument.value| ==> IsTrimmable(tag.argument.value[i]))
  {
    TrimEmptyIff(tag.text);
    if tag.argument.Some? {
      TrimEmptyIff(tag.argument.value);
    }
  }

  /**
   * BlockTag.toJava: ` * @kind`, then ` argument` when there is a non-empty one, then
   * the spacing (aligned) or one space, and the text, when the text is non-empty, then
   * one line feed.
   */
  function TagLine(tag: BlockTag, aligned: bool): (line: string)
    ensures StartsWith(line, " * @" + tag.kind) && EndsWith(line, "\n")
  {
    " * @" + tag.kind
    + (if tag.argument.Some? && tag.argument.value != [] then " " + tag.argument.value else "")
    + (if tag.text != [] then (if aligned then tag.spaces else " ") + tag.text else "")
    + "\n"
  }

  /** BlockTag.toJava: appends the pieces to a builder. */
  method ToJava(tag: BlockTag, aligned: bool) returns (line: string)
    ensures line == TagLine(tag, aligned)
  {
    line := " * @" + tag.kind;
    if tag.argument.Some? && tag.argument.value != [] {
      line := line + " " + tag.argument.value;
    }
    if tag.text != [] {
      if aligned {
        line := line + tag.spaces;
      } else {
        line := line + " ";
      }
      line := line + tag.text;
    }
    line := line + "\n";
  }

  /** No line feed in any field means the rendered tag is exactly one line. */
  lemma TagLineSingleLine(tag: BlockTag, aligned: bool)
    requires '\n' !in tag.kind && '\n' !in tag.text && '\n' !in tag.spaces
    requires tag.argument.Some? ==> '\n' !in tag.argument.value
    ensures var line := TagLine(tag, aligned);
      forall i :: 0 <= i < |line| - 1 ==> line[i] != '\n'
  {
    var line := TagLine(tag, aligned);
    var arg := if tag.argument.Some? && tag.argument.value != [] then " " + tag.argument.value else "";
    var txt := if tag.text != [] then (if aligned then tag.spaces else " ") + tag.text else "";
    assert line == " * @" + tag.kind + arg + txt + "\n";
    assert '\n' !in " * @" + tag.kind + arg + txt;
  }

  /** The text between a rendered tag's leading ` * ` and its final line feed. */
  function TagContent(line: string): string
    requires |line| >= 4
  {
    line[3..|line| - 1]
  }

  /**
   * An aligned tag with an argument round-trips through rendering and parsing: for a
   * kind that takes an argument, a one-word argument, a trimmed text that does not
   * start with a tab, and spacing made only of spaces, the fields parsed from the
   * rendered line are the tag itself.
   */
  lemma TagLineRoundTrip(tag: BlockTag)
    requires tag.kind !in NoArgumentTags && ' ' !in tag.kind
    requires tag.argument.Some? && tag.argument.value != [] && ' ' !in tag.argument.value
    requires tag.text != [] && !IsTrimmable(tag.text[0]) && !IsTrimmable(tag.text[|tag.text| - 1])
    requires |tag.spaces| >= 1 && forall i :: 0 <= i < |tag.spaces| ==> tag.spaces[i] == ' '
    ensures var line := TagLine(tag, true);
      |line| >= 4 && TagContent(line)[0] == '@' && ParseFields(TagContent(line)) == tag
  {
    var pad := tag.spaces[1..];
    var rest := pad + tag.text;
    AlignedTagContent(tag, pad);
    ParseArgumentLine(tag.kind, tag.argument.value, rest);
    RestOfAlignedTag(pad, tag.text);
    PadIsSpaces(tag.spaces);
  }

  /**
   * BlockTag.parse of an aligned rendering gives back the tag when the tag is already
   * in the form the constructor leaves it in: the field split recovers the tag, and
   * normalising it changes nothing.
   */
  lemma TagLineParseRoundTrip(tag: BlockTag, isName: string -> bool)
    requires tag.kind !in NoArgumentTags && ' ' !in tag.kind
    requires tag.argument.Some? && tag.argument.value != [] && ' ' !in tag.argument.value
    requires tag.text != [] && !IsTrimmable(tag.text[0]) && !IsTrimmable(tag.text[|tag.text| - 1])
    requires |tag.spaces| >= 1 && forall i :: 0 <= i < |tag.spaces| ==> tag.spaces[i] == ' '
    requires Normalize(tag, isName) == tag
    ensures var line := TagLine(tag, true);
      |line| >= 4 && TagContent(line)[0] == '@' && Parse(TagContent(line), isName) == tag
  {
    TagLineRoundTrip(tag);
  }

  /** The constructor leaves the tag `@param x  the value` unchanged. */
  lemma ParamTagNormal(isName: string -> bool)
    ensures Normalize(BlockTag("param", Some("x"), "the value", "  "), isName)
         == BlockTag("param", Some("x"), "the value", "  ")
  {
    var text := "the value";
    assert DropBullet(text) == text by {
      assert text[1] != ' ';
    }
    assert LowerFirst("param", text, isName) == text by {
      assert ToLower(text[0]) == text[0];
      assert [text[0]] + text[1..] == text;
    }
    assert DropPeriod("param", text) == text by {
      assert !EndsWith(text, ".") by {
        assert text[|text| - 1..] == "e";
      }
    }
  }

  /** The content of an aligned tag line with an argument, its spacing being a space and a pad. */
  lemma AlignedTagContent(tag: BlockTag, pad: string)
    requires tag.argument.Some? && tag.argument.value != [] && tag.text != []
    requires tag.spaces == " " + pad
    ensures var line := TagLine(tag, true);
      |line| >= 4
      && TagContent(line) == "@" + tag.kind + " " + tag.argument.value + " " + (pad + tag.text)
  {
    var content := "@" + tag.kind + " " + tag.argument.value + " " + (pad + tag.text);
    assert TagLine(tag, true) == " * " + content + "\n";
  }

  lemma PadIsSpaces(spaces: string)
    requires |spaces| >= 1 && forall i :: 0 <= i < |spaces| ==> spaces[i] == ' '
    ensures spaces == " " + spaces[1..] && spaces == Spaces(|spaces[1..]| + 1)
  {
  }

  /** A pad of spaces before a trimmed text: trimming recovers the text, the indent the pad. */
  lemma RestOfAlignedTag(pad: string, text: string)
    requires forall i :: 0 <= i < |pad| ==> pad[i] == ' '
    requires text != [] && !IsTrimmable(text[0]) && !IsTrimmable(text[|text| - 1])
    ensures Trim(pad + text) == text
    ensures Strings.IndentWidth(pad + text) == |pad|
  {
    PadTrimStart(pad, text);
    TrimNoop(text);
    PadIndent(pad, text);
  }

  lemma {:induction false} PadTrimStart(pad: string, text: string)
    requires forall i :: 0 <= i < |pad| ==> pad[i] == ' '
    requires text != [] && !IsTrimmable(text[0])
    ensures TrimStart(pad + text) == text
  {
    if pad != [] {
      assert (pad + text)[1..] == pad[1..] + text;
      PadTrimStart(pad[1..], text);
    }
  }

  lemma {:induction false} PadIndent(pad: string, text: string)
    requires forall i :: 0 <= i < |pad| ==> pad[i] == ' '
    requires text != [] && !IsTrimmable(text[0])
    ensures Strings.LeadingIndentLength(pad + text) == |pad|
    ensures Strings.IndentWidth(pad + text) == |pad|
  {
    var s := pad + text;
    Strings.LeadingIndentLengthAt(s, |pad|);
    assert s[..|pad|] == pad;
    SpacesOccurrences(pad);
  }

  lemma {:induction false} SpacesOccurrences(pad: string)
    requires forall i :: 0 <= i < |pad| ==> pad[i] == ' '
    ensures Strings.Occurrences(pad, ' ') == |pad| && Strings.Occurrences(pad, '\t') == 0
  {
    if pad != [] {
      SpacesOccurrences(pad[..|pad| - 1]);
    }
  }
}
