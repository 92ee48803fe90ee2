/**
 * DocFix.fix(String): the whole normaliser applied to the text of a source file.  The
 * line ending is detected, the text is cut at every line break, the lines go through
 * parseLines, and the result is joined again with the detected line ending.
 */
module DocFix {
  import opened JavaText
  import Strings
  import FileParser
  import DocComments
  import BlockTags

  /**
   * fix(String) for any comment fixer: the line ending is detected, the text cut into
   * lines, each comment group replaced by what the fixer for that line ending makes of
   * it, and the lines joined by the line ending.
   */
  function FixWith(code: string, fixerFor: string -> (string -> string)): string {
    var lineEnding := Strings.DetectLineEnding(code);
    Join(lineEnding, FileParser.FixLinesFrom(Split(LineBreak, code), lineEnding, fixerFor(lineEnding), 0))
  }

  /** The comment fixer of fix(String) for each line ending. */
  function Fixers(isName: string -> bool): string -> (string -> string) {
    lineEnding => FileParser.Fixer(lineEnding, isName)
  }

  /** DocFix.fix(String): the fixed text of a whole file, each comment parsed and rendered again. */
  function Fix(code: string, isName: string -> bool): string {
    FixWith(code, Fixers(isName))
  }

  /** DocFix.fix(String), through the parseLines walk. */
  method FixCode(code: string, isName: string -> bool) returns (fixed: string)
    ensures fixed == Fix(code, isName)
  {
    var lineEnding := Strings.DetectLineEnding(code);
    var lines := Split(LineBreak, code);
    var fixedLines := FileParser.ParseLines(lines, lineEnding, isName);
    fixed := Join(lineEnding, fixedLines);
  }

  // ---------------------------------------------------------------------------
  // Line endings
  // ---------------------------------------------------------------------------

  /** A text without a carriage return uses the line feed as its line ending. */
  lemma LineFeedEnding(code: string)
    requires '\r' !in code
    ensures Strings.DetectLineEnding(code) == "\n"
  {
    ContainsChar(code, '\r');
  }

  /** A text with carriage returns and no line feed uses the carriage return as its line ending. */
  lemma CarriageReturnEnding(code: string)
    requires '\r' in code && '\n' !in code
    ensures Strings.DetectLineEnding(code) == "\r"
  {
    ContainsChar(code, '\r');
    forall i | 0 <= i <= |code|
      ensures !IsAt(code, "\r\n", i)
    {
      if i + 2 <= |code| {
        assert code[i + 1] in code;
      }
    }
  }

  /** A line without line breaks has no carriage return. */
  lemma NoCarriageReturn(line: string)
    requires NoLineBreak(line)
    ensures '\r' !in line
  {
  }

  /** With a fixer that writes no line feed, a text whose lines end in carriage returns gains none. */
  lemma FixWithCarriageReturns(code: string, fixerFor: string -> (string -> string))
    requires '\r' in code && '\n' !in code
    requires forall t :: '\n' !in fixerFor("\r")(t)
    ensures '\n' !in FixWith(code, fixerFor)
  {
    CarriageReturnEnding(code);
    var lines := Split(LineBreak, code);
    SplitAvoids(LineBreak, code, '\n');
    var fix := fixerFor("\r");
    FileParser.FixLinesAvoid(lines, "\r", fix, 0, '\n');
    var fixedLines := FileParser.FixLinesFrom(lines, "\r", fix, 0);
    assert forall k :: 0 <= k < |fixedLines| ==> fixedLines[k] in fixedLines;
    JoinAvoids("\r", fixedLines, '\n');
  }

  /**
   * A file whose lines end in carriage returns alone keeps them: the line ending is a
   * carriage return, and the fixed text holds no line feed at all.
   */
  lemma FixCarriageReturns(code: string, isName: string -> bool)
    requires '\r' in code && '\n' !in code
    ensures Strings.DetectLineEnding(code) == "\r"
    ensures '\n' !in Fix(code, isName)
  {
    CarriageReturnEnding(code);
    var fixerFor := Fixers(isName);
    forall t
      ensures '\n' !in fixerFor("\r")(t)
    {
      FileParser.ReplaceRemovesNewlines(DocComments.Render(DocComments.ParseComment(t, isName)), "\r");
    }
    FixWithCarriageReturns(code, fixerFor);
  }

  // ---------------------------------------------------------------------------
  // Code without doc comments
  // ---------------------------------------------------------------------------

  /** Lines without line breaks, joined by line feeds, give a text without carriage returns. */
  lemma JoinedLinesAvoidCarriageReturn(lines: seq<string>)
    requires forall k :: 0 <= k < |lines| ==> NoLineBreak(lines[k])
    ensures '\r' !in Join("\n", lines)
  {
    forall k | 0 <= k < |lines|
      ensures '\r' !in lines[k]
    {
      NoCarriageReturn(lines[k]);
    }
    JoinAvoids("\n", lines, '\r');
  }

  /** Lines followed by an empty line, joined and split again, give the lines back. */
  lemma SplitLinesAndEmptyLine(lines: seq<string>)
    requires lines != [] && lines[|lines| - 1] != []
    requires forall k :: 0 <= k < |lines| ==> NoLineBreak(lines[k])
    ensures Split(LineBreak, Join("\n", lines + [""])) == lines
  {
    NoLineBreakWithEmptyLine(lines);
    SplitJoinedLines(lines + [""]);
    DropOneTrailingEmpty(lines);
  }

  /** An empty line added after lines without line breaks has none either. */
  lemma NoLineBreakWithEmptyLine(lines: seq<string>)
    requires forall k :: 0 <= k < |lines| ==> NoLineBreak(lines[k])
    ensures forall k :: 0 <= k < |lines + [""]| ==> NoLineBreak((lines + [""])[k])
  {
    var longer := lines + [""];
    forall k | 0 <= k < |longer|
      ensures NoLineBreak(longer[k])
    {
      if k < |lines| {
        assert longer[k] == lines[k];
      }
    }
  }

  /** One empty line after a last line that is not empty is all that is dropped. */
  lemma DropOneTrailingEmpty(lines: seq<string>)
    requires lines != [] && lines[|lines| - 1] != []
    ensures DropTrailingEmpty(lines + [""]) == lines
  {
    var longer := lines + [""];
    assert longer[..|longer| - 1] == lines;
    assert DropTrailingEmpty(longer) == DropTrailingEmpty(lines);
  }

  /** The same lines with a final line feed split back into the lines. */
  lemma SplitWithFinalLineFeed(lines: seq<string>)
    requires lines != [] && lines[|lines| - 1] != []
    requires forall k :: 0 <= k < |lines| ==> NoLineBreak(lines[k])
    ensures Split(LineBreak, Join("\n", lines) + "\n") == lines
    ensures '\r' !in Join("\n", lines) + "\n"
  {
    JoinSnoc("\n", lines, "");
    assert Join("\n", lines) + "\n" == Join("\n", lines + [""]);
    SplitLinesAndEmptyLine(lines);
    JoinedLinesAvoidCarriageReturn(lines);
  }

  /** Whatever the fixer, a text using line feeds whose lines open no comment is joined back from its lines. */
  lemma FixWithPlainLines(code: string, lines: seq<string>, fixerFor: string -> (string -> string))
    requires '\r' !in code && Split(LineBreak, code) == lines
    requires forall k :: 0 <= k < |lines| ==> !FileParser.OpensComment(lines[k])
    ensures FixWith(code, fixerFor) == Join("\n", lines)
  {
    LineFeedEnding(code);
    FileParser.FixLinesCopiesPlainLines(lines, "\n", fixerFor("\n"), 0, |lines|);
    assert lines[0..|lines|] == lines;
  }

  /**
   * Lines of code with no comment opening in them, the last one not empty (a final
   * empty line would be dropped by the split).
   */
  predicate PlainLines(lines: seq<string>) {
    lines != [] && lines[|lines| - 1] != []
    && forall k :: 0 <= k < |lines| ==> NoLineBreak(lines[k]) && !FileParser.OpensComment(lines[k])
  }

  /**
   * Whatever the fixer, code with no doc comment comes out as it went in when its lines
   * are separated by line feeds, and loses a final line feed.
   */
  lemma FixWithKeepsPlainCode(lines: seq<string>, fixerFor: string -> (string -> string))
    ensures PlainLines(lines) ==> FixWith(Join("\n", lines), fixerFor) == Join("\n", lines)
    ensures PlainLines(lines) ==> FixWith(Join("\n", lines) + "\n", fixerFor) == Join("\n", lines)
  {
    if PlainLines(lines) {
      JoinedLinesAvoidCarriageReturn(lines);
      SplitJoinedLines(lines);
      FixWithPlainLines(Join("\n", lines), lines, fixerFor);
      SplitWithFinalLineFeed(lines);
      FixWithPlainLines(Join("\n", lines) + "\n", lines, fixerFor);
    }
  }

  /**
   * Code with no doc comment comes out as it went in, trailing spaces and end-of-line
   * comments included, when its lines are separated by line feeds.
   */
  lemma FixKeepsPlainCode(lines: seq<string>, isName: string -> bool)
    requires PlainLines(lines)
    ensures Fix(Join("\n", lines), isName) == Join("\n", lines)
  {
    FixWithKeepsPlainCode(lines, Fixers(isName));
  }

  /**
   * The same code followed by a final line feed loses it: fix joins the lines with
   * nothing after the last.
   */
  lemma FixDropsFinalLineFeed(lines: seq<string>, isName: string -> bool)
    requires PlainLines(lines)
    ensures Fix(Join("\n", lines) + "\n", isName) == Join("\n", lines)
  {
    FixWithKeepsPlainCode(lines, Fixers(isName));
  }

  // ---------------------------------------------------------------------------
  // Any file
  // ---------------------------------------------------------------------------

  /**
   * Whatever the file, fix joins, with the file's own line ending, lines each of which
   * is a line of the file that opens no comment, unchanged, or the fixed text of the
   * comment group a line of the file opens.
   */
  lemma FixLinesOfAnyFile(code: string, isName: string -> bool)
    ensures var lineEnding := Strings.DetectLineEnding(code);
      var lines := Split(LineBreak, code);
      exists out: seq<string> ::
        Fix(code, isName) == Join(lineEnding, out)
        && forall x :: x in out ==>
             exists j :: 0 <= j < |lines| && FileParser.EntryFor(lines, lineEnding, FileParser.Fixer(lineEnding, isName), j, x)
  {
    var lineEnding := Strings.DetectLineEnding(code);
    var lines := Split(LineBreak, code);
    var fix := FileParser.Fixer(lineEnding, isName);
    assert Fixers(isName)(lineEnding) == fix;
    FileParser.FixLinesEntries(lines, lineEnding, fix, 0);
    var out := FileParser.FixLinesFrom(lines, lineEnding, fix, 0);
    assert Fix(code, isName) == Join(lineEnding, out);
  }

  /** Lines without line breaks in three runs have none when put together. */
  lemma NoLineBreakInRuns(pre: seq<string>, group: seq<string>, post: seq<string>)
    requires forall k :: 0 <= k < |pre| ==> NoLineBreak(pre[k])
    requires forall k :: 0 <= k < |group| ==> NoLineBreak(group[k])
    requires forall k :: 0 <= k < |post| ==> NoLineBreak(post[k])
    ensures forall k :: 0 <= k < |pre + group + post| ==> NoLineBreak((pre + group + post)[k])
  {
    var whole := pre + group + post;
    forall k | 0 <= k < |whole|
      ensures NoLineBreak(whole[k])
    {
      if k < |pre| {
        assert whole[k] == pre[k];
      } else if k < |pre| + |group| {
        assert whole[k] == group[k - |pre|];
      } else {
        assert whole[k] == post[k - |pre| - |group|];
      }
    }
  }

  /**
   * Whatever the fixer, a text using line feeds with one whole doc comment comes out
   * with the lines before and after the comment unchanged and the comment's lines
   * replaced by the fixer's text for them (dropped when that text is empty).
   */
  lemma FixWithAroundComment(pre: seq<string>, group: seq<string>, post: seq<string>,
                             fixerFor: string -> (string -> string))
    requires FileParser.CompleteGroup(group)
    requires forall k :: 0 <= k < |pre| ==> NoLineBreak(pre[k]) && !FileParser.OpensComment(pre[k])
    requires forall k :: 0 <= k < |group| ==> NoLineBreak(group[k])
    requires forall k :: 0 <= k < |post| ==> NoLineBreak(post[k]) && !FileParser.OpensComment(post[k])
    requires post == [] || post[|post| - 1] != []
    ensures var fixed := fixerFor("\n")(Join("\n", group));
      FixWith(Join("\n", pre + group + post), fixerFor)
      == Join("\n", pre + (if fixed == [] then [] else [fixed]) + post)
  {
    var whole := pre + group + post;
    var code := Join("\n", whole);
    NoLineBreakInRuns(pre, group, post);
    JoinedLinesAvoidCarriageReturn(whole);
    LineFeedEnding(code);
    assert whole[|whole| - 1] != [] by {
      if post == [] {
        assert whole[|whole| - 1] == group[|group| - 1];
      } else {
        assert whole[|whole| - 1] == post[|post| - 1];
      }
    }
    assert Split(LineBreak, code) == whole by {
      SplitJoinedLines(whole);
    }
    FileParser.FixLinesAroundGroup(pre, group, post, "\n", fixerFor("\n"));
  }

  /**
   * A text using line feeds with one whole doc comment: the code around the comment
   * comes out unchanged, and the comment's lines become the comment parsed and
   * rendered again.
   */
  lemma FixAroundComment(pre: seq<string>, group: seq<string>, post: seq<string>, isName: string -> bool)
    requires FileParser.CompleteGroup(group)
    requires forall k :: 0 <= k < |pre| ==> NoLineBreak(pre[k]) && !FileParser.OpensComment(pre[k])
    requires forall k :: 0 <= k < |group| ==> NoLineBreak(group[k])
    requires forall k :: 0 <= k < |post| ==> NoLineBreak(post[k]) && !FileParser.OpensComment(post[k])
    requires post == [] || post[|post| - 1] != []
    ensures var fixed := FileParser.FixedComment(Join("\n", group), "\n", isName);
      Fix(Join("\n", pre + group + post), isName)
      == Join("\n", pre + (if fixed == [] then [] else [fixed]) + post)
  {
    FixWithAroundComment(pre, group, post, Fixers(isName));
  }

  // ---------------------------------------------------------------------------
  // A canonical one-line comment
  // ---------------------------------------------------------------------------

  /**
   * The text of a description that the normaliser leaves alone on a one-line comment:
   * one line, no `@`, starting with a visible character that is not lower case and
   * ending with a period, an exclamation mark or a question mark.
   */
  predicate CanonicalDescription(d: string) {
    d != [] && NoLineBreak(d) && '@' !in d
    && !IsTrimmable(d[0]) && !IsLower(d[0])
    && (d[|d| - 1] == '.' || d[|d| - 1] == '!' || d[|d| - 1] == '?')
  }

  /** The one-line comment on a description, after `n` spaces. */
  function SingleLineText(n: nat, d: string): string {
    Spaces(n) + ("/** " + d + " */")
  }

  /** Such a description is kept by the constructor and by toJava. */
  lemma CanonicalDescriptionKept(d: string)
    requires CanonicalDescription(d)
    ensures !IsBlank(d)
    ensures DocComments.NormalizeDescription(d) == d
    ensures DocComments.WithPeriod(d) == d
  {
    assert !IsWhitespace(d[0]);
    assert DocComments.Capitalized(d) == d;
    TrimNoop(d);
    assert !IsLetterOrDigit(d[|d| - 1]);
    EndsWithChar(d, '.');
    EndsWithChar(d, '!');
    EndsWithChar(d, '?');
  }

  /** The opening delimiter is recognised and cut. */
  lemma OpeningDelimiter(b: string)
    ensures StartsWith("/**" + b, "/**") && ("/**" + b)[3..] == b
  {
    assert ("/**" + b)[..3] == "/**";
  }

  /** A text ending in a space and then `*` `/` ends with the short closing delimiter and not the long one. */
  lemma ClosingDelimiter(inner: string)
    requires inner != [] && inner[|inner| - 1] == ' '
    ensures var b := inner + "*/";
      !EndsWith(b, "**/") && EndsWith(b, "*/") && b[..|b| - 2] == inner
  {
    var b := inner + "*/";
    assert b[|b| - 3] == ' ';
    assert b[|b| - 2..] == "*/";
  }

  /** A text that starts and ends with visible characters, padded by a space each side, trims back to itself. */
  lemma TrimSpaced(d: string)
    requires d != [] && !IsTrimmable(d[0]) && !IsTrimmable(d[|d| - 1])
    ensures Trim(" " + d + " ") == d
  {
    assert (" " + d + " ")[1..] == d + " ";
    assert TrimStart(d + " ") == d + " ";
    assert (d + " ")[..|d|] == d;
    TrimNoop(d);
  }

  /** The delimiters of the comment stripped, the description is left. */
  lemma StripCanonicalDelimiters(d: string)
    requires CanonicalDescription(d)
    ensures DocComments.StripDelimiters("/** " + d + " */") == d
  {
    var inner := " " + d + " ";
    assert "/** " + d + " */" == "/**" + (inner + "*/");
    OpeningDelimiter(inner + "*/");
    ClosingDelimiter(inner);
    TrimSpaced(d);
  }

  /** Leading spaces before a text that does not start with whitespace are what stripLeading removes. */
  lemma {:induction false} StripLeadingSpaces(n: nat, text: string)
    requires text != [] && !IsWhitespace(text[0])
    ensures StripLeading(Spaces(n) + text) == text
  {
    if n > 0 {
      assert (Spaces(n) + text)[1..] == Spaces(n - 1) + text;
      StripLeadingSpaces(n - 1, text);
    }
  }

  /** The comment line has no line break, since the description has none. */
  lemma CanonicalLineUnbroken(n: nat, d: string)
    requires CanonicalDescription(d)
    ensures NoLineBreak(SingleLineText(n, d)) && '\r' !in SingleLineText(n, d)
    ensures '\n' !in "/** " + d + " */"
  {
    var comment := "/** " + d + " */";
    var line := SingleLineText(n, d);
    forall j | 0 <= j < |comment|
      ensures !IsLineBreak(comment[j])
    {
      if j < 4 {
        assert comment[j] == "/** "[j];
      } else if j < 4 + |d| {
        assert comment[j] == d[j - 4];
      } else {
        assert comment[j] == " */"[j - 4 - |d|];
      }
    }
    forall i | 0 <= i < |line|
      ensures !IsLineBreak(line[i])
    {
      if i >= n {
        assert line[i] == comment[i - n];
      }
    }
    NoCarriageReturn(line);
  }

  /** The line of such a comment: its trim, its indentation and its form without leading whitespace. */
  lemma CanonicalLineShape(n: nat, d: string)
    requires CanonicalDescription(d)
    ensures var comment := "/** " + d + " */";
      var line := SingleLineText(n, d);
      Trim(line) == comment && Strings.IndentWidth(line) == n && StripLeading(line) == comment
  {
    var comment := "/** " + d + " */";
    BlockTags.RestOfAlignedTag(Spaces(n), comment);
    StripLeadingSpaces(n, comment);
  }

  /** Such a comment, rendered, is its line again. */
  lemma RenderCanonical(n: nat, d: string)
    requires CanonicalDescription(d)
    ensures DocComments.Render(DocComments.SingleLineComment(d, Spaces(n))) == SingleLineText(n, d)
  {
    CanonicalDescriptionKept(d);
  }

  /** What parse computes on the way for such a comment, each step on its own. */
  lemma CanonicalParseSteps(n: nat, d: string)
    requires CanonicalDescription(d)
    ensures var line := SingleLineText(n, d);
      DocComments.Normalized(line) == line
      && Strings.IndentWidth(line) == n
      && DocComments.StripDelimiters(Trim(line)) == d
      && DocComments.TakesSingleLinePath(line)
      && DocComments.NormalizeDescription(Trim(d)) == d
  {
    var line := SingleLineText(n, d);
    CanonicalLineUnbroken(n, d);
    CanonicalLineShape(n, d);
    LineFeedEnding(line);
    ReplaceByItself(line, '\n');
    StripCanonicalDelimiters(d);
    ContainsChar("/** " + d + " */", '\n');
    ContainsChar(d, '@');
    TrimNoop(d);
    CanonicalDescriptionKept(d);
  }

  /** The comment on such a description parses as a one-line comment holding it, indented as the line is. */
  lemma ParseCanonicalSingleLine(n: nat, d: string, isName: string -> bool)
    requires CanonicalDescription(d)
    ensures DocComments.ParseComment(SingleLineText(n, d), isName) == DocComments.SingleLineComment(d, Spaces(n))
  {
    CanonicalParseSteps(n, d);
  }

  /** Parsing and rendering such a comment gives back its line. */
  lemma CanonicalCommentFixed(n: nat, d: string, isName: string -> bool)
    requires CanonicalDescription(d)
    ensures FileParser.FixedComment(SingleLineText(n, d), "\n", isName) == SingleLineText(n, d)
  {
    ParseCanonicalSingleLine(n, d, isName);
    RenderCanonical(n, d);
    ReplaceByItself(SingleLineText(n, d), '\n');
  }

  /** The line opens a comment and closes it again, and has no line break. */
  lemma CanonicalLineIsOneComment(n: nat, d: string)
    requires CanonicalDescription(d)
    ensures var line := SingleLineText(n, d);
      NoLineBreak(line) && '\r' !in line
      && FileParser.OpensComment(line) && FileParser.ClosesOnOpeningLine(line)
  {
    CanonicalLineUnbroken(n, d);
    CanonicalLineShape(n, d);
    CommentDelimited(d);
  }

  /** The comment text starts with the opening delimiter and ends with the closing one. */
  lemma CommentDelimited(d: string)
    ensures StartsWith("/** " + d + " */", "/**") && EndsWith("/** " + d + " */", "*/")
  {
    var comment := "/** " + d + " */";
    assert comment[..3] == "/**";
    assert comment[|comment| - 2..] == "*/";
  }

  /** Whatever the fixer, a one-line comment on a line of its own becomes what the fixer makes of it. */
  lemma FixWithOneLineComment(line: string, fixerFor: string -> (string -> string))
    requires NoLineBreak(line) && '\r' !in line
    requires FileParser.OpensComment(line) && FileParser.ClosesOnOpeningLine(line)
    requires fixerFor("\n")(line) == line
    ensures FixWith(line, fixerFor) == line
  {
    LineFeedEnding(line);
    SplitJoinedLines([line]);
    FileParser.FixOneLineComment(line, "\n", fixerFor("\n"));
  }

  /**
   * An already canonical one-line doc comment, indented by spaces, is left exactly as
   * it is.
   */
  lemma FixCanonicalSingleLine(n: nat, d: string, isName: string -> bool)
    requires CanonicalDescription(d)
    ensures Fix(SingleLineText(n, d), isName) == SingleLineText(n, d)
  {
    CanonicalLineIsOneComment(n, d);
    CanonicalCommentFixed(n, d, isName);
    FixWithOneLineComment(SingleLineText(n, d), Fixers(isName));
  }
}
