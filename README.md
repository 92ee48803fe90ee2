# docfix in Dafny

This project models the Javadoc normalisation engine of docfix. docfix rewrites the doc
comments of a Java source file into a canonical form:

- the description starts with a capital letter and ends with a period;
- each block tag is normalised: `@exception` becomes `@throws`, a leading `- ` bullet
  goes, a redundant `Returns` goes, the first letter is lower-cased, and a lone final
  period is dropped;
- tags are sorted in the order recommended by *How to Write Doc Comments for the Javadoc
  Tool*;
- comments are re-rendered one tag per line.

Every line outside a doc comment is copied verbatim.

Modules, one per source class:

| module | file | models |
|---|---|---|
| `Wrappers` | wrappers.dfy | `Option` and `Result` |
| `JavaText` | java_text.dfy | the `java.lang.String` operations the source uses: `trim`, `stripLeading`, `isBlank`, `indexOf`, `startsWith`/`endsWith`, `compareToIgnoreCase`, `String.join`, `replace`, `split` with a limit of 0 and of 3. Java's rule that a split drops trailing empty strings is written out. `Character` classification is ASCII. |
| `Strings` | strings.dfy | `Strings`: `findIndent`, `detectLineEnding`, `isLikelyDomain`, `endsWithURL` |
| `BlockTags` | block_tag.dfy | `BlockTag`: `parse`, the constructor's five-step normalisation chain and its helpers, `isBlank`, `toJava` |
| `TagSort` | tag_sort.dfy | `DocComment.sortTags`. Entries carry their source index; the comparator is `Compare`. The sort is a stable insertion sort over an array. |
| `DocComments` | doc_comment.dfy | `DocComment` and `SingleLineComment`: the constructors, `parse`, `findPostAsteriskIndent`, both `toJava` methods |
| `FileParser` | file_parser.dfy | `parseLines`, `extractChunks`, `findNextJavadocStart`, `addNonJavadocChunk`, `removeOneLeadingTrailingNewline` |
| `DocFix` | doc_fix.dfy | `DocFix.fix(String)` and its end-to-end properties |
| `EncodingDetector` | encoding_detector.dfy | `detectEncoding`, `detectBOM`, `detectJavaEncoding`, `isValidUTF8` |

Each source method that works with a loop or a `StringBuilder` becomes a Dafny `method`
with the same loop. Its `ensures` equates the result with a specification function. The
properties are proved about those functions as lemmas. `isValidUTF8` and the sort keep
their arrays.

Two capabilities the source takes from elsewhere become parameters:

- `isName: string -> bool` stands for `Names.isName`, the proper-noun check of the
  external `propernouns` library;
- `containsKeywords` stands for `EncodingDetector.containsJavaKeywords`, which decodes
  bytes through `java.nio.charset`.

## Model

The source paths are relative to the repository root.

| member | source | states |
|---|---|---|
| `Strings.IndentWidth` | core/src/main/java/com/elharo/docfix/Strings.java:15-27 | The width is at most 4 × the length, and it is 0 for empty text or text that does not start with a space or tab. |
| `Strings.OccurrencesOfTwo` | core/src/main/java/com/elharo/docfix/Strings.java:15-27 | The spaces and tabs of the leading run together never outnumber its characters, so the width (spaces + 4 × tabs) is bounded. |
| `Strings.FindIndent` | core/src/main/java/com/elharo/docfix/Strings.java:15-27 | The loop returns the count of spaces plus 4 × the count of tabs in the longest leading run of spaces and tabs. |
| `Strings.LeadingIndentLengthAt` | core/src/main/java/com/elharo/docfix/Strings.java:18-25 | The leading run ends at the first character that is neither a space nor a tab. |
| `Strings.DetectLineEnding` | core/src/main/java/com/elharo/docfix/Strings.java:113-121 | The result is `"\r\n"` iff the text contains CRLF, `"\r"` iff it contains CR but no CRLF, and `"\n"` iff it contains no CR. The result is always one of these three. |
| `Strings.IsLikelyDomain` | core/src/main/java/com/elharo/docfix/Strings.java:81-104 | The loop over the TLD list answers `LikelyDomain(word)`. |
| `Strings.LikelyDomainIff` | core/src/main/java/com/elharo/docfix/Strings.java:81-104 | A word is a likely domain iff its lower-case form ends in `.tld` or `.tld/` for a listed TLD. |
| `Strings.DotBeforeTld` | core/src/main/java/com/elharo/docfix/Strings.java:68-70 | A word that ends with a listed TLD contains a dot, which is the check done before the TLD test. |
| `Strings.EndsWithURL` | core/src/main/java/com/elharo/docfix/Strings.java:36-73 | The method answers `UrlAtEnd(text)`. |
| `Strings.UrlAtEndCases` | core/src/main/java/com/elharo/docfix/Strings.java:41-70 | A text ends with a URL iff it has a last whitespace-separated token, and that token contains a listed scheme, starts with `www.` or `ftp.`, or ends with a listed TLD. |
| `Strings.BlankHasNoUrl` | core/src/main/java/com/elharo/docfix/Strings.java:37-39 | Blank text has no last token and never ends with a URL. |
| `Strings.LastTokenAfterSpace` | core/src/main/java/com/elharo/docfix/Strings.java:41-49 | After a whitespace separator, the last token is exactly the final word. Only that word decides, so a URL earlier in the text does not count. |
| `Strings.LastTokenOfToken` | core/src/main/java/com/elharo/docfix/Strings.java:41-49 | A single token is its own last token. |
| `Strings.SplitLastIsToken` | core/src/main/java/com/elharo/docfix/Strings.java:45-46 | `split("\\s+")` of a text ending in separator + token has that token as its last element. |
| `JavaText.TrimEmptyIff` | core/src/main/java/com/elharo/docfix/DocComment.java:27-29 | `trim` yields `""` iff every character is at most U+0020. |
| `JavaText.IndexOf` | core/src/main/java/com/elharo/docfix/FileParser.java:113 | The result is -1 and there is no occurrence from `from` on, or it is the first occurrence at or after `from`. |
| `JavaText.CompareIgnoreCaseAntisymmetric` | core/src/main/java/com/elharo/docfix/DocComment.java:100 | `compareToIgnoreCase(a, b) == -compareToIgnoreCase(b, a)`. |
| `JavaText.CompareIgnoreCaseTransitive` | core/src/main/java/com/elharo/docfix/DocComment.java:100 | `compareToIgnoreCase` is transitive. |
| `JavaText.SplitLimit3Three` | core/src/main/java/com/elharo/docfix/BlockTag.java:77 | `split(" ", 3)` of `a b c` is `[a, b, c]`, and the third part keeps any further spaces. |
| `JavaText.SplitLimit3Two` | core/src/main/java/com/elharo/docfix/BlockTag.java:77 | `split(" ", 3)` of `a b` is `[a, b]`. |
| `JavaText.SplitLimit3One` | core/src/main/java/com/elharo/docfix/BlockTag.java:77 | `split(" ", 3)` of a word without spaces is `[word]`. |
| `JavaText.SplitJoinedLines` | core/src/main/java/com/elharo/docfix/DocFix.java:37 | `split("\\R")` inverts joining with `"\n"`. The one exception is that trailing empty lines are dropped, as Java's split does. |
| `JavaText.SplitAvoids` | core/src/main/java/com/elharo/docfix/DocFix.java:37 | No split piece contains a character that the text does not contain. |
| `BlockTags.Word` | core/src/main/java/com/elharo/docfix/BlockTag.java:160-167 | The first word is the longest prefix without whitespace. |
| `BlockTags.ExtractFirstWord` | core/src/main/java/com/elharo/docfix/BlockTag.java:160-167 | The loop returns `FirstWord(text)`. |
| `BlockTags.IsAcronym` | core/src/main/java/com/elharo/docfix/BlockTag.java:175-186 | The loop answers `Acronym(word)`: at least 3 characters and no lower-case letter. |
| `BlockTags.ShouldLowerCase` | core/src/main/java/com/elharo/docfix/BlockTag.java:113-152 | The method answers `LowerCaseWanted`. That is false for author/see/deprecated, for a first character that is not upper case, for `Java` or a recognised name, for an acronym, and for a word with a later capital. |
| `BlockTags.EndsWithAbbreviation` | core/src/main/java/com/elharo/docfix/BlockTag.java:209-228 | The loop answers `AbbreviationAtEnd(text)`. |
| `BlockTags.AbbreviationAtEndIff` | core/src/main/java/com/elharo/docfix/BlockTag.java:192-228 | The text ends in an abbreviation iff its trimmed form ends with one of the listed abbreviations. |
| `BlockTags.Normalize` | core/src/main/java/com/elharo/docfix/BlockTag.java:21-62 | `exception` becomes `throws` and every other kind is kept. The argument and spacing are kept, and the text never grows. |
| `BlockTags.NewBlockTag` | core/src/main/java/com/elharo/docfix/BlockTag.java:21-62 | The constructor's step-by-step reassignment yields `Normalize` of the raw fields. |
| `BlockTags.StripReturnWord` | core/src/main/java/com/elharo/docfix/BlockTag.java:33-46 | The in-constructor step yields `DropReturnWord`. |
| `BlockTags.LowerCaseFirst` | core/src/main/java/com/elharo/docfix/BlockTag.java:48-51 | The in-constructor step yields `LowerFirst`. |
| `BlockTags.StripPeriod` | core/src/main/java/com/elharo/docfix/BlockTag.java:57-59 | The in-constructor step yields `DropPeriod`. |
| `BlockTags.DropBulletResult` | core/src/main/java/com/elharo/docfix/BlockTag.java:28-30 | Text starting with `- ` becomes the trim of the rest. Other text is unchanged. |
| `BlockTags.DropReturnWordIff` | core/src/main/java/com/elharo/docfix/BlockTag.java:33-46 | `@return` text changes iff it starts (ignoring case) with `returns ` and is longer than 8, or with `return ` and is longer than 7. The result is a non-empty suffix of the text. |
| `BlockTags.ReturnsValueKept` | core/src/main/java/com/elharo/docfix/BlockTag.java:33-46 | `returnsValue` is untouched. |
| `BlockTags.LowerFirstIff` | core/src/main/java/com/elharo/docfix/BlockTag.java:48-51 | Only the first character can change, and only to its lower-case form. It changes iff `shouldLowerCase` holds. |
| `BlockTags.DropPeriodIff` | core/src/main/java/com/elharo/docfix/BlockTag.java:57-59 | The text changes iff the period rule applies: it ends with `.`, has no `". "` or `".\n"`, is not deprecated, and has no final abbreviation. The result is then the trimmed text without its period. |
| `BlockTags.AbbreviationKeepsPeriod` | core/src/main/java/com/elharo/docfix/BlockTag.java:57-59 | Text whose trim ends with a listed abbreviation keeps its period. |
| `BlockTags.Parse` | core/src/main/java/com/elharo/docfix/BlockTag.java:75-100 | A parsed `@` line never has kind `exception`. |
| `BlockTags.ParseKindOnly` | core/src/main/java/com/elharo/docfix/BlockTag.java:75-100 | `@kind` alone has no argument, empty text and spacing `" "`. |
| `BlockTags.ParseKindWord` | core/src/main/java/com/elharo/docfix/BlockTag.java:64-100 | For `@kind word`, a no-argument kind takes `word` as text. Any other kind takes it as argument. |
| `BlockTags.ParseNoArgumentLine` | core/src/main/java/com/elharo/docfix/BlockTag.java:64-100 | For a no-argument kind, the text is everything after the kind, and the spacing is `" "`. |
| `BlockTags.ParseArgumentLine` | core/src/main/java/com/elharo/docfix/BlockTag.java:75-100 | For any other kind, the second token is the argument and the text is the trimmed remainder. The spacing is `findIndent(remainder) + 1` spaces. |
| `BlockTags.IsBlankTagIff` | core/src/main/java/com/elharo/docfix/BlockTag.java:250-265 | Only `param`, `return` and `throws` tags can be blank. A `return` tag is blank iff its text is blank. A `param` or `throws` tag is blank iff both its argument and its text are missing or blank. |
| `BlockTags.TagLine` | core/src/main/java/com/elharo/docfix/BlockTag.java:267-283 | The rendering starts with `" * @" + kind` and ends with a line feed. |
| `BlockTags.ToJava` | core/src/main/java/com/elharo/docfix/BlockTag.java:267-283 | The `StringBuilder` code yields `TagLine`. |
| `BlockTags.TagLineSingleLine` | core/src/main/java/com/elharo/docfix/BlockTag.java:267-283 | A tag without line feeds renders with exactly one line feed, at the end. |
| `BlockTags.TagLineRoundTrip` | core/src/main/java/com/elharo/docfix/BlockTag.java:75-100 | The field split (`ParseFields`, before the constructor normalises) of an aligned rendering of an argument tag gives back the same tag, spacing included. |
| `BlockTags.TagLineParseRoundTrip` | core/src/main/java/com/elharo/docfix/BlockTag.java:75-100 | `BlockTag.parse` of an aligned rendering of an argument tag that normalisation leaves unchanged gives back the same tag, spacing included. |
| `BlockTags.ParamTagNormal` | core/src/main/java/com/elharo/docfix/BlockTag.java:21-62 | The constructor leaves `@param x  the value` unchanged, so the round trip above has inputs. |
| `TagSort.Rank` | core/src/main/java/com/elharo/docfix/DocComment.java:42-56 | Ranks run from 0 to `Integer.MAX_VALUE`, which is given to unknown kinds. Rank 4 is exactly `throws`. |
| `TagSort.CompareAntisymmetric` | core/src/main/java/com/elharo/docfix/DocComment.java:69-108 | The comparator is antisymmetric. |
| `TagSort.CompareTransitive` | core/src/main/java/com/elharo/docfix/DocComment.java:69-108 | The comparator is transitive when every `throws` entry has an argument. |
| `TagSort.CompareNotTransitive` | core/src/main/java/com/elharo/docfix/DocComment.java:96-107 | With a `throws` tag that has no argument, the comparator has a cycle of three entries. |
| `TagSort.InsertPositionBounds` | core/src/main/java/com/elharo/docfix/DocComment.java:69 | The insertion point follows every entry that is not greater and precedes every greater one, as a stable insertion needs. |
| `TagSort.InsertShape` | core/src/main/java/com/elharo/docfix/DocComment.java:69 | Insertion places the entry at its insertion point and changes nothing else. |
| `TagSort.SortTags` | core/src/main/java/com/elharo/docfix/DocComment.java:58-117 | The method (index, sort in place, read back) yields `SortedTags`. |
| `TagSort.InsertionSort` | core/src/main/java/com/elharo/docfix/DocComment.java:69-108 | The in-place sort leaves `SortBy(old contents)` in the array. |
| `TagSort.InsertAt` | core/src/main/java/com/elharo/docfix/DocComment.java:69-108 | One pass inserts `a[i]` into the sorted prefix and leaves the rest untouched. |
| `TagSort.ReadTags` | core/src/main/java/com/elharo/docfix/DocComment.java:111-114 | The extraction loop returns the tags of the entries, in order. |
| `TagSort.SortByPermutes` | core/src/main/java/com/elharo/docfix/DocComment.java:64-116 | The sort is a permutation of the entries. |
| `TagSort.SortTagsShort` | core/src/main/java/com/elharo/docfix/DocComment.java:59-61 | Lists of at most one tag come back unchanged. |
| `TagSort.SortTagsPermutes` | core/src/main/java/com/elharo/docfix/DocComment.java:58-117 | The sorted tags are a permutation of the input tags. |
| `TagSort.SortByOrdered` | core/src/main/java/com/elharo/docfix/DocComment.java:69-108 | The sort puts adjacent entries in order, and the sort is stable: tied entries keep source order. |
| `TagSort.SortTagsByRank` | core/src/main/java/com/elharo/docfix/DocComment.java:42-56 | The output never decreases in rank, whatever the input. |
| `TagSort.SortTagsThrowsByName` | core/src/main/java/com/elharo/docfix/DocComment.java:95-102 | When every `throws` tag has an argument, `throws` tags come out in case-insensitive order of that argument. |
| `TagSort.SortTagsSourceOrder` | core/src/main/java/com/elharo/docfix/DocComment.java:104-107 | Same-rank tags keep source order, unless both are `throws` tags with arguments that differ ignoring case. |
| `TagSort.SortedEntriesFromInput` | core/src/main/java/com/elharo/docfix/DocComment.java:64-67 | Every sorted entry carries an input tag together with its source index. |
| `DocComments.Capitalized` | core/src/main/java/com/elharo/docfix/DocComment.java:28-29 | Capitalisation keeps the length and every character after the first. |
| `DocComments.ControlCharacterDescriptionThrows` | core/src/main/java/com/elharo/docfix/DocComment.java:27-32 | A description consisting only of U+0001 is not blank, yet the constructor as written fails on it. |
| `DocComments.NormalizeDescriptionAgrees` | core/src/main/java/com/elharo/docfix/DocComment.java:27-36 | The constructor as written fails exactly for non-blank descriptions made only of characters at most U+0020. Otherwise it equals the corrected normalisation. |
| `DocComments.NormalizeDescriptionCases` | core/src/main/java/com/elharo/docfix/DocComment.java:27-37 | A blank description is kept. Otherwise the result is the trimmed, capitalised text, plus `.` iff it ends in a letter or digit and not in a URL. |
| `DocComments.NormalizeDescriptionCapitalizes` | core/src/main/java/com/elharo/docfix/DocComment.java:28-29 | The first character becomes upper case. |
| `DocComments.NormalizedIsFixed` | core/src/main/java/com/elharo/docfix/DocComment.java:27-36 | A trimmed, capitalised description that needs no period is left as it is. |
| `DocComments.NormalizeDescriptionIdempotent` | core/src/main/java/com/elharo/docfix/DocComment.java:27-36 | For a description that is empty or starts with a character above U+0020, normalising twice equals normalising once. |
| `DocComments.NormalizeDescriptionNotIdempotent` | core/src/main/java/com/elharo/docfix/DocComment.java:27-36 | Without that condition it fails, as written and corrected: `" a"` becomes `"a."`, which becomes `"A."`. The first character is upper-cased before the trim. |
| `DocComments.NormalizeDescriptionStep` | core/src/main/java/com/elharo/docfix/DocComment.java:27-37 | The constructor's reassignments yield `NormalizeDescription`. |
| `DocComments.NewDocComment` | core/src/main/java/com/elharo/docfix/DocComment.java:25-40 | The constructor stores the normalised description, the sorted tags and `indent` spaces. |
| `DocComments.NewSingleLineComment` | core/src/main/java/com/elharo/docfix/SingleLineComment.java:12-14 | A single-line comment has the normalised description and no tags. |
| `DocComments.StripMargin` | core/src/main/java/com/elharo/docfix/DocComment.java:151-155 | At most `p` leading characters are removed, all of them spaces. Fewer are removed only when a non-space character or the end of the line comes first. |
| `DocComments.CleanLineAgrees` | core/src/main/java/com/elharo/docfix/DocComment.java:149-160 | Where the margin after `* ` is at least `p` spaces, the code as written equals the corrected line cleaning. |
| `DocComments.CleanLineCutsTag` | core/src/main/java/com/elharo/docfix/DocComment.java:152-155 | With `p >= 2`, the code as written cuts `" * @" + w` down to `w[p-2..]`. That result no longer starts a tag, whereas the corrected cleaning gives `"@" + w`. |
| `DocComments.CleanTagLine` | core/src/main/java/com/elharo/docfix/DocComment.java:149-163 | Any margin leaves a `" * @..."` line starting with `@`. |
| `DocComments.CleanLineThrows` | core/src/main/java/com/elharo/docfix/DocComment.java:155 | With `p >= 2`, the code as written fails on the line `" * "`, which the corrected cleaning maps to `""`. |
| `DocComments.ClassifyMargin` | core/src/main/java/com/elharo/docfix/DocComment.java:191-200 | A line stops the scan iff its trim starts with `* @`. Otherwise it counts iff it starts with `*`, does not end with `*/`, and is not `*` alone. |
| `DocComments.PostAsteriskIndent` | core/src/main/java/com/elharo/docfix/DocComment.java:203-206 | The margin is at least 1. |
| `DocComments.MarginStep` | core/src/main/java/com/elharo/docfix/DocComment.java:191-200 | One iteration stops at a tag line, and otherwise keeps the minimum of the counted widths. |
| `DocComments.ScanLine` | core/src/main/java/com/elharo/docfix/DocComment.java:190-201 | One iteration keeps the running minimum equal to the minimum over the lines scanned so far. |
| `DocComments.FindPostAsteriskIndent` | core/src/main/java/com/elharo/docfix/DocComment.java:186-207 | The loop returns `PostAsteriskIndent(raw)`. |
| `DocComments.MinMarginIsLowest` | core/src/main/java/com/elharo/docfix/DocComment.java:190-201 | The minimum is at most the width of every counted line before the first tag line. |
| `DocComments.MinMarginIsAttained` | core/src/main/java/com/elharo/docfix/DocComment.java:190-201 | The minimum is the width of some counted line before the first tag line. |
| `DocComments.PostAsteriskIndentIsLeast` | core/src/main/java/com/elharo/docfix/DocComment.java:186-207 | The margin is at least 1, ignores the first line, is at most every counted width before the first `* @` line, and, when above 1, equals one of them. |
| `DocComments.StripDelimiters` | core/src/main/java/com/elharo/docfix/DocComment.java:127-136 | Removing the `/**` and `*/` or `**/` delimiters never lengthens the body. |
| `DocComments.NextTagLineIsNext` | core/src/main/java/com/elharo/docfix/DocComment.java:165 | Continuation lines run up to the first line matching `^\s*\*\s*@.*`. |
| `DocComments.AbsorbLines` | core/src/main/java/com/elharo/docfix/DocComment.java:165-170 | The inner loop stops before the next tag line and appends exactly the pieces of the lines it passes. |
| `DocComments.WalkTagLine` | core/src/main/java/com/elharo/docfix/DocComment.java:161-172 | A tag line adds one parsed tag, switches to tag mode and advances past its continuation lines. |
| `DocComments.WalkOtherLine` | core/src/main/java/com/elharo/docfix/DocComment.java:173-179 | Any other line is appended to the description only before the first tag. |
| `DocComments.WalkBody` | core/src/main/java/com/elharo/docfix/DocComment.java:147-180 | The line loop yields the specified description and tag list (margin strip corrected, see Findings). |
| `DocComments.ParseBody` | core/src/main/java/com/elharo/docfix/DocComment.java:143-180 | The multi-line path yields `BodyDescription` and `BodyTags` of the split body (both corrections from Findings applied). |
| `DocComments.BodyDescriptionBeforeFirstTag` | core/src/main/java/com/elharo/docfix/DocComment.java:173-179 | The description is the cleaned lines before the first tag line, joined with `"\n"`. Leading empty lines are dropped, as the `length() > 0` test does. |
| `DocComments.DescriptionIgnoresTagSection` | core/src/main/java/com/elharo/docfix/DocComment.java:173-179 | Lines after the first tag never reach the description. |
| `DocComments.TagAbsorbsUpToNextTagLine` | core/src/main/java/com/elharo/docfix/DocComment.java:161-172 | A tag's text is its head plus every following line up to the next tag line. A line ending in `*` is skipped. The text starts with `@` and the next tag starts there. |
| `DocComments.MatchingLineStartsTag` | core/src/main/java/com/elharo/docfix/DocComment.java:161-165 | A line matching `^\s*\*\s*@.*` starts a tag once cleaned. |
| `DocComments.Parse` | core/src/main/java/com/elharo/docfix/DocComment.java:119-183 | The method yields `ParseComment(raw)` (both corrections from Findings applied). |
| `DocComments.ParseSingleLine` | core/src/main/java/com/elharo/docfix/DocComment.java:127-142 | The result is a single-line comment iff the trimmed text has no line feed and the stripped body has no `@`. Such a comment then carries the normalised trimmed body and no tags. |
| `DocComments.ParseSortsTags` | core/src/main/java/com/elharo/docfix/DocComment.java:143-182 | The tags of a parsed doc comment are a permutation of the parsed tags, in non-decreasing rank. |
| `DocComments.AppendDescription` | core/src/main/java/com/elharo/docfix/DocComment.java:232-243 | The description loop appends `DescriptionBlock`. |
| `DocComments.AppendTags` | core/src/main/java/com/elharo/docfix/DocComment.java:248-251 | The tag loop appends `TagBlock`. |
| `DocComments.ToJava` | core/src/main/java/com/elharo/docfix/DocComment.java:226-255 | The method yields `Render(c)`. That covers both the doc-comment rendering and the `SingleLineComment` override. |
| `DocComments.ToJavaDoc` | core/src/main/java/com/elharo/docfix/DocComment.java:226-255 | The `StringBuilder` code yields `RenderDoc`. |
| `DocComments.AppendBody` | core/src/main/java/com/elharo/docfix/DocComment.java:232-252 | The description and tag sections append `DocBody`. |
| `DocComments.RenderDocEmptyIff` | core/src/main/java/com/elharo/docfix/DocComment.java:227-229 | The rendering is `""` iff the description is blank and there are no tags. |
| `DocComments.RenderDocShape` | core/src/main/java/com/elharo/docfix/DocComment.java:231-253 | A non-empty rendering starts with `indent + "/**\n"` and ends with `indent + " */"`. |
| `DocComments.DescriptionLineTrailingSpace` | core/src/main/java/com/elharo/docfix/DocComment.java:235-241 | An empty description line renders as `" *"` with no trailing space. A rendered line ends in a space iff the source line does. |
| `DocComments.RenderDocSeparator` | core/src/main/java/com/elharo/docfix/DocComment.java:244-251 | With a description and tags, exactly one `" *"` line separates them. The spacing is aligned iff there are 2 or more tags. |
| `DocComments.SingleTagIgnoresSpacing` | core/src/main/java/com/elharo/docfix/DocComment.java:248-250 | With one tag, the original spacing does not affect the output. |
| `DocComments.RenderSingleBlank` | core/src/main/java/com/elharo/docfix/SingleLineComment.java:23-25 | A blank single-line comment renders as `""`. |
| `DocComments.RenderSingleShape` | core/src/main/java/com/elharo/docfix/SingleLineComment.java:26-38 | The output is `indent + "/** " + d + " */"`. `d` gains a `.` iff it does not end in `.`, `!` or `?` and does not end with a URL. |
| `DocComments.RenderSingleOneLine` | core/src/main/java/com/elharo/docfix/SingleLineComment.java:26-38 | A description without a line feed renders without one. |
| `FileParser.GroupLast` | core/src/main/java/com/elharo/docfix/FileParser.java:25-50 | A comment group ends at or after its opening line, and no later than the end of input. |
| `FileParser.GroupRunsToClosingLine` | core/src/main/java/com/elharo/docfix/FileParser.java:32-48 | A group not closed on its opening line runs to the first later line whose trim ends with `*/`, or to the end of input. |
| `FileParser.CollectComment` | core/src/main/java/com/elharo/docfix/FileParser.java:32-48 | The reading loop stops at the first closing line and joins the group's lines with the line ending. |
| `FileParser.CollectGroup` | core/src/main/java/com/elharo/docfix/FileParser.java:26-51 | The builder holds `GroupText`, and the cursor stops at `GroupLast`. |
| `FileParser.FixLinesStep` | core/src/main/java/com/elharo/docfix/FileParser.java:21-61 | One outer iteration contributes at most one entry and moves forward. |
| `FileParser.FixLines` | core/src/main/java/com/elharo/docfix/FileParser.java:16-65 | The loop yields `FixLinesFrom(lines, 0)`. |
| `FileParser.ParseLines` | core/src/main/java/com/elharo/docfix/FileParser.java:16-65 | The method yields `ParseLinesSpec`: each group is rendered with `"\n"` replaced by the line ending, and dropped if empty (comment parse corrected, see Findings). |
| `FileParser.FixLinesEntries` | core/src/main/java/com/elharo/docfix/FileParser.java:20-62 | For every input, each output entry is an input line that does not open a comment, unchanged, or the fixed text of the group an opening line starts. |
| `FileParser.ClosingLineAt` | core/src/main/java/com/elharo/docfix/FileParser.java:37-48 | The inner loop stops at the first later line whose trimmed text ends with `*/`. |
| `FileParser.GroupAt` | core/src/main/java/com/elharo/docfix/FileParser.java:25-49 | A whole comment at line `i` (its opening line, then the lines up to the first closing one) is exactly the group collected there. |
| `FileParser.GroupTextTo` | core/src/main/java/com/elharo/docfix/FileParser.java:26-51 | The collected text is the group's lines joined by the line ending. |
| `FileParser.FixLinesAroundGroupAt` | core/src/main/java/com/elharo/docfix/FileParser.java:20-62 | Lines around one whole comment are copied unchanged, and the comment becomes its fixed text, or nothing when that is empty. |
| `FileParser.FixLinesAroundGroup` | core/src/main/java/com/elharo/docfix/FileParser.java:20-62 | The same, stated for the runs before the comment, the comment and after it. |
| `FileParser.FixLinesCopiesPlainLines` | core/src/main/java/com/elharo/docfix/FileParser.java:58-61 | A run of lines that open no comment is copied unchanged and in order. |
| `FileParser.ParseLinesWithoutComments` | core/src/main/java/com/elharo/docfix/FileParser.java:20-22 | Input with no `/**` line comes out unchanged. |
| `FileParser.FixOneLineComment` | core/src/main/java/com/elharo/docfix/FileParser.java:51-57 | A one-line comment is replaced by its fix, or dropped when that is empty. |
| `FileParser.FixLinesNoLonger` | core/src/main/java/com/elharo/docfix/FileParser.java:16-65 | The output never has more entries than the input has lines. |
| `FileParser.FixLinesAvoid` | core/src/main/java/com/elharo/docfix/FileParser.java:51-60 | A character absent from every input line and every fixed comment is absent from the output. |
| `FileParser.ReplaceRemovesNewlines` | core/src/main/java/com/elharo/docfix/FileParser.java:53 | After `replace("\n", le)` with `le` free of line feeds, no line feed is left. |
| `FileParser.ParseLinesNoNewline` | core/src/main/java/com/elharo/docfix/FileParser.java:51-60 | Lines and a line ending without line feeds give output entries without line feeds. |
| `FileParser.LineStartIsStart` | core/src/main/java/com/elharo/docfix/FileParser.java:140-143 | The backward scan stops just after the previous line feed, or at 0. |
| `FileParser.NextJavadocStart` | core/src/main/java/com/elharo/docfix/FileParser.java:131-155 | The result is -1, or an index at or after the start index with room for `/**`. |
| `FileParser.FindLineStart` | core/src/main/java/com/elharo/docfix/FileParser.java:140-143 | The loop yields `LineStart`. |
| `FileParser.FindNextJavadocStart` | core/src/main/java/com/elharo/docfix/FileParser.java:131-155 | The loop yields `NextJavadocStart`. |
| `FileParser.NextJavadocStartIsNext` | core/src/main/java/com/elharo/docfix/FileParser.java:131-155 | The result is -1 or an occurrence of `/**` with no `//` earlier on its line. Every occurrence skipped before it is commented out. |
| `FileParser.RemoveOneLeadingTrailingNewlineCuts` | core/src/main/java/com/elharo/docfix/FileParser.java:234-252 | Exactly one leading and one trailing line feed are removed where present, and nothing else changes. |
| `FileParser.NonJavadocChunksEmptyIff` | core/src/main/java/com/elharo/docfix/FileParser.java:161-166 | A run yields no chunk iff it is empty after that trim. |
| `FileParser.NonJavadocChunksSplitAtBlankLine` | core/src/main/java/com/elharo/docfix/FileParser.java:169-182 | A run with a blank line is cut at the first `\n\n`: the part before comes first, if non-empty, followed by `""`. |
| `FileParser.RunTailNewline` | core/src/main/java/com/elharo/docfix/FileParser.java:184-190 | A run ending in a line feed gives its content and then `""`. |
| `FileParser.RunTailFixed` | core/src/main/java/com/elharo/docfix/FileParser.java:191-205 | Otherwise the fixed run is emitted, followed by `""` exactly when the heuristics say so. |
| `FileParser.AddNonJavadocChunk` | core/src/main/java/com/elharo/docfix/FileParser.java:161-207 | The recursive method appends `NonJavadocChunks(chunk)`. |
| `FileParser.ChunksFromLastRun` | core/src/main/java/com/elharo/docfix/FileParser.java:97-103 | With no further comment, the rest of the text becomes the final run. |
| `FileParser.ChunksFromUnclosed` | core/src/main/java/com/elharo/docfix/FileParser.java:113-116 | An accepted `/**` without a later `*/` fails with the position of the `/**`. |
| `FileParser.ChunksFromComment` | core/src/main/java/com/elharo/docfix/FileParser.java:106-122 | The text before the comment is cut into runs. The comment chunk is the substring from `/**` through the first `*/`, inclusive. The scan resumes after it. |
| `FileParser.ChunksFromCommentStep` | core/src/main/java/com/elharo/docfix/FileParser.java:106-122 | The scan index strictly increases and stays within the text. |
| `FileParser.ExtractStep` | core/src/main/java/com/elharo/docfix/FileParser.java:94-123 | One loop iteration ends the scan, fails on an unclosed comment, or moves strictly forward, and in each case it keeps the chunk list consistent with the specification. |
| `FileParser.ExtractChunks` | core/src/main/java/com/elharo/docfix/FileParser.java:86-126 | The method yields `ExtractChunksSpec`, which is `[]` for empty input. |
| `DocFix.FixCode` | core/src/main/java/com/elharo/docfix/DocFix.java:35-40 | `fix(code)` is `join(le, parseLines(split(code, "\\R"), le))` with `le = detectLineEnding(code)` (comment parse corrected, see Findings). |
| `DocFix.LineFeedEnding` | core/src/main/java/com/elharo/docfix/DocFix.java:36 | Code without CR uses `"\n"`. |
| `DocFix.CarriageReturnEnding` | core/src/main/java/com/elharo/docfix/DocFix.java:36 | Code with CR and no LF uses `"\r"`. |
| `DocFix.FixCarriageReturns` | core/src/main/java/com/elharo/docfix/DocFix.java:35-40 | For input whose line terminators are all CR, the line ending is `"\r"` and the output contains no line feed. |
| `DocFix.FixKeepsPlainCode` | core/src/main/java/com/elharo/docfix/DocFix.java:35-40 | Code whose lines open no comment comes out unchanged, trailing spaces and `//` comments included. |
| `DocFix.FixDropsFinalLineFeed` | core/src/main/java/com/elharo/docfix/DocFix.java:37-39 | Such code with a final line feed comes out the same except that the final line feed is gone. |
| `DocFix.FixLinesOfAnyFile` | core/src/main/java/com/elharo/docfix/DocFix.java:35-40 | For any file, the output is the line ending joining entries that are each an unchanged non-opening line of the file or the fixed text of a comment group in it. |
| `DocFix.FixWithAroundComment` | core/src/main/java/com/elharo/docfix/DocFix.java:35-40 | Whatever the comment fixer, a file with line feeds and one whole doc comment keeps the code before and after it, and the comment's lines become the fixer's text. |
| `DocFix.FixAroundComment` | core/src/main/java/com/elharo/docfix/DocFix.java:35-40 | With the real fixer, that comment becomes its parse rendered again, and the code around it comes out unchanged. |
| `DocFix.CanonicalDescriptionKept` | core/src/main/java/com/elharo/docfix/DocComment.java:27-36 | A canonical description survives normalisation and the single-line period rule unchanged. |
| `DocFix.ParseCanonicalSingleLine` | core/src/main/java/com/elharo/docfix/DocComment.java:119-142 | An indented canonical `/** d */` line parses to the single-line comment `d` at that indent. |
| `DocFix.RenderCanonical` | core/src/main/java/com/elharo/docfix/SingleLineComment.java:22-39 | That comment renders back to the same line. |
| `DocFix.CanonicalCommentFixed` | core/src/main/java/com/elharo/docfix/FileParser.java:51-53 | The line parser's fixer leaves a canonical one-line comment unchanged. |
| `DocFix.FixCanonicalSingleLine` | core/src/main/java/com/elharo/docfix/DocFix.java:35-40 | `fix` leaves a canonical one-line doc comment byte-identical. |
| `EncodingDetector.DetectBOM` | src/main/java/com/elharo/docfix/EncodingDetector.java:59-80 | The result is UTF-8 iff the prefix is `EF BB BF`, UTF-16LE iff it is `FF FE`, and UTF-16BE iff it is `FE FF`. It is never ISO-8859-1. |
| `EncodingDetector.ExtraBytesRanges` | src/main/java/com/elharo/docfix/EncodingDetector.java:118-133 | A lead byte below 0x80 needs 0 continuation bytes, C0–DF needs 1, E0–EF needs 2 and F0–F7 needs 3. Bytes 80–BF and F8–FF are rejected. |
| `EncodingDetector.IsValidUTF8` | src/main/java/com/elharo/docfix/EncodingDetector.java:112-149 | The scan over the array answers `ValidUtf8` of the first `length` bytes, and reads no byte beyond them. |
| `EncodingDetector.CheckContinuations` | src/main/java/com/elharo/docfix/EncodingDetector.java:136-143 | The continuation loop either decides the answer or confirms every continuation byte. |
| `EncodingDetector.AsciiIsValid` | src/main/java/com/elharo/docfix/EncodingDetector.java:118-121 | Bytes with the high bit clear are always accepted. |
| `EncodingDetector.BadLeadRejected` | src/main/java/com/elharo/docfix/EncodingDetector.java:131-132 | A continuation byte or a byte from F8 up in lead position is rejected. |
| `EncodingDetector.BadContinuationRejected` | src/main/java/com/elharo/docfix/EncodingDetector.java:140-142 | A byte that is not `10xxxxxx` in a continuation position is rejected. |
| `EncodingDetector.TruncatedAccepted` | src/main/java/com/elharo/docfix/EncodingDetector.java:137-139 | A sequence cut off by the end of the buffer is accepted. |
| `EncodingDetector.CompleteSequence` | src/main/java/com/elharo/docfix/EncodingDetector.java:136-145 | A complete, well-formed sequence is skipped, and the verdict is that of the rest. |
| `EncodingDetector.Encode` | src/main/java/com/elharo/docfix/EncodingDetector.java:123-130 | The UTF-8 encoding of a code point is 1 to 4 bytes, and every byte after the first is a continuation byte. |
| `EncodingDetector.EncodeLead` | src/main/java/com/elharo/docfix/EncodingDetector.java:124-130 | The lead byte of an encoding announces exactly the number of bytes that follow it. |
| `EncodingDetector.EncodedAccepted` | src/main/java/com/elharo/docfix/EncodingDetector.java:112-149 | Any UTF-8-encoded code point is accepted, whatever follows it. |
| `EncodingDetector.Utf8MarkIsEncodedFeff` | src/main/java/com/elharo/docfix/EncodingDetector.java:60-64 | The UTF-8 byte-order mark `EF BB BF` is the encoding of U+FEFF. |
| `EncodingDetector.LenientShapes` | src/main/java/com/elharo/docfix/EncodingDetector.java:124-143 | Overlong forms, surrogates and F5 lead bytes are accepted. |
| `EncodingDetector.DetectJavaEncoding` | src/main/java/com/elharo/docfix/EncodingDetector.java:90-103 | The method yields `JavaEncoding`. |
| `EncodingDetector.DetectEncoding` | src/main/java/com/elharo/docfix/EncodingDetector.java:37-50 | The method yields `Detection`. |
| `EncodingDetector.DetectionChain` | src/main/java/com/elharo/docfix/EncodingDetector.java:37-49 | The decision chain runs as follows. An empty read gives UTF-8. A BOM wins over the heuristic. ISO-8859-1 is returned exactly when there is no BOM, Latin-1 finds keywords, and the UTF-8 test fails. UTF-16 is only ever chosen from a BOM. |
| `EncodingDetector.Utf8MarkFirst` | src/main/java/com/elharo/docfix/EncodingDetector.java:60-65 | A UTF-8 byte-order mark decides UTF-8 before any other check. |

## Left out

- The file and console parts of `DocFix` (`fix(Path)`, `fix(Path, Charset)`, `fixDirectory`, `main`, `printChangedLines`, core/src/main/java/com/elharo/docfix/DocFix.java:49-207). These are file-system walking, file writing, `System.exit` and standard output.
- The file read in `detectEncoding`. The buffer and the count `read` returns become parameters: `bytesRead` is -1 or at most the buffer's length.
- `containsJavaKeywords` (src/main/java/com/elharo/docfix/EncodingDetector.java:159-175) is a parameter, because it decodes through `java.nio.charset`.
- `Names.isName` is a parameter, because it belongs to the external `propernouns` library.
- `Character.isWhitespace`, `isUpperCase`, `isLowerCase`, `isLetterOrDigit` and `toUpperCase`/`toLowerCase` are defined for ASCII only. Unicode classification and case mapping are not modelled.
- `applyChunkFixes` (core/src/main/java/com/elharo/docfix/FileParser.java:212-229) is a parameter `fixes` of the chunk scanner. Its two regex patches serve particular inputs and state no rule. The trailing-empty-chunk heuristic around it (lines 195-205) is modelled as written.
- `extractChunks` reads its `Reader` one character at a time. The model starts from the text that loop builds.
- `DocComment.Kind` is never read by the code modelled, and `parseLines` passes `null`, so the model carries no kind.
- TagSort.InsertionSort: `List.sort` is TimSort, modelled here by a stable insertion sort. The two agree whenever the comparator is a total preorder, which `CompareTransitive` proves when every `throws` tag has an argument. When a `throws` tag has no argument the comparator is not transitive (`CompareNotTransitive`), and TimSort's output, or its `IllegalArgumentException`, may differ from the model.
- DocComments.RenderDocShape: the round trip of a whole canonical tags-only comment is stated one tag line at a time (`BlockTags.TagLineRoundTrip`), not for the whole comment.
- DocComments.NormalizeDescriptionIdempotent: is stated only for descriptions that are empty or start with a character above U+0020. The source upper-cases the first character before trimming (core/src/main/java/com/elharo/docfix/DocComment.java:28-29), so its normalisation is not idempotent when the description has leading whitespace (`NormalizeDescriptionNotIdempotent`). A second `fix` of a comment whose first description line is indented past the margin capitalises that line again.
- DocComments.Parse: the comment parse applies both corrections from Findings. A margin strip removes at most the description's indent in spaces and never cuts into a tag or throws. A description that trims to `""` is stored as `""` and does not throw. `parse` as written would turn a tag into description text, or throw, on the inputs listed there. The as-written behaviour is exhibited line by line (`CleanLineCutsTag`, `CleanLineThrows`, `ControlCharacterDescriptionThrows`), not for whole comments.
- DocComments.ParseBody: applies the same two corrections, through `DocComments.Cleaner` and `NormalizeDescription`.
- DocComments.WalkBody: applies the corrected margin strip to each line.
- FileParser.ParseLines: fixes each comment group through the corrected comment parse, so it never throws where `parseLines` as written would.
- DocFix.FixCode: fixes each comment group through the corrected comment parse, so it never throws where `fix` as written would.
- DocFix.FixKeepsPlainCode: is stated for files with no doc comment. Files with comments are covered by `FixLinesOfAnyFile` (any file) and `FixAroundComment` (one whole comment). A file with several comments is covered only by the entry-wise statement.
- BlockTags.IsBlankTagIff: `isBlank` has no caller in the code modelled. Blank tags are never removed, and the model removes none.
- The legacy `src/main` copies of `DocComment`, `BlockTag`, `SingleLineComment`, `Strings`, `FileParser` and `DocFix` are not part of this model. The `core` module supersedes them.
- Java's 32-bit `int` is not modelled: indices and lengths are unbounded naturals. The one place a width matters is the unknown-tag rank, `Integer.MAX_VALUE`, which is written out as a constant.

## Findings

| source | as written | input that shows it | evidently intended | confidence | as-written member | corrected member |
|---|---|---|---|---|---|---|
| core/src/main/java/com/elharo/docfix/DocComment.java:155 | `afterAsterisk.substring(postAsteriskIndent)` removes `postAsteriskIndent` characters, whatever they are | A comment whose description lines are indented by 2 after the asterisk turns `" * @param x y"` into `"param x y"`, so the tag becomes description text. The line `" * "` throws `StringIndexOutOfBoundsException`. | Remove at most `postAsteriskIndent` leading spaces | not executed | `DocComments.CleanLineCutsTag`, `DocComments.CleanLineThrows` | `DocComments.CleanTagLine` |
| core/src/main/java/com/elharo/docfix/DocComment.java:27-32 | A non-blank description is trimmed, and then `charAt(length() - 1)` is read | The description `"\u0001"` is not blank, but it trims to `""`, so `charAt(-1)` throws | A description that trims to `""` is stored as `""` | not executed | `DocComments.ControlCharacterDescriptionThrows` | `DocComments.NormalizeDescriptionCases`, `DocComments.NormalizeDescriptionAgrees` |
