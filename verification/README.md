# mdstrip in Dafny

A model of `mdstrip`, a small Kotlin tool that turns a Markdown file into
running text. It passes the file's lines through four stages, in this order:

1. `removeComments` drops XML comments (`<!--` … `-->`). A comment may open
   on one line and close on a later one. Within one line, a per-line scanner
   (`scanXMLComment`) splits the line around the markers.
2. `removeConsecutiveBlankLines` drops a blank line that follows a blank
   input line.
3. `labelLines` gives every line one of nine labels. The label is the first
   of eight anchored patterns that matches, or TEXT when none does.
4. `concatParagraphLines` holds back one labelled line. When the next line
   arrives, it decides whether the held line is joined to it (with a space
   or with nothing) or ends with a line break. A code-fence toggle is
   involved in that decision.

Each `Flow` stage is a pure function on `seq<string>`. Its state is threaded
explicitly through a recursive fold:

| Stage | State |
|---|---|
| `removeComments` | the `inComment` flag |
| `removeConsecutiveBlankLines` | the previous input line |
| `concatParagraphLines` | the fence flag and the held pair |

Every regular expression is written out as a predicate on characters. Java's
`\s` is the ASCII set (space and `\t`..`\r`); the half-width class is
`!`..`~`. Each predicate's doc comment names the source line of its pattern:

| Predicate | Pattern | Line of `docs.ja/topics/stripped/mdstrip.kt` |
|---|---|---|
| `Strings.IsBlank` | `isBlankLine`, `regexBLANK` | 10-13, 86 |
| `LineLabeler.IsTitle` | `regexTITLE` | 87 |
| `LineLabeler.IsTitleSep` | `regexTITLESEP` | 88 |
| `LineLabeler.IsCodeSep` | `regexCODESEP` | 89 |
| `LineLabeler.IsQuote` | `regexQUOTE` | 90 |
| `LineLabeler.IsList` | `regexLIST` | 91 |
| `LineLabeler.IsSepLine` | `regexSEPLINE` | 92 |
| `LineLabeler.IsLink` | `regexLINK` | 93 |
| `ParagraphJoiner.StartsHalfWidth` | `regexHALFWIDTH` | 111 |
| `ParagraphJoiner.Terminator` | the suffix chosen for the held line | 116-122 |

Where a pattern leaves the split of the line open, a lemma in the
`## Model` table shows that the predicate accepts exactly the lines the
pattern does.

Modules, one per stage, plus shared pieces:

| File | Module | Contents |
|---|---|---|
| `strings.dfy` | `Strings` | character classes, substring search, concatenation of the printed strings |
| `comment_scan.dfy` | `CommentScan` | `scanXMLComment`, checked against a declarative "first comment pair" |
| `comment_stripper.dfy` | `CommentStripper` | `whenInNormalLine`, `whenInCommentLine` and the `inComment` fold |
| `comment_stripper.dfy` | `CommentStripperExamples` | the stripper on concrete lines |
| `blank_collapser.dfy` | `BlankCollapser` | `removeConsecutiveBlankLines` |
| `line_labeler.dfy` | `LineLabeler` | `LineLabels` and `labelLines` |
| `paragraph_joiner.dfy` | `ParagraphJoiner` | `concatParagraphLines`, checked against a position-by-position description of its output |
| `pipeline.dfy` | `Pipeline` | the composition in `main` and what it guarantees end to end |

Some points of behaviour follow the code where a plain reading of the tool's
purpose would expect something else:

- **An inline comment splits the line.** `a<!--x-->b` becomes two emitted
  elements, `a` and `b`. It does not become `ab`. Both are TEXT, so the
  joiner puts them back together as `a b`.
  - `Pipeline.InlineCommentBecomesSpace` proves this end to end.
  - `a<!--x-->` emits `a` and then `""`.
- **A code fence is three or more backticks.** Any line that starts with
  three backticks is a fence line, not only a line of exactly three.
- **TITLESEP only matches from the first column.** An indented `---` is a
  list item.
- **Empty input prints `null` and a line break.** On an empty file the
  final flush prints Kotlin's rendering of a null string, `null`, followed
  by a line break.
- **The comment state needs non-overlapping markers.** After a normal line,
  the comment flag is set exactly when the line has an opener with no closer
  after it. This holds only when no closer shares characters with an opener.
  In `<!--a<!-->`, the second opener and the closer share `--`. That opener
  is left unclosed, yet the flag is cleared (`OverlappingMarkers`,
  `OverlappingMarkersUnclosed`).
- **Text between comments is lost.** Inside a comment, a line
  `x-->b<!--c-->d` resumes at `d`, and the `b` between the closer and the
  next opener is lost. The scanner prefers a complete pair to a lone closer.
  The source calls this line shape ill-formed.
- **Text before an unclosed opener is lost too.** Inside a comment, a line
  `x-->y<!--z` emits nothing and the comment stays open. The scanner tries
  the opener-only pattern before the closer-only one, so the closer is never
  seen as ending the comment (`ClosingLineWithUnclosedOpener`).

## Model

| member | source | states |
|---|---|---|
| `CommentScan.Scan` | docs.ja/topics/stripped/mdstrip.kt:15-38 | only four group shapes come back: the text before the opener is absent only when the comment and the rest are present (the JVM asserts on lines 22, 28 and 34), and the comment is absent only when the line comes back whole as the prefix, with no rest |
| `CommentScan.ScanShape` | docs.ja/topics/stripped/mdstrip.kt:15-38 | which shape comes back, as if-and-only-ifs about the line: all three groups exactly when an opener has a closer after it; no rest exactly when there is an opener but no such pair; no prefix exactly when there is a closer and no opener; no comment exactly when there is neither marker |
| `CommentScan.ScanOnFirstPair` | docs.ja/topics/stripped/mdstrip.kt:16-23 | the lazy groups of the one-line pattern select the earliest opener and then the earliest closer after it; the groups are the text before, between and after that pair |
| `CommentScan.ScanOnOpenerOnly` | docs.ja/topics/stripped/mdstrip.kt:17-29 | with no complete pair, the line splits at its first opener, and everything after the opener is the comment |
| `CommentScan.ScanOnCloserOnly` | docs.ja/topics/stripped/mdstrip.kt:18-35 | with no opener, the line splits at its first closer and there is no prefix |
| `CommentScan.ScanOnPlainLine` | docs.ja/topics/stripped/mdstrip.kt:37 | a line with neither marker comes back whole as the prefix |
| `CommentScan.ScanRebuilds` | docs.ja/topics/stripped/mdstrip.kt:15-38 | putting the markers back between the groups gives the original line: the scanner loses no character |
| `CommentStripper.NormalLine` | docs.ja/topics/stripped/mdstrip.kt:42-58 | outside a comment, a line emits at least one element and no element contains `<!--`; a line without an opener emits exactly `""` when blank and itself otherwise, including a line with a lone closer, and leaves the flag clear |
| `CommentStripper.CommentLine` | docs.ja/topics/stripped/mdstrip.kt:60-65 | inside a comment, no element contains `<!--`; a line without a closer emits nothing and keeps the flag set; on a line without an opener, the text after the first closer is processed as a normal line |
| `CommentStripper.Step` | docs.ja/topics/stripped/mdstrip.kt:68-70 | the flag picks the handler: outside a comment an opener-free line is emitted as itself (`""` when blank) and clears the flag; inside a comment a closer-free line emits nothing and keeps the flag; no emitted element contains `<!--` |
| `CommentStripper.Strip` | docs.ja/topics/stripped/mdstrip.kt:67-70 | across a stream, no emitted element contains `<!--`, and a non-empty stream starting outside a comment emits something |
| `CommentStripper.RemoveComments` | docs.ja/topics/stripped/mdstrip.kt:40-71 | no emitted element contains `<!--`, and a non-empty file yields a non-empty stream |
| `CommentStripper.NormalLineState` | docs.ja/topics/stripped/mdstrip.kt:47-52 | a normal line leaves the comment flag set only if some opener on it has no closer after it; when markers do not overlap, such an opener does set the flag |
| `CommentStripper.InlineComment` | docs.ja/topics/stripped/mdstrip.kt:47-52 | `P<!--C-->S`, with no opener in P and no closer in C, emits P as its own element and then processes S as a fresh normal line |
| `CommentStripper.OpeningLine` | docs.ja/topics/stripped/mdstrip.kt:47-51 | `P<!--C` with no closer in C emits P and enters a comment |
| `CommentStripper.ClosingLine` | docs.ja/topics/stripped/mdstrip.kt:60-64 | inside a comment, `C-->S` with no opener on the line drops everything up to the first closer and processes S as a normal line |
| `CommentStripper.ClosingLineWithPair` | docs.ja/topics/stripped/mdstrip.kt:60-64 | inside a comment, a line holding a whole pair resumes after that pair's closer, dropping the text before it |
| `CommentStripper.ClosingLineWithUnclosedOpener` | docs.ja/topics/stripped/mdstrip.kt:60-63 | inside a comment, `Q<!--C`, with no opener in Q and no closer in C, emits nothing and stays in the comment, even when Q holds a closer: the opener-only pattern is tried before the closer-only one, so the text after such a closer is dropped |
| `CommentStripper.StripAppend` | docs.ja/topics/stripped/mdstrip.kt:67-70 | stripping a file in two pieces, with the second piece starting in the state the first left, is stripping it whole |
| `CommentStripper.OpenerFreeLinesPassThrough` | docs.ja/topics/stripped/mdstrip.kt:43-56 | a file with no opener on any line comes out line for line, with whitespace-only lines replaced by `""`, and ends outside a comment |
| `CommentStripper.CommentSpanningLines` | docs.ja/topics/stripped/mdstrip.kt:40-71 | `[P<!--, M, C-->S]`, with no closer in M or C, no opener after the first line and a non-blank S, yields `[P, S]` and ends outside a comment |
| `CommentStripperExamples.InlineSplits` | docs.ja/topics/stripped/mdstrip.kt:47-52 | `a<!--x-->b` is emitted as the two elements `a` and `b` |
| `CommentStripperExamples.TrailingComment` | docs.ja/topics/stripped/mdstrip.kt:43-52 | `a<!--x-->` emits `a` and then `""`, because the empty rest is a blank line |
| `CommentStripperExamples.CommentAcrossLines` | docs.ja/topics/stripped/mdstrip.kt:40-71 | `[a<!--, x, y-->b]` yields `[a, b]` and ends outside a comment |
| `CommentStripperExamples.TextBetweenCommentsIsLost` | docs.ja/topics/stripped/mdstrip.kt:60-64 | inside a comment, `x-->b<!--c-->d` emits only `d` |
| `CommentStripperExamples.TextBeforeUnclosedOpenerIsLost` | docs.ja/topics/stripped/mdstrip.kt:60-63 | inside a comment, `x-->y<!--z` emits nothing and keeps the flag set |
| `CommentStripperExamples.OverlappingMarkers` | docs.ja/topics/stripped/mdstrip.kt:47-52 | `<!--a<!-->` emits `""` twice and clears the flag |
| `CommentStripperExamples.OverlappingMarkersUnclosed` | docs.ja/topics/stripped/mdstrip.kt:47-52 | yet `<!--a<!-->` has an opener with no closer after it |
| `BlankCollapser.CollapseAfter` | docs.ja/topics/stripped/mdstrip.kt:73-79 | the filter's output has no two adjacent blank lines, never starts with a blank after a blank lookbehind, and is no longer than its input |
| `BlankCollapser.RemoveConsecutiveBlankLines` | docs.ja/topics/stripped/mdstrip.kt:73-79 | the stage's output has no two adjacent blank lines, and the first input line always survives |
| `BlankCollapser.CollapseEmitsInputLines` | docs.ja/topics/stripped/mdstrip.kt:76 | every emitted line is one of the input lines |
| `BlankCollapser.DroppedExactlyWhenBothBlank` | docs.ja/topics/stripped/mdstrip.kt:74-77 | appending a line to the input appends it to the output, unless it and the input line before it are both blank |
| `BlankCollapser.NonBlankLinesSurvive` | docs.ja/topics/stripped/mdstrip.kt:76 | the non-blank lines come out all and in order |
| `BlankCollapser.InputOrEmittedLookbehindAgree` | docs.ja/topics/stripped/mdstrip.kt:76-77 | keying the filter on the previous input line gives the same output as keying it on the previous emitted line |
| `BlankCollapser.CollapseKeepsPairFree` | docs.ja/topics/stripped/mdstrip.kt:76 | a stream without two adjacent blank lines passes through unchanged |
| `BlankCollapser.CollapseIdempotent` | docs.ja/topics/stripped/mdstrip.kt:73-79 | applying the stage twice is applying it once |
| `BlankCollapser.BlankRunCollapses` | docs.ja/topics/stripped/mdstrip.kt:73-79 | `[text, "", "", "", more]` becomes `[text, "", more]` |
| `LineLabeler.Label` | docs.ja/topics/stripped/mdstrip.kt:86-105 | the label's pattern matches the line, and no pattern of an earlier arm in the fixed priority order does |
| `LineLabeler.LabelLines` | docs.ja/topics/stripped/mdstrip.kt:85-107 | one pair per line, in order, each holding the line unchanged with its label |
| `LineLabeler.TitlePattern` | docs.ja/topics/stripped/mdstrip.kt:87 | TITLE's predicate holds exactly when some whitespace-only prefix is followed by `#`, the reading of `^\s*#.*$` |
| `LineLabeler.UnderlinePattern` | docs.ja/topics/stripped/mdstrip.kt:88 | for `=` or `-`, the underline predicate holds exactly when the line splits into a non-empty run of that character and a whitespace-only rest, the reading of one alternative of the TITLESEP pattern |
| `LineLabeler.ListPattern` | docs.ja/topics/stripped/mdstrip.kt:91 | LIST's predicate holds exactly when some whitespace-only prefix is followed by `-`, `*`, or one or more digits and a dot |
| `LineLabeler.RulePattern` | docs.ja/topics/stripped/mdstrip.kt:92 | each alternative of the SEPLINE pattern holds exactly when the line is only that character and whitespace, with the character at three positions at least |
| `LineLabeler.LinkPattern` | docs.ja/topics/stripped/mdstrip.kt:93 | LINK's predicate holds exactly when the line starts with `[` and has `]:` at some later index |
| `LineLabeler.BlankExactly` | docs.ja/topics/stripped/mdstrip.kt:86-96 | BLANK is exactly the whitespace-only lines, and a TEXT line is non-empty and not blank |
| `LineLabeler.UnderlineIsTitleSep` | docs.ja/topics/stripped/mdstrip.kt:88-98 | a run of `=` or `-` from the first column followed by whitespace only is TITLESEP |
| `LineLabeler.DashesAreTitleSep` | docs.ja/topics/stripped/mdstrip.kt:88-98 | `---` and `===` are TITLESEP, never LIST or SEPLINE |
| `LineLabeler.DashIsTitleSepOrList` | docs.ja/topics/stripped/mdstrip.kt:88-101 | a line whose first non-space character is `-` is TITLESEP when it is an unindented dash run with trailing whitespace, and LIST otherwise |
| `LineLabeler.StarIsList` | docs.ja/topics/stripped/mdstrip.kt:87-101 | a line whose first non-space character is `*` is LIST |
| `LineLabeler.ThematicBreaksOfStarsAndSpacedDashesAreLists` | docs.ja/topics/stripped/mdstrip.kt:91-102 | `***`, `* * *` and `- - -` are LIST, because LIST is tried before SEPLINE |
| `LineLabeler.SepLineIsUnderscoresOnly` | docs.ja/topics/stripped/mdstrip.kt:86-102 | a line is SEPLINE exactly when it consists of `_` and whitespace only, with at least three `_` |
| `LineLabeler.HashIsTitle` | docs.ja/topics/stripped/mdstrip.kt:87-97 | a line whose first non-space character is `#` is TITLE |
| `LineLabeler.PlainWordIsText` | docs.ja/topics/stripped/mdstrip.kt:86-104 | a word of lower-case letters matches no pattern and is TEXT |
| `ParagraphJoiner.JoinFrom` | docs.ja/topics/stripped/mdstrip.kt:115-127 | each arriving pair releases the line held before it, and the end of input flushes the last held line (`null` when none was ever held) with a line break, so one string comes out per held line |
| `ParagraphJoiner.ConcatParagraphLines` | docs.ja/topics/stripped/mdstrip.kt:110-128 | on non-empty input, one string per pair, the last one being the last line and a line break; on empty input, the single string `null` followed by a line break |
| `ParagraphJoiner.ConcatIsJoined` | docs.ja/topics/stripped/mdstrip.kt:110-128 | the running state machine equals the position-by-position description: line k gets a space or nothing exactly when it and line k+1 are TEXT and an even number of fence lines precede line k+1 (counting it), and a line break otherwise |
| `ParagraphJoiner.TerminatorIsSuffix` | docs.ja/topics/stripped/mdstrip.kt:116-122 | the suffix the running machine appends to the held line when pair i arrives (fence flag toggled first) is the one the position-by-position description gives line i-1 |
| `ParagraphJoiner.StructuralLinesStandAlone` | docs.ja/topics/stripped/mdstrip.kt:117-122 | a line that is not TEXT ends with a line break, and so does the line before it |
| `ParagraphJoiner.FencedLinesStandAlone` | docs.ja/topics/stripped/mdstrip.kt:116-122 | inside a code block, no line is joined to the next |
| `ParagraphJoiner.OutputShape` | docs.ja/topics/stripped/mdstrip.kt:117-127 | each output string is its input line followed by a line break, a space, or nothing; nothing only before a TEXT line that does not start with a half-width character |
| `ParagraphJoiner.TwoTextLines` | docs.ja/topics/stripped/mdstrip.kt:118-127 | two TEXT lines become the first followed by a space (only before a half-width character), then the second with a line break |
| `ParagraphJoiner.JoinWithSpace` | docs.ja/topics/stripped/mdstrip.kt:118-119 | TEXT lines `Hello` and `World` print as `Hello World` and a line break |
| `ParagraphJoiner.JoinWithoutSpace` | docs.ja/topics/stripped/mdstrip.kt:118-119 | TEXT lines `Hello` and `世界` print as `Hello世界` and a line break |
| `ParagraphJoiner.FenceLinesPassThrough` | docs.ja/topics/stripped/mdstrip.kt:116-121 | two TEXT lines between fence lines are each emitted with their own line break |
| `ParagraphJoiner.EmptyInputFlushesNull` | docs.ja/topics/stripped/mdstrip.kt:113-127 | on empty input, the flush emits `null` followed by a line break |
| `Pipeline.Cleaned` | docs.ja/topics/stripped/mdstrip.kt:138-140 | after the first two stages, no line contains `<!--`, no two adjacent lines are blank, and a non-empty file yields a non-empty stream |
| `Pipeline.MdStrip` | docs.ja/topics/stripped/mdstrip.kt:138-141 | on an empty file, `null` and a line break; otherwise one string per cleaned line; the last string ends in a line break |
| `Pipeline.PrintedHasNoOpener` | docs.ja/topics/stripped/mdstrip.kt:138-142 | the printed text never contains `<!--`, not even across the joints where the joiner glues lines together |
| `Pipeline.TwoTextLinesPrintAsOne` | docs.ja/topics/stripped/mdstrip.kt:118-119 | a file whose cleaned lines are two TEXT lines prints as one line |
| `Pipeline.InlineCommentBecomesSpace` | docs.ja/topics/stripped/mdstrip.kt:47-52 | for lower-case words P and S and a comment C without a closer, the file `P<!--C-->S` prints as `P S` and a line break |
| `Pipeline.InlineCommentSplits` | docs.ja/topics/stripped/mdstrip.kt:138-140 | that line reaches the labeller as the two lines P and S |

## Left out

- File input (`Input`, `Files.readAllLines`) is not modelled. The model takes
  the file's lines as a `seq<string>`.
- Console output (`print`, the usage message in `main`) is not modelled. The
  model returns the strings to be printed, and `Pipeline.Printed` is their
  concatenation.
- The coroutine and `Flow` plumbing (`runBlocking`, `coroutineScope`,
  `collect`, `emit`) is not modelled. It adds no concurrency: each stage
  becomes a fold over a sequence.
- The Java regex engine is not modelled. Each pattern is written out as a
  predicate, on the assumption that lines hold no line-terminator characters.
  Java's `.` excludes U+0085, U+2028 and U+2029, which
  `Files.readAllLines` can leave inside a line; on such lines the real
  patterns can fail where the predicates succeed.
- The JVM `assert` calls on lines 22, 28 and 34 have no behaviour of their
  own. What they check is proved instead by `CommentScan.Scan` and
  `CommentScan.ScanShape`.
- Unicode whitespace and width are not modelled. Only the ASCII ranges the
  patterns use matter: `\s` and `!`..`~`.
- CommentStripper.NormalLineState: the converse direction holds only when no
  closer shares characters with an opener. On `<!--a<!-->` it fails, as
  `CommentStripperExamples.OverlappingMarkers` shows.
