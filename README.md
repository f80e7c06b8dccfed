# VTU question-paper core in Dafny

This project models the text-processing core of a web tool that reads a VTU
(Visvesvaraya Technological University) model question paper and rebuilds it as
a printable HTML paper. The core covers four things:

- **Question extraction** (`PdfProcessor.extractQuestions`). The document text
  is cut into sections at every `Q<digits>` marker. In each section the global
  sub-question pattern `/([a-c])\s+(.*?)(?=\s+(\d+))/gi` is run. Each raw match
  is filtered: its mark must be in range, it must not look like a header, its
  length must fit, and its cleaned text must be long enough and hold a letter.
  The matches that pass become `Question` records with the id
  `q<number><letter>`.
- **Rephrasing** (`generateSimilarQuestions`). A leading instruction verb is
  stripped from a question. The rest is then put behind each of five fixed
  prefixes.
- **Paper structure** (`HTMLPdfGenerator.parseVTUStructure` and
  `extractPattern`). Seven of the eight header fields come from the first
  match of a case-insensitive pattern, each with a fixed fallback; `examType`
  is always `B.E. Degree Examination`. The questions are
  grouped by question number and the numbers sorted. Each pair of
  consecutive numbers forms one module, named `Module - <n>`.
- **Layout** (`generateTableRows`, `extractCSSFromHTML`,
  `extractBodyFromHTML`). Each module becomes a header row, then its question
  groups in ascending order, each group's questions sorted by sub-part. The
  first row of a group carries the question-number cell, and an `OR` row
  separates consecutive groups. Separately, the style sheet and the body are
  cut out of a generated page.

Every regular expression is written out as a matcher. Each matcher follows
the order in which JavaScript's backtracking engine tries alternatives and
quantifier lengths: greedy runs are tried longest first, lazy ones shortest
first, alternatives left to right, and `.` stops at line terminators. Without
the `u` flag, case-insensitive matching never maps a character at or above
U+0080 to one below it, and every letter in these patterns is ASCII. So a text
character matches a pattern letter exactly when it is that letter in either
ASCII case. The one non-ASCII literal, the en dash of the module-heading
pattern, has no case variant and is compared exactly. `String.prototype.match`
without `g` returns the first position that matches
(`Matching.Search`). An `exec` loop with `g` resumes where the previous match
ended (`SubQuestion.ScanMatches`, `Segmenter.MarkersFrom`).

Each loop of the source is a method proved against a specification function:

- `PdfProcessor.ExtractQuestions` against `Extraction.Questions`;
- `VtuStructure.ParseModules` against `VtuStructure.Modules`;
- `TableRows.GenerateTableRows` against `TableRows.TableLayout` rendered with
  the row templates.

The lemmas then state what those functions promise:

- every extracted question satisfies the filter;
- the filter accepts exactly the matches it should;
- sections split the text at markers;
- extraction composes over text split at a marker;
- modules pair the sorted numbers and place every question exactly once;
- the table has one number cell per group, one `OR` row between consecutive
  groups and one row per question;
- the header matchers agree with the shapes their patterns describe.

Modules: `Text` (character classes, trim, white-space collapsing, decimal
numbers), `Wrappers`, `Matching`, `QuestionPaper` (the `Question` record),
`Segmenter`, `SubQuestion`, `Validator`, `Extraction`, `Composition`,
`PdfProcessor`, `Rephrase`, `HeaderFields`, `VtuStructure`, `TableRows` and
`HtmlExtract`.

Extraction, as `src/utils/pdf-processor.ts:44-163` writes it:

- It is one two-step scan, markers first and then sub-questions in each
  section, with no fallback strategy and no estimate of how many questions to
  expect.
- A section ends exactly where the next marker starts.
- Nothing is deduplicated or reconciled afterwards. A repeated sub-question is
  kept as often as it occurs (`Composition.RepeatedTextRepeatsQuestions`).
- Every question keeps the zero box as its position.
- The formatting check of `pdf-processor.ts:136` is kept. It is proved never
  to fire (`Validator.FormattingCheckRedundant`).

## Model

| member | source | states |
|---|---|---|
| Text.Trim | src/utils/pdf-processor.ts:102 | the trimmed text is a contiguous slice of the input with only white characters removed before and after it, and it has no white space at either end |
| Text.TrimOfTrimmed | src/utils/pdf-processor.ts:127 | trimming is idempotent: a text with no white space at its ends is unchanged |
| Text.TrimDropWhite | src/utils/pdf-processor.ts:102 | a leading white character does not affect the trimmed result |
| Text.Collapse | src/utils/pdf-processor.ts:124 | replacing white runs by one space never lengthens the text, keeps it empty exactly when it was empty, and keeps whether each end is white; where the words and runs go is stated by CollapseWordBoundary, CollapseAppend and CollapseNoWhite |
| Text.CollapseAppend | src/utils/pdf-processor.ts:124 | a text ending in a non-white character collapses on its own: collapsing it followed by anything is its collapse followed by the other's |
| Text.CollapseWhiteRun | src/utils/pdf-processor.ts:124 | a non-empty white run before a text that does not start white becomes exactly one space |
| Text.CollapseWordBoundary | src/utils/pdf-processor.ts:124 | a white run between non-white characters (or the ends of the text) becomes exactly one space, and the two sides collapse independently |
| Text.CollapseNoWhite | src/utils/pdf-processor.ts:124 | a text without white characters is unchanged |
| Text.CollapseHasSingleSpaces | src/utils/pdf-processor.ts:124 | after the replacement the only white character is a space and no two white characters are adjacent |
| Text.CollapseKeepsNonWhite | src/utils/pdf-processor.ts:124 | the replacement keeps every non-white character, in order |
| Text.NewlinesToSpace | src/utils/pdf-processor.ts:126 | a text without a line feed is left as it is; what happens to the runs is stated by NewlinesGone, NewlinesBoundary and NewlinesAppend |
| Text.NewlinesGone | src/utils/pdf-processor.ts:126 | no line feed is left, and the text never grows |
| Text.NewlinesAppend | src/utils/pdf-processor.ts:126 | a text not ending in a line feed is handled on its own: replacing in it followed by anything is its result followed by the other's |
| Text.NewlinesRun | src/utils/pdf-processor.ts:126 | a non-empty run of line feeds before a text that does not start with one becomes exactly one space |
| Text.NewlinesBoundary | src/utils/pdf-processor.ts:126 | a run of line feeds between two other characters (or the ends of the text) becomes exactly one space, and the two sides are replaced independently |
| Text.RunEnd | src/utils/pdf-processor.ts:71 | a greedy class run ends at the first character outside the class: all characters before are in it |
| Text.Fold | src/utils/pdf-processor.ts:91 | every letter in these patterns is ASCII, so a text character matches a pattern letter under `i` exactly when it is that letter in either ASCII case (the one non-ASCII literal, the en dash of the module-heading pattern, has no case variant and is compared exactly): folding maps only ASCII letters to ASCII letters, and leaves lower-case letters and every non-letter as they are |
| Text.NatToString | src/utils/pdf-processor.ts:142 | the printed integer is a non-empty digit string without a leading zero whose value is the number |
| Text.CanonicalDigitsRoundTrip | src/utils/pdf-processor.ts:77 | parsing a canonical digit string and printing the value gives the string back, the other half of the round trip |
| Matching.Search | src/utils/html-pdf-generator.ts:88 | `match` without `g` reports the first position where the pattern matches, and `null` exactly when it matches nowhere |
| Segmenter.MarkerEnd | src/utils/pdf-processor.ts:71 | `Q\d+` at a marker consumes every digit after the `Q` |
| Segmenter.FindMarker | src/utils/pdf-processor.ts:71-75 | `exec` finds the first marker at or after `lastIndex`, and none when no marker follows |
| Segmenter.MarkersFrom | src/utils/pdf-processor.ts:75-81 | the exec loop yields only marker positions at or after its start |
| Segmenter.MarkersComplete | src/utils/pdf-processor.ts:75-81 | every marker after the start is yielded by the exec loop |
| Segmenter.MarkersAscending | src/utils/pdf-processor.ts:75-81 | the markers come in strictly ascending order |
| Segmenter.FindMarkerStep | src/utils/pdf-processor.ts:75 | one exec step yields the first marker and resumes after its digits without missing a marker |
| Segmenter.MarkersSkip | src/utils/pdf-processor.ts:75 | skipping a stretch without markers does not change the markers found |
| Segmenter.Sections | src/utils/pdf-processor.ts:70-86 | the sections of the text, one per `Q<digits>` marker; specified by SectionsContiguous and SectionBounds, which state where each starts and ends and which number it carries |
| Segmenter.SectionsContiguous | src/utils/pdf-processor.ts:84-86 | the sections are non-empty, start at markers with their numbers, each ends where the next starts, and the last ends at the end of the text |
| Segmenter.SectionBounds | src/utils/pdf-processor.ts:84-86 | the same facts for a single section |
| Segmenter.SectionsWithin | src/utils/pdf-processor.ts:79-86 | every section lies within the text |
| Segmenter.MarkerStartsSection | src/utils/pdf-processor.ts:75-78 | every marker of the text starts a section |
| Segmenter.NoMarkerInsideSection | src/utils/pdf-processor.ts:84-86 | no marker lies strictly inside a section |
| Segmenter.NothingBeforeFirstSection | src/utils/pdf-processor.ts:75-86 | no marker precedes the first section, and there are no sections exactly when there are no markers |
| SubQuestion.MarkAhead | src/utils/pdf-processor.ts:91 | the lookahead `\s+(\d+)` sees white space and then a maximal run of digits that it does not consume |
| SubQuestion.LazyBodyEnd | src/utils/pdf-processor.ts:91 | the lazy body ends at the first position where the lookahead succeeds and never crosses a line terminator |
| SubQuestion.TryWhite | src/utils/pdf-processor.ts:91 | giving back white space from `\s+` one character at a time yields a match whose body and lookahead satisfy the pattern |
| SubQuestion.MatchAt | src/utils/pdf-processor.ts:91 | a match at a position is well formed: label, white space, one-line body, white space and mark digits |
| SubQuestion.Exec | src/utils/pdf-processor.ts:97-100 | `exec` returns the match at the first matching position at or after `lastIndex`, and `null` when none follows |
| SubQuestion.ScanMatches | src/utils/pdf-processor.ts:97-100 | the exec loop yields well-formed matches, each starting after the previous one ended |
| Validator.TestFromAt | src/utils/pdf-processor.ts:114 | `test` succeeds whenever the pattern matches at some position |
| Validator.TestFromEarlier | src/utils/pdf-processor.ts:114 | a scan that succeeds from one position also succeeds from any earlier one |
| Validator.SomeTestAt | src/utils/pdf-processor.ts:114 | `some` succeeds when any one pattern's test does |
| Validator.IsHeader | src/utils/pdf-processor.ts:51-65 | whether any of the 13 header patterns matches somewhere in the body; specified by IsHeaderWhenMatched and HeaderRejected |
| Validator.IsHeaderWhenMatched | src/utils/pdf-processor.ts:51-65 | a text is a header when any of the 13 patterns matches anywhere in it |
| Validator.Accept | src/utils/pdf-processor.ts:101-152 | the checks of one loop turn on a raw match; specified by AcceptExactly (when a match is accepted, both directions) and AcceptedShape (what the pushed question holds) |
| Validator.AcceptedShape | src/utils/pdf-processor.ts:101-152 | an accepted question has marks 2 to 10 read with 0 as 8, the id `q` + number + lower-case letter, the cleaned text of at least 15 characters with a letter, a zero position and no alternatives |
| Validator.AcceptExactly | src/utils/pdf-processor.ts:108-139 | a match is accepted if and only if its marks are in range, its trimmed body is no header, is 21 to 499 characters long, and its cleaned text has at least 15 characters and a letter |
| Validator.FormattingCheckRedundant | src/utils/pdf-processor.ts:130-139 | a cleaned text that passes the length and letter check is neither a numeral nor a lone sub-part letter, so the line 136 check never rejects |
| Validator.ZeroMarksReadAsEight | src/utils/pdf-processor.ts:103 | a mark of all zeros is judged exactly as a mark of 8 |
| Validator.HeaderRejected | src/utils/pdf-processor.ts:60-118 | a body mentioning `marks` or `introduction to` in any case is always rejected |
| Validator.Clean | src/utils/pdf-processor.ts:123-127 | the cleaning chain of collapse, label removal, line-feed replacement and trim; specified by CleanOfTrimmed |
| Validator.CleanOfTrimmed | src/utils/pdf-processor.ts:123-127 | cleaning keeps the collapsed body, minus at most one leading label and space; the result is single spaced, has no white ends and is no longer than the body |
| Validator.StripLabelOfCollapsed | src/utils/pdf-processor.ts:125 | on collapsed text the label removal drops either nothing or a label and its space |
| Validator.NoLineFeed | src/utils/pdf-processor.ts:126 | after collapsing, the line-feed replacement changes nothing |
| Validator.CollapseKeepsLetters | src/utils/pdf-processor.ts:124-130 | collapsing white space neither adds nor removes the letters the check of line 130 looks for |
| Validator.NonWhiteLetters | src/utils/pdf-processor.ts:130 | a text has a letter exactly when its non-white characters do |
| Validator.HasLetterConcat | src/utils/pdf-processor.ts:130 | a concatenation has a letter exactly when one of its parts has |
| Extraction.ScanStep | src/utils/pdf-processor.ts:100-158 | one iteration pushes the first match's question, if it passes, and the rest of the result is what the scan from its end yields |
| Extraction.AcceptValid | src/utils/pdf-processor.ts:141-152 | a pushed question is valid and its id names its section's number |
| Extraction.CandidateValid | src/utils/pdf-processor.ts:100-152 | the question made from one raw match, if any, is valid and carries its section's number |
| Extraction.AcceptAllValid | src/utils/pdf-processor.ts:100-158 | every question found in a section is valid and carries that section's number |
| Extraction.QuestionsOfValid | src/utils/pdf-processor.ts:93-159 | every question found in a list of sections is valid and carries the number of one of them |
| Extraction.Questions | src/utils/pdf-processor.ts:44-163 | the questions of the text, section by section; specified by QuestionsValid, Composition.QuestionsConcat and PdfProcessor.ExtractQuestions |
| Extraction.QuestionsValid | src/utils/pdf-processor.ts:44-163 | every extracted question has marks 2 to 10, a single-spaced trimmed text of 15 to 499 characters with a letter, a zero position, no alternatives and an id naming a section of the text |
| Composition.MarkersRight | src/utils/pdf-processor.ts:75-81 | the markers found in the second half of a concatenation are those of that half, moved along by the first half's length |
| Composition.MarkersLeft | src/utils/pdf-processor.ts:75-81 | when the second half starts with a marker, the markers of the whole are those of the first half, then the moved markers of the second |
| Composition.MarkerLeft | src/utils/pdf-processor.ts:71-77 | a marker of the first half keeps its end and number in the whole when the second half starts with a marker |
| Composition.MarkerRight | src/utils/pdf-processor.ts:71-77 | a marker of the second half keeps its number and its moved end in the whole |
| Composition.DelimitConcat | src/utils/pdf-processor.ts:84-86 | delimiting two runs of markers one after the other gives the sections of each, the second moved along |
| Composition.NumbersConcat | src/utils/pdf-processor.ts:77 | each marker of either half reads the same number in the whole |
| Composition.SectionsConcat | src/utils/pdf-processor.ts:70-86 | splitting the text just before a marker splits its sections there, the second part's moved along |
| Composition.QuestionsOfAppend | src/utils/pdf-processor.ts:93-159 | the forEach over sections appends the result of each section in turn |
| Composition.QuestionsOfLeft | src/utils/pdf-processor.ts:94 | sections inside the first half yield the same questions in the whole |
| Composition.QuestionsOfRight | src/utils/pdf-processor.ts:94 | sections of the second half, moved along, yield the same questions in the whole |
| Composition.QuestionsConcat | src/utils/pdf-processor.ts:44-163 | extraction of a text split just before a marker is the extraction of the first part followed by that of the second |
| Composition.NoMarkerNoQuestions | src/utils/pdf-processor.ts:75-93 | a text without a `Q<digit>` marker yields no questions |
| Composition.PreambleIgnored | src/utils/pdf-processor.ts:75-94 | dropping the text before the first marker does not change the result |
| Composition.RepeatedTextRepeatsQuestions | src/utils/pdf-processor.ts:141-152 | nothing is deduplicated: a text written twice yields its questions twice, with the same ids |
| PdfProcessor.ScanSection | src/utils/pdf-processor.ts:97-158 | the exec loop with its checks pushes exactly the questions of the section |
| PdfProcessor.Opened | src/utils/pdf-processor.ts:76-80 | each marker becomes a section with its number and its position, running to the end of the text |
| PdfProcessor.OpenedStep | src/utils/pdf-processor.ts:75-80 | one turn of the marker loop opens the section of the first marker and continues after its digits |
| PdfProcessor.CollectMarkers | src/utils/pdf-processor.ts:70-81 | the marker loop collects, in order, one open section per marker of the text |
| PdfProcessor.CloseSections | src/utils/pdf-processor.ts:84-86 | the end of every section but the last becomes the next one's start; numbers, starts and the last end stay |
| PdfProcessor.ScanSections | src/utils/pdf-processor.ts:93-159 | the forEach over sections returns their questions, section by section |
| PdfProcessor.SectionsOfMarkers | src/utils/pdf-processor.ts:70-86 | the two loops together compute exactly the sections of the text |
| PdfProcessor.ExtractQuestions | src/utils/pdf-processor.ts:44-163 | `extractQuestions` computes the extraction function, and every question it returns is valid |
| PdfProcessor.GenerateSimilarQuestions | src/utils/pdf-processor.ts:165-187 | exactly five alternatives, alternative i being prefix i, a space and the base content |
| Rephrase.FirstWhite | src/utils/pdf-processor.ts:178 | `.*?(?=\s)` stops at the first white character, or there is none |
| Rephrase.VerbMatch | src/utils/pdf-processor.ts:178 | the removed prefix ends inside the text |
| Rephrase.BaseContent | src/utils/pdf-processor.ts:178 | the base content has no white space at its ends |
| Rephrase.VerbsExclusive | src/utils/pdf-processor.ts:178 | no two verbs of the alternation can both match at the start |
| Rephrase.VerbMatchFrom | src/utils/pdf-processor.ts:178 | when a verb matches, the removed prefix ends at the first white character after it |
| Rephrase.NoVerbMatch | src/utils/pdf-processor.ts:178 | when no verb matches there is nothing to remove |
| Rephrase.BaseContentCases | src/utils/pdf-processor.ts:178 | with a verb in front, the base is the trimmed text after the next white character, or the whole trimmed text if none follows; without a verb, it is the trimmed text |
| Rephrase.VerbStripped | src/utils/pdf-processor.ts:178 | a verb in any case, one white character and a rest give the trimmed rest |
| Rephrase.SolGelExample | src/utils/pdf-processor.ts:178 | `Explain the working of a sol-gel process.` has the base `the working of a sol-gel process.` |
| HeaderFields.OrdinalFrom | src/utils/html-pdf-generator.ts:30-31 | the ordinal alternation matches the first ordinal, in list order, written at the position, and fails exactly when none is |
| HeaderFields.DegreeDown | src/utils/html-pdf-generator.ts:30 | greedy `.*degree` ends on the last `degree` within reach, and fails exactly when none is |
| HeaderFields.SemesterAt | src/utils/html-pdf-generator.ts:30 | `semester.*degree` matches only at `semester` and ends with a `degree` on the same line |
| HeaderFields.SemesterDown | src/utils/html-pdf-generator.ts:30 | backtracking the first `.*` finds a `semester.*degree` match within reach |
| HeaderFields.CourseFrom | src/utils/html-pdf-generator.ts:30 | the course match is non-empty and inside the text |
| HeaderFields.AltAt | src/utils/html-pdf-generator.ts:30 | one ordinal alternative is followed by `semester` and a later end inside the text |
| HeaderFields.SubjectAt | src/utils/html-pdf-generator.ts:33 | the subject match is non-empty and inside the text |
| HeaderFields.TimeAt | src/utils/html-pdf-generator.ts:34 | the time match is non-empty and inside the text |
| HeaderFields.MaxMarksAt | src/utils/html-pdf-generator.ts:35 | the max-marks match is non-empty and inside the text |
| HeaderFields.CodeDown | src/utils/html-pdf-generator.ts:36 | a course-code match with a given letter run is non-empty and inside the text |
| HeaderFields.CourseCodeAt | src/utils/html-pdf-generator.ts:36 | the course-code match is non-empty and inside the text |
| HeaderFields.MatchAt | src/utils/html-pdf-generator.ts:29-36 | no header pattern has an empty match |
| HeaderFields.ExtractPattern | src/utils/html-pdf-generator.ts:87-90 | `extractPattern` returns `null` exactly when the pattern matches nowhere, and otherwise the non-empty text of the match at the first matching position |
| HeaderFields.FieldValue | src/utils/html-pdf-generator.ts:29-36 | a field is the fallback when its pattern matches nowhere and the first match otherwise; `\|\|` never drops a match |
| HeaderFields.TimeMatchSound | src/utils/html-pdf-generator.ts:34 | what the time matcher matches is `time:`, white space, digits, white space and `hour` with an optional `s` |
| HeaderFields.TimeMatchComplete | src/utils/html-pdf-generator.ts:34 | the time matcher matches wherever the text has that shape |
| HeaderFields.CodeDownClosed | src/utils/html-pdf-generator.ts:36 | backtracking `[A-Z]{2,}` succeeds only by giving back at most one letter, the one that must be `C` or `K` before a digit |
| HeaderFields.CourseCodeClosedForm | src/utils/html-pdf-generator.ts:36 | the backtracking course-code matcher agrees at every position with the closed form |
| HeaderFields.CourseAltSound | src/utils/html-pdf-generator.ts:30 | a match of one ordinal alternative has the ordinal, `semester` and `degree` on one line |
| HeaderFields.SemesterSound | src/utils/html-pdf-generator.ts:30 | a `semester.*degree` match on the ordinal's line keeps both words on that line |
| HeaderFields.CourseFromSound | src/utils/html-pdf-generator.ts:30 | what the course matcher matches from an alternative on has the pattern's shape |
| HeaderFields.CourseMatchSound | src/utils/html-pdf-generator.ts:30 | every course match is an ordinal, then `semester`, then `degree`, on one line |
| HeaderFields.DegreeDownComplete | src/utils/html-pdf-generator.ts:30 | `.*degree` finds a match whenever `degree` occurs within reach |
| HeaderFields.SemesterAtComplete | src/utils/html-pdf-generator.ts:30 | `semester.*degree` matches wherever `semester` is followed by `degree` on its line |
| HeaderFields.SemesterDownComplete | src/utils/html-pdf-generator.ts:30 | backtracking the first `.*` finds a match whenever one exists within reach |
| HeaderFields.CourseAltComplete | src/utils/html-pdf-generator.ts:30 | an ordinal alternative matches wherever the text has its shape |
| HeaderFields.CourseFromComplete | src/utils/html-pdf-generator.ts:30 | the alternation matches whenever some later alternative does |
| HeaderFields.CourseMatchComplete | src/utils/html-pdf-generator.ts:30 | the course pattern matches wherever the text has its shape: with CourseMatchSound, an exact characterisation of the positions where it matches (where the match ends is stated by DegreeDown) |
| HeaderFields.ParseHeader | src/utils/html-pdf-generator.ts:27-36 | the header object: each matched field is its pattern's first match or its fallback, and `examType` is fixed; specified by FieldValue, NoMatchHeader and EmptyTextHeader |
| HeaderFields.NoMatchHeader | src/utils/html-pdf-generator.ts:28-37 | a text in which no pattern matches gets the fallback value in each of the seven matched fields, and `examType` is the fixed `B.E. Degree Examination` |
| HeaderFields.EmptyTextHeader | src/utils/html-pdf-generator.ts:28-37 | the empty text gets the fallback header: the seven fallbacks and the fixed `examType` |
| HtmlExtract.CharFrom | src/utils/html-pdf-generator.ts:511 | `[^>]*>` stops at the first `>`, or fails when there is none |
| HtmlExtract.LitFrom | src/utils/html-pdf-generator.ts:511 | the lazy group ends at the first place where the end tag starts, or fails when there is none |
| HtmlExtract.TagAt | src/utils/html-pdf-generator.ts:511 | the captured content lies after the opening tag and inside the page |
| HtmlExtract.TagAtShape | src/utils/html-pdf-generator.ts:511-516 | the matcher yields given content exactly when the page has the pattern's shape there: open literal, attributes without `>`, `>`, content without the end tag, end tag |
| HtmlExtract.Capture | src/utils/html-pdf-generator.ts:511-516 | the capture is `null` exactly when the pattern matches nowhere, and otherwise the content of the match at the first matching position |
| HtmlExtract.CaptureSpan | src/utils/html-pdf-generator.ts:511-516 | the captured content is a slice of the page in which the end tag does not start |
| HtmlExtract.CaptureStopsAtClose | src/utils/html-pdf-generator.ts:511-516 | the captured content never contains the end tag |
| HtmlExtract.CaptureAtStart | src/utils/html-pdf-generator.ts:511-516 | a match at the start of the page is the one captured |
| HtmlExtract.WrappedShape | src/utils/html-pdf-generator.ts:511-516 | an element written with no attributes around content without `<` has the pattern's shape, its content in place |
| HtmlExtract.WrappedContent | src/utils/html-pdf-generator.ts:510-518 | round trip: wrapping content without `<` in a style or body element and extracting gives the content back |
| HtmlExtract.ExtractCss | src/utils/html-pdf-generator.ts:510-513 | the content of the first style element, or the empty text; specified by Capture, WrappedContent and NoStyleIsEmpty |
| HtmlExtract.ExtractBody | src/utils/html-pdf-generator.ts:515-518 | the content of the first body element, or the whole page; specified by Capture, WrappedContent and NoBodyIsPage |
| HtmlExtract.NoStyleIsEmpty | src/utils/html-pdf-generator.ts:512 | a page without `<style` gives the empty style sheet |
| HtmlExtract.NoBodyIsPage | src/utils/html-pdf-generator.ts:517 | a page without `<body` is its own body |
| VtuStructure.QNum | src/utils/html-pdf-generator.ts:46 | the value of the digits after the first `q` that a digit follows, or 0; specified by QNumOfId |
| VtuStructure.QNumOfId | src/utils/html-pdf-generator.ts:46 | an id made by extraction reads back as its question number |
| VtuStructure.KeysExact | src/utils/html-pdf-generator.ts:44-51 | the map's keys are distinct and are exactly the questions' numbers |
| VtuStructure.GroupAbsent | src/utils/html-pdf-generator.ts:47-50 | a number no question has has no questions |
| VtuStructure.GroupPresent | src/utils/html-pdf-generator.ts:47-50 | a key's list of questions is never empty |
| VtuStructure.GroupMembers | src/utils/html-pdf-generator.ts:44-51 | a number's list holds exactly the questions with that number |
| VtuStructure.InsertAscending | src/utils/html-pdf-generator.ts:54 | inserting a new number keeps the list ascending and adds just that number |
| VtuStructure.SortAscCorrect | src/utils/html-pdf-generator.ts:54 | sorting distinct numbers gives an ascending permutation of them |
| VtuStructure.SortedKeys | src/utils/html-pdf-generator.ts:54 | the sorted numbers are ascending, as many as the keys, and exactly the questions' numbers |
| VtuStructure.GroupsOfMembers | src/utils/html-pdf-generator.ts:63-67 | the groups of some numbers hold exactly the questions with those numbers |
| VtuStructure.GroupsOfAll | src/utils/html-pdf-generator.ts:44-67 | the groups of distinct numbers covering every question hold each question as often as it was given |
| VtuStructure.ModulesFromAt | src/utils/html-pdf-generator.ts:57-76 | module j + 1 is named `Module - j + 1` and holds the groups of sorted numbers 2j and 2j + 1 |
| VtuStructure.ModulesFromCount | src/utils/html-pdf-generator.ts:57 | there is one module per two numbers, the last possibly with one |
| VtuStructure.PairContents | src/utils/html-pdf-generator.ts:57-76 | a module holds exactly the questions of its two numbers and is never empty |
| VtuStructure.Modules | src/utils/html-pdf-generator.ts:39-76 | the modules of the paper; specified by ModuleContents, ModulesAscending and EveryQuestionPlaced |
| VtuStructure.ModuleContents | src/utils/html-pdf-generator.ts:39-76 | the paper has ⌈keys/2⌉ modules; module m + 1 is named for m + 1 and holds exactly the questions numbered with sorted numbers 2m or 2m + 1, so none is empty |
| VtuStructure.ModulesAscending | src/utils/html-pdf-generator.ts:54-76 | every question of an earlier module has a smaller number than every question of a later one |
| VtuStructure.SameNumberSameModule | src/utils/html-pdf-generator.ts:44-76 | questions with the same number land in the same module |
| VtuStructure.ModulesFromQuestions | src/utils/html-pdf-generator.ts:57-76 | the modules together hold the groups of the sorted numbers in order |
| VtuStructure.EveryQuestionPlaced | src/utils/html-pdf-generator.ts:39-76 | every question lands in the modules exactly as often as it was given: nothing is lost or duplicated |
| VtuStructure.GroupByNumber | src/utils/html-pdf-generator.ts:44-51 | the forEach builds a map whose keys, in insertion order, are the numbers in order of first appearance, each holding its questions in order |
| VtuStructure.CollectPair | src/utils/html-pdf-generator.ts:63-67 | the inner loop collects the groups of the module's one or two numbers, and the result is never empty |
| VtuStructure.BuildModules | src/utils/html-pdf-generator.ts:57-76 | the module loop builds the specified modules: the length check of line 69 never skips one |
| VtuStructure.ParseModules | src/utils/html-pdf-generator.ts:44-76 | grouping, sorting and the module loop compute the specified modules |
| VtuStructure.ParseVtuStructure | src/utils/html-pdf-generator.ts:23-85 | the paper is the parsed header, the fixed instructions and the modules |
| TableRows.SubKey | src/utils/html-pdf-generator.ts:384-391 | the sub-part key is always `a`, `b` or `c` |
| TableRows.SubPartFromRange | src/utils/html-pdf-generator.ts:363 | the sub-part pattern only ever captures `a`, `b` or `c` |
| TableRows.SubKeyOfId | src/utils/html-pdf-generator.ts:384-391 | an id made by extraction reads back as its sub-part letter |
| TableRows.WithKeySplit | src/utils/html-pdf-generator.ts:383-387 | the elements with keys `a`, `b` and `c` together are all the elements |
| TableRows.SortByKeyPermutes | src/utils/html-pdf-generator.ts:383-387 | the sort returns a permutation of its input |
| TableRows.SortByKeyOrdered | src/utils/html-pdf-generator.ts:383-387 | the sort orders the elements by sub-part |
| TableRows.SortByKeyStable | src/utils/html-pdf-generator.ts:383-387 | the sort is stable: elements with the same sub-part keep their order |
| TableRows.SortBySub | src/utils/html-pdf-generator.ts:383-387 | a group's questions sorted by sub-part; specified by SortBySubCorrect |
| TableRows.SortBySubCorrect | src/utils/html-pdf-generator.ts:383-387 | sorting a group by sub-part gives a stable, ordered permutation |
| TableRows.GroupLayoutAt | src/utils/html-pdf-generator.ts:389-406 | row i of a group shows question i, with the number cell only on row 0 |
| TableRows.GroupLayoutShape | src/utils/html-pdf-generator.ts:389-407 | a group's rows have one number cell spanning the group, no `OR` row and one row per question |
| TableRows.GroupRowsOrdered | src/utils/html-pdf-generator.ts:383-407 | a group's rows show its questions by ascending sub-part, each with its selected or own text and its marks; only the first has the number cell |
| TableRows.GroupBlockShape | src/utils/html-pdf-generator.ts:389-416 | a group's block has one number cell, one row per question, and an `OR` row at the end exactly when it is not the last group |
| TableRows.ModuleGroupsShape | src/utils/html-pdf-generator.ts:360-378 | a module has one group per question number in ascending order, each as large as that number's questions, none empty, together holding every question |
| TableRows.ModuleLayoutCells | src/utils/html-pdf-generator.ts:381-397 | a module's number cells are one per group, in group order, each spanning its group and showing its number |
| TableRows.BlocksOrs | src/utils/html-pdf-generator.ts:409-416 | the blocks of non-empty groups hold one `OR` row between each two consecutive groups |
| TableRows.ModuleLayoutOrs | src/utils/html-pdf-generator.ts:409-416 | a module has one `OR` row fewer than it has groups |
| TableRows.ModuleLayoutQuestions | src/utils/html-pdf-generator.ts:389-407 | a module has one question row per question |
| TableRows.ModuleLayoutEnds | src/utils/html-pdf-generator.ts:353-416 | a module's rows start with its header row and never end with `OR` |
| TableRows.Render | src/utils/html-pdf-generator.ts:353-415 | the HTML of one row: module header, question row or `OR` row, written as the three templates; the Append methods state that they emit exactly these texts |
| TableRows.TableLayout | src/utils/html-pdf-generator.ts:345-421 | the rows of the whole table; its shape is stated by the ModuleLayout lemmas and GenerateTableRows computes it |
| TableRows.AppendQuestionRow | src/utils/html-pdf-generator.ts:389-406 | one iteration appends the rendered row of the next question |
| TableRows.AppendGroupRows | src/utils/html-pdf-generator.ts:389-407 | the forEach over a group appends the rendered rows of all its questions |
| TableRows.AppendBlock | src/utils/html-pdf-generator.ts:381-416 | one group's iteration appends its rows and, unless it is last, the `OR` row |
| TableRows.AppendGroups | src/utils/html-pdf-generator.ts:378-417 | the forEach over the sorted groups appends their blocks in order |
| TableRows.AppendModuleRows | src/utils/html-pdf-generator.ts:351-418 | one module's iteration appends its header row and its groups' blocks |
| TableRows.GenerateTableRows | src/utils/html-pdf-generator.ts:345-421 | `generateTableRows` returns the rendered rows of every module, in order |

## Left out

- PDF text extraction (`extractTextFromPdf`), PDF writing (`createModifiedPdf`), the HTML template (`generateHTMLTemplate`), HTML-to-PDF conversion, download and print helpers, and the React components: these are I/O, browser APIs and foreign libraries.
- Console logging in every modelled function: output only, it does not change results.
- Strings are sequences of UTF-16 code units, one `char` each; no surrogate pairs and no Unicode case mapping. Without the `u` flag JavaScript never maps a character at or above U+0080 to one below it, and every letter in these patterns is ASCII, so case mapping beyond ASCII changes no match. The one non-ASCII literal, the en dash of the module-heading pattern, has no case variant and is compared exactly.
- Segmenter.MarkerNumber, Validator.MarkValue and VtuStructure.QNum: `parseInt` of a very long digit string loses precision in JavaScript's doubles, but the model reads the exact value. For the same reason the printed ids differ in form for numbers of 10^21 and more: `q${number}` (`pdf-processor.ts:142`) and `Q${qNum}` (`html-pdf-generator.ts:397`) print these in exponent form (`1e+21`), while the model prints every digit.
- TableRows.TextFor: `selectedQuestions[id]` can also find a property inherited by a JavaScript object, such as `constructor`. The model looks only at the keys of the map.
- TableRows.SortBySub: `localeCompare` is modelled as the order `a` < `b` < `c`. These are the only keys the model can produce, and any locale orders them this way.
- TableRows.SortBySub and VtuStructure.SortAsc: `Array.prototype.sort` is modelled by results, not by its algorithm. On distinct numbers, a stable sort by sub-part and an ascending sort are each unique.
- TableRows.AppendGroups: `questions.sort` sorts the group's array in place. The model sorts a copy, because no other code reads that array afterwards.
- VtuStructure.BuildModules: the `moduleQuestions.length > 0` check is modelled, and `CollectPair` proves it always holds.
- Rephrase.VerbMatch: its own contract only bounds where the match ends. What the match removes is stated by Rephrase.VerbMatchFrom, Rephrase.NoVerbMatch and Rephrase.BaseContentCases.
- HeaderFields.CourseFrom, SubjectAt, MaxMarksAt and CourseCodeAt: their own contracts only say that a match is non-empty. Only the course, time and course-code matchers have shape lemmas. The subject and max-marks matchers have none.
- The `Position.pageNum` field is optional in the record; extraction always leaves it out.
