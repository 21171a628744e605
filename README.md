# Proposal draft extraction, modelled in Dafny

The proposal drafting page (`script.js`) reads a solicitation written in
markdown and pulls structured content out of it. It cuts out the text under a
heading (`getSection`), splits it into paragraphs (`extractParagraphs`), reads
numbered capability highlights with their points (`parseOrderedHighlights`),
reads bold-titled requirements with their sub-points (`parseRequirements`),
reads deliverable and evaluation bullet lists (`parseDeliverables`,
`parseEvaluation`) and a pipe table of milestones (`parseSchedule`,
`splitTableRow`). Those helpers also use `normaliseWhitespace`. The delivery
feed cleans up webhook fields (`normalisePlaceholder`, `truncateText`) and
keeps the five newest deliveries (`recordN8nDelivery`).

The model has one module per concern:

- `Strings` holds JavaScript's `trim`, `split`/`join` on one character and
  `normaliseWhitespace`. Whitespace is ECMAScript's `\s` set, line terminators
  included.
- `Patterns` holds the regular-expression pieces the parsers share: maximal
  digit and whitespace runs, the lazy `(.+?)\*\*` title, and `Number()` of a
  digit string.
- `Grouping` is the state machine shared by the two line-by-line parsers.
  Each line opens a group, adds a member to the open group, or is ignored. It
  is given twice: as a declarative function (`Grouped`) and as the step
  (`Step`) the source's `forEach` callback performs. Lemmas prove the two
  agree.
- `Section`, `Highlights`, `Requirements`, `Bullets`, `Paragraphs`, `Schedule`
  and `Delivery` hold the operations themselves.

The loops are imperative Dafny methods: `GetSection`,
`ParseOrderedHighlights`, `ParseRequirements`, `ParseSchedule` and
`BuildRow`. Each is proved equal to a declarative function. The properties
are then proved about those functions. They include round trips from a text
form back to the parsed value, what each parser keeps and drops, and the
first-closing-heading property of a section. `state.deliveries` is the class
`Delivery.DeliveryLog`.

Where the documented design and the code differ, the model follows the code.
The design describes a heading line as hashes, whitespace and the heading
text. The title pattern the code compiles demands the letter `s` instead of
whitespace (see Findings), so the model is parameterised by the heading
pattern: `AsWritten` and `Intended`. A section ends at any line that starts
with one to six `#` followed by whitespace, whatever follows. That is the
code's boundary pattern, not a full heading line.

## Model

| member | source | states |
|---|---|---|
| Strings.Trim | script.js:878 | `trim` gives a text with no whitespace or line terminator at either end, no longer than the input |
| Strings.TrimSlice | script.js:878 | `trim` removes only a whitespace prefix and a whitespace suffix: the result is the contiguous middle of the input |
| Strings.TrimStartSpec | script.js:878 | the start-trimmed text is a suffix of the input, only whitespace was removed, and it does not start with whitespace |
| Strings.TrimEndSpec | script.js:878 | the end-trimmed text is a prefix of the input, only whitespace was removed, and it does not end with whitespace |
| Strings.TrimPadded | script.js:878 | trimming a trimmed text padded with whitespace on both sides gives that text back |
| Strings.TrimTrimmed | script.js:878 | trimming is the identity on trimmed text |
| Strings.IndexOf | script.js:989 | the first position of the separator, or the length when it does not occur |
| Strings.Split | script.js:873 | `split` on one character gives at least one piece, and no piece contains the separator |
| Strings.SectionLines | script.js:873 | the lines of a section contain no line feed |
| Strings.JoinSplit | script.js:873 | joining the pieces of `split` with the separator gives the original text back |
| Strings.SplitJoin | script.js:873 | splitting the join of separator-free pieces gives the pieces back |
| Strings.NonSpaceConcat | script.js:1021 | the visible characters of a concatenation are the visible characters of its parts, in order |
| Strings.NonSpaceTrim | script.js:1021 | `trim` keeps every visible character |
| Strings.CollapseRuns | script.js:1021 | `replace(/\s+/g, " ")` leaves no two adjacent whitespace characters and no line terminator, keeps every visible character in order, is empty exactly when the input is, and keeps a leading space exactly when the input had one |
| Strings.NormaliseWhitespace | script.js:1020-1022 | the result is single-spaced, trimmed and free of line terminators, and keeps every visible character of the input in order |
| Strings.NormalIsFixed | script.js:1020-1022 | normalising text that is already single-spaced and trimmed changes nothing |
| Strings.NormaliseIdempotent | script.js:1020-1022 | normalising twice is the same as normalising once |
| Strings.CollapseAtRun | script.js:1021 | a whitespace run between a visible character and the next visible character (or the end) becomes exactly one space, and the text on either side collapses on its own |
| Strings.CollapseConcat | script.js:1021 | collapsing distributes over a cut made just after a visible character, since no run crosses it |
| Strings.NormaliseAtRun | script.js:1020-1022 | two stretches that start and end with visible characters, separated by any whitespace run, normalise to the two normalised stretches joined by exactly one space |
| Strings.NormalisePadded | script.js:1020-1022 | whitespace before and after a text that starts and ends with visible characters is dropped |
| Strings.NormaliseAllSpace | script.js:1020-1022 | a text of whitespace only normalises to the empty text |
| Strings.NormaliseTwoWords | script.js:1020-1022 | two visible characters around any whitespace run (as in `a  b`) normalise to the two characters around one space |
| Patterns.DigitRunSpec | script.js:879 | `\d+` takes the maximal run of digits |
| Patterns.DigitRunIs | script.js:879 | any maximal digit run is the one `\d+` takes |
| Patterns.SpaceRunSpec | script.js:879 | `\s+` takes the maximal run of whitespace |
| Patterns.SpaceRunIs | script.js:879 | any maximal whitespace run is the one `\s+` takes |
| Patterns.LazyTitleSpec | script.js:879 | `(.+?)\*\*` takes the shortest non-empty title on one line that `**` follows; when it fails, no such title exists |
| Patterns.LazyTitleIs | script.js:879 | a shortest title followed by `**` is the one `(.+?)\*\*` takes |
| Patterns.DigitsValueDecimal | script.js:886 | `Number()` of the decimal digits of a number gives that number |
| Grouping.NextOpener | script.js:877-897 | the next opening line at or after a position: nothing before it opens a group |
| Grouping.GroupedSnoc | script.js:877-902 | grouping the lines plus one more line equals one step of the source's state machine (close the open group on a new opener, add a member, or ignore) applied to the grouping of the lines |
| Grouping.GroupedHeads | script.js:880-891 | there is one group per opening line, in order, each headed by what its opening line gives |
| Grouping.GroupedAt | script.js:880-896 | the group opened by a line holds exactly the members of the lines after it, up to the next opening line |
| Grouping.GroupedSkipsLeading | script.js:894 | member lines before the first opening line are dropped: with no open group they change nothing |
| Grouping.GroupedBlocks | script.js:877-903 | grouping the lines of a list of groups written out (each head followed by its members) gives the list back |
| Grouping.GroupedFrom | script.js:877-903 | a property of every head and every member read from the lines holds for every group produced |
| Section.LineEnd | script.js:999 | `$` with the `m` flag: the end of a line is the next line terminator, or the end of the text |
| Section.HashRun | script.js:1004 | the run of `#` at a position, inside its line, not followed by another `#` |
| Section.FindTitleLine | script.js:999-1000 | the first position where the heading pattern matches a whole line; nothing before it matches |
| Section.NextBoundary | script.js:1007-1010 | the next match of `^#{1,6}\s+` at or after a position; nothing between matches |
| Section.BoundaryMatchEnd | script.js:1010 | the end of a heading-boundary match lies after its start |
| Section.NoBoundaryInsideMatch | script.js:1010 | no heading boundary starts strictly inside a boundary match, so resuming the global search after it skips nothing |
| Section.SectionEnd | script.js:1010-1016 | the section stops at the first heading of the same or a shallower level, or at the end |
| Section.SectionEndIsFirstClosing | script.js:1010-1016 | any position with no closing heading before it, that is itself a closing heading or the end, is where the section stops |
| Section.GetSection | script.js:994-1018 | the search loop returns the declarative section text; the result is trimmed, and it is empty when no line matches the heading |
| Section.SectionIsBoundedSlice | script.js:1004-1017 | the section is the trimmed text after the first matching heading line, up to its first closing heading; no heading of the same or a shallower level lies inside it |
| Section.AsWrittenNeedsLetterS | script.js:999 | as written, a heading line is found only when the letter `s` follows its hashes |
| Section.LiteralPatternMissesSpacedHeading | script.js:999 | as written, `# T` followed by `x` gives the empty section for heading `T` |
| Section.IntendedPatternFindsSpacedHeading | script.js:999 | with `\s` read as whitespace, the same document gives the section `x` |
| Highlights.MatchOrdered | script.js:879 | a match of `^(\d+)\.\s+\*\*(.+?)\*\*` is no longer than the line, and its first group is all digits |
| Highlights.MatchOrderedSound | script.js:879 | a match has non-empty digits, a non-empty whitespace gap and the shortest title, and it is a prefix of the line |
| Highlights.MatchOrderedComplete | script.js:879 | any prefix of the line made of those parts is the match returned |
| Highlights.SummaryText | script.js:884 | the text after the match, trimmed and with any leading run of `-` or `:` (and the whitespace after it) removed, is a trimmed suffix of the trimmed rest |
| Highlights.SummaryTextSpec | script.js:884 | the summary text is the trimmed rest minus exactly its maximal leading run of `-` and `:` and the maximal whitespace run after that |
| Highlights.Summary | script.js:884-888 | the summary is never empty: it is the text after the match, or the fixed default when that text is empty |
| Highlights.ClassifyNumbered | script.js:880-890 | a trimmed line that starts with a numbered title opens a highlight with the number, the trimmed title and the summary of the rest |
| Highlights.ClassifyDash | script.js:894-895 | a trimmed `- ` line that is not numbered is a point whose text is the trimmed rest |
| Highlights.BareHeadLine | script.js:884-888 | a numbered line with nothing after its title gets the default summary |
| Highlights.ReadLine | script.js:877-897 | one run of the `forEach` callback performs one state-machine step on the highlights read so far |
| Highlights.ParseOrderedHighlights | script.js:869-904 | the line loop returns the declarative grouping of the section's lines; an empty section gives no highlights |
| Highlights.HighlightHeads | script.js:880-891 | one highlight per numbered line, in order, headed by that line's number, title and summary |
| Highlights.HighlightOfLine | script.js:880-896 | the highlight a numbered line opens holds exactly the points of the `- ` lines between it and the next numbered line |
| Highlights.LeadingLinesDropped | script.js:894 | lines before the first numbered line add nothing |
| Highlights.HighlightsRender | script.js:869-904 | reading back the numbered-list text of highlights with plain titles, summaries and points gives those highlights |
| Requirements.MatchRequirementSound | script.js:919 | a match of `^- \*\*(.+?)\*\*\s*(.*)$` spans the whole line, with a non-empty one-line title, the whole whitespace run after it, a one-line statement not starting with whitespace, and no shorter title that could close |
| Requirements.MatchRequirementNone | script.js:919 | when a `- **` line does not match, no `**` on the first line of the title lets the rest of the line match |
| Requirements.MatchRequirementOf | script.js:919 | any line made of a plain title, a whitespace gap and a one-line statement matches with exactly those parts |
| Requirements.DropColon | script.js:920 | `replace(/:$/, "")` removes at most one final colon and nothing else |
| Requirements.Statement | script.js:921-924 | the statement is never empty: the normalised text, or the fixed placeholder when that is empty |
| Requirements.ClassifyOpener | script.js:915-926 | a matching `- **` line opens a requirement titled by the trimmed title without its colon, with the normalised statement or the placeholder |
| Requirements.ReadLine | script.js:914-930 | one run of the `forEach` callback performs one state-machine step on the requirements read so far |
| Requirements.ParseRequirements | script.js:906-937 | the line loop returns the declarative grouping of the section's lines; an empty section gives no requirements |
| Requirements.RequirementHeads | script.js:915-926 | one requirement per `- **` line, in order, headed by what that line gives |
| Requirements.RequirementOfLine | script.js:915-929 | the requirement a `- **` line opens holds exactly the sub-points of the `  - ` lines between it and the next `- **` line |
| Requirements.LeadingLinesDropped | script.js:927 | lines before the first `- **` line add nothing |
| Requirements.RequirementsWellFormed | script.js:919-928 | every requirement has a trimmed title and a statement that is the placeholder or non-empty normalised text, and every sub-point is normalised |
| Requirements.RequirementsRender | script.js:906-937 | reading back the lines `- **title:** statement` and `  - point`, as the renderer at script.js:803-807 writes them, gives the requirements back |
| Bullets.RenderListLines | script.js:811 | the lines of a bullet list written as `- item` lines are exactly those lines |
| Bullets.Deliverable | script.js:947 | a deliverable is the normalised text after `- ` |
| Bullets.Deliverables | script.js:943-947 | no more deliverables than lines |
| Bullets.DeliverablesNormal | script.js:943-947 | every deliverable is single-spaced and trimmed |
| Bullets.DeliverablesConcat | script.js:943-947 | the filter works line by line: the deliverables of two runs of lines are those of each run, in order |
| Bullets.DeliverablesOfLine | script.js:945-947 | one line gives one deliverable when it starts with `- ` after trimming, and none otherwise |
| Bullets.DeliverablesRender | script.js:939-948 | reading back the `- item` list of non-empty normalised items (as written at script.js:811) gives the items back |
| Bullets.MarkerRun | script.js:984 | `^[-\d\.\s]+` takes the maximal run of dashes, digits, dots and whitespace |
| Bullets.Evaluation | script.js:984 | an evaluation item is trimmed and does not start with a dash, digit or dot |
| Bullets.EvaluationSpec | script.js:984 | an evaluation item is the trimmed line minus exactly its maximal leading run of `[-\d\.\s]` characters, then trimmed |
| Bullets.Evaluations | script.js:980-984 | no more evaluation items than lines |
| Bullets.EvaluationsClean | script.js:980-984 | every evaluation item is trimmed and does not start with a dash, digit or dot |
| Bullets.EvaluationsConcat | script.js:980-984 | the filter works line by line: the items of two runs of lines are those of each run, in order |
| Bullets.EvaluationsOfLine | script.js:982-984 | one line gives one item when, trimmed, it starts with `- ` or with digits and a dot, and none otherwise |
| Bullets.EvaluationRender | script.js:976-985 | reading back the `- item` list of plain items (as written at script.js:821) gives the items back |
| Paragraphs.LastLineFeed | script.js:864 | the last line feed in a range, or none when there is none |
| Paragraphs.SeparatorEnd | script.js:864 | a paragraph separator spans at least two characters |
| Paragraphs.SeparatorIsSpace | script.js:864 | a paragraph separator is all whitespace |
| Paragraphs.NormalBlocks | script.js:865-866 | no more paragraphs than blocks |
| Paragraphs.NormalBlocksNormal | script.js:865-866 | every block kept is non-empty, single-spaced and trimmed |
| Paragraphs.ParagraphsNormal | script.js:859-867 | every extracted paragraph is non-empty, single-spaced and trimmed |
| Paragraphs.ParagraphsVisible | script.js:859-867 | the paragraphs together hold exactly the section's visible characters, in order: nothing visible is lost or added |
| Paragraphs.ParagraphsRender | script.js:859-867 | extracting paragraphs from non-empty normalised paragraphs joined by blank lines gives them back |
| Schedule.NonEmptyTrimmed | script.js:990-991 | every cell kept is non-empty and trimmed |
| Schedule.CellsHaveNoBar | script.js:987-992 | every cell of a row is non-empty, trimmed and free of the bar character |
| Schedule.CellsOfRowLine | script.js:987-992 | splitting a row line written as a bar, then each plain cell between spaces followed by a bar, gives the cells back |
| Schedule.TableLines | script.js:955-958 | the table lines are trimmed lines that start with a bar, no more of them than lines |
| Schedule.MakeRowSpec | script.js:966-969 | a row has exactly the headers as keys, and each header maps to the cell of its last occurrence |
| Schedule.MakeRowDistinct | script.js:966-969 | with distinct headers, each header maps to the cell in its own column |
| Schedule.BuildRow | script.js:966-969 | the `headers.forEach` loop builds the declarative row |
| Schedule.ParseSchedule | script.js:950-974 | the row loop returns the declarative schedule of the section |
| Schedule.RowsStep | script.js:963-972 | one more line adds that line's row, if any, at the end |
| Schedule.RowsConcat | script.js:963-972 | rows are read line by line: the rows of two runs of lines are those of each run, in order |
| Schedule.RowsKeys | script.js:963-972 | every row read has exactly the headers as keys |
| Schedule.ScheduleRowsKeyed | script.js:950-974 | every row of a schedule has exactly the schedule's headers as keys |
| Schedule.SeparatorIgnored | script.js:962-963 | the second table line never affects the schedule |
| Schedule.ShortTableEmpty | script.js:952-961 | an empty section, or fewer than two table lines, gives no headers and no rows |
| Schedule.ScheduleRender | script.js:950-974 | reading back a table of distinct plain headers, any plain separator line and plain rows gives the headers and rows back |
| Schedule.RowCells | script.js:817 | a row written out gives the cell of each header, in header order |
| Schedule.TimelineRender | script.js:813-818 | reading back the timeline table as the renderer writes it gives its rows back |
| Delivery.NormalisePlaceholder | script.js:567-576 | the result is empty, or trimmed and not starting with `[`; a missing value gives empty; a non-empty result is the trimmed value; an empty result means the trimmed value was empty or started with `[` |
| Delivery.NormalisePlaceholderIdempotent | script.js:567-576 | normalising a normalised value changes nothing |
| Delivery.NormalisePlaceholderKeeps | script.js:571-575 | a trimmed value not starting with `[` is kept as it is |
| Delivery.SliceEnd | script.js:586 | the end `slice` uses: kept when in range, counted from the end when negative, clamped to the text |
| Delivery.TruncateText | script.js:578-587 | a text that fits is returned trimmed; with a limit of at least 3 the result never exceeds it, and an overlong text becomes exactly the limit, ending in `...` after its own first characters |
| Delivery.TruncateTextSmallLimit | script.js:586 | with a limit under 3 the negative `slice` end keeps most of the text: `abcd` at limit 2 becomes `abc...` |
| Delivery.TruncateTextTrimmed | script.js:578-587 | with a limit of at least 3 the result is trimmed |
| Delivery.TruncateTextIdempotent | script.js:578-587 | with a limit of at least 3, truncating twice is the same as truncating once |
| Delivery.Recorded | script.js:279-286 | no entry leaves the history as it is; an entry goes in front, the length grows by one up to five, and the rest is the old history's head |
| Delivery.DeliveryLog.constructor | script.js:275-288 | the feed starts empty and holds at most five deliveries |
| Delivery.DeliveryLog.Record | script.js:275-288 | recording keeps at most five deliveries and leaves the history `Recorded` gives |
| Delivery.Reverse | script.js:283 | reversal keeps the length and mirrors the positions |
| Delivery.RecordAllNewest | script.js:283-286 | after any run of records on an empty feed, the feed holds exactly the five newest entries, newest first |
| Delivery.ReverseSnoc | script.js:283 | putting a new entry in front is reversal of appending it |

## Left out

- The page itself is not modelled: the DOM, form handling, `fetch` of the
  webhook, JSON parsing, `Date` and `crypto.randomUUID`. The webhook response
  is not modelled either; `buildDeliveryRecord`, `extractPrimaryText` and
  `deriveDeliverySynopsis` are not part of this model, so `Record` takes the
  entry `buildDeliveryRecord` returned (or none) as a parameter.
- `renderDeliveryFeed` and the rest of `recordN8nDelivery` are not modelled;
  only the capped `unshift` on `state.deliveries` is.
- `renderMarkdown` (script.js:784-829) is not modelled as a whole. Only its
  line formats serve as inverses of the parsers: requirement lines, bullet
  lists and the timeline table.
- Highlights.HighlightsRender: its inverse is the numbered form
  `<index>. **title** summary` that `parseOrderedHighlights` reads. The renderer
  writes highlights as `- **title:** summary` (script.js:796), which that
  parser does not read back.
- Strings here are sequences of Unicode code points (Dafny's `char` is a
  Unicode scalar value), not the UTF-16 code units JavaScript counts. Text
  outside the Basic Multilingual Plane, such as an emoji, is one character
  here and two units in JavaScript, so every `length`, index and `slice` in
  the model counts differently on such text. Surrogate pairs are not
  modelled. `Number()` on very long digit strings loses precision in
  JavaScript; `Patterns.DigitsValue` is exact.
- Delivery.TruncateText: `text.length` and `slice(0, maxLength - 3)` count
  UTF-16 units in JavaScript and code points here. On text outside the Basic
  Multilingual Plane, the fit test and the cut point differ from the model,
  and JavaScript can cut a surrogate pair in half, which the model cannot
  express.
- The JavaScript `\s` set is modelled as the ECMAScript WhiteSpace and
  LineTerminator characters; no Unicode category table beyond that is
  modelled.
- A row object in `parseSchedule` is a Dafny `map`. Key order and special
  keys such as `__proto__` are not modelled.
- `escapeRegex` is not part of this model: the heading is matched as literal
  text, which is what escaping achieves.
- The heading pattern is a parameter of the section model: `AsWritten` is
  what script.js:999 compiles, and `Intended` is what it evidently means (see
  Findings).
- Requirements.RequirementsWellFormed: the placeholder statement is stated
  as itself, not proved single-spaced.
- Delivery.TruncateText: the length bound and the `...` suffix are stated only
  for limits of at least 3. Below that, the negative `slice` end gives longer
  text, as `TruncateTextSmallLimit` shows.
- Delivery.NormalisePlaceholder: the `!value` test and `String(value)` on
  non-string inputs (numbers, objects) are not modelled. A value is an
  optional string, and the empty string behaves as the trimmed-empty case,
  with the same result.
- `truncateText` on a missing value returns the empty text. The model takes a
  string, and on the empty string it returns the empty string too.

## Findings

| source | as written | input that shows it | evidently intended | confidence | as-written member | corrected member |
|---|---|---|---|---|---|---|
| script.js:999 | The title pattern is a template literal, in which `\s` is not an escape and becomes the letter `s`. The compiled pattern is `^(#{1,6})s+<title>s*$`, so headings written as `## Title` never match and every section comes back empty. | markdown `# T` then a line `x`, heading `T` | `\s` meant as whitespace, so the section under `# T` is `x` | not executed | Section.LiteralPatternMissesSpacedHeading | Section.IntendedPatternFindsSpacedHeading |
