# Policy preprocessor and LLM-response shaping, modelled in Dafny

This project models the deterministic core of a policy-to-workflow application. The application
reads a policy or guideline document and turns it into structured facts. Two model calls then
turn those facts into a verification workflow. The model covers four source files.

- **`preprocessPolicy`** (`prompt/preprocessor.js`) is the rule-based preprocessor. It works on
  one policy text and a pattern registry, in seven steps:
  1. It normalises the text: lower case, and each run of white space collapsed to one space.
  2. It matches every registry pattern, taken in pattern-id order, against the normalised text.
  3. It sorts the matches: prerequisites first, then by priority, then by position.
  4. It picks a role and a risk level, each from a priority-ordered table with a default.
  5. It extracts three guiding principles from cue-word sentences.
  6. It builds a one-line description.
  7. It assembles the checklist, the numbered logic flow, and the critical-failure and
     review-trigger label lists.
- **File validation** (`lib/utils/file-validators.ts`) checks an upload's size, extension and
  MIME type against the upload constraints (`types/api.ts:57-66`).
- **Policy extraction** (`lib/llm/policy-extractor.ts`) takes the first model reply, strips its
  Markdown code fence, parses it and shapes it. A reply that does not parse degrades to a fixed
  result.
- **Workflow generation** (`lib/llm/workflow-generator.ts`) injects the extracted data into the
  meta-prompt. It then takes the `workflow.md` document out of the second reply and reads the
  workflow actions, checking each one field by field.

The registry (`pattern-registry-kr.json`) is not part of this model. The preprocessor takes it as
a `Registry` value. The clock readings are string parameters. The text generator
(`generateContent`) and `JSON.parse` are function parameters: a request goes in and a
`Result` comes out, and a text goes in and an `Option<Json>` comes out.

Four JavaScript `sort` calls appear in the preprocessor: patterns by id, matches by precedence,
and the role and risk tables by priority. JavaScript guarantees that `sort` is stable. All four
are modelled by one in-place stable insertion sort, `StableSort.SortInPlace`. It is proved equal
to the function `StableSort.SortSpec`. That function is proved sorted, a permutation, and stable:
the elements that compare equal to any key keep their relative order.

The imperative steps of `preprocessPolicy` are methods with loops, proved against specification
functions:
- the matching loop with its `break`;
- the labelled-`break` table search;
- the sentence-indexing loop;
- the selection loop over cue terms;
- the padding `while`;
- the line and prefix loops of the description.

The pure `map`/`filter` steps are functions. `Preprocessor.PreprocessPolicy` runs the steps in
order. The source reads `tool.name` in the logic flow without a check
(`prompt/preprocessor.js:242`), so a match whose tool id names no tool makes it throw. The model
returns `Failure` with that tool id. It returns `Success` exactly when every match's tool
resolves, and then the value is `Preprocessor.Preprocessed`. The checklist tolerates a missing
tool and writes "unknown" (`prompt/preprocessor.js:227`).

Dafny functions are deterministic. So "same text and same registry give the same output, the
timestamp aside" holds by construction: the timestamp is a parameter.

## Model

| member | source | states |
|---|---|---|
| `Text.CollapseSpaces` | prompt/preprocessor.js:25 | the `/\s+/g` → `' '` replacement leaves only single spaces, never two white-space characters in a row, and keeps a leading space exactly when the text had leading white space |
| `Text.CollapseIsScan` | prompt/preprocessor.js:25 | the replacement equals a left-to-right scan that writes one space for each white-space run and copies every other character |
| `Text.CollapseIdempotent` | prompt/preprocessor.js:25 | normalising a normalised text changes nothing |
| `StableSort.SortInPlace` | prompt/preprocessor.js:30-32 | the in-place `sort` leaves the array equal to `SortSpec` of its old contents |
| `StableSort.InsertInPlace` | prompt/preprocessor.js:30-32 | one insertion step shifts the larger prefix elements right and leaves the suffix alone |
| `StableSort.SortSpecCorrect` | prompt/preprocessor.js:84-92 | for a consistent comparator the sort result is sorted, is a permutation, and keeps the order of elements that compare equal, as JavaScript's stable sort does |
| `StableSort.SortSpecLength` | prompt/preprocessor.js:97-99 | sorting keeps the length |
| `Matcher.IdLeTotal` | prompt/preprocessor.js:30-32 | the id order standing for `localeCompare` is total |
| `Matcher.IdLeTransitive` | prompt/preprocessor.js:30-32 | the id order is transitive |
| `Matcher.IdLeAntisymmetric` | prompt/preprocessor.js:30-32 | two ids compare equal only when they are the same id |
| `Matcher.PatternLeTotalPreorder` | prompt/preprocessor.js:30-32 | the pattern-id comparator is a consistent comparator |
| `Matcher.SearchFrom` | prompt/preprocessor.js:42-51 | the regex search returns the leftmost offset where the wildcard keyword matches, or -1 when it matches nowhere |
| `Matcher.LiteralMatch` | prompt/preprocessor.js:53 | a keyword without `*` matches exactly where it occurs literally |
| `Matcher.KeywordPositionLeftmost` | prompt/preprocessor.js:42-60 | whichever search is used, the position reported is the leftmost one where the keyword is found, and -1 means it is found nowhere |
| `Matcher.WildcardExample` | prompt/preprocessor.js:42-51 | `*` stands for one or more digits: "* days" matches "45 days" but neither "45days" nor " days" |
| `Matcher.WildcardSearchExample` | prompt/preprocessor.js:42-60 | the search reports where the wildcard keyword starts: "valid for * days" is found at 0 in "valid for 45 days" and nowhere in "valid for days" |
| `Matcher.FirstHitIndex` | prompt/preprocessor.js:39-61 | the keyword chosen is the first one in list order that is found; every keyword before it is not found |
| `Matcher.MatchRecord` | prompt/preprocessor.js:39-74 | a pattern matches iff one of its keywords is found; its record copies the pattern, names the first keyword in list order that is found (even if a later one occurs earlier), and gives that keyword's leftmost offset |
| `Matcher.MatchPatterns` | prompt/preprocessor.js:34-81 | the matching loop builds exactly the matched and unmatched lists that the specification functions give |
| `Matcher.MatchPartition` | prompt/preprocessor.js:34-81 | each pattern lands in exactly one of the two lists: the ids of both lists together are the pattern ids, with multiplicity |
| `Matcher.MatchPlacement` | prompt/preprocessor.js:63-80 | a pattern's record is in the matched list when it matches, and its unmatched record is in the unmatched list when it does not |
| `Matcher.MatchedFrom` | prompt/preprocessor.js:63-74 | every matched record is the record of some pattern |
| `Matcher.UnmatchedFrom` | prompt/preprocessor.js:75-80 | every unmatched record names some pattern |
| `Matcher.UnmatchedInIdOrder` | prompt/preprocessor.js:30-81 | patterns taken in id order leave the unmatched list in ascending id order |
| `Matcher.MatchLeTotalPreorder` | prompt/preprocessor.js:84-92 | the precedence comparator is a consistent comparator |
| `Matcher.MatchOrder` | prompt/preprocessor.js:84-92 | the sorted matches are a permutation of the matches: prerequisites first, then ascending priority, then ascending position, and ties keep their pattern-id order |
| `Preprocessor.MatchStep` | prompt/preprocessor.js:30-92 | step 1 (copy, sort by id, match, sort by precedence) gives the specified matched and unmatched lists |
| `Preprocessor.RegistryPartitioned` | prompt/preprocessor.js:30-92 | in the output, the matched and unmatched lists partition the registry's patterns: their ids together are the registry's ids, with multiplicity |
| `Preprocessor.MatchedFromRegistry` | prompt/preprocessor.js:34-92 | a record is in the output's matched list iff some registry pattern gives that record |
| `Preprocessor.ListsOrdered` | prompt/preprocessor.js:30-92 | the output's matched list is in canonical order and its unmatched list in ascending pattern-id order |
| `Classifier.MappingLeTotalPreorder` | prompt/preprocessor.js:97-99 | the priority comparator of the role and risk tables is consistent |
| `Classifier.FirstMentioned` | prompt/preprocessor.js:108-117 | the keyword chosen within an entry is the first, in list order, that the text includes |
| `Classifier.FirstEntry` | prompt/preprocessor.js:107-118 | the entry chosen is the first in table order that has a keyword the text includes |
| `Classifier.SelectFirst` | prompt/preprocessor.js:107-118 | the nested loops with the labelled `break` return the first hit entry and its first included keyword, or nothing |
| `Classifier.LowestPriorityWins` | prompt/preprocessor.js:97-118 | over the priority-sorted table, nothing is chosen iff no entry is hit; otherwise the chosen entry is hit through its first included keyword and has the lowest priority of all hit entries |
| `Preprocessor.ChooseStep` | prompt/preprocessor.js:97-118 | sorting a table by priority and searching it gives the specified choice |
| `Preprocessor.RoleSelected` | prompt/preprocessor.js:97-118 | the role is the default, via "default" with priority 999, iff no role entry is hit; otherwise it is a hit entry of lowest priority, via its first included keyword, with that entry's priority |
| `Preprocessor.RiskSelected` | prompt/preprocessor.js:123-142 | the risk level is the default, via "default", iff no risk entry is hit; otherwise it is a hit entry of lowest priority, via its first included keyword |
| `Text.PiecesLaid` | prompt/preprocessor.js:148 | each piece of a split stands at its recorded offset, holds no separator, and consecutive pieces are one separator apart |
| `Text.SplitJoin` | prompt/preprocessor.js:191 | splitting on one character and joining with it gives the text back |
| `Principles.LongPieces` | prompt/preprocessor.js:148 | the sentence filter keeps only pieces whose trimmed text is longer than 10 characters, in order |
| `Principles.IndexSentences` | prompt/preprocessor.js:150-158 | the indexing loop gives the corrected indexing (see Findings) |
| `Principles.EverySentenceIndexed` | prompt/preprocessor.js:150-158 | the corrected indexing locates every sentence: its trimmed text occurs at the recorded position, and positions strictly increase |
| `Principles.IndexAsWrittenDropsSentence` | prompt/preprocessor.js:148-158 | for two sentences on consecutive lines, each padded at the front with white space: as written the second is lost exactly when the first line's padding is at least two characters longer than the second's, and otherwise both are located where the corrected indexing locates them |
| `Principles.AsWrittenDrawn` | prompt/preprocessor.js:150-158 | as written, the indexing may lose sentences but records only trimmed sentences of the policy, each at a position where it occurs |
| `Principles.SpecDrawn` | prompt/preprocessor.js:150-158 | the corrected indexing records only trimmed sentences of the policy, each at a position where it occurs |
| `Principles.PicksFromDrawn` | prompt/preprocessor.js:160-175 | from any such indexing, the picks occur where recorded, contain a cue term, and have distinct positions |
| `Principles.Candidates` | prompt/preprocessor.js:166-168 | the candidates are exactly the located sentences that contain the cue term case-insensitively and whose position is unused, in order |
| `Principles.Earliest` | prompt/preprocessor.js:171 | the `reduce` returns a candidate with the smallest position |
| `Principles.PickExtends` | prompt/preprocessor.js:163-175 | selection stops at three, adds at most one sentence per cue term, and adds only located sentences that contain a cue term |
| `Principles.PickDistinct` | prompt/preprocessor.js:160-175 | with the used-position set, no sentence position is picked twice |
| `Principles.FirstPrincipleIsEarliest` | prompt/preprocessor.js:163-174 | the first principle is the earliest located sentence containing the first cue term |
| `Principles.SelectPrinciples` | prompt/preprocessor.js:163-175 | the cue-term loop with its `break` at three gives the specified selection |
| `Principles.PadWithDefaults` | prompt/preprocessor.js:177-186 | padding gives exactly three entries: the selected ones, then `defaults[k]` for each free slot k |
| `Principles.ExtractPrinciples` | prompt/preprocessor.js:147-186 | step 4 gives exactly three principles: the picked sentences, then the defaults for their slots |
| `Principles.PrinciplesFromPolicy` | prompt/preprocessor.js:147-175 | with the indexing as written and with the corrected one alike, every picked principle occurs in the policy at its recorded position, contains a cue term, and no two share a position |
| `Preprocessor.PrinciplesFrom` | prompt/preprocessor.js:160-186 | from any indexing, the principles list has exactly three entries |
| `Preprocessor.PrinciplesOf` | prompt/preprocessor.js:183-186 | with the corrected indexing, the principles list always has exactly three entries |
| `Preprocessor.PrinciplesAsWritten` | prompt/preprocessor.js:147-186 | with the indexing as written, the principles list also has exactly three entries |
| `Preprocessor.PrinciplesStep` | prompt/preprocessor.js:147-186 | step 4 of the method gives the specified principles |
| `Preprocessor.PrinciplesChosenFrom` | prompt/preprocessor.js:160-186 | for any indexing drawn from the policy's sentences: exactly three principles, the picked ones first, each a trimmed sentence longer than 10 characters that occurs at its position and contains a cue term, none at a shared position; then `defaults[k]` for each remaining slot k |
| `Preprocessor.PrinciplesAsWrittenChosen` | prompt/preprocessor.js:147-186 | with the indexing as written: exactly three principles, picked ones first, each a trimmed sentence longer than 10 characters that occurs at its position and contains a cue term, none at a shared position; then `defaults[k]` for each remaining slot k |
| `Preprocessor.PrinciplesChosen` | prompt/preprocessor.js:147-186 | with the corrected indexing: exactly three principles: picked ones first, each a trimmed sentence longer than 10 characters that occurs at its position and contains a cue term, none at a shared position; then `defaults[k]` for each remaining slot k |
| `Description.FirstNonBlank` | prompt/preprocessor.js:194-203 | the line used is the first whose trim is not empty |
| `Description.FindProcessName` | prompt/preprocessor.js:191-203 | the line loop gives the first non-blank line's name, or "Unknown Process" when every line is blank |
| `Description.HashRun` | prompt/preprocessor.js:198 | `#+` covers exactly the leading `#` characters |
| `Description.StripHeading` | prompt/preprocessor.js:197-198 | stripping `^#+\s*` leaves a suffix that does not start with white space |
| `Description.StripHeadingOf` | prompt/preprocessor.js:197-198 | a heading of one or more `#`, white space and a title gives back exactly the title |
| `Description.FirstLabel` | prompt/preprocessor.js:205-211 | the prefix removed is the first in list order that the lower-cased name starts with |
| `Description.StripLabel` | prompt/preprocessor.js:205-211 | the prefix loop removes at most one prefix and trims the rest |
| `Description.LabelsExclusive` | prompt/preprocessor.js:205 | a name starting with one label prefix starts with no earlier one |
| `Description.LabelRemoved` | prompt/preprocessor.js:205-211 | a name starting with a label prefix, in any letter case, becomes the trimmed rest: "POLICY:  Data Retention " gives "Data Retention" |
| `Description.TitleCase` | prompt/preprocessor.js:213-215 | underscores become spaces, each word's first letter is upper-cased, and no other character changes |
| `Description.TitleCaseIdempotent` | prompt/preprocessor.js:214 | title-casing a title-cased category changes nothing |
| `Description.Describe` | prompt/preprocessor.js:191-217 | the description is "<first category title-cased, or Document> verification for <process name>" |
| `PatternRegistry.FindTool` | prompt/preprocessor.js:223 | the lookup finds nothing iff no tool has the id, and otherwise a registry tool with that id |
| `Assembly.FindToolFirst` | prompt/preprocessor.js:223 | the tool found is the first in the registry with that id |
| `Assembly.Checklist` | prompt/preprocessor.js:222-229 | one item per match in the same order: the title-cased category, the source type, and the first matching tool's name, or "unknown" when no tool has the id |
| `Assembly.FailAction` | prompt/preprocessor.js:234-240 | the label is CRITICAL_FAIL_ iff the pattern is critical, REVIEW_ iff it is a review pattern and not critical, FAIL_ iff neither |
| `Assembly.CallText` | prompt/preprocessor.js:242 | the text after a step number starts with the dot that ends the number |
| `Assembly.LogicFlow` | prompt/preprocessor.js:231-244 | the logic flow has one call step per match, in order, numbered k+1, then the aggregate step numbered matched count + 1 |
| `Assembly.LogicFlowNumbered` | prompt/preprocessor.js:231-244 | read back, the steps are numbered 1, 2, … contiguously, and the last one is the aggregate step |
| `Text.NatToStringRoundTrip` | prompt/preprocessor.js:242 | reading the decimal text of a step number back gives the number |
| `Assembly.Labels` | prompt/preprocessor.js:249-255 | each label comes from a match whose id is in the rule set, with the prefix and that match's category |
| `Assembly.LabelsComplete` | prompt/preprocessor.js:249-255 | every match in the rule set has its label in the list |
| `Assembly.LabelsFilter` | prompt/preprocessor.js:249-255 | each label list is the matched list filtered to the rule set, in the same order, each match mapped to its label |
| `Assembly.FailureListsAgree` | prompt/preprocessor.js:234-255 | a critical or review flag in the logic flow has its label in the matching list, and a pattern in both rule sets appears in both lists |
| `Preprocessor.PolicyHash` | prompt/preprocessor.js:15 | the fingerprint is the first 50 characters, or the whole text when it is shorter |
| `Preprocessor.FirstMissingTool` | prompt/preprocessor.js:232-242 | finds the first match whose tool id resolves to no tool |
| `Preprocessor.PreprocessPolicy` | prompt/preprocessor.js:10-258 | succeeds iff every match's tool resolves, and then gives `Preprocessed`; otherwise it fails with the tool id of the first match, in matched order, whose tool is missing |
| `FileValidators.FileExtension` | lib/utils/file-validators.ts:14-18 | empty iff the name has no dot; otherwise the lower-cased suffix from the last dot, with no other dot in it |
| `FileValidators.LastDotAt` | lib/utils/file-validators.ts:15 | a dot with no dot after it is what `lastIndexOf` finds |
| `FileValidators.FileExtensionExamples` | lib/utils/file-validators.ts:14-18 | "A.tar.GZ" has extension ".gz" and "notes" has none |
| `FileValidators.FileExtensionCaseInsensitive` | lib/utils/file-validators.ts:14-18 | the extension does not depend on the name's letter case |
| `FileValidators.AllowedExtensionExamples` | lib/utils/file-validators.ts:21-24 | "REPORT.DOCX" is allowed and "notes" is not |
| `FileValidators.MimeTypeFromExtension` | lib/utils/file-validators.ts:70-79 | each allowed extension maps to its MIME type and every other name to application/octet-stream, so the fallback type is supported iff the extension is allowed |
| `FileValidators.ValidateFile` | lib/utils/file-validators.ts:37-67 | valid iff the size is in (0, 10 MiB], the extension is allowed and the effective MIME type is supported; no error iff valid; otherwise the error of the first failing check, so a zero-size file always gives "File is empty" |
| `FileValidators.UntypedFileAccepted` | lib/utils/file-validators.ts:57-67 | a file of valid size with an allowed extension and an empty type is valid |
| `FileValidators.SizeErrorText` | lib/utils/file-validators.ts:43-46 | the size message reads "File size exceeds maximum limit of 10MB" |
| `LlmResponse.Get` | lib/llm/policy-extractor.ts:103-106 | a property read gives a value iff the value is an object that has the key |
| `LlmResponse.DropOpening` | lib/llm/policy-extractor.ts:83-87 | dropping the opening fence leaves a suffix of the text |
| `LlmResponse.DropClosing` | lib/llm/policy-extractor.ts:88-90 | dropping the closing fence leaves a prefix of the text |
| `LlmResponse.UnfencedReply` | lib/llm/policy-extractor.ts:80-92 | a reply whose trim neither starts nor ends with three backticks strips to its plain trim |
| `LlmResponse.OpeningJson` | lib/llm/policy-extractor.ts:83-84 | a leading "```json" is dropped, 7 characters |
| `LlmResponse.OpeningBare` | lib/llm/policy-extractor.ts:85-86 | a leading bare "```" is dropped, 3 characters |
| `LlmResponse.Closing` | lib/llm/policy-extractor.ts:88-90 | a trailing "```" is dropped |
| `LlmResponse.FencedReply` | lib/llm/policy-extractor.ts:80-92 | a JSON text fenced by "```json" or "```" and a closing "```" on their own lines strips back to exactly that text |
| `PolicyExtractor.ExtractPolicyData` | lib/llm/policy-extractor.ts:56-111 | a generator failure propagates; an unparsable reply gives summary "Policy document analyzed", no rules and the raw untrimmed reply as content; a parsed `null` fails on the first read; otherwise the fields are the reply's structuredContent/summary/validationRules; name, token usage and timestamp pass through |
| `PolicyExtractor.Declared` | lib/llm/policy-extractor.ts:103-106 | the extracted data has the declared types iff summary and content are strings and the rules an array of strings |
| `PolicyExtractor.UnparsedReplyDeclared` | lib/llm/policy-extractor.ts:93-101 | an unparsable reply still gives well-typed data: the fixed summary, no rules, the raw reply as content |
| `PolicyExtractor.ReplyRoundTrip` | lib/llm/policy-extractor.ts:77-110 | a reply that is the JSON object of some data, fenced or not, gives back exactly that data |
| `WorkflowGenerator.NumberedRules` | lib/llm/workflow-generator.ts:33 | one numbered line per rule |
| `WorkflowGenerator.RulesNumbered` | lib/llm/workflow-generator.ts:33 | line i carries the number i+1 and, after ". ", exactly rule i |
| `WorkflowGenerator.FormattedDataShape` | lib/llm/workflow-generator.ts:28-37 | the trimmed block is the three headed sections, with only the end of the content trimmed |
| `WorkflowGenerator.SkipSpaces` | lib/llm/workflow-generator.ts:53 | a greedy `\s*` run ends at the first character that is not white space |
| `WorkflowGenerator.FirstEmptySection` | lib/llm/workflow-generator.ts:52-55 | the section replaced is the leftmost match of the empty-section pattern |
| `WorkflowGenerator.InjectPolicyData` | lib/llm/workflow-generator.ts:22-56 | with neither a placeholder nor an empty section, the prompt is returned unchanged |
| `WorkflowGenerator.PlaceholderReplaced` | lib/llm/workflow-generator.ts:43-47 | only the first placeholder is replaced by the block; everything after it, later placeholders included, is kept |
| `WorkflowGenerator.InjectIntoSection` | lib/llm/workflow-generator.ts:52-55 | with no placeholder, the leftmost empty section is the one replaced |
| `WorkflowGenerator.SectionFilled` | lib/llm/workflow-generator.ts:49-55 | with no placeholder, the first empty section, whatever white space it has, is replaced by the section holding the block, and the rest is kept |
| `WorkflowGenerator.AsWrittenAgrees` | lib/llm/workflow-generator.ts:46 | as written and corrected injection agree on every block without a "$" |
| `WorkflowGenerator.DollarSummaryMangled` | lib/llm/workflow-generator.ts:46 | as written, a summary "$&" is expanded by `replace` into the placeholder text, so the block is not inserted verbatim |
| `WorkflowGenerator.FirstMarkdownBlock` | lib/llm/workflow-generator.ts:64-65 | the block used is the leftmost match of the markdown-block pattern |
| `WorkflowGenerator.ExtractWorkflowMd` | lib/llm/workflow-generator.ts:62-81 | the document, when there is one, never starts or ends with white space; what it is follows from `MarkdownBlockTaken` for a reply with "```markdown" and from `NoMarkdownBlock` for one without |
| `WorkflowGenerator.MarkdownBlockTaken` | lib/llm/workflow-generator.ts:64-81 | for the first "```markdown" in a reply, whatever follows it: the trimmed text from there to the next "```" is returned, unless there is no "```" after it or only white space before that one; then a reply with frontmatter is returned whole and trimmed, and any other gives the empty document |
| `WorkflowGenerator.NoMarkdownBlock` | lib/llm/workflow-generator.ts:64-81 | a reply without "```markdown" gives its whole trimmed text when it has frontmatter, and the empty document otherwise |
| `WorkflowGenerator.FrontmatterFound` | lib/llm/workflow-generator.ts:73 | frontmatter is found on any line, not only the first: a line that starts with "---" and white space up to a line break, with a line break and "---" somewhere after it |
| `WorkflowGenerator.FrontmatterTaken` | lib/llm/workflow-generator.ts:64-77 | without "```markdown", a reply whose frontmatter opens on any line is returned whole and trimmed |
| `WorkflowGenerator.NoDocument` | lib/llm/workflow-generator.ts:79-80 | with neither a markdown block nor "---", the document is empty |
| `WorkflowGenerator.CheckItemChecks` | lib/llm/workflow-generator.ts:111-139 | a `null` item fails on its `id`; another item is accepted iff all six fields have their types; otherwise the error names the index and the first failing field in the order id, action_name, category, description, engine_required, reference_notes; an accepted item keeps its fields, and a missing engine_type becomes null |
| `WorkflowGenerator.ParseItems` | lib/llm/workflow-generator.ts:111-140 | the actions keep the order of the items; the first rejected item's error is the error |
| `WorkflowGenerator.ParseWorkflowActions` | lib/llm/workflow-generator.ts:87-143 | the reply is fence-stripped and parsed; a parse failure or a non-array value is rejected, a parse failure with "SyntaxError" and a non-array value with "Expected JSON array but got <typeof>"; on success each action is its item checked |
| `WorkflowGenerator.ActionRoundTrip` | lib/llm/workflow-generator.ts:111-139 | the JSON object of an action passes the checks and gives the action back |
| `WorkflowGenerator.ActionsRoundTrip` | lib/llm/workflow-generator.ts:111-142 | the items of some actions give those actions back |
| `WorkflowGenerator.ReplyActionsRoundTrip` | lib/llm/workflow-generator.ts:87-143 | a reply that is the JSON array of some actions, fenced or not, parses back to exactly those actions |
| `WorkflowGenerator.GenerateWorkflow` | lib/llm/workflow-generator.ts:148-185 | a generator failure propagates; otherwise the raw content is the reply, the document is extracted from it, the actions are the parsed ones or [] when parsing fails, and name, token usage and timestamp pass through |
| `WorkflowGenerator.RepliedActionsKept` | lib/llm/workflow-generator.ts:164-184 | a reply holding the JSON array of some actions gives a workflow with exactly those actions and the reply as raw content |

## Left out

- The text generator (`lib/llm/claude-client.ts`) and `JSON.parse` are parameters. The JSON
  grammar, the SDK, the network and their error mapping are not modelled.
- `JSON.parse`'s own error message is not modelled. `WorkflowGenerator.ParseWorkflowActions`
  reports a parse failure with the fixed text "SyntaxError". The caller discards the message, so
  nothing observable depends on it.
- The registry file, the `require` that loads it, and the command-line block
  (`prompt/preprocessor.js:264-269`) are not modelled. They are file I/O.
- The three `new Date().toISOString()` readings are parameters: they are clock readings.
- The `console.log`/`console.warn` output is not modelled. It is logging only.
- The coverage gate is not modelled, because the code has none. No "accept the preprocessor when
  two or more patterns match, otherwise fall back" gate appears: `extractPolicyData` always calls
  the model (`lib/llm/policy-extractor.ts:67-72`), and nothing calls `preprocessPolicy`.
- `localeCompare` on pattern ids is modelled as code-point order (`Matcher.IdLe`). Locale
  collation can order some ids differently. The model relies only on the order being consistent.
- `toLowerCase` is modelled on ASCII letters only, and `toUpperCase` in title case likewise.
  Strings are sequences of Unicode scalar values, so lengths and offsets differ from JavaScript's
  UTF-16 units for characters outside the Basic Multilingual Plane.
- A wildcard keyword is modelled with `*` as one or more ASCII digits and every other character
  literal. The source builds a `RegExp`, so regex metacharacters in a keyword (`.`, `?`, `(`, …)
  would act as regex syntax, and a malformed one would throw.
- Priorities, positions and file sizes are integers. JavaScript numbers could be fractional or
  `NaN`, and the comparators would then be inconsistent.
- Classifier.LowestPriorityWins, Preprocessor.RoleSelected, Preprocessor.RiskSelected: these
  do not state which entry wins when several hit entries share the lowest priority. By the
  stability that `StableSort.SortSpecCorrect` proves, it is the first of them in registry order.
- The `result` object is modelled as an `Output` datatype built once all steps are done. The
  source fills it field by field. Nothing else refers to it in between, so no aliasing can be
  observed.
- WorkflowGenerator.InjectPolicyData: takes the extracted data with its declared types
  (`PolicyData`). The route passes the extracted data on unchecked, so for a reply that is not
  well typed (`PolicyExtractor.Declared` says when it is) the source does what the model does
  not: `validationRules.map` throws a TypeError when the rules are not an array
  (`lib/llm/workflow-generator.ts:33`), and the template stringifies a summary, content or rule
  that is not a string (`null` gives "null", an object "[object Object]").
- WorkflowGenerator.GenerationRequest, WorkflowGenerator.GenerateWorkflow: take `PolicyData`
  for the same reason, so the TypeError and the stringification above are not modelled there
  either.
- Principles.IndexSentences, Principles.ExtractPrinciples, Preprocessor.PrinciplesOf,
  Preprocessor.PrinciplesStep, Preprocessor.PreprocessPolicy: compute the principles with the
  corrected indexing (see Findings), not the indexing as written. The as-written behaviour is
  `Principles.IndexAsWritten` and `Preprocessor.PrinciplesAsWritten`, with
  `Preprocessor.PrinciplesAsWrittenChosen` stating what it picks.
- WorkflowGenerator.InjectPolicyData, WorkflowGenerator.GenerateWorkflow: insert the data
  block verbatim, the corrected behaviour (see Findings). The as-written `replace` is
  `WorkflowGenerator.InjectAsWritten`.
- The fields of `ExtractedPolicyData` are `Option<Json>`. The code does not check the parsed
  reply against its declared types. `PolicyExtractor.Declared` gives the typed reading.
- `formatFileSize` is not modelled: it uses floating point (`Math.log`, `toFixed`).
- `estimateCost` and `formatTokenUsage` are not modelled: they use float pricing and
  `toLocaleString`.
- URL validation is not modelled. It depends on the WHATWG URL parser.
- The HTTP route handlers, the UI components and hooks, the clipboard helper, the file parsers
  and the Zod schemas are not modelled. They are plumbing around this core.

## Findings

| source | as written | input that shows it | evidently intended | confidence | as-written member | corrected member |
|---|---|---|---|---|---|---|
| prompt/preprocessor.js:156 | `searchStart = pos + sentence.length` advances by the untrimmed sentence length after the trimmed text was found at `pos` | "  Files must be signed\nCopies are required": the first sentence is found at 2 and the search resumes at 24, but the second starts at 23, so the indexing as written holds only the first sentence where the corrected one holds both; the second can then never be picked as a principle. The loss happens exactly when the first line's leading white space is at least two characters longer than the second's | resume right after the trimmed text found (`pos + trimmed.length`), so every sentence is indexed | high for the input shown; not executed | `Principles.IndexAsWrittenDropsSentence` | `Principles.EverySentenceIndexed` |
| lib/llm/workflow-generator.ts:46 | `metaPrompt.replace(POLICY_PLACEHOLDER, formattedData)` (and the section replace at 52-55) read `$&`, `` $` ``, `$'` and `$$` in the extracted data as replacement patterns | summary "$&" with a meta-prompt that is only the placeholder: the summary line becomes the placeholder text instead of "$&" | the block inserted verbatim (a replacer function) | medium; not executed | `WorkflowGenerator.DollarSummaryMangled` | `WorkflowGenerator.PlaceholderReplaced` |

The model uses the corrected definitions: `Principles.IndexSpec` and
`WorkflowGenerator.InjectPolicyData`.
