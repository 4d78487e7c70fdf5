# SessionDocGen in Dafny

A model of the extraction and aggregation pipeline of `sessiondocgen.py`, a tool that
documents an AI coding session from its log. The model covers the steps from the log
and diff inputs up to the session's metrics:

- **Tool calls.** `<invoke name="...">` tags are scanned character by character. Each
  one found becomes a `ToolUsage`, stamped one second after the previous one and given
  a category from the `TOOL_CATEGORIES` table. The other call notations are read only
  when no invoke tag is found.
- **Errors.** Each error text becomes an `ErrorSolution` numbered `ERR_0001`,
  `ERR_0002`, ... by a counter that persists across parses. Its type comes from keyword
  families tried in a fixed order.
- **File modifications.**
  - From tool calls: `write`, `search_replace` and `delete_file` each give one
    modification.
  - From a `git diff`: each `diff --git a/X b/Y` section gives one modification that
    counts its `+` and `-` lines.
- **Decisions.** The sentences of a conversation that state a decision are found by
  word-boundary phrases. They are numbered `DEC_0001`, ... and categorised by keyword
  families.
- **Metrics.** `MetricsCalculator.calculate` gives counts, sums, the number of distinct
  paths and the duration.
- **The session object.** `SessionDocGen` holds five lists. Loading appends to them,
  `add_*` appends one entry with a `len + 1` identifier, and `reset` clears them. It
  also caches metrics, resolves report formats and builds the summary.

Modules follow the program's structure:

| module | contents |
|---|---|
| `Text` | ASCII lower-casing, `strip`, truncation, substring search and splitting |
| `Ids` | the `{n:04d}` zero padding and its injectivity |
| `Records` | the data classes and the `to_dict` caps |
| `Classify` | the keyword tables and the three classifiers |
| `ToolParsing` | `ToolUsageParser` |
| `FileParsing` | `FileModificationParser` |
| `DecisionParsing` | `DecisionParser` |
| `Metrics` | `MetricsCalculator.calculate` |
| `Session` | `SessionDocGen` |

The parsers and the session are classes whose methods update their fields in place.
Each parsing method, and the metrics computation, is proved against a specification
function, and the properties the program promises are proved about those functions as
lemmas. The session methods that add one record or reset the session state their new
state directly.

How the environment enters the model:

- `datetime.now()` becomes the parameters `baseTime` and `now`. Timestamps are
  integer seconds.
- `os.path.exists` becomes the parameter `fileExists`.
- The regular expressions that are not scanned here arrive as lists of their group-1
  texts in match order (`PatternMatches`). These are the JSON, XML and function-style
  call notations, and the traceback and error-line patterns.

Behaviour of the code worth knowing:

- When no invoke tag is found, the fallback tool-call patterns are not tried until one
  matches. All of them run, and their names are concatenated in pattern order
  (`ToolCallNames`).
- Decision categories are found by substring. The word "caching" holds no optimization
  keyword, not even "cache" (`CachingIsNoOptimizationKeyword`). So a decision whose only
  hint of optimization is caching is not categorised "optimization".
- A tool call found in a log has no arguments. So every file modification that
  `load_content` derives from the calls has the path "unknown"
  (`LoadedModsUnknownPaths`).
- `add_decision` and `add_error_solution` number from the list's length plus one. The
  identifiers they return can therefore repeat ones the parsers issued; no uniqueness
  is claimed across both sources.
- `reset` leaves the parsers, and so their counters, as they are.
- `generate_report` and `get_summary` recompute the metrics only while the stored ones
  count no tool call. After a later load, the stored metrics are stale (`RefreshMetrics`).

## Model

| member | source | states |
|---|---|---|
| Classify.ToolCategory | sessiondocgen.py:186-213 | a listed tool gets its table category, and the result is "other" exactly when the tool is not listed |
| Classify.FirstFamily | sessiondocgen.py:330-341 | the index of the first keyword family whose keywords occur in the text; no earlier family matches |
| Classify.FirstMatchIsFirstFamily | sessiondocgen.py:330-341 | first-match classification returns the name of the first matching family, or the catch-all when none matches |
| Classify.CategorizeErrorSpec | sessiondocgen.py:326-341 | `_categorize_error` returns each category exactly when its family matches the lower-cased text and every earlier family does not; "runtime" exactly when none matches |
| Classify.CategorizeErrorIgnoresCase | sessiondocgen.py:328 | error categorisation gives the same result for a text and its lower-cased form |
| Classify.CategorizeDecisionSpec | sessiondocgen.py:490-496 | `_categorize_decision` returns architecture, bug_fix, optimization, handoff or config exactly when that family is the first to match; "general" exactly when none matches |
| Classify.IsDecisionIgnoresCase | sessiondocgen.py:482-488 | decision detection gives the same result for a text and its lower-cased form |
| Classify.NoWordNoDecision | sessiondocgen.py:482-488 | a text without word characters matches none of the three decision patterns |
| Classify.CategorizeDependencyExample | sessiondocgen.py:326-332 | every message starting "Module", such as "ModuleNotFoundError: ...", is a dependency error |
| Classify.CategorizeSyntaxExample | sessiondocgen.py:326-334 | "SyntaxError: invalid syntax" is a syntax error |
| Classify.CategorizeNetworkExample | sessiondocgen.py:326-338 | "Connection timeout after 30s" is a network error |
| Classify.WordMakesDecision | sessiondocgen.py:443-444 | any text in which one of the choice or usage phrases occurs lower-cased as a whole word is a decision |
| Classify.PhraseInWords | sessiondocgen.py:443-444 | a space-joined text one of whose words lower-cases to a choice or usage phrase is a decision |
| Classify.SubjectVerbMakesDecision | sessiondocgen.py:445 | any text whose lower-cased form has a subject word (approach, strategy, solution, fix) as a whole word, and later on the same line a verb word (is, was, will be) as a whole word, is a decision |
| Classify.PairInWords | sessiondocgen.py:445 | two consecutive words of a space-joined text stand in it as whole words one space apart, when each starts and ends with a word character |
| Classify.SubjectVerbInWords | sessiondocgen.py:445 | a space-joined text in which a word lower-casing to a subject keyword is directly followed by one lower-casing to a verb keyword is a decision |
| Classify.KeywordInWords | sessiondocgen.py:490-496 | a sentence of space-separated words, one of which lower-cases to a keyword of a family, contains that family |
| Classify.FamilyAbsent | sessiondocgen.py:490-496 | a sentence of space-separated words in which no word can hold any keyword of a family (too short or missing one of its letters) does not contain that family |
| Classify.CategorizeArchitectureExample | test_sessiondocgen.py:434-438 | "Decided on microservices architecture" is an architecture decision |
| Classify.CategorizeBugFixExample | test_sessiondocgen.py:440-444 | "Decided to fix the bug by adding null check" holds no architecture keyword and is a bug_fix decision |
| Classify.CategorizeOptimizationExample | test_sessiondocgen.py:446-450 | "Chose to optimize the algorithm for better performance" holds no architecture or bug_fix keyword and is an optimization decision |
| Classify.CachingIsNoOptimizationKeyword | sessiondocgen.py:451 | the word "caching" holds none of the optimization keywords |
| Text.Lower | sessiondocgen.py:328 | lower-casing keeps the length and maps each character through ASCII lower-casing; no upper-case letter remains |
| Text.LowerIdempotent | sessiondocgen.py:328 | lower-casing twice is lower-casing once |
| Text.Strip | sessiondocgen.py:321 | the result is the input minus leading and trailing whitespace: a contiguous slice that begins and ends with non-space, and everything outside it is space |
| Text.StripIdempotent | sessiondocgen.py:321 | stripping twice is stripping once |
| Text.Truncate | sessiondocgen.py:474 | slicing `[:n]` gives a prefix of at most n characters, the whole text when it is short enough, and exactly n characters otherwise |
| Text.SplitOn | sessiondocgen.py:465 | `split` gives one more piece than there are separators, and no piece holds a separator |
| Text.SplitOnStep | sessiondocgen.py:465 | for a separator-free text a, a separator c and any text b, the pieces of a + c + b are a followed by the pieces of b |
| Text.SplitInterleave | sessiondocgen.py:465 | putting the text's separators back between the pieces, in their order, gives the text again, so together with SplitOn the pieces are exactly the stretches between separators |
| Text.SplitJoinRoundTrip | sessiondocgen.py:400 | joining the pieces of a split with the same separator gives back the text |
| Text.ContainsIff | sessiondocgen.py:330 | the substring test holds exactly when the keyword occurs at some position |
| Ids.PadIdValue | sessiondocgen.py:319 | the `{n:04d}` rendering has at least four digits and reads back as n |
| Ids.PadIdInjective | sessiondocgen.py:473 | different numbers give different padded renderings |
| Ids.LabelInjective | sessiondocgen.py:882 | a prefix plus a padded number names a number uniquely, in both directions |
| Records.ToolUsageToDict | sessiondocgen.py:51-61 | the exported result is the whole result when it has at most 200 characters and its first 200 characters otherwise; every other field is unchanged |
| Records.FileModificationToDict | sessiondocgen.py:75-86 | each exported snippet is the whole snippet when it has at most 500 characters and its first 500 characters otherwise; every other field is unchanged |
| Records.ErrorSolutionToDict | sessiondocgen.py:126-138 | the exported message is the whole message when it has at most 500 characters and its first 500 characters otherwise; every other field is unchanged |
| ToolParsing.Resume | sessiondocgen.py:279 | `re.finditer` resumes at the end of a match, which never lies past the text; both scanned patterns only make non-empty matches (`MatchInvoke`, `MatchExitCode`) |
| ToolParsing.FindAllSkip | sessiondocgen.py:295 | a stretch where the pattern matches nowhere contributes nothing to the matches |
| ToolParsing.MatchInvoke | sessiondocgen.py:278 | a match of the invoke pattern starts with `<invoke`, lies within the text and captures a non-empty name without quotes |
| ToolParsing.MatchInvokeComplete | sessiondocgen.py:278 | every text that starts `<invoke`, one or more whitespace characters, `name=`, a quote of either kind, a quote-free name and a quote is matched, with that name as group 1 |
| ToolParsing.MatchInvokeSound | sessiondocgen.py:278 | every match of the invoke pattern has exactly that form |
| ToolParsing.FillerSkip | sessiondocgen.py:278-279 | text without `<invoke`, followed by the end or by `<`, contributes no match |
| ToolParsing.InvokeNamesOfLog | sessiondocgen.py:278-290 | the invoke scan of a log whose opening tags are separated by any text without `<invoke` (parameters, closing tags, prose) returns exactly the tags' tool names, in order |
| ToolParsing.ToolCallNamesCases | sessiondocgen.py:276-306 | the invoke names when there are any; otherwise the JSON, XML and function-style names concatenated in pattern order and filtered |
| ToolParsing.ToolCallNamesOfLog | sessiondocgen.py:276-306 | a log with k >= 1 opening tags, separated by any text without `<invoke`, gives exactly their k names, whatever the fallback patterns would match |
| ToolParsing.KeptMembers | sessiondocgen.py:297 | a fallback name is kept exactly when it is in the table or does not start with '_' |
| ToolParsing.UsageAt | sessiondocgen.py:278-290 | the k-th record carries the k-th name, timestamp base + k, success, no arguments and the table category of its name |
| ToolParsing.UsagesAppend | sessiondocgen.py:278-290 | recording two batches in turn stamps the second batch on from where the first stopped |
| ToolParsing.ReadThenWriteExample | sessiondocgen.py:276-290 | a log, with any fillers, invoking read_file then write gives two records, categorised "read" then "write" and stamped base and base + 1 |
| ToolParsing.ExitCodes | sessiondocgen.py:241 | every exit-code match is a decimal number without a leading zero |
| ToolParsing.ExitCodeKind | sessiondocgen.py:326-341 | an exit-code text contains no keyword of any family, so it is categorised "runtime" |
| ToolParsing.ExitCodeMessage | sessiondocgen.py:321 | an exit-code text is already stripped, so its stored message is the digits themselves, cut at 500 characters (the first 500 digits of a longer code) |
| ToolParsing.ErrorRecordsAppend | sessiondocgen.py:308-324 | numbering two batches of error texts in turn is numbering their concatenation |
| ToolParsing.ErrorIdsDistinct | sessiondocgen.py:317-319 | error records numbered by one counter over two parses never share an identifier |
| ToolParsing.ToolUsageParser.constructor | sessiondocgen.py:244-247 | a new parser holds no records and its error counter is zero |
| ToolParsing.ToolUsageParser.ParseContent | sessiondocgen.py:259-270 | the records are replaced by those of this log; errors are numbered on from the counter, which grows by the number of error texts |
| ToolParsing.ToolUsageParser.ExtractToolCalls | sessiondocgen.py:272-306 | appends one record per invoke name; the fallback names are used only when the list is still empty |
| ToolParsing.ToolUsageParser.AppendInvokes | sessiondocgen.py:276-290 | the loop appends one usage per name, stamped base + its index |
| ToolParsing.ToolUsageParser.AppendFallback | sessiondocgen.py:292-306 | the loops over the fallback patterns append one usage per kept name, stamped in order |
| ToolParsing.ToolUsageParser.ExtractErrors | sessiondocgen.py:308-324 | appends one record per error text in pattern order and advances the counter by their number |
| ToolParsing.ToolUsageParser.AppendErrors | sessiondocgen.py:310-324 | the loop numbers each error on from the counter, categorises it, and keeps its stripped text capped at 500 characters |
| FileParsing.ModFromUsage | sessiondocgen.py:354-383 | write gives created or edited by existence; search_replace gives edited; delete_file gives deleted with the target_file path; a missing key gives "unknown"; any other tool gives none |
| FileParsing.ModsFromUsagesAppend | sessiondocgen.py:354-383 | the modifications of concatenated calls are the concatenation of their modifications |
| FileParsing.NoArgumentsUnknownPaths | sessiondocgen.py:354-383 | calls without arguments give modifications whose paths are all "unknown" |
| FileParsing.DiffHeaderShape | sessiondocgen.py:392 | a recognised header has the form `diff --git a/A b/B` with A and B non-empty, and its path is B |
| FileParsing.HeaderRoundTrip | sessiondocgen.py:401-415 | the header for paths a and b yields b when a holds no " b/": the lazy group ends at the first " b/" |
| FileParsing.Kind | sessiondocgen.py:392-419 | a line is a header exactly when the header pattern matches; otherwise it is added when it starts with "+" but not "+++", and removed when it starts with "-" but not "---" |
| FileParsing.RunIsSections | sessiondocgen.py:398-434 | running the line-by-line accumulator from any state gives the state's records, then its open section, then one record per later section |
| FileParsing.GitDiffModsAreSections | sessiondocgen.py:387-436 | the records of a diff are exactly one per header section, in order |
| FileParsing.SingleSection | sessiondocgen.py:387-436 | one header and its body give one "edited" "git" record counting the body's added and removed lines |
| FileParsing.SectionPaths | sessiondocgen.py:401-415 | the paths of the records are the b-side paths of the headers, in order |
| FileParsing.SectionsAreGitEdits | sessiondocgen.py:403-433 | every diff record is an "edited" modification made by "git" |
| FileParsing.NoHeaderNoRecord | sessiondocgen.py:398-434 | a diff without a header line yields no record |
| FileParsing.FileModificationParser.constructor | sessiondocgen.py:347-348 | a new parser holds no modifications |
| FileParsing.FileModificationParser.ParseFromToolUsages | sessiondocgen.py:350-385 | the loop replaces the modifications with those of the calls, in order |
| FileParsing.FileModificationParser.ParseFromGitDiff | sessiondocgen.py:387-436 | the loop over lines, with its current file and counters, replaces the modifications with one record per diff section |
| DecisionParsing.ChosenMembers | sessiondocgen.py:465-469 | a sentence is kept exactly when it is a piece of the content that states a decision |
| DecisionParsing.ChosenNone | sessiondocgen.py:465-469 | content without a decision sentence yields no decision |
| DecisionParsing.DecisionRecordsAppend | sessiondocgen.py:468-478 | numbering two batches of decisions in turn is numbering their concatenation |
| DecisionParsing.DecisionIdsDistinct | sessiondocgen.py:467-473 | decisions numbered by one counter over two parses never share an identifier |
| DecisionParsing.DescriptionsWithinSentence | sessiondocgen.py:465-474 | every description is at most 200 characters long and holds no sentence separator |
| DecisionParsing.NoWordsNoDecisions | sessiondocgen.py:465-469 | content whose sentences hold no word character yields no decision |
| DecisionParsing.OneSentenceOneDecision | sessiondocgen.py:460-480 | content made of one decision sentence without separators and a full stop yields exactly that sentence, recorded once under the parser's next number |
| DecisionParsing.DecidedExampleIsDecision | test_sessiondocgen.py:416-420 | "We decided to use Python for this project" is a decision |
| DecisionParsing.DecidedExampleOneDecision | test_sessiondocgen.py:416-420 | parsing "We decided to use Python for this project." records one decision |
| DecisionParsing.ChoseExampleIsDecision | test_sessiondocgen.py:422-426 | "I chose SQLite over PostgreSQL" is a decision |
| DecisionParsing.ChoseExampleOneDecision | test_sessiondocgen.py:422-426 | parsing "I chose SQLite over PostgreSQL." records one decision |
| DecisionParsing.ApproachExampleIsDecision | sessiondocgen.py:445 | "The approach is simple" is a decision, by the subject-then-verb pattern |
| DecisionParsing.ApproachExampleOneDecision | sessiondocgen.py:460-480 | parsing "The approach is simple." records one decision |
| DecisionParsing.DecisionParser.constructor | sessiondocgen.py:456-458 | a new parser holds no decisions and its counter is zero |
| DecisionParsing.DecisionParser.ParseContent | sessiondocgen.py:460-480 | the loop over sentences replaces the decisions with one numbered record per decision sentence; the counter grows by their number |
| Metrics.Successes | sessiondocgen.py:530 | at most the number of calls, and equal to it exactly when every call succeeded |
| Metrics.OfType | sessiondocgen.py:533-535 | at most the number of modifications, and zero exactly when none has that type |
| Metrics.KindsBound | sessiondocgen.py:533-535 | created, edited and deleted together are at most the number of modifications |
| Metrics.LinesAppend | sessiondocgen.py:536-537 | the line sums are additive over a split of the modifications |
| Metrics.Resolved | sessiondocgen.py:547 | at most the number of errors, and zero exactly when none is effective |
| Metrics.FilePaths | sessiondocgen.py:540-543 | there are no more distinct paths than modifications |
| Metrics.InFilePaths | sessiondocgen.py:540-543 | a path is gathered exactly when some modification names it |
| Metrics.MinTimestamp | sessiondocgen.py:524 | the earliest timestamp is one of the calls' timestamps and no call is earlier |
| Metrics.MaxTimestamp | sessiondocgen.py:525 | the latest timestamp is one of the calls' timestamps and no call is later |
| Metrics.Duration | sessiondocgen.py:519-526 | end - start when both are given; otherwise the largest difference between two call timestamps, which is attained and non-negative; 0 with no calls |
| Metrics.MetricsOf | sessiondocgen.py:506-553 | total calls and errors, decisions and milestones are the list lengths; the bounds on successes, kinds, resolved errors and distinct paths hold; all-empty input gives the default metrics |
| Metrics.Calculate | sessiondocgen.py:506-553 | the loop that gathers distinct paths computes exactly `MetricsOf` |
| Session.FormatOf | sessiondocgen.py:967-974 | a format selects a renderer exactly when it is one of markdown, md, json, text or txt |
| Session.FormatNameRoundTrip | sessiondocgen.py:967-974 | each renderer is selected by its own name, and only by it or its short form |
| Session.NumberedMilestonesDistinct | sessiondocgen.py:882 | milestones numbered by position never share an identifier |
| Session.LoadedModsUnknownPaths | sessiondocgen.py:856-864 | every modification `load_content` derives from a log's tool calls has the path "unknown" |
| Session.SessionDocGen.constructor | sessiondocgen.py:819-837 | empty lists, default metrics, name "Session", no bounds, fresh parsers with zero counters |
| Session.SessionDocGen.LoadContent | sessiondocgen.py:856-867 | appends the log's tool calls, errors, derived modifications and decisions to the lists already held; the counters advance; nothing else changes |
| Session.SessionDocGen.LoadToolCalls | sessiondocgen.py:858-864 | appends the log's tool calls, its errors and the modifications derived from those calls |
| Session.SessionDocGen.LoadModifications | sessiondocgen.py:862-864 | appends the modifications derived from the given calls |
| Session.SessionDocGen.LoadDecisions | sessiondocgen.py:866-867 | appends the content's decisions, numbered on from the parser's counter |
| Session.SessionDocGen.LoadGitDiff | sessiondocgen.py:869-872 | appends one modification per diff section; nothing else changes |
| Session.SessionDocGen.AddMilestone | sessiondocgen.py:874-891 | appends one milestone numbered length + 1, stamped with the given time or now; keeps milestones numbered by position |
| Session.SessionDocGen.AddDecision | sessiondocgen.py:893-910 | appends one decision numbered length + 1 and returns its identifier |
| Session.SessionDocGen.AddErrorSolution | sessiondocgen.py:912-930 | appends one error numbered length + 1, stamped now, and returns its identifier |
| Session.SessionDocGen.CalculateMetrics | sessiondocgen.py:932-943 | the stored metrics become those of everything held; the lists are unchanged |
| Session.SessionDocGen.RefreshMetrics | sessiondocgen.py:951-953 | metrics are recomputed only when the stored ones count no call and calls are held |
| Session.SessionDocGen.GenerateReport | sessiondocgen.py:945-974 | after the refresh, an accepted format gives the renderer it selects with the requested or session name; any other format is the ValueError message |
| Session.SessionDocGen.GetSummary | sessiondocgen.py:990-1004 | after the refresh, the summary carries the name and the metric fields |
| Session.SessionDocGen.Reset | sessiondocgen.py:1006-1016 | the five lists are empty, the metrics default, the name "Session" and both bounds cleared; the parser counters are kept |

## Left out

- The command line (`create_parser`, `main`): argument parsing and printing.
- File I/O: `parse_log_file`, the file read in `load_log_file` (modelled as `load_content`), `save_report` and the milestone command's JSON file.
- Report rendering (`generate_markdown`, `generate_json`, `generate_text`, the ASCII timeline and the tally helpers): string formatting with dates and float percentages. `GenerateReport` stops at the renderer it selects and the name and metrics that renderer receives.
- The clock: `datetime.now()` is the parameter `now` or `baseTime`. One `now` stands for every call to the clock within one operation, although the program reads the clock once per record.
- The ISO-8601 rendering of timestamps in `to_dict`.
- Metrics.Duration: whole seconds, not minutes divided by 60 and rounded to two places. Floating point is not modelled.
- `os.path.exists`: the parameter `fileExists`.
- The JSON, XML and function-style tool-call patterns, and the traceback and error-line patterns. Their lazy, DOTALL, IGNORECASE and repetition semantics are not modelled; their group-1 texts arrive in `PatternMatches`, in match order.
- Character classes, `lower()` and `strip()`: ASCII only.
- ToolParsing.Resume: after an empty match, Python's `re.finditer` may also report a non-empty match at the same position. The model steps one character on instead. Neither scanned pattern can match the empty string, so this case never arises.
- Default arguments: `add_milestone`, `add_decision`, `add_error_solution` and `generate_report` take every argument explicitly. Callers pass the source's defaults (an empty milestone description, impact "minor", category "general", an empty rationale, effective true, format "markdown", no timestamp, no session name) themselves.
- `load_log_file`: the same as `load_content` once the file has been read, so it is not modelled separately.
