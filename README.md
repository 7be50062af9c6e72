# trello-to-analytics, modelled in Dafny

trello-to-analytics exports a Trello board for flow analytics. It turns each card's action log into one staging date per workflow category, then writes one CSV row per card. This project models that core and proves its properties:

- **The action normaliser.** It gives every action the list (board column) the card entered by it.
- **The stage classifier.** It files every action under the first workflow category whose list names match. It tries each name literally and, for `/`-prefixed names, as a regular expression.
- **The monotonic date resolver.** It picks one date per category, left to right, from a running floor.
- **The row encoder.** It sanitises the card name and builds the CSV rows and the header.
- **The older copy in `trello/extractor.ts`.** It has a literal-only classifier, a comparator that follows workflow order, and `sortObject`.

Modules follow the source files:

| module | models |
|---|---|
| `Wrappers` | `null`/`undefined` as `Option`; thrown exceptions as `Result` with one `JsError` per throw site |
| `JsString` | JavaScript string order (`<`, `>=`), `split`/`join`, global `replace` of one character, `trim` |
| `JsArray` | `Array.prototype.map` with a callback that may throw; `Array.prototype.sort` with a comparator |
| `TrelloTypes` | actions, cards, list references, the workflow configuration, the regular-expression engine |
| `Helper` | `src/helper.ts` |
| `WorkItems` | `src/work-item.ts` |
| `Extractor` | `src/extractor.ts`, after the fetch |
| `LegacyExtractor` | `trello/extractor.ts` |

How the source is represented:

- **Imperative code becomes methods.** The source's loops and in-place updates are methods, each proved against a specification function:
  - `hasRegexMatch`, the `groupBy` callback and `groupBy` itself;
  - `addStagingDates`, with its `delete`, its `initialized` object, `Object.assign` and the `for…in` collection;
  - `filterAndFlattenStagingDates`, with its running floor;
  - `workItemToCSV`, with `+=`;
  - the fill-out routine and `sortObject`.

  The properties the source promises are then proved about those functions.
- **The workflow** is a sequence of (category, list names) pairs in configuration order.
- **Matching is a parameter.** The two `groupBy` classifier callbacks (src/helper.ts:30-38 and trello/extractor.ts:77-85) differ only in how list names are matched, so the classifier takes a `Matching` value: `LiteralOrRegex(engine)` for `src/helper.ts` and `LiteralOnly` for `trello/extractor.ts`. The rest of the legacy `addStagingDates` differs too (see the finding about trello/extractor.ts:90).
- **The regular-expression engine** is an input, a pair of functions: whether a source compiles, and whether it matches a name.

`trello/extractor.ts` carries its own copies of four functions of `src/helper.ts`: `appendListToAction`, `addMoreDetailToCardEventLog` (there spelt `addMoreDetailsToCardEventLog`), `filterAndFlattenStagingDates` and the fill-out routine. They behave identically, so each is defined once, in `Helper`, and its row below names both locations. `filterAndFlattenStagingDates` (src/helper.ts:80-96 and trello/extractor.ts:141-157) and the card normaliser (src/helper.ts:65-68 and trello/extractor.ts:111-114, differing only in the name) are the same text. The other two differ in two places:

- the `console.warn` message of the legacy `appendListToAction` (trello/extractor.ts:182) adds "Please report this to the owner of the code"; warnings are not modelled;
- the legacy fill-out routine writes `events[c] ? events[c] : []` (trello/extractor.ts:124-126) where src/helper.ts:74 writes `events[c] || []`. The two agree, because a group is always an array and so always truthy.

Where the design notes and the code disagree, the model follows the code:

- **Actions with no list throw.** The design says such an action is dropped with a diagnostic. In the code, with a non-empty workflow, the classifier reads `action.list.name` and the TypeError aborts the card, and with it the whole export. This covers an action of unknown type, an `updateCard` without `list` or `listAfter`, and a `createCard` without `list`. The model returns `Err(NullListName)` there (`Helper.NormalisedListFault`).
- **The design says every category shows up in the result.** The code also deletes the group named `uncategorized` before collecting, so a category literally named `uncategorized` always gets `''`.
- **An empty workflow gives a five-field header.** The header is then `ID,Link,Name,,Type`, with an empty column. The rows, meanwhile, have four fields.

## Model

| member | source | states |
|---|---|---|
| Helper.AppendListToAction | src/helper.ts:98-124 | an `updateCard` with `data.list` gets the closing sentinel; any other `updateCard` gets `listAfter`; a `createCard` gets `data.list`; every other type gets no list; all other fields are copied; the copy at trello/extractor.ts:159-185 behaves the same (only its warning text differs) |
| Helper.AddMoreDetailToCardEventLog | src/helper.ts:65-68 | same number of actions, in the same order, each one normalised; every other card field unchanged; the copy `addMoreDetailsToCardEventLog` at trello/extractor.ts:111-114 is the same text |
| Helper.RegexHitWithoutPatterns | src/helper.ts:4-15 | a candidate list with no `/`-prefixed entry gives false for every name and engine |
| Helper.RegexHitDecides | src/helper.ts:5-14 | when every pattern compiles, the result is true exactly when some `/`-prefixed candidate matches with its first character removed (a trailing `/` kept) |
| Helper.RegexHitFailure | src/helper.ts:8-9 | an exception names the source of a `/`-prefixed candidate that does not compile, and no earlier pattern matched |
| Helper.RegexHitThrows | src/helper.ts:7-9 | conversely, a `/`-prefixed candidate that does not compile, reached after `/`-prefixed candidates that all compile and do not match, makes the call throw `InvalidRegex` with its source |
| Helper.RegexHitTrue | src/helper.ts:10-12 | a true result comes from a `/`-prefixed candidate that compiles and matches, every earlier `/`-prefixed candidate compiling and not matching |
| Helper.RegexHitFalse | src/helper.ts:4-15 | a false result means every `/`-prefixed candidate compiles and none matches |
| Helper.HasRegexMatch | src/helper.ts:4-15 | the `for…of` loop with `continue` and early return computes exactly the specified outcome, including the exception |
| Helper.FirstAccepting | src/helper.ts:31-36 | the found category accepts the name; every earlier category rejects it; an exception comes from a category reached after only rejections |
| Helper.StageCategory | src/helper.ts:30-38 | an empty workflow files everything under `uncategorized` without reading the list; otherwise a missing list throws; the result is `uncategorized` or a configured category |
| Helper.StageCategoryFirstMatch | src/helper.ts:31-37 | first match in workflow order: the first accepting category wins, and when every category rejects, the action goes to `uncategorized` |
| Helper.NormalisedListFault | src/helper.ts:33 | after normalisation, classification throws `NullListName` exactly for a non-empty workflow and an action of unknown type, an `updateCard` without `list`/`listAfter`, or a `createCard` without `list` |
| Helper.LiteralOnlyNeverInvalid | trello/extractor.ts:77-85 | literal matching never throws a regular-expression error |
| Helper.CategoryAccepts | src/helper.ts:33 | `includes(name) || hasRegexMatch(...)`: a literal hit accepts without consulting the patterns; literal-only matching (trello/extractor.ts:80) is exactly `includes`; otherwise the regex scan decides |
| Helper.LiteralAgreesWithoutPatterns | src/helper.ts:33 | without `/`-prefixed names, literal-only and regex matching file every action alike |
| Helper.FirstAcceptingAgrees | src/helper.ts:31-36 | two matchings that agree on every category find the same first category |
| Helper.CategoryOf | src/helper.ts:30-38 | the `groupBy` callback loop returns exactly `StageCategory`: it throws on a missing list only once a category is tested, and it stops at the first accepting category |
| Helper.ActionsWhere | src/helper.ts:30-38 | a group holds only actions of the log |
| Helper.Positions | src/helper.ts:30-38 | the positions filed under a category, strictly increasing, and every such position included |
| Helper.ActionsWhereInLogOrder | src/helper.ts:30-38 | within a group, actions keep the log's order: the `t`-th member is the action at the `t`-th position filed there |
| Helper.ActionsWhereAppend | src/helper.ts:30-38 | grouping a concatenated log concatenates the groups |
| Helper.Dates | src/helper.ts:52-54 | one date per action, in order |
| Helper.Bins | src/helper.ts:47-56 | one bin per category in workflow order: that category's dates in action order, or `[]` |
| Helper.AtLeast | src/helper.ts:83-85 | the kept dates are exactly the bin's dates at or above the floor |
| Helper.Earliest | src/helper.ts:87-89 | a member of the dates at or below every one of them |
| Helper.Latest | src/helper.ts:87-88 | a member of the dates at or above every one of them |
| Helper.Resolve | src/helper.ts:80-96 | one entry per bin |
| Helper.FloorStep | src/helper.ts:82-93 | entry `i` is what bin `i` emits under the floor in force at step `i`, and the next floor is what that step leaves |
| Helper.StepFacts | src/helper.ts:86-93 | the floor never moves down; a bin with no surviving date emits `''` and keeps the floor; otherwise the emitted date is from the bin, at or above the floor and at or below the new floor |
| Helper.StepChoosesExtremes | src/helper.ts:87-89 | every surviving date lies between the emitted date and the new floor |
| Helper.FloorRises | src/helper.ts:88 | the floor never decreases from step to step |
| Helper.ResolveSteps | src/helper.ts:86-93 | each entry is `''` with an unchanged floor, or the earliest surviving date with the latest surviving date as the next floor |
| Helper.ResolveEntries | src/helper.ts:80-96 | output length equals the number of bins; each entry is `''` or a member of its own bin at or above the floor of its step and the initial floor |
| Helper.ResolveMonotone | src/helper.ts:81-93 | the non-empty entries never decrease from left to right |
| Helper.ResolvePairOrdered | src/helper.ts:81-93 | any two non-empty entries are in order |
| Helper.NonEmptyEntryBetweenFloors | src/helper.ts:88-90 | a non-empty entry lies between the floor of its step and the next floor |
| Helper.ResolveSkipsDeadBin | src/helper.ts:91-93 | a bin with no surviving date emits `''` and carries the floor forward unchanged |
| Helper.ResolveExampleEarliestWins | src/helper.ts:80-96 | bins `[[2020-03-01, 2020-01-05], [2020-02-01]]` resolve to `[2020-01-05, '']` |
| Helper.ResolveExampleCarryForward | src/helper.ts:80-96 | bins `[[2020-05-01], [2020-04-01], [2020-04-15, 2020-06-01]]` resolve to `[2020-05-01, '', 2020-06-01]` |
| Helper.SortedEnds | src/helper.ts:87-89 | after `sort()`, the first element is the earliest date and the last is the latest |
| Helper.FilterAndFlattenStagingDates | src/helper.ts:80-96 | the `map` with the running floor and the in-place `sort` computes exactly `Resolve(stageBins, '')`; the copy at trello/extractor.ts:141-157 is the same routine |
| Helper.StagedCard | src/helper.ts:17-63 | the card succeeds exactly when its log classifies; it is returned as a copy with only `stagingDates` added; otherwise the exception is the classification's |
| Helper.StagingDatesShape | src/helper.ts:40-62 | one date per category in workflow order; each is `''` or the date of an action filed under that category; the non-empty ones never decrease |
| Helper.StagingDatesFailure | src/helper.ts:30-38 | staging throws exactly when some action's classification throws, and the exception is the first such action's |
| Helper.UncategorizedActionIsIgnored | src/helper.ts:40-41 | inserting an action that no category accepts anywhere in the log leaves the staging dates and any exception unchanged |
| Helper.EveryActionLandsOnce | src/helper.ts:30-38 | with distinct categories, the bin sizes plus the `uncategorized` group's size equal the number of actions |
| Helper.ClassifiedLogLandsOnce | src/helper.ts:30-41 | the classification of a log files every action exactly once |
| Helper.MergedGroup | src/helper.ts:43-47 | after the `delete` and `Object.assign` over the `[]` defaults, a category's entry holds exactly its bin's actions |
| Helper.MergedKeys | src/helper.ts:40-47 | after the `delete` and `Object.assign`, the merged object has exactly the workflow's categories as keys, so the `for…in` loop visits exactly those |
| Helper.StageKeysAreCategories | src/helper.ts:30-38 | every action is filed under `uncategorized` or under a configured category |
| Helper.InitializeCategories | src/helper.ts:43-44 | the defaults object has exactly the workflow's categories as keys, each mapped to `[]` |
| Helper.CollectBins | src/helper.ts:50-56 | walking the keys of a merged object whose keys are exactly the categories, in workflow order, the loop pushes one bin per category, each holding that category's dates |
| Helper.GroupByStageCategory | src/helper.ts:30-38 | `groupBy` succeeds exactly when classification does, with the same exception; its keys are the categories actions were filed under; each group is those actions in log order |
| Helper.AddStagingDates | src/helper.ts:17-63 | the imperative routine computes exactly `StagedCard` |
| Helper.FillOutMissingCategoriesWithEmptyArraysAndSort | src/helper.ts:70-77 | exactly the workflow's categories, in workflow order; a category present in the input keeps its actions, and a missing one gets `[]`; the copy at trello/extractor.ts:121-129 (a conditional expression instead of logical or) behaves the same |
| WorkItems.CreateWorkItem | src/work-item.ts:11-19 | copies `id`, `stageDates`, `name`, `type` and `domainUrl` verbatim |
| WorkItems.StripMembers | src/work-item.ts:41-44 | the four `replace` calls keep exactly the characters other than `"`, `'`, `,` and `\` |
| WorkItems.Strip | src/work-item.ts:41-44 | the four global `replace` calls in their order; no contract of its own: `StripMembers`, `StripAppend` and `StripAbsent` state what it keeps |
| WorkItems.StripAppend | src/work-item.ts:41-44 | stripping distributes over concatenation |
| WorkItems.StripAbsent | src/work-item.ts:41-44 | a string without those characters is unchanged |
| WorkItems.CleanString | src/work-item.ts:40-45 | an undefined argument gives `''`; the result has no `"`, `'`, `,` or `\`, and no white space at either end; every character comes from the input |
| WorkItems.CleanStringIdempotent | src/work-item.ts:40-45 | `cleanString(cleanString(s)) == cleanString(s)` |
| WorkItems.CleanStringKeepsClean | src/work-item.ts:40-45 | a trimmed string with none of the deleted characters is left as it is |
| WorkItems.CleanStringOfPunctuatedName | src/work-item.ts:40-45 | a name spelt `w1'w2, "w3" \w4` becomes `w1w2 w3 w4` |
| WorkItems.CleanStringExample | src/work-item.ts:40-45 | `cleanString("O'Brien, \"Bug\" \\fix")` is `"OBrien Bug fix"` |
| WorkItems.RowFields | src/work-item.ts:23-27 | four fields plus one per stage date: id, `domainUrl/id`, the cleaned name, the stage dates in order, the type |
| WorkItems.WorkItemRow | src/work-item.ts:21-38 | the row throws exactly when the work item has no stage dates |
| WorkItems.WorkItemRowPrefix | src/work-item.ts:22-25 | the row starts with `id + "," + domainUrl + "/" + id + ","` followed by the remaining fields |
| WorkItems.RowSplitsIntoFields | src/work-item.ts:22-27 | with a comma-free id, domain, type and dates, the row splits back into exactly its fields, four plus one per stage date |
| WorkItems.WorkItemToCSV | src/work-item.ts:21-38 | the `+=` loop over the stage dates builds exactly the comma-joined row, and throws without stage dates |
| Extractor.GetBoardCards | src/extractor.ts:26-32 | the fetched cards are returned unchanged; the cap warning shows exactly when there are at least 1000 |
| Extractor.ConvertCardToWorkItem | src/extractor.ts:51-59 | id, name and staging dates copied; the domain is the given URL; the type is `''` |
| Extractor.CsvHeader | src/extractor.ts:42 | the header template; no contract of its own: `HeaderIsJoin`, `FixedColumns` and `HeaderSplits` state its columns |
| Extractor.ExtractToCSV | src/extractor.ts:34-48 | a staging failure is the export's failure; a successful export begins with the header line; `ExtractFailure`, `ExtractRows` and `CsvLines` state the rest |
| Extractor.HeaderIsJoin | src/extractor.ts:42 | the header is `ID`, `Link`, `Name`, the categories and `Type`, joined by commas |
| Extractor.FixedColumns | src/extractor.ts:42 | the header begins `ID,Link,Name,` before the joined rest |
| Extractor.HeaderSplits | src/extractor.ts:42 | with comma-free category names, the header splits into four fields plus one per category; for an empty workflow it splits into `ID, Link, Name, '', Type` |
| Extractor.Normalised | src/extractor.ts:38 | every card normalised, in card order |
| Extractor.ExtractFailure | src/extractor.ts:34-48 | the export succeeds exactly when every card stages; otherwise it throws what the first failing card throws |
| Extractor.StagerAgrees | src/extractor.ts:38-39 | staging a normalised card succeeds or fails exactly as the card's normalised log classifies |
| Extractor.RowsNeverFail | src/extractor.ts:43-45 | every staged card carries stage dates, so writing the rows never throws |
| Extractor.ExtractRows | src/extractor.ts:34-48 | a successful export is the header, a newline and one row per card in card order, each with that card's staging dates |
| Extractor.ExtractNoCards | src/extractor.ts:42-46 | with no cards, the export is the header followed by a single newline |
| Extractor.CsvLines | src/extractor.ts:43-46 | newline-free header and rows split back into the header and the rows |
| Extractor.RowMatchesHeader | src/extractor.ts:37-46 | for a staged card with a comma-free id and dates, the row has four fields plus one per category, as many as the header of a non-empty workflow |
| LegacyExtractor.IndexOf | trello/extractor.ts:134-135 | `indexOf`: `-1` exactly when absent; otherwise the first position holding the value |
| LegacyExtractor.SortByWorkflowCategory | trello/extractor.ts:131-137 | the comparator `rank(a) - rank(b)`; no contract of its own: `SortByWorkflowCategoryNegative`, `SortByWorkflowCategoryZero` and `SortByWorkflowCategorySwap` state its sign |
| LegacyExtractor.SortByWorkflowCategoryNegative | trello/extractor.ts:131-137 | negative exactly when `a` is a category and `b` is a later category or no category |
| LegacyExtractor.SortByWorkflowCategoryZero | trello/extractor.ts:131-137 | zero exactly when the keys are equal or neither is a category |
| LegacyExtractor.SortByWorkflowCategorySwap | trello/extractor.ts:136 | swapping the arguments negates the result |
| LegacyExtractor.SortedInWorkflowOrder | trello/extractor.ts:131-139 | keys sorted with the comparator come in workflow order, with the non-categories last |
| TrelloTypes.Keys | trello/extractor.ts:139 | `Object.keys`: one key per pair, in order; the same function gives the workflow's categories |
| LegacyExtractor.SortObject | trello/extractor.ts:139 | the keys come out in `sort(sortFn)` order; the object has exactly the input's key/value pairs; each value is the input's value for its key |
| LegacyExtractor.AddStagingDates | trello/extractor.ts:64-109 | the routine as written computes exactly `LegacyStagedCard`: a classification exception first, or a self-reference error for any workflow with a category, or, for an empty one, the card with no staging dates |
| LegacyExtractor.LegacyNeverStages | trello/extractor.ts:90 | with a category in the workflow, no card is ever returned: the error is the self-reference exactly when every action names a list, and `NullListName` otherwise |
| LegacyExtractor.LegacyAgreesOnEmptyWorkflow | trello/extractor.ts:64-109 | with an empty workflow, the result equals the src/helper.ts routine with literal matching: the card with `stagingDates = []` |
| LegacyExtractor.LiteralStagingFailure | trello/extractor.ts:77-85 | literal matching throws exactly for a non-empty workflow and an action without a list, and only `NullListName` |
| LegacyExtractor.CorrectedStagedCard | src/helper.ts:43-44 | the intended routine returns a card unless an action has no list (`NullListName`); the card is the input with one staging date per category |
| LegacyExtractor.LegacyLosesStagedCard | trello/extractor.ts:90 | for a workflow with a category and a log whose actions all name a list, the routine as written throws and the corrected one stages the card |
| JsString.Less | src/helper.ts:84-90 | string `<` (and `>=` as its negation): the first differing character decides and a proper prefix is smaller; no contract of its own: the `Less…` lemmas make it a strict total order |
| JsString.LessTransitive | src/helper.ts:84 | string `<` is transitive (with `LessIrreflexive`, `LessAsymmetric` and `LessTotal`, a strict total order) |
| JsString.LessEqTotal | src/helper.ts:84 | any two strings compare with `>=` one way or the other |
| JsString.SplitJoin | src/extractor.ts:42-45 | joining pieces that lack the separator, then splitting, gives the pieces back |
| JsString.TrimStart | src/work-item.ts:45 | removes exactly the leading white space |
| JsString.TrimEnd | src/work-item.ts:45 | removes exactly the trailing white space |
| JsString.Trim | src/work-item.ts:45 | the result has no white space at either end and is the input with only white space removed from its ends |
| JsString.RemoveMembers | src/work-item.ts:41 | a global `replace` of one character with `''` keeps exactly the other characters |
| JsArray.MapResult | src/extractor.ts:37-40 | `map` with a throwing callback succeeds exactly when every call does; it then returns one result per element, and otherwise the first exception |
| JsArray.MapResultAppend | src/extractor.ts:37-40 | mapping a concatenation: the front's exception wins, then the back's |
| JsArray.Sort | trello/extractor.ts:139 | `sort` returns a permutation of its input |
| JsArray.SortSorted | trello/extractor.ts:139 | with a comparator whose sign flips with its arguments, the result is sorted by that comparator |
| JsArray.DefaultSortedEnds | src/helper.ts:87 | after the default `sort()`, the first element is at or below every element and the last is at or above |

## Left out

- **Network access.** The network client (`src/api.ts`, `trello/api.ts`) is not modelled. Neither are `getAuthedUsersProjects`, `getBoard`, `getBoardHistory`, or the fetch inside `getBoardCards` and `extractToCSV`. The fetched cards are an input instead, and the `TrelloExtractor` classes and their constructors are not modelled.
- **The legacy `extractToCSV`** (trello/extractor.ts:50-59) is not modelled. It destructures `this.config`, which the constructor never sets, so it stays `null`. It also calls `toCSV` from `trello/exporter`, which is not part of this model.
- **The legacy `convertCardToWorkItem`** (trello/extractor.ts:117-119) is not modelled. It applies `new` to a `WorkItem` class imported from the root-level module `work-item` (trello/extractor.ts:2), which is not part of this model, and its only caller is the legacy `extractToCSV`.
- **`console.warn`** is not modelled for unknown action types, since it does not affect the result. The fetch-cap warning is modelled only as a boolean.
- **Key enumeration order.** JavaScript lists integer-like object keys first, in numeric order. The model keeps every key in insertion order, which is workflow order. Category names such as `"1"` would reorder the header, the staging dates and `sortObject`'s output in the source but not in the model.
- **Repeated category names.** A JavaScript object holds each key once. The model's workflow sequence could, but lemmas that need distinct categories require `DistinctKeys`.
- **String comparison.** JavaScript compares UTF-16 code units, while the model compares Dafny characters. The two agree below U+10000.
- **`Array.prototype.sort`** is modelled as a stable insertion sort. For the default `sort()` only the first and last elements matter to the result, and those are proved independent of the algorithm. For `sortObject`, the relative order of keys the comparator calls equal (non-categories) follows the engine, which must sort stably since ES2019.
- **The regular-expression engine** is not interpreted. It is a pair of functions (compiles, matches) given as input.
- **Float arithmetic.** `Number.MAX_SAFE_INTEGER` arithmetic is on unbounded integers. Both indices stay below 2^53, so the source's floating-point subtraction is exact. The comparator lemmas require a workflow of at most `MAX_SAFE_INTEGER` categories.
- **Action and card fields.** An action keeps only the fields the core reads: `data` is reduced to `list` and `listAfter`, and their truthiness is modelled as presence. A card also keeps the plain-valued fields `due`, `closed`, `labels` and `url`, which the core only copies; it reads `id`, `name`, `actions` and `stagingDates`. `memberCreator`, `old`, `listBefore` and the other `any`-typed payload fields are not modelled.
- **An undefined card name.** The model's card name is always a string, so `cleanString`'s default for an undefined name is covered only by `CleanString(None)`.
- **CSV quoting.** The source does not quote cells or escape newlines, and neither does the model. `CsvLines` assumes newline-free names.
- **Work-item attributes** are not modelled, since they are commented out in src/work-item.ts:28-36.
- **`Helper.FilterAndFlattenStagingDates` sorts a value.** The in-place `validStageDates.sort()` is modelled on a value sequence, because the array is a fresh result of `filter` and nothing else holds it.
- **`Helper.Resolve` states only the output length.** Its other properties are the separate lemmas `ResolveEntries`, `ResolveMonotone`, `ResolveSteps` and `ResolveSkipsDeadBin`.

## Findings

| source | as written | input that shows it | evidently intended | confidence | as-written member | corrected member |
|---|---|---|---|---|---|---|
| trello/extractor.ts:90 | `const initialized = Object.keys(workflow).map(key => initialized[key] = [])` reads `initialized` inside its own initializer, so the first callback throws a ReferenceError | workflow `{ready: ['Ready']}` and a card with no actions: `addStagingDates` throws instead of returning the card with `stagingDates = ['']` | an object `{}` filled with `[]` for every category, as in src/helper.ts:43-44 | not executed | LegacyExtractor.AddStagingDates | LegacyExtractor.CorrectedStagedCard |
