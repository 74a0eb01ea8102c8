# vscode-infer-performance, modelled in Dafny

This project models the pure logic of the VS Code extension that runs Facebook Infer's cost analysis
on Java files. The editor, process and file-system calls are stripped away. What remains are
functions over strings, sequences and maps, each stated against a specification and proved.

- `MethodDeclarations` (src/javaCodeHandler.ts). This is `getMethodDeclarations`, the global,
  line-anchored scan for Java method declarations. The declaration pattern is written out as a
  language: `IsDeclarationHead`, `IsTail`, `IsLongestTail` and `IsMatch`. A hand-written recogniser,
  `MatchAt`, is proved to find exactly the match the pattern finds at a start. The scan `Exec` /
  `GetMethodDeclarations` is proved to return the leftmost, non-overlapping matches in document
  order. Name and declaration ranges come from `indexOf` on the line text, and may be −1.
- `CodeChange` (src/javaCodeHandler.ts). This covers:
  - the significance pattern, with the whitelist pasted in;
  - `isSignificantCodeChange` over a list of line-diff blocks;
  - `addMethodToWhitelist` and `removeMethodFromWhitelist`.
- `InferCosts` (src/inferController.ts). This covers:
  - turning a raw Infer report record into a cost item;
  - the sort by line;
  - `updateInferCostHistory`.
- `InferController` (src/inferController.ts). This is the state the extension keeps:
  - the snapshot of each file's text when Infer last ran;
  - the cost lists per file;
  - the cost histories per method id.

  It includes the `.java` check, the output directory name, and the two transitions
  `executeInfer` and `disableInfer`. `executeInfer` is also split at its `await` into a start
  and a finish, so that a `disableInfer` can come in between.
- `Validators` (src/validators.ts). These are `validateBuildCommand` and `validateClassesFolder`.
  The classes-folder pattern is a hand-written recogniser, proved equal to the pattern's language
  on every line.
- Support modules:
  - `JsText`: JavaScript's character classes, `indexOf`, and the lines a `m`-flag pattern sees.
  - `TextDocument`: `positionAt`/`lineAt` over text split on `\n`.
  - `Types`: the records of src/types.ts in the shape the code builds them.
  - `Wrappers`: `Option`.

Regular expressions are never interpreted by a general engine. Each pattern the code uses is a
predicate written by hand, and each recogniser is proved against that predicate.

## Model

| member | source | states |
|---|---|---|
| JsText.IndexOf | src/javaCodeHandler.ts:27 | `indexOf` is −1 exactly when the text never occurs. Otherwise it is an occurrence with no earlier one. |
| JsText.SomeLine | src/validators.ts:11 | A `m`-flag `test` succeeds exactly when some line of the input, between line terminators, is accepted as a whole. |
| TextDocument.LineAtOffset | src/javaCodeHandler.ts:25 | `lineAt(positionAt(offset).line).text` is the text from the line's start to its end around `offset`. |
| Validators.FirstSpaceToken | src/validators.ts:6 | `split(" ")[0]` is the prefix of the input up to the first space, or the whole input when it has none. |
| Validators.ValidateBuildCommand | src/validators.ts:6 | True exactly when the input is one of `javac`, `mvn`, `gradle`, `./gradlew`, alone or followed by a space. |
| Validators.ToolIsFirstToken | src/validators.ts:6 | A supported tool followed by a space, or alone, is the first token. |
| Validators.BuildCommandIgnoresArguments | src/validators.ts:6 | Whatever follows the first space never changes the verdict. |
| Validators.LeadingSpaceRefused | src/validators.ts:6 | A leading space makes the first token empty, so the command is refused. |
| Validators.TailOkSpec | src/validators.ts:11 | The recogniser for `(\/\w+)*\/?` accepts exactly the strings of that language. |
| Validators.ClassesFolderLineOkSpec | src/validators.ts:11 | The line recogniser accepts exactly the lines `^([-\w]+\|\.{1,2})(\/\w+)*\/?$` matches. |
| Validators.ValidateClassesFolder | src/validators.ts:11 | True exactly when some line of the input is a classes-folder path. |
| Validators.AbsolutePathRefused | src/validators.ts:11 | A line that starts with `/` is never accepted. |
| Validators.DotsAndHyphensOnlyInFirstSegment | src/validators.ts:11 | In an accepted line no `.` or `-` occurs from the first slash on. So `../..` and `target/my-classes` are refused. |
| CodeChange.ClosesOnLineAt | src/javaCodeHandler.ts:16 | Decides `.+\)` / `.*\)` after a `(`: a `)` far enough on, with no line terminator before it. |
| CodeChange.LoopAt | src/javaCodeHandler.ts:16 | Decides exactly whether `while *\(.+\)` or `for *\(.+\)` matches at a start. |
| CodeChange.CallAt | src/javaCodeHandler.ts:16 | Decides exactly whether the call alternative matches at a start. This includes the `\W+(alts)` lookbehind. |
| CodeChange.ContainsTrigger | src/javaCodeHandler.ts:51 | `value.match(pattern)` is non-null exactly when some alternative matches at some start. |
| CodeChange.PatternAlternatives | src/javaCodeHandler.ts:12-16 | The lookbehind's alternatives as the pattern reads them: `if`, `switch`, and the whitelisted names without `$`. A `$` name is an unsatisfiable alternative. |
| CodeChange.IntendedAlternatives | src/javaCodeHandler.ts:12-16 | The alternatives as evidently intended: `if`, `switch`, and every whitelisted name. |
| CodeChange.IsSignificantCodeChange | src/javaCodeHandler.ts:43-57 | False without a stored, non-empty snapshot. Otherwise true exactly when some block that has an `added` or `removed` property contains a trigger. |
| CodeChange.IsSignificantCodeChangeCorrected | src/javaCodeHandler.ts:43-57 | The same decision with the whitelist read literally. |
| CodeChange.MoreAlternativesFewerTriggers | src/javaCodeHandler.ts:16 | More lookbehind alternatives never create a trigger. |
| CodeChange.WhitelistedCallDoesNotTrigger | src/javaCodeHandler.ts:16 | A call whose identifier ends in a listed name after a non-word character does not match as a call. |
| CodeChange.LoopsAlwaysTrigger | src/javaCodeHandler.ts:16 | A `while`/`for` header is significant whatever the whitelist holds. |
| CodeChange.UnchangedBlocksIrrelevant | src/javaCodeHandler.ts:50 | Inserting a block with neither property anywhere in a diff never changes the decision, whatever the block's text. |
| CodeChange.DollarNameStillTriggers | src/javaCodeHandler.ts:14-16 | ` $ab()` is significant with `$ab` whitelisted as written, but not as intended, although `$ab` passes the name check. |
| CodeChange.IsValidMethodName | src/javaCodeHandler.ts:60 | The `gm` name check passes exactly when some line of the name is `[A-Za-z_$][A-Za-z0-9_]+`. |
| CodeChange.AddMethodToWhitelist | src/javaCodeHandler.ts:59-72 | An invalid name or a listed name leaves the list unchanged. Any other name is appended at the end. The outcome tells which. |
| CodeChange.RemoveMethodFromWhitelist | src/javaCodeHandler.ts:74-78 | Every occurrence of the name goes. Every other entry stays, with its multiplicity. |
| CodeChange.AddIdempotent | src/javaCodeHandler.ts:65-70 | Adding the same name twice is adding it once. |
| CodeChange.AddKeepsNamesDistinct | src/javaCodeHandler.ts:65-70 | A list without repeats keeps none after an add. |
| CodeChange.RemoveUndoesAdd | src/javaCodeHandler.ts:59-78 | Removing a name after adding it gives what removing it alone gives. |
| CodeChange.RemoveAbsent | src/javaCodeHandler.ts:76 | Removing an absent name changes nothing. |
| CodeChange.RemoveAppend | src/javaCodeHandler.ts:76 | Removal distributes over concatenation, so the other entries keep their order. |
| CodeChange.RemoveIdempotent | src/javaCodeHandler.ts:76 | Removing twice is removing once. |
| CodeChange.AddingNeverAddsTriggers | src/javaCodeHandler.ts:12-16 | Whitelisting a name can only make fewer changes significant. |
| MethodDeclarations.ModifierRunChars | src/javaCodeHandler.ts:7 | The modifier run is made of lower-case letters, tabs and spaces. |
| MethodDeclarations.HeadDetermined | src/javaCodeHandler.ts:7 | A head is pinned down by its start. `(` is the first one after the start, and the name begins after the last white space before it, so backtracking cannot choose. |
| MethodDeclarations.HeadUnique | src/javaCodeHandler.ts:7 | At most one name and `(` form a head at a given start. |
| MethodDeclarations.EndAfterParenLongest | src/javaCodeHandler.ts:7 | After the `)`, the recogniser's end is the longest tail that ` *(?:\{(?:.*\})?\|;)?` matches: all spaces, then a `{` up to the line's last `}` (or the `{` alone), or a `;`, or nothing. |
| MethodDeclarations.MatchAt | src/javaCodeHandler.ts:7 | The recogniser returns the pattern's match at a start, or reports that there is none. Both the head and the end of the match are checked against the pattern's language. |
| MethodDeclarations.MatchUnique | src/javaCodeHandler.ts:7 | Two matches at the same start are the same match, end included. |
| MethodDeclarations.Exec | src/javaCodeHandler.ts:24 | `regex.exec` from `lastIndex` returns the leftmost match at or after it, or proves that none starts there. |
| MethodDeclarations.ScanIsOrdered | src/javaCodeHandler.ts:20-40 | Matches of the scan are in strictly increasing offset and do not overlap. |
| MethodDeclarations.GetMethodDeclarations | src/javaCodeHandler.ts:19-41 | The declarations are those of the leftmost, non-overlapping matches, one per match, in document order. Every name is an identifier, both ranges of a declaration lie on one line, the name range is as wide as the name, and lines never decrease along the result. |
| MethodDeclarations.DeclarationsShape | src/javaCodeHandler.ts:24-38 | The returned declarations alone show identifier names, one-line ranges as wide as the name, and non-decreasing lines. |
| MethodDeclarations.ScanNameShape | src/javaCodeHandler.ts:7 | Every name found has the shape listed below the table. |
| MethodDeclarations.ToDeclaration | src/javaCodeHandler.ts:25-37 | Both ranges lie on the line of the match start. The name range is as wide as the name, and the declaration range is as wide as the match. |
| MethodDeclarations.DeclarationColumns | src/javaCodeHandler.ts:27-32 | Each range starts at the first occurrence, on that line, of the name and of the matched text, or at −1. |
| MethodDeclarations.MultiLineMatchHasNoColumn | src/javaCodeHandler.ts:27-29 | A match that spans a line break has declaration start column −1 and end column `length − 1`. |
| MethodDeclarations.OneLineMatchColumns | src/javaCodeHandler.ts:27-35 | For a match on one line both columns are found. They are at most the true offsets within the line. |
| MethodDeclarations.NameColumnMayPrecedeName | src/javaCodeHandler.ts:32-35 | For `static int in();` the name range starts at column 7, inside `int`, not at 11. |
| MethodDeclarations.CorrectedNameRange | src/javaCodeHandler.ts:32-35 | The intended name range is on the name's own line and covers exactly the name's text. |
| MethodDeclarations.CorrectedDeclarationRange | src/javaCodeHandler.ts:27-30 | The intended declaration range runs from the position of the match's start to that of its end. Both columns are non-negative and within their lines, and they cut the lines at the match's ends. |
| MethodDeclarations.MultiLineMatchCorrected | src/javaCodeHandler.ts:27-30 | For a match over a line break, the range as written starts at −1. The corrected range starts at a real column and ends on a later line. |
| MethodDeclarations.CorrectedNameColumnExample | src/javaCodeHandler.ts:32-35 | For `static int in();` the corrected range starts at column 11. |
| InferCosts.DotsToStars | src/inferController.ts:101 | `replace(/\./g, '*')` keeps the length and changes every `.`, and only `.`, to `*`. |
| InferCosts.DotsToStarsIdempotent | src/inferController.ts:101 | No `.` remains, so rewriting again changes nothing. |
| InferCosts.DotsToStarsInvertible | src/inferController.ts:101 | A polynomial without `*` is recovered from its rewrite. |
| InferCosts.ItemId | src/inferController.ts:89 | The id is the path, then `:`, then the procedure name. |
| InferCosts.ItemIdInjective | src/inferController.ts:89 | Within one file, ids are equal exactly when the procedure names are. |
| InferCosts.ItemIdLastColon | src/inferController.ts:89 | For a procedure name without `:`, the id's last `:` separates path and name. |
| InferCosts.ToCostItem | src/inferController.ts:88-105 | An item has the id above, the procedure name and location of the record, no timestamp, and both costs with their polynomials rewritten. |
| InferCosts.ToCostItems | src/inferController.ts:87-106 | One item per record, in report order. |
| InferCosts.SortByLine | src/inferController.ts:117 | The result is sorted by non-decreasing `loc.lnum` and is a permutation of the input. |
| InferCosts.SortByLineStable | src/inferController.ts:117 | The sort is stable: items of one line keep their report order. |
| InferCosts.UpdateOne | src/inferController.ts:125-135 | One loop step changes only the item's stamp. Its history then starts with its polynomial, other histories are untouched, and otherwise the stamped item is prepended. |
| InferCosts.UpdateInferCostHistory | src/inferController.ts:122-137 | The cost list keeps its length and items. An item differs from its input only by a stamp of the current time. |
| InferCosts.UpdateKeepsNoAdjacentRepeats | src/inferController.ts:130-134 | Histories without adjacent equal execution polynomials keep that property. |
| InferCosts.UpdateHead | src/inferController.ts:124-135 | For an id in the list, the history head has the polynomial of the last item with that id. |
| InferCosts.UpdateKeepsOthers | src/inferController.ts:124-135 | Histories of ids not in the list are unchanged. |
| InferCosts.UpdateOnlyPrepends | src/inferController.ts:133-135 | A history only grows at the front, by entries of its id stamped with the current time. |
| InferCosts.StampMarksPrepended | src/inferController.ts:130-134 | An item is stamped exactly when it was put in front of its history. |
| InferCosts.UpdateTwiceAddsNothing | src/inferController.ts:130-132 | With distinct ids, a second update with the same list adds nothing. |
| InferCosts.NothingToAdd | src/inferController.ts:130-132 | When every item's history already starts with its polynomial, the update adds nothing. |
| InferController.AfterLastSlash | src/inferController.ts:70 | `split("/").pop()` is the suffix after the last `/`, or the whole path. |
| InferController.BeforeFirstDot | src/inferController.ts:70 | `split(".")[0]` is the prefix before the first `.`. |
| InferController.OutputDirName | src/inferController.ts:70 | The output sub-directory name holds neither `/` nor `.`. |
| InferController.OutputDirNameOf | src/inferController.ts:70 | For `dir/Name.ext` the name is `Name`. |
| InferController.ExecuteStart | src/inferController.ts:31-69 | Without an editor nothing changes. Otherwise the editor becomes active and its text the file's snapshot. Costs and histories are untouched, and the run goes on exactly for a `.java` file. |
| InferController.ExecuteFinish | src/inferController.ts:38-118 | The run succeeds exactly with a readable report. A failure changes nothing. A success stores the file's list, one item per record, and makes it current. Other files' lists keep their presence and their values. Snapshots and the active editor are left alone. |
| InferController.FinishStoresSortedReport | src/inferController.ts:117-118 | Whatever ran since the start, the list a finish stores is sorted by line. Stamps aside, it is a permutation of the report's items, and each stamp is absent or the current time. |
| InferController.FinishStored | src/inferController.ts:38-42 | A finish stores, and leaves in the histories, exactly what `updateInferCostHistory` makes of the sorted report and the histories it finds. |
| InferController.FinishHistoryHeads | src/inferController.ts:42 | After a finish, each reported id's history starts with its last item's polynomial. Other ids' histories are those the finish found. |
| InferController.ExecuteIsStartThenFinish | src/inferController.ts:31-42 | A run to completion on a Java file is its start followed by its finish, and the start keeps costs and histories. |
| InferController.ExecuteInfer | src/inferController.ts:31-53 | Without an editor nothing changes. The snapshot is recorded even when a later step fails. The call succeeds exactly for a `.java` file with a readable report, and a failure leaves costs and histories alone. |
| InferController.DisableInfer | src/inferController.ts:55-61 | The cost map and the snapshots are emptied. Histories are kept. |
| InferController.StoredCostsSortedReport | src/inferController.ts:117-118 | The stored list is sorted by line and, stamps aside, is a permutation of the report's items. Stamps are absent or the current time. |
| InferController.RunStoresFileCosts | src/inferController.ts:117-118 | A successful run stores the list for its file, as the current cost list too, with one item per record. Other files' lists are unchanged. |
| InferController.ExecuteKeepsHistoriesWellFormed | src/inferController.ts:42 | Every run keeps histories free of adjacent repeats. |
| InferController.ExecuteHistoryHeads | src/inferController.ts:42 | After a run, each reported id's history starts with its last item's polynomial. Other histories are unchanged. |
| InferController.DisableThenExecute | src/inferController.ts:55-61 | After disabling, histories evolve as without disabling. Only the current file's snapshot and costs exist. |
| InferController.TransitionsKeepCostsBacked | src/inferController.ts:31-61 | Every file with a cost list has a snapshot, initially and after either transition, each run to completion. |
| InferController.InterleavedStepsKeepCostsJava | src/inferController.ts:31-72 | Under any interleaving of starts, finishes and disables, only `.java` files have cost lists, and histories keep no adjacent repeats. |
| InferController.DisableDuringRunLeavesCostsUnbacked | src/inferController.ts:35-118 | A `disableInfer` while a run awaits Infer drops its snapshot, and the run still stores its costs: a file then has costs and no snapshot. |

`MethodDeclarations.ScanNameShape` states that every name found:
- matches `[A-Za-z_$][A-Za-z0-9_]*`;
- does not end in `if`, `switch`, `while` or `for`;
- follows a line start, a modifier run and a type token;
- is followed by a `(` whose parameter text holds no `)`.

## Left out

- The editor and UI:
  - CodeLens providers, decorations and webviews;
  - messages shown to the user, including the ones `isManualCall` chooses between;
  - `console.log`;
  - decoration initialisation in `executeInfer`.
- Running Infer (`exec`), reading and parsing the report, and deleting the output directory. A run
  is an input to `ExecuteInfer`: it failed, the report was unreadable, or these are its records.
  `isInferInstalled` is not part of this model.
- The jsdiff call. The line diff is an input to `IsSignificantCodeChange`.
- CodeChange.IsSignificantCodeChange: the file name is a parameter. It stands for
  `activeTextEditor.document.fileName`. The code throws a TypeError when no editor was ever
  recorded, that is before the first `executeInfer` with an editor or `setActiveTextEditor`.
  The model has no such error path. In that situation no snapshot has been recorded either, so
  the model answers false.
- Workspace configuration. The whitelist is passed in and returned.
- The locale timestamp. It is a parameter `now`.
- `vscode.Position` rejects a negative column, so the host would throw where `indexOf` gives −1.
  The model keeps −1 in the range, which is what the code computes before the constructor runs.
  The consequence is listed under "## Findings".
- `TextDocument` lines are split on `\n` only. A `\r` before `\n` stays in the line text.
- Strings are sequences of Unicode scalar values, while JavaScript strings, `indexOf` and editor
  columns count UTF-16 code units. A character beyond U+FFFF counts once here and twice there. So
  after such a character on a line, the model's columns are lower than the program's.
- Each transition (`ExecuteInfer`, `ExecuteStart`, `ExecuteFinish`, `DisableInfer`) is one atomic
  step. The only interleaving modelled is at the `await` of the Infer command, between
  `ExecuteStart` and `ExecuteFinish`. The microtask between storing the cost list and updating
  the histories is not split. A finish that lands after another run's start stores its own
  file's list as the current one, whichever editor is then active.
- CodeChange.PatternAlternatives: of the regular-expression syntax a whitelisted name may carry,
  only `$` is modelled (as an alternative that never matches). Other metacharacters are read
  literally, and a name that makes `new RegExp` throw is not modelled. The name check admits such
  names only through its `m`-flag loophole or a hand-edited setting.
- A cost registry, occurrence-indexed method keys and per-method change flags belong to other
  designs of the extension. The code modelled here has none of them: a changed block is
  significant by the pattern alone. Where that broader design and this code differ, the model
  follows the code. For example, the name check requires at least two characters
  (`[A-Za-z0-9_]+`), not one.
- The `if (!costHistory) { return; }` in `updateInferCostHistory` is unreachable, because the
  history is `[]` or an array from the map. The model has no such exit.
- `parameterTypes`, `trace` and `changeCauseMethods` of src/types.ts are never built by the code
  modelled here. `alloc_cost`, which the code builds, is kept.
- MethodDeclarations.ScanNameShape: requires the match to lie in bounds, which
  `GetMethodDeclarations` guarantees for every match it returns.
- InferController.ExecuteInfer: its contract describes what a successful run stores only through
  `StoredCostsSortedReport`, `RunStoresFileCosts` and `ExecuteHistoryHeads`. These are derived from
  `FinishStoresSortedReport`, `ExecuteFinish`'s own contract and `FinishHistoryHeads`, which hold
  for a finish whatever ran since its start.

## Findings

| source | as written | input that shows it | evidently intended | confidence | as-written member | corrected member |
|---|---|---|---|---|---|---|
| src/javaCodeHandler.ts:14-16 | Whitelisted names are pasted into the pattern unescaped. `$` is an end-of-input assertion there, so a name with `$` never suppresses its call, although the name check accepts it. | Whitelist `["$ab"]`, changed line ` $ab()`: significant. | A whitelisted name suppresses its own calls. | not executed | CodeChange.DollarNameStillTriggers | CodeChange.IsSignificantCodeChangeCorrected |
| src/javaCodeHandler.ts:27-29 | The declaration column is `indexOf` of the whole matched text on the line of its start. A match whose `\s+` or parameter list crosses a line break is not on that line, so the column is −1 and `new vscode.Position(line, -1)` throws. The exception ends `getMethodDeclarations`, and no declaration of the file is returned. | `public void f(int a,` then a line `    int b) {`: the match spans the line break, and the column is −1. | The range runs from the match's start to its end, on as many lines as it spans. | not executed | MethodDeclarations.MultiLineMatchHasNoColumn | MethodDeclarations.CorrectedDeclarationRange |
| src/javaCodeHandler.ts:32-35 | The name range starts at the first occurrence of the name anywhere on the line, which can lie before the declared name. | `static int in();`: the range starts at column 7, inside `int`. | The range covers the declared name, at column 11. | not executed | MethodDeclarations.NameColumnMayPrecedeName | MethodDeclarations.CorrectedNameRange |
