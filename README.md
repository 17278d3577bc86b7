# scope-info: incremental line-state tokenization

This project models the `DocumentController` of the scope-info VS Code extension
(`src/document.ts`). The controller keeps one TextMate "rule stack" per line of a
document in `grammarState`, the state the tokenizer is left in after that line. A
line is always tokenized starting from the state cached for the line above it.

- `refreshTokensOnLine` re-tokenizes one line. It overwrites that line's slot and
  reports the line as invalidated when the new state differs from the cached one.
- `reparsePretties` re-tokenizes the clamped range of an edit. It then continues
  downwards for as long as the last line was invalidated.
- The constructor and `refresh` parse the whole document this way.
- `applyChanges` handles the changes of an edit event from the bottom of the
  document to the top.
- The hover provider re-tokenizes the hovered line and reports the scopes of the
  first token that covers the column.

Modules:

- `Wrappers`: an `Option` type.
- `Editor`: positions, ranges, lines, content changes, hovers, and the editor's
  `validateRange`, which clamps a range into the document.
- `Api`: tokens and the grammar interface. The grammar is any deterministic function
  from a line's text and the previous rule stack (none means the start state) to
  tokens and a new rule stack. Rule stacks are values of a type parameter `S`, and
  their `equals` is Dafny's `==`.
- `LineState`: the state table (a map from line index to rule stack, standing for
  the sparse array) and `refreshTokensOnLine` as a function. `ConsistentAt` and
  `AllConsistent` are the propagation invariant: slot `i` holds the state that
  tokenizing line `i` from slot `i - 1` yields.
- `Incremental`: the loop of `reparsePretties` as a function, with lemmas for:
  - its frame;
  - when it stops;
  - that it never breaks a consistent line and restores consistency;
  - that it is the identity on a consistent table;
  - that a full parse is determined by the text alone.
- `Changes`: the descending sort of `applyChanges`.
- `Document`: the hover lookup, the per-change loop of `applyChanges` with when it
  leaves the table consistent, and the class
  `DocumentController`. The class's methods are proved against the functions above:
  - `RefreshTokensOnLine` updates the table in place.
  - `ReparsePretties` is the `while` loop, with its invariant.
  - `ApplyChanges` is the `for` loop over the sorted changes.
  - `Refresh` and the constructor run the whole-document parse.
- `StaleTable`: what happens because the table is never renumbered when lines are
  inserted or deleted (see "## Findings"), and a corrected edit that renumbers it,
  with its correctness theorem.

The controller class keeps the behaviour of the code as written. The table is never
spliced, so stale slots stay at shifted indices and beyond the end of the document.
Only the slots the loop visits are rewritten.

## Model

| member | source | states |
|---|---|---|
| Editor.ValidateRange | src/document.ts:62 | The clamped range lies inside the document. A line past the end goes to the last line and other lines are kept. An ordered range stays ordered. |
| Editor.ValidatePosition | src/document.ts:62 | A clamped position lies inside the document: a valid position is unchanged, and a line past the end goes to the last line. |
| LineState.RefreshLine | src/document.ts:50-58 | With no grammar: no tokens, not invalidated, table unchanged. With a grammar: the tokens and the new slot are the tokenizer's result from the previous slot (none for line 0 or an empty slot). It is invalidated exactly when the slot was empty or held a different state. No other slot changes. |
| LineState.RefreshLineTwice | src/document.ts:53-56 | Refreshing the same line again finds its own state cached. It invalidates nothing and changes neither the table nor the tokens. |
| Incremental.ReparseLoop | src/document.ts:66-75 | The loop ends with `lineIdx` inside `[start, lineCount]`, past the end of the range. |
| Incremental.ReparseLoopFrame | src/document.ts:71-75 | Only slots `[start, stop)` can change. With a grammar, each of them is written. Without one, the table is unchanged. |
| Incremental.ReparseLoopNoGrammar | src/document.ts:71-75 | Without a grammar, the loop visits exactly the lines of the range and leaves the table alone. |
| Incremental.ReparseLoopConsistent | src/document.ts:71-75 | Every line the loop visits ends up consistent with the slot above it. |
| Incremental.ReparseLoopStop | src/document.ts:71-75 | The loop runs exactly when its condition holds on entry. When it stops before the last line after running, the last line processed kept its cached state. |
| Incremental.ReparseLoopInvalidated | src/document.ts:71-74 | Every line processed beyond the end of the range was reached because the line before it changed its slot. |
| Incremental.ReparseLoopRestoresConsistency | src/document.ts:66-75 | If every slot outside `[start, end]` was consistent, every line of the document is consistent after the loop. |
| Incremental.Reparse | src/document.ts:61-76 | Every line of the clamped range is processed and the loop ends inside the document. Only the processed slots can change; with a grammar each is written, without one the table is unchanged. |
| Incremental.ReparseLoopKeepsConsistency | src/document.ts:66-75 | The loop never makes a consistent line inconsistent, and every line of `[start, end]` is consistent after it. |
| Incremental.ReparseKeepsConsistency | src/document.ts:61-76 | The same for `reparsePretties` and its validated range. |
| Incremental.ReparseRestoresConsistency | src/document.ts:61-76 | If every line outside the validated range was consistent, every line of the document is consistent after `reparsePretties`. |
| Incremental.InPlaceEditRestoresConsistency | src/document.ts:82-86 | A single change that keeps the line count and only changes lines inside its validated range leaves the table consistent with the new text. |
| Incremental.ReparseLoopOnConsistent | src/document.ts:71-75 | On a consistent table, the loop changes nothing. |
| Incremental.ReparseConsistentIsIdentity | src/document.ts:61-76 | Re-tokenizing any range of a consistent table leaves the table as it was. |
| Incremental.SingleLineConvergence | src/document.ts:71-75 | For a one-line range whose line was already consistent, only that line is processed and the table is unchanged. |
| Incremental.FullParse | src/document.ts:36-37 | With a grammar, the whole-document parse stores a slot for exactly the lines of the document; without one it stores nothing. |
| Incremental.FullParseConsistent | src/document.ts:36-37 | After the whole-document parse: with a grammar, there is a slot for exactly the lines of the document and each is consistent; without one, the table is empty. |
| Incremental.ConsistentUnique | src/document.ts:53-56 | Two tables consistent with the same text agree on every line. |
| Incremental.AgreesWithFullParse | src/document.ts:97-101 | Any consistent table agrees on every line with the table a fresh whole-document parse builds. |
| Changes.InsertChange | src/document.ts:80 | Inserting into a descending list gives a descending permutation of the list plus the new change. |
| Changes.SortChanges | src/document.ts:79-80 | The result is a permutation of the changes, and no change starts after one listed before it. |
| Document.FirstContaining | src/document.ts:28-31 | The result is the first index from `from` whose token covers the column, or none when no token from there covers it. |
| Document.HoverAt | src/document.ts:25-32 | Nothing exactly when no token of the re-tokenized line covers the column. Otherwise, the scopes and span of the first covering token, on the hovered line, covering the column. |
| Document.ApplyEdits | src/document.ts:81-90 | Handling the changes never removes a slot, stores nothing new beyond the document and leaves every slot beyond it as it was (the table is never spliced). Without a grammar the table is unchanged. |
| Document.Handled | src/document.ts:82-89 | The changes kept are exactly those whose new range can be computed. |
| Document.ApplyEditsSkipsFailures | src/document.ts:81-90 | A change whose range computation fails is skipped and does not stop the others. The result equals applying only the successful changes in order. |
| Document.ApplyEditsRestoresConsistency | src/document.ts:81-90 | When every inconsistent line lies in the validated new range of some change whose range can be computed, handling the changes leaves every line consistent. |
| Document.InPlaceEventRestoresConsistency | src/document.ts:78-91 | For an event that keeps the line count, on a table consistent with the old text: when every line whose text changed lies in the new range of a handled change, `applyChanges` leaves the table consistent with the new text. |
| Document.ApplyEditsOnConsistent | src/document.ts:81-90 | On a consistent table, processing any changes leaves the table unchanged. |
| Document.DocumentController.constructor | src/document.ts:36-37 | The table is the whole-document parse of the text. With a grammar, every line is consistent. |
| Document.DocumentController.RefreshTokensOnLine | src/document.ts:50-58 | Returns the tokens and the flag of `RefreshLine`, and updates the table in place to its table. |
| Document.DocumentController.ReparsePretties | src/document.ts:61-76 | The loop leaves the table the loop function computes over the validated range. |
| Document.DocumentController.ApplyChanges | src/document.ts:78-91 | The table is the result of handling the changes sorted bottom to top, skipping the ones that fail. |
| Document.DocumentController.OnChangeDocument | src/document.ts:93-95 | The changes of the event are applied to the new text. |
| Document.DocumentController.Refresh | src/document.ts:97-101 | The new table is the whole-document parse of the current text, whatever the old table was. So two refreshes in a row leave the same table. With a grammar, every line is consistent. |
| Document.DocumentController.ProvideHover | src/document.ts:22-33 | The hover of a position inside the document reads the controller's table without changing it. The hovered line is tokenized from the slot of the line above. The result is nothing exactly when no token covers the column, and otherwise the hover of the first covering token: its scopes and exactly its span `[startIndex, endIndex)` on the hovered line, which covers the column. Without a grammar it is nothing. |
| StaleTable.StaleSlotAfterLineDeletion | src/document.ts:71-75 | As written: after deleting a line, the loop can stop while a later line is left inconsistent (see "## Findings"). |
| StaleTable.SplicedEditRestoresConsistency | src/document.ts:82-86 | Corrected: renumbering the table for the edit's line delta before re-tokenizing restores the consistency of every line. |
| StaleTable.SplicedEditMatchesFullParse | src/document.ts:82-86 | Corrected: the result agrees on every line with a whole-document parse of the new text. |
| StaleTable.SplicedEditFixesLineDeletion | src/document.ts:82-86 | Corrected: the deletion that breaks the code as written leaves every line consistent. |

## Left out

- Tokenizer: the TextMate tokenizer is foreign code. It is a parameter of the model, a total deterministic function. So a tokenizer exception thrown in the middle of a change is not modelled: the source catches it per change (src/document.ts:82-89), keeps the slots already rewritten and goes on with the next change; in the constructor and in `refresh` it propagates.
- Range computation: `toRangeDelta` and `rangeDeltaNewRange` live in `src/text-util`, which is not part of this model. They are the parameter `editRangeOf`, and `None` stands for the exception that `applyChanges` catches.
- Editor.ValidatePosition: the clamp of the character within its line follows the editor's documented `validateRange`. Only the line clamp matters to the controller.
- Event plumbing: the event subscriptions, `dispose`, the hover provider's URI check, the hover registration and `console.error` are not modelled. Neither are the unused timeout and debug constants.
- `src/extension.ts` and the type declarations of `src/api.ts` are not part of this model.
- Document.HoverAt: with no grammar the source would throw a TypeError on `this.grammar.tokenizeLine`. The model answers nothing instead. Positions are assumed inside the document, as the editor provides them.
- Changes.SortChanges: `Array.prototype.sort` with a comparator that never answers "equal" leaves the order of two changes with the same start to the engine. The model fixes one such order and promises only the descending order and the permutation.
- Document.DocumentController.ApplyChanges: the source sorts the event's own array in place. The model sorts a copy, which nothing else reads.
- Document.DocumentController.OnChangeDocument: the editor updates the document text before it notifies. The model takes the new text as a parameter and assigns it.
- Rule stacks: identity versus `equals` is not distinguished. A stored rule stack is compared with `==`.

## Findings

| source | as written | input that shows it | evidently intended | confidence | as-written member | corrected member |
|---|---|---|---|---|---|---|
| src/document.ts:71-75 | `grammarState` is never renumbered when an edit inserts or deletes lines. The convergence test therefore compares a line's new state with the slot of whatever line used to have that index, and can stop early. | A grammar that only tracks `/*` … `*/` comments parses `x`, `/*`, `y`, `*/`, `z`. Line 0 is deleted, and the edit's new range is line 0. Line 1 then matches its stale slot, so the loop stops at line 2. But slot 2 still says "inside a comment", while line 2 is now `*/`. | After any edit every line's slot is the state of tokenizing it from the slot above (what a full parse gives) | not executed | StaleTable.StaleSlotAfterLineDeletion | StaleTable.SplicedEditRestoresConsistency |

The corrected edit shifts the cached slots by the edit's line delta before re-tokenizing, which proves consistency for every edit. The controller class models the code as written and does not use it. The stale slots are read wherever a line is tokenized from the slot above it: by the convergence test, by `refreshTokensOnLine` (src/document.ts:53) and by the hover (src/document.ts:25). In the example, a hover on line 3 (`z`) is tokenized from the stale slot 2. `refresh` clears them. As written, an event is handled correctly when the table was consistent with the old text, the event keeps the line count, and each changed line lies in the new range of one of its changes whose range computation succeeds (`Document.InPlaceEventRestoresConsistency`); an event whose net line count is unchanged but whose changes shift lines (one deletes a line, another inserts one further down) is not covered and can leave stale slots in between.
