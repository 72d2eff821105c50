# Selection and bulk-delete workflow of a file browser, in Dafny

This project models the two statecharts of a small file-browser app.

- **App machine** (`src/app.machine.ts`). The states are `browsing`, `selecting` and `deleting`. The context holds the item list `items` and the selection `selectedItems`. The transition table and its four `assign` actions become a total function `AppMachine.Step(config, input)`:
  - `addItemToSelection` appends the item.
  - `addAllItemsToSelection` copies the item list.
  - `removeItemFromSelection` filters out the item's id.
  - `resetSelection` empties the selection.
  
  A pair of state and event with no handler leaves the configuration unchanged, as the statechart interpreter does. The delete request invoked in `deleting` is an input `Settled(Done)` or `Settled(Error)`. It is handled only in `deleting`. `AppMachine.Run` processes inputs one at a time, in arrival order.
- **Prompt machine** (`src/prompt.machine.ts`). The states are `hidden` and `displayed`, with a `message`. `DISPLAY_PROMPT` shows a message and `HIDE_PROMPT` clears it. This is `PromptMachine.Step`.

Files:
- `app_machine.dfy` (module `AppMachine`): data, actions, guards, step function.
- `app_machine_properties.dfy` (module `AppMachineProperties`): the lemmas about the app machine.
- `prompt_machine.dfy` (module `PromptMachine`): the prompt machine and its lemmas.

Each file is a `File(id, title, owner)`. Ids are unbounded integers, compared for equality as the filter compares the program's integer ids with `!==`.

## Behaviour of the code worth knowing

The code around the machine suggests three expectations that the machine itself does not meet. The row toggle at src/App.tsx:103 sends `SELECT_ITEM` only for unselected rows, as if selecting were idempotent. The same toggle assumes the selection stays unique by id. The error dialog with its Retry button at src/App.tsx:206-227, and the comment at src/app.machine.ts:138, anticipate a message after a failed delete. The model follows the machine as written. These points are proved about the model as the code is written:
- `SELECT_ITEM` appends with `concat` and does not de-duplicate. Selecting an already selected file adds a second entry (`SelectItemAppends`).
- The `DESELECT_ITEM` guards test the length of the selection *before* the filter runs. Deselecting an id that is not selected, with one entry selected, leads to `browsing` with that entry still selected (`DeselectUnselectedKeepsEntry`). A run from the initial configuration reaches this (`StaleSelectionReachable`). A file selected twice and then deselected leaves `selecting` with an empty selection (`DeselectDuplicateEmptiesSelecting`).
- The view only sends `SELECT_ITEM` for a row that is not selected and `DESELECT_ITEM` for a row that is (src/App.tsx:94 and src/App.tsx:103). For such inputs the selection keeps distinct ids and stays within the item list, and the machine is in `browsing` exactly when nothing is selected (`RunKeepsConsistent`, `ReachableBrowsingIffEmpty`).
- The `onError` transition of `deleting` has no actions. It returns to `selecting` with the selection kept, and it does not start the prompt machine.
- The prompt machine starts `hidden` with an empty message. The events it handles are `DISPLAY_PROMPT` and `HIDE_PROMPT`.

## Model

| member | source | states |
|---|---|---|
| AppMachine.Context.AddItemToSelection | src/app.machine.ts:148-150 | the selection grows by one; the old entries are its prefix and the item is last; items unchanged |
| AppMachine.Context.AddAllItemsToSelection | src/app.machine.ts:151-153 | afterwards every item's id is selected and the view's "all selected" flag holds; items unchanged |
| AppMachine.Context.RemoveItemFromSelection | src/app.machine.ts:154-156 | an id is selected afterwards iff it was selected before and is not the item's id; items unchanged |
| AppMachine.Context.ResetSelection | src/app.machine.ts:157-159 | afterwards no id is selected; items unchanged |
| AppMachine.InitialItems | src/app.machine.ts:36-73 | six files whose ids are 0 to 5, pairwise distinct |
| AppMachine.InitialConfig | src/app.machine.ts:75-91 | the machine starts in browsing with an empty selection over the six initial files, so "all selected" is false |
| AppMachine.LastItemSelected | src/app.machine.ts:116 | when the guard holds, the selection is a single entry |
| AppMachine.MoreItemsSelected | src/app.machine.ts:119 | the guard holds iff the selection is non-empty and the first guard fails |
| AppMachine.FilterOutId | src/app.machine.ts:155 | no kept entry carries the filtered id, and the result is no longer than the input |
| AppMachine.FilterOutIdCounts | src/app.machine.ts:155 | entries with the filtered id occur 0 times; every other entry occurs as often as in the input |
| AppMachine.FilterOutIdSelected | src/app.machine.ts:155 | filtering by id changes the set of selected ids by removing exactly that id |
| AppMachine.Step | src/app.machine.ts:88-143 | no step changes items; in deleting every event is ignored; a settlement outside deleting is ignored; deleting is entered only from selecting by DELETE_SELECTION |
| AppMachine.Run | src/app.machine.ts:88-143 | no sequence of inputs changes items |
| AppMachineProperties.InitialConfigShape | src/app.machine.ts:36-91 | the machine starts in browsing, with nothing selected and six files whose ids are 0 to 5 and pairwise distinct |
| AppMachineProperties.SelectItemAppends | src/app.machine.ts:95-109 | SELECT_ITEM in browsing or selecting leads to selecting, with the item appended and no de-duplication |
| AppMachineProperties.SelectAllSelectsItems | src/app.machine.ts:99-112 | SELECT_ALL_ITEMS in browsing or selecting leads to selecting, with the selection equal to items |
| AppMachineProperties.DeselectGuardsExclusive | src/app.machine.ts:113-120 | the two DESELECT_ITEM guards never both hold, and one holds iff the selection is non-empty |
| AppMachineProperties.DeselectItemInSelecting | src/app.machine.ts:113-120 | DESELECT_ITEM in selecting: length 1 leads to browsing; length above 1 stays in selecting; length 0 is ignored; every entry with the id goes and the rest keep their counts and relative order |
| AppMachineProperties.FilterOutIdKeepsOrder | src/app.machine.ts:155 | the filtered selection is a sublist of the original (order kept) |
| AppMachineProperties.FilterOutIdAppend | src/app.machine.ts:155 | filtering distributes over concatenation |
| AppMachineProperties.FilterOutIdDistinct | src/app.machine.ts:155 | filtering keeps ids distinct |
| AppMachineProperties.FilterOutIdRemovesOne | src/app.machine.ts:155 | with distinct ids, filtering a present id removes exactly one entry |
| AppMachineProperties.FilterOutIdAbsent | src/app.machine.ts:155 | filtering an absent id leaves the sequence unchanged |
| AppMachineProperties.ResetSelectionInSelecting | src/app.machine.ts:121-124 | RESET_SELECTION in selecting leads to browsing with an empty selection and the same items |
| AppMachineProperties.SelectAllThenReset | src/app.machine.ts:99-124 | SELECT_ALL_ITEMS then RESET_SELECTION from browsing or selecting ends in browsing with nothing selected |
| AppMachineProperties.DeleteSelectionInSelecting | src/app.machine.ts:125-127 | DELETE_SELECTION in selecting leads to deleting with the context unchanged |
| AppMachineProperties.DeleteSettles | src/app.machine.ts:130-141 | success leads to browsing with an empty selection; failure leads to selecting with the selection unchanged |
| AppMachineProperties.BrowsingIgnoresUnhandled | src/app.machine.ts:93-104 | in browsing, every input except SELECT_ITEM and SELECT_ALL_ITEMS leaves state and context unchanged |
| AppMachineProperties.SelectionDeletedIgnored | src/app.machine.ts:25 | SELECTION_DELETED has no handler in any state and changes nothing |
| AppMachineProperties.RunAppend | src/app.machine.ts:88-143 | running two input sequences one after the other is the same as running their concatenation |
| AppMachineProperties.DeletingIgnoresEvents | src/app.machine.ts:130-141 | while deleting, any sequence of events leaves state and context unchanged |
| AppMachineProperties.InitialConsistent | src/app.machine.ts:75-78 | the initial configuration satisfies the selection invariant |
| AppMachineProperties.StepKeepsConsistent | src/app.machine.ts:88-161 | every input the view can send keeps the selection invariant (distinct ids, selection within items, browsing iff empty) |
| AppMachineProperties.RunKeepsConsistent | src/app.machine.ts:88-161 | any run of inputs the view can send keeps the selection invariant |
| AppMachineProperties.ReachableBrowsingIffEmpty | src/app.machine.ts:88-161 | from the start, under view inputs, the machine is browsing iff nothing is selected, and selected ids are distinct |
| AppMachineProperties.DeselectUnselectedKeepsEntry | src/app.machine.ts:113-120 | deselecting an unselected id at length 1 leads to browsing with the selection unchanged |
| AppMachineProperties.DeselectDuplicateEmptiesSelecting | src/app.machine.ts:113-120 | deselecting a file selected twice stays in selecting with an empty selection |
| AppMachineProperties.StaleSelectionReachable | src/app.machine.ts:113-120 | SELECT_ITEM(file 0) then DESELECT_ITEM(file 1) from the start ends in browsing with file 0 selected |
| AppMachineProperties.ScenarioSelectDeselect | src/app.machine.ts:95-120 | select files 1 and 2, deselect 1, deselect 2: selecting {1}, selecting {1,2}, selecting {2}, then browsing {} |
| PromptMachine.InitialConfig | src/prompt.machine.ts:24-27 | the prompt starts hidden with an empty message |
| PromptMachine.Context.UpdateMessage | src/prompt.machine.ts:50-52 | the message becomes the event's message |
| PromptMachine.Context.ClearMessage | src/prompt.machine.ts:53-55 | the message becomes empty |
| PromptMachine.Step | src/prompt.machine.ts:22-46 | keeps "hidden implies empty message"; entering or changing displayed happens only by DISPLAY_PROMPT with that message; a changed hidden configuration has an empty message |
| PromptMachine.Run | src/prompt.machine.ts:22-46 | any sequence of events keeps "hidden implies empty message" |
| PromptMachine.InitialConfigShape | src/prompt.machine.ts:24-27 | the prompt starts hidden with an empty message, which satisfies the invariant |
| PromptMachine.DisplayFromHidden | src/prompt.machine.ts:29-35 | DISPLAY_PROMPT(m) in hidden leads to displayed with message m |
| PromptMachine.HideFromDisplayed | src/prompt.machine.ts:37-43 | HIDE_PROMPT in displayed leads to hidden with an empty message |
| PromptMachine.UnhandledIgnored | src/prompt.machine.ts:28-45 | HIDE_PROMPT in hidden and DISPLAY_PROMPT in displayed change nothing |
| PromptMachine.ReachableHiddenIsCleared | src/prompt.machine.ts:24-55 | every configuration reachable from the start that is hidden has an empty message |
| PromptMachine.DisplayThenHide | src/prompt.machine.ts:31-42 | DISPLAY_PROMPT(m) then HIDE_PROMPT from hidden returns to the initial configuration |

## Left out

- The `updatedAt` date of a file and its `toDateString` formatting: these are opaque data, and no transition reads them.
- The body of `deleteItems` (src/app.machine.ts:81-85): the three-second timer, the promise, and its result string. That body only ever resolves, so the program as written always settles with success; the failure outcome `Settled(Error)` is an abstract outcome the model adds so that the `onError` transition can be stated. The invocation is modelled only by its two outcomes. Whether it settles at all is not modelled either: a run with no settlement input stays in `deleting`, as the code does, since the code has no timeout.
- File ids are JavaScript numbers (doubles). The model makes them integers, so NaN (which `!==` never matches), fractional ids and ids above 2^53 are not modelled; the program only uses ids 0 to 5.
- The statechart library itself: the interpreter, `useMachine`, and devTools. Its rule that an unhandled event is ignored is written into the step functions.
- The rendering in src/App.tsx. Its per-row "selected" flag and its "all selected" flag appear only as the predicates `IsSelected` and `AllItemsSelected`. The rows it offers the user appear only as the predicate `FromView`.
- The `DISMISS_PROMPT` event that src/App.tsx sends. The app machine declares no such event. The dialog it opens tests a `prompting` state that the app machine does not have. No wiring between the two machines exists in the code, so none is modelled.
