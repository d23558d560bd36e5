# Rotate Active Tabs — a Dafny model of the tab-history rotation core

Rotate Active Tabs is a browser extension that keeps a most-recent-first
history of the tabs a user activates and cycles through it with two keyboard
commands, like an alt-tab switcher for tabs. This project models its core in
Dafny and proves properties of it:

- the **tab history**: an ordered list of tab ids, no duplicates, at most the
  configured depth long (2..20, default 5);
- the **rotation cursor**: how far a rotation has stepped from the newest
  entry, moved forward or backward modulo the history length;
- the **echo filter**: a one-shot `rotating` flag. It swallows the
  tab-activated notification that the extension's own focus request causes;
- the **quiescence commit**: 1500 ms after the last rotation the viewed tab
  becomes the newest entry and the cursor goes back to 0. A further rotation
  restarts the wait. A manual tab switch cancels it;
- the **settings page**: range validation of the depth, the default when
  nothing is stored, and the save button's validate-then-store decision.

The repository's `background.js` contains only a load log and an install
listener. The tracker's behaviour is the one its Jest suites pin down
(`tests/background.*.test.js`). Every test is replayed as a method of module
`Scenarios` that returns what the test inspects and proves the expected
values.

Files:

- `history.dfy` (module `TabHistory`): pure functions on sequences. `Without`
  is removal, `Recorded` is an activation, `Activated` is a manual activation
  during a rotation, `Committed` is the commit, `Forward`/`Reverse` move the
  cursor, and `Replay` builds a history from a list of activations. The
  lemmas about them are in the same module.
- `background.dfy` (module `Background`): class `TabTracker`. Its fields are
  `history`, `cursor`, `rotating`, `pending` (tab and deadline) and an integer
  clock `now`. Its methods are proved against the functions above, and each
  one keeps the invariant `Valid()`. `Valid()` says: no duplicates; length at
  most the depth; the cursor is in range; a pending commit targets the tab at
  the cursor and is due within 1500 ms.
- `options.dfy` (module `Options`): the settings page, with class
  `OptionsPage` for its status line and the stored depth.
- `commands.dfy`, `config.dfy`, `wrappers.dfy`: the command names, the
  configuration constants, and `Option`.
- `scenarios.dfy` (module `Scenarios`): the Jest scenarios.

A manual activation during a rotation keeps **only** the entry at the cursor,
then puts the new tab in front. From `[3, 2, 1]` at cursor 2, activating 4
gives `[4, 1]`. At cursor 1 it gives `[4, 2]`. Dropping only the entries
before the cursor would give `[4, 2, 1]` in the second case, which
`tests/background.rotation.test.js:425-427` rejects.

A focus request whose browser stub fires an activation is replayed as a
separate `OnActivated` call right after the rotation. In the tests that echo
runs inside the focus request itself. The model assumes the rotation sets the
flag before it asks for focus, and that nothing it does afterwards touches
the flag; under that assumption the two orders give the same result. The
rotation code itself is not part of the repository's files, so this order is
an assumption of the model.

`Commands.Parse` models how a delivered command name is recognised. The
tracker's `OnCommand` takes the recognised `Command`; which name maps to which
rotation is stated by `Parse` together with `OnCommand`.

## Model

| member | source | states |
|---|---|---|
| `Commands.Parse` | commands-constants.js:1-4 | A recognised name is the name of the command returned; an unrecognised name matches no command |
| `Commands.ParseName` | commands-constants.js:2-3 | Each of the two command names ("rotate-tabs", "rotate-tabs-reverse") is recognised as its own command, so they are distinct |
| `Options.ValidateTabHistorySize` | options.js:34-38 | Accepted exactly when the parsed value is a number with 2 <= n <= 20; NaN fails both comparisons and is refused |
| `Options.ValidationBoundaries` | options.js:37 | 2 and 20 are accepted; 1, 21 and NaN are refused |
| `Options.GetTabHistorySize` | options.js:6-14 | The stored value unchanged when the key is set, the default 5 when it is unset; a depth in 2..20 whenever the stored value was one the settings page could save |
| `Options.DecideSave` | options.js:52-66 | Saves exactly when validation passes, and then saves the parsed value unchanged; otherwise rejects with "Please enter a number between 2 and 20" |
| `Options.SavedSizeReadsBack` | options.js:64 | A saved depth reads back unchanged through getTabHistorySize and is a valid stored depth |
| `Options.OptionsPage.ShowStatus` | options.js:23-28 | Status text is the message and its class is "status-message " followed by the kind; the stored depth is unchanged |
| `Options.OptionsPage.LoadSettings` | options.js:40-44 | The input shows the stored depth, or 5 when none is stored |
| `Options.OptionsPage.OnSaveClick` | options.js:52-66 | Invalid input: range error shown with class "error", store untouched. Valid input: depth stored unchanged, then "Settings saved!" shown with class "success" |
| `TabHistory.Without` | tests/background.tracking.test.js:103-122 | The result holds exactly the entries other than the closed tab. It keeps no-duplicates, and it is one shorter when the tab was present and unchanged when absent |
| `TabHistory.WithoutAt` | tests/background.tracking.test.js:114-121 | Closing the tab at index i deletes exactly that entry and keeps the others in order ([3,2,1] minus 2 is [3,1]) |
| `TabHistory.WithoutKeepsPrefix` | tests/background.tracking.test.js:103-122 | Closing a tab not among the first k entries leaves those k entries in place |
| `TabHistory.Recorded` | tests/background.tracking.test.js:49-101 | The activated tab is first; the length is at most the depth; every entry is the new tab or an old entry; no duplicates are introduced |
| `TabHistory.RecordedFresh` | tests/background.tracking.test.js:64-80 | A new tab goes in front of the newest old entries that still fit, so the oldest are dropped first |
| `TabHistory.RecordedExisting` | tests/background.tracking.test.js:82-101 | Re-activating a listed tab moves it to the front and leaves the others in order, so no tab appears twice |
| `TabHistory.Activated` | tests/background.tracking.test.js:124-161 | A genuine activation puts the tab first within the depth without duplicates; at cursor 0 it is a plain activation |
| `TabHistory.ActivatedMidRotation` | tests/background.rotation.test.js:285-293 | Mid-rotation (cursor > 0) the result is the new tab followed by the tab at the cursor only (or just the new tab if they coincide) |
| `TabHistory.Committed` | tests/background.rotation.test.js:309-335 | The commit puts the tab at the cursor first, within the depth and without duplicates |
| `TabHistory.CommittedMovesToFront` | tests/background.rotation.test.js:371-396 | A commit is the history with the viewed tab moved to the front, others in order, same length |
| `TabHistory.Replay` | tests/background.tracking.test.js:49-62 | The history built by any sequence of activations has no duplicates, fits the depth, and starts with the last activated tab |
| `TabHistory.MostRecentFirstSnoc` | tests/background.tracking.test.js:82-101 | A new activation of t leaves the recency order of every other listed tab unchanged and makes t the most recent |
| `TabHistory.WithoutKeepsOrder` | tests/background.tracking.test.js:103-122 | Removing a tab keeps the remaining tabs in recency order |
| `TabHistory.ReplayMostRecentFirst` | tests/background.tracking.test.js:49-101 | For every sequence of activations, each listed tab was activated, and each was activated later than every tab listed after it |
| `TabHistory.ReplayKeepsRecent` | tests/background.tracking.test.js:64-80 | Conversely, an activated tab is missing only when the history is full and every listed tab was activated more recently, so the oldest are dropped first |
| `TabHistory.Forward` | tests/background.rotation.test.js:136-178 | The next older index, wrapping from the oldest to the newest (index 0), always in range |
| `TabHistory.Reverse` | tests/background.rotation.test.js:180-215 | The next newer index, wrapping from the newest to the oldest, always in range |
| `TabHistory.ReverseUndoesForward` | tests/background.rotation.test.js:217-254 | A reverse rotation undoes a forward one and vice versa |
| `TabHistory.ForwardTimesIndex` | tests/background.rotation.test.js:136-178 | Up to a full cycle, k forward rotations move the cursor k entries older, wrapping once past the oldest |
| `TabHistory.ReverseTimesIndex` | tests/background.rotation.test.js:180-215 | Up to a full cycle, k reverse rotations move the cursor k entries newer, wrapping once past the newest |
| `TabHistory.FullCycle` | tests/background.rotation.test.js:92-94 | |history| rotations in one direction return the cursor to where it started |
| `Background.TabTracker.constructor` | tests/background.tracking.test.js:64-69 | A fresh tracker has an empty history, cursor 0, no echo expected, nothing pending, and the stored depth or 5 |
| `Background.TabTracker.GetTabHistory` | tests/background.tracking.test.js:41-46 | Returns the current history, which has no duplicates and fits the depth |
| `Background.TabTracker.TrackTabActivation` | tests/background.tracking.test.js:124-161 | The history becomes `Activated` of the old history, cursor and tab; the cursor is 0 and the pending commit is cancelled |
| `Background.TabTracker.OnActivated` | tests/background.rotation.test.js:101-134 | If an echo was expected, the flag is cleared and nothing else changes; otherwise it is a genuine activation |
| `Background.TabTracker.RotateForward` | tests/background.rotation.test.js:36-48 | The history is unchanged, the cursor moves forward modulo the length, the tab at the new cursor is focused, an echo is expected, and the commit is rescheduled at now + 1500 |
| `Background.TabTracker.RotateReverse` | tests/background.rotation.test.js:50-65 | As RotateForward, moving the cursor backward modulo the length |
| `Background.TabTracker.OnCommand` | commands-constants.js:1-4 | "rotate-tabs" rotates forward and "rotate-tabs-reverse" rotates backward, with their effects |
| `Background.TabTracker.Advance` | tests/background.rotation.test.js:337-369 | The clock moves on by ms. Once the deadline is reached the viewed tab is committed, the cursor resets and nothing is pending; before that nothing changes |
| `Background.TabTracker.RemoveTabFromHistory` | tests/background.tracking.test.js:103-122 | The closed tab is removed (`Without`); cursor, pending commit and flag are kept, and the invariant still holds |
| `Scenarios.ThreeTabs` | tests/background.rotation.test.js:39-43 | Activating 1, 2, 3 on a default tracker gives [3, 2, 1] at cursor 0 |
| `Scenarios.SingleActivation` | tests/background.tracking.test.js:36-47 | One activation on an empty history gives [1] |
| `Scenarios.ActivationsInOrder` | tests/background.test.js:46-59 | Activations 1, 2, 3 give [3, 2, 1] |
| `Scenarios.HistoryBoundedBySize` | tests/background.tracking.test.js:64-80 | With depth 3, activations 1..5 give [5, 4, 3], length 3 |
| `Scenarios.NoDuplicateTabsSteps` | tests/background.tracking.test.js:89-99 | The histories the re-activation scenario passes through |
| `Scenarios.NoDuplicateTabs` | tests/background.tracking.test.js:82-101 | Activations 1, 2, 1, 3, 2 give [2, 3, 1] |
| `Scenarios.RemoveClosedTab` | tests/background.tracking.test.js:103-122 | Closing 2 in [3, 2, 1] gives [3, 1] |
| `Scenarios.ManualSwitchClearsForward` | tests/background.tracking.test.js:124-161 | Two echoed forward rotations, then a click on 4, give [4, 1] |
| `Scenarios.RotateForwardFocusesNext` | tests/background.test.js:112-124 | The first forward rotation on [3, 2, 1] focuses 2 |
| `Scenarios.RotateReverseGoesBack` | tests/background.test.js:126-141 | Forward then reverse focuses 3 |
| `Scenarios.RotationKeepsHistory` | tests/background.rotation.test.js:67-99 | Rotations leave [3, 2, 1] untouched and the third forward wraps to 3 |
| `Scenarios.EchoIgnored` | tests/background.rotation.test.js:101-134 | Echoed focus requests do not change [3, 2, 1] |
| `Scenarios.ForwardCycle` | tests/background.rotation.test.js:136-178 | On [4, 3, 2, 1] forward rotations focus 3, 2, 1, 4, and the history read after each one is [4, 3, 2, 1] |
| `Scenarios.ReverseCycle` | tests/background.rotation.test.js:180-215 | On [3, 2, 1] reverse rotations focus 1, 2, 3, and the history read after each one is [3, 2, 1] |
| `Scenarios.AlternateDirections` | tests/background.rotation.test.js:217-254 | F, F, R, R focus 2, 1, 2, 3 and the history is unchanged |
| `Scenarios.ManualSwitchResetsPosition` | tests/background.rotation.test.js:256-298 | A click on 4 at cursor 2 gives [4, 1]; the next forward focuses 1 |
| `Scenarios.CommitAfterQuiet` | tests/background.rotation.test.js:309-335 | Unchanged right after the rotation; [2, 3, 1] after 1500 ms |
| `Scenarios.TimerRestartsOnRotation` | tests/background.rotation.test.js:337-369 | Still [3, 2, 1] 2000 ms after the first of two rotations; [1, 3, 2] at 2500 ms |
| `Scenarios.CommitResetsCursorSteps` | tests/background.rotation.test.js:387-391 | Committing tab 2 of [4, 3, 2, 1] gives [2, 4, 3, 1] |
| `Scenarios.CommitResetsCursor` | tests/background.rotation.test.js:371-396 | [2, 4, 3, 1] after the commit, and the next forward focuses 4 |
| `Scenarios.ManualSwitchCancelsCommit` | tests/background.rotation.test.js:398-428 | A click on 4 1000 ms after an echoed rotation gives [4, 2], and the commit never fires |
| `Scenarios.CommitAfterReverse` | tests/background.rotation.test.js:430-449 | A reverse rotation then 1500 ms gives [1, 3, 2] |
| `Scenarios.CommitAfterMixedRotation` | tests/background.rotation.test.js:451-471 | F, F, R then 1500 ms gives [2, 3, 1] |

## Left out

- `background.js`: its only code logs a load message and registers an install listener that logs another message.
- The browser APIs are not called. Focusing a tab is the value the rotation methods return. Listener registration becomes direct calls of `OnActivated`, `OnCommand` and `RemoveTabFromHistory`.
- Promises, `async`/`await` and real or fake timers: every operation runs to completion. Time is the integer clock `now`, moved by `Advance`.
- `chrome.storage.sync` and `storage-service.js`: the stored depth is an `Option<int>` given to the constructors. Failures of the store are out of scope.
- `TabTracker` reads the depth once, at construction. Re-reading it when the stored value changes (cache invalidation) is not modelled, because no test fixes that behaviour.
- `Background.TabTracker.RotateForward`, `Background.TabTracker.RotateReverse`, `Background.TabTracker.OnCommand`: require at least two tabs in the history. No test fixes what a rotation does on an empty or one-tab history.
- `Background.TabTracker.RemoveTabFromHistory`: requires that no rotation in progress is viewing, or has stepped past, the closed tab. No test fixes how the cursor or the pending commit should be repaired then. The pending commit is kept as is, since it targets a tab that stays.
- `Background.TabTracker.Advance`: the commit leaves the echo flag as it was, because no test fixes it.
- After a rotation whose focus request produces no activation, `rotating` stays set: neither `Advance` nor `TrackTabActivation` clears it, so the next genuine `OnActivated` is discarded as an echo. No test fixes what should happen then; the model keeps the plain one-shot flag.
- The storage key "tabHistorySize" (config.js:7): the stored depth is passed as a value, so the key by which it is looked up does not appear.
- `parseInt` itself: the save button's input is modelled as its result, an integer or NaN.
- `showStatus`'s 3000 ms clearing of the status text (`STATUS_MESSAGE_DURATION`), the DOMContentLoaded wiring, and the element look-ups of the settings page.
- `shortcuts-help.js` (clipboard and page only) and `verify-structure.js` (file-system checks): no tab-history logic.
