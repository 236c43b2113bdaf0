# itch window/tab session state, modelled in Dafny

This project models the session state of the itch desktop client: the
reducers that keep, for every open window, its tabs and its context menu.

- **Tab instance store** (`tab_instances.dfy`, lemmas in
  `tab_instance_properties.dfy`): tab id to tab instance. An instance holds a
  browser-style navigation history with a `currentIndex`, a `sleepy` flag, a
  data bag and an optional `webContentsId`. Every action the store reacts to
  is a function: `windowOpened`, `openTab`, `closeTab`, `focusTab`,
  `tabGotWebContents`, `tabDataFetched`, `evolveTab`, `tabGoBack`,
  `tabGoForward`, `logout` and `tabsRestored`. Two pieces of the reducer are
  loops. The deep-field loop of `merge` is the method `Merge`. The item loop
  of `tabsRestored` is the method `RestoreTabs`. Each is proved equal to the
  function the reducers use (`Merged`, `Restored`).
- **Window multiplexer** (`windows.dfy`): window id to window state. A window
  state holds the two sub-states modelled here, `tabInstances` and
  `contextMenu`. The reducer is a method because the broadcast branch fills
  a fresh map in a loop.
- **Context menu** (`context_menu.dfy`): open/close with position and template.
- **Game status** (`game_status.dfy`): the access decision, the operation
  decision, and the cave and download selection of `getGameStatus`.
- **Manifest action picker** (`pick_manifest_action.dfy`): the button-building
  loop and its result. The modal's answer is a parameter.

Actions form one closed datatype (`actions.dfy`). JavaScript values in tab data
are a JSON-like `Value` datatype (`types.dfy`). JavaScript falsiness of ids,
window names, action names and icons is modelled by the empty string. Fields
that may be `undefined` are `Option`s, and `Present` is the truthiness of an
optional string.

The model's preconditions exclude inputs on which the code throws or computes
with `undefined`:
- `tabGoBack` and `tabGoForward` read the tab without checking that it exists
  (it throws).
- `tabGoForward` reads the tab's `history.length` (it throws without a history).
- `tabGoBack` and `tabGoForward` on a tab without `currentIndex` store `NaN`;
  the model requires the index to be present.
- `evolveTab` indexes the history of the tab (it throws without a current entry).
- A deep `merge` into a tab without data reads a field of `undefined` (it throws).

One throwing input is not excluded but modelled as corrected: a `null` item in
a `tabsRestored` snapshot throws in the code, and the model skips it (see
"## Findings"). `RestoredAsWritten` is the code as written.

Behaviour the code has that a reader might not expect:
- `evolveTab` decides "same url, so replace" with the caller's url, before a
  `collections/` resource rewrites the url (`ReplaceTestPrecedesRewrite`).
- A placeholder from `tabGotWebContents` has no history. A restored tab
  carries whatever was persisted. So "history non-empty and index in range"
  is not an invariant of every reachable state. It is preserved by every
  other action (`ReducePreservesWellFormed`). `PlaceholderIsNotNavigable`
  and `RestoredWithoutHistoryIsNotNavigable` show how it breaks.
- After `closeTab`, `tabDataFetched`, `evolveTab`, `focusTab` and `closeTab`
  for that tab leave the store unchanged (`ClosedTabIgnoresEvents`). The other
  tab events do not: `tabGotWebContents` brings the tab back as a placeholder
  (`ClosedTabRevivedByWebContents`), `openTab` and a `tabsRestored` record with
  that id recreate it, and `tabGoBack`/`tabGoForward` throw.
- Untouched windows and tabs are stated unchanged as value equality. Dafny
  maps are values, so reference identity is not expressible.

## Model

| member | source | states |
|---|---|---|
| TabInstanceStore.Overlaid | src/common/reducers/window/tab-instances.ts:29-34 | overlaying deep fields in order yields the base keys plus those fields, each field holding its deep merge and every other key its base value |
| TabInstanceStore.Merged | src/common/reducers/window/tab-instances.ts:14-36 | shallow merge: keys of both sides, `b` wins; deep merge: additionally all five deep fields present, each the nested union of both sides |
| TabInstanceStore.Merge | src/common/reducers/window/tab-instances.ts:16-36 | the loop over the deep fields computes exactly `Merged` |
| TabInstanceStore.OnWindowOpened | src/common/reducers/window/tab-instances.ts:39-50 | adds `initial-tab` with history `[{url: initialURL}]`, index 0, sleepy, empty data; every other tab unchanged |
| TabInstanceStore.OnTabDataFetched | src/common/reducers/window/tab-instances.ts:52-70 | absent tab: state unchanged; present tab: only data replaced by the merge and sleepy cleared, history, index and webContentsId kept, other tabs unchanged |
| TabInstanceStore.EvolvedEntry | src/common/reducers/window/tab-instances.ts:87-94 | a `collections/` resource forces url `itch://` + resource; another resource keeps the caller's url; an omitted resource is inherited from the current entry and then never rewrites the url |
| TabInstanceStore.Navigated | src/common/reducers/window/tab-instances.ts:95-104 | replacing keeps the length and index and changes only the entry at the index; pushing gives the prefix up to the index plus the new entry, with the index at the last position; the index always points at the new entry |
| TabInstanceStore.OnEvolveTab | src/common/reducers/window/tab-instances.ts:72-116 | absent tab: unchanged; replace (flag or same caller url): length and index kept, only the current entry changes; push: history is the prefix up to the index plus the new entry and the index is its last position; data merged deep; invariant kept |
| TabInstanceStore.OnTabGoBack | src/common/reducers/window/tab-instances.ts:118-134 | index decremented only when positive, otherwise state unchanged; nothing but the index changes |
| TabInstanceStore.OnTabGoForward | src/common/reducers/window/tab-instances.ts:136-152 | index incremented only when below the last position, otherwise state unchanged; nothing but the index changes |
| TabInstanceStore.OnFocusTab | src/common/reducers/window/tab-instances.ts:154-166 | clears sleepy on a present sleepy tab, otherwise state unchanged |
| TabInstanceStore.OnCloseTab | src/common/reducers/window/tab-instances.ts:168-171 | removes exactly that key, every other entry unchanged |
| TabInstanceStore.OnOpenTab | src/common/reducers/window/tab-instances.ts:173-192 | falsy tab id: unchanged; otherwise a single-entry sleepy tab at index 0 with the given data, other tabs unchanged |
| TabInstanceStore.OnTabGotWebContents | src/common/reducers/window/tab-instances.ts:194-205 | attaches the id to a present tab; an absent tab becomes a placeholder with only the id |
| TabInstanceStore.Restored | src/common/reducers/window/tab-instances.ts:211-237 | the restore applied item by item keeps every prior tab key, and every new key is an id some record saves; null items skipped |
| TabInstanceStore.RestoredAsWritten | src/common/reducers/window/tab-instances.ts:214-234 | the restore as the code runs it throws (no result) exactly when some item is null |
| TabInstanceStore.RestoreTabs | src/common/reducers/window/tab-instances.ts:211-237 | the item loop computes `Restored`; every key it leaves is a prior tab or an id some record saves |
| TabInstanceStore.Reduce | src/common/reducers/window/tab-instances.ts:38-238 | logout yields the empty store; unhandled actions leave it unchanged; a tab-scoped action changes no other tab |
| TabInstanceProperties.MergedKeepsNestedKeys | src/common/reducers/window/tab-instances.ts:29-34 | a deep field's nested keys are the union of both sides, `b`'s nested values win, `a`'s other nested values stay |
| TabInstanceProperties.MergedGamesExample | src/common/reducers/window/tab-instances.ts:25-35 | `games {g1:1}` merged deep with `games {g2:2}` gives `games {g1:1, g2:2}` |
| TabInstanceProperties.ReplaceTestPrecedesRewrite | src/common/reducers/window/tab-instances.ts:83-89 | a `collections/` navigation with the current url replaces in place although the written url differs |
| TabInstanceProperties.ReducePreservesWellFormed | src/common/reducers/window/tab-instances.ts:39-209 | from a store where every tab has a non-empty history, an in-range index and data, every action but `tabsRestored` and a placeholder-creating `tabGotWebContents` keeps that so |
| TabInstanceProperties.RestoredPreservesWellFormed | src/common/reducers/window/tab-instances.ts:211-237 | a restore keeps the invariant when every record it applies is navigable |
| TabInstanceProperties.PlaceholderIsNotNavigable | src/common/reducers/window/tab-instances.ts:194-205 | `tabGotWebContents` on an unknown tab creates an entry without history |
| TabInstanceProperties.RestoredWithoutHistoryIsNotNavigable | src/common/reducers/window/tab-instances.ts:221-232 | a restored record is copied verbatim, so one without history is stored without history |
| TabInstanceProperties.RestoredLastWins | src/common/reducers/window/tab-instances.ts:214-234 | the last record saving an id decides that tab: its persisted history, index and webContentsId, empty data, sleepy |
| TabInstanceProperties.RestoredUntouched | src/common/reducers/window/tab-instances.ts:216-224 | a tab no record saves (non-objects and id-less records are skipped) keeps its prior instance, or stays absent |
| TabInstanceProperties.NullItemAbortsRestore | src/common/reducers/window/tab-instances.ts:216-221 | as written, a null item anywhere in the snapshot makes the restore throw |
| TabInstanceProperties.RestoredAsWrittenAgrees | src/common/reducers/window/tab-instances.ts:211-237 | without null items the code as written and the model restore the same store |
| TabInstanceProperties.NullItemExample | src/common/reducers/window/tab-instances.ts:216-224 | `[null, {id}]` throws as written, while skipping the null restores `id` |
| TabInstanceProperties.OpenEvolveBack | src/common/reducers/window/tab-instances.ts:72-134 | open `u1`, navigate to `u2`, go back: index 0, current url `u1`, history of two entries |
| TabInstanceProperties.ClosedTabIgnoresEvents | src/common/reducers/window/tab-instances.ts:52-80 | after `closeTab`, `tabDataFetched`, `evolveTab`, `focusTab` and `closeTab` on that tab leave the store as it is |
| TabInstanceProperties.ClosedTabRevivedByWebContents | src/common/reducers/window/tab-instances.ts:194-205 | `tabGotWebContents` after `closeTab` puts the tab back |
| ContextMenu.Initial | src/common/reducers/window/context-menu.ts:5-12 | the initial menu is closed at (0, 0) with an empty template |
| ContextMenu.Popup | src/common/reducers/window/context-menu.ts:15-23 | opens the menu with exactly the payload's position and template |
| ContextMenu.Close | src/common/reducers/window/context-menu.ts:25-30 | closes the menu and keeps its data |
| ContextMenu.Reduce | src/common/reducers/window/context-menu.ts:14-31 | popup and close behave as above; any other action leaves the menu unchanged |
| ContextMenu.CloseIdempotent | src/common/reducers/window/context-menu.ts:25-30 | closing twice equals closing once |
| ContextMenu.PopupThenClose | src/common/reducers/window/context-menu.ts:15-30 | closing after a popup keeps the popup's position and template |
| Windows.ReduceWindow | src/common/reducers/windows.ts:23-24 | every sub-reducer sees the action: logout empties the window's tabs, context-menu actions touch only the menu (open or closed), every other action leaves the menu unchanged |
| Windows.Reduce | src/common/reducers/windows.ts:11-57 | undefined state gives the empty map; no action: unchanged; windowOpened puts a fresh window holding only the bootstrap tab, replacing any old one; windowClosed removes exactly that key; an action naming an existing window changes only that window; anything else reaches every window with the key set kept; logout empties every window's tabs |
| GameStatus.AccessFor | src/common/helpers/get-game-status.ts:175-195 | no positive price: Pwyw iff buyable, else Free; priced with a key: Key; Press iff priced, keyless, in press system and a press user; None otherwise; never Demo or Edit |
| GameStatus.OperationFor | src/common/helpers/get-game-status.ts:197-228 | a task wins: Task, active, not paused, progress fields copied; else a download: its id and reason, active and paused as given, progress fields from the record or null; else none |
| GameStatus.RawGetGameStatus | src/common/helpers/get-game-status.ts:162-240 | cave, cave count, download key, update and compatibility passed through; access and operation as decided above |
| GameStatus.FirstForCave | src/common/helpers/get-game-status.ts:124-128 | the position of the first pending download for the cave, or the length when there is none |
| GameStatus.FindForCave | src/common/helpers/get-game-status.ts:124-125 | none iff no pending download is for the cave; otherwise the first pending download for it |
| GameStatus.PickCave | src/common/helpers/get-game-status.ts:106-116 | a cave id: count 0 and the direct lookup; none: the count and first of the game's caves |
| GameStatus.GetGameStatus | src/common/helpers/get-game-status.ts:93-158 | the cave branch as above; first download key; the update is the chosen cave's entry when the cave has one, and none otherwise; a task gives a Task operation named after the first task, whatever the downloads; with no task and a cave id, the operation exists iff a pending download is for that cave, and it is the first such download with its active/paused flags; with no task and no cave id, the first pending download with its active/paused flags, and none when nothing is pending |
| PickManifestAction.IconFor | src/main/reactors/launch/pick-manifest-action.ts:26 | never empty: the action's own icon if set, else its name's default icon if set, else `star` |
| PickManifestAction.Pick | src/main/reactors/launch/pick-manifest-action.ts:12-58 | a nameless action throws with the index of the first one; otherwise one big button per action in order carrying its index, label key `action.name.` + name with default name, class `action-` + name, icon own/default/`star`; buttons exactly `["cancel"]`; result the response's index or -1 |

## Left out

- TabInstanceStore.RestoreTabs: skips a `null` snapshot item where the code throws and loses the whole restore; `TabInstanceStore.RestoredAsWritten` is the code as written.
- TabInstanceStore.Reduce: its `tabsRestored` branch uses `Restored`, which skips a `null` item where the code throws.
- TabInstanceStore.Restored: skips a `null` item where the code throws (the corrected half of the finding below).
- TabInstanceStore.Merged: spreading a bucket that is a string or an array copies its index keys in JavaScript; the model treats every non-object bucket as `{}`.
- Unknown extra fields of a persisted snapshot item pass through verbatim in the reducer; a tab instance here has only the named fields.
- Reference identity (the "same object" results of the reducers) is stated as value equality.
- Logging calls in the tab store are left out.
- The `reducer` helper that dispatches on action types, and its handling of an undefined state, are not part of this model. `TabInstanceStore.Reduce` and `ContextMenu.Reduce` take a defined state.
- The window composer is not part of this model either. A window state here holds only the two sub-states shown; its other sub-states are left out.
- Numbers are integers or reals. `NaN`, `undefined` arithmetic and JavaScript number width are not modelled. For example, `tabGoBack` on a tab without `currentIndex` is excluded by a precondition rather than producing `NaN`.
- GameStatus.GetGameStatus: the lookups it delegates (`getByIds`, `getPendingForGame`, `getActiveDownload`, the platform check) are inputs. The active download is given by its id. The throw when no active download exists is not modelled.
- The 300-entry memoization of `rawGetGameStatus` is left out: it does not change results.
- PickManifestAction.Pick: the modal is asynchronous and out of scope. Its answer is a parameter. Default manifest icons are a parameter map.

## Findings

| source | as written | input that shows it | evidently intended | confidence | as-written member | corrected member |
|---|---|---|---|---|---|---|
| src/common/reducers/window/tab-instances.ts:217-221 | the guard `typeof tabSave !== "object"` lets `null` through, and destructuring `null` throws, so the whole restore is lost | snapshot items `[null, {id: "a", history: ...}]` | skip a null item like any other non-record and restore the rest | medium, not executed | TabInstanceProperties.NullItemExample | TabInstanceProperties.RestoredUntouched |
