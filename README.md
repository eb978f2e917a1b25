# Saved-window registry of the Window-Swapping Chrome extension, in Dafny

The extension's popup lets a user save the tab URLs of the current browser window under a name,
open a saved window again, rename or remove a saved entry, and swap the current window for a
saved one. This project models the part of the popup that keeps its registry:

- the `"windows"` storage key, a map from window name to an entry `{tab_urls, window_ids}`;
- the per-window-id storage keys, each holding the name of the saved window that browser window
  shows (the *index*);
- the name prompt's validation loop (`getValidWindowNameFromUser`);
- the handlers that read, change and write these keys: save-or-update, open, rename, remove, swap.

Files:

- `name_validation.dfy` (module `NameValidation`, from `js/popup-helpers.js`) has three parts.
  `Decide` judges one submitted string. `ValidateName` gives what the re-prompt loop returns.
  `GetValidWindowNameFromUser` is the loop itself, with its inner scan `CheckUnsafeChars`.
- `registry.dfy` (module `Registry`, from `js/popup.js`) holds the storage keys and the
  window-host calls as one value, `State`. Each handler is a function from a `State` to a `Step`,
  which is an outcome `Status` plus the state left behind. The lemmas beside them state what each
  handler does. They also prove that each handler preserves two invariants: `Consistent` and
  `Inverse`.
  - `Consistent`: every indexed id names a saved window that lists that id.
  - `Inverse`: the index is exactly the inverse of the `window_ids` lists. It needs fresh ids
    from the window host.
- `popup.dfy` (module `Popup`) holds the class `WindowRegistry`, whose fields are the two
  storage keys and the log of window-host calls. Each handler is a method that changes a local
  copy of the registry in place, loops over `window_ids` where the source does, and writes the
  keys back. Each method is proved to leave exactly the state that the matching `Registry`
  function describes, and to keep the invariants.
- `findings.dfy` (module `Findings`) records two defects of the source, modelled as written.

How the browser's services appear in the model:

- The text box is the sequence `inputs` of strings the user submits, in order.
- `chrome.tabs.query` is the URL sequence `tabUrls`.
- `chrome.windows.getCurrent` is the id `cur`.
- `chrome.windows.create` is an oracle parameter `newId`, the id of the window it creates. It is
  logged as `CreateWindow(newId, urls)`.
- `chrome.windows.remove` is logged as `CloseWindow(id)` and has no effect on either map.
- `chrome.storage.sync` is the two fields.

How the source's failures and quirks are modelled:

- A handler that reads an absent entry throws a TypeError in the source before it writes
  anything. The model ends it with status `NotFound` and unchanged state. This covers open,
  rename and remove of a name that is not saved, and updating a window indexed under a name that
  is not saved.
- If the user never submits an acceptable name, the source waits for ever. The model returns
  `NoInput`, also with unchanged state.
- The update path appends the current id to `window_ids` even when it is already there
  (js/popup.js:195).
- Nothing checks that a name is non-empty. The empty string is accepted when it is not a saved
  name.
- Validation receives the saved names as a value, so it cannot change the registry.
- The rename handler passes the old name, a string, where a Set of allowed duplicates is expected
  (js/popup.js:70-72). The model uses the evidently intended set `{old_name}`. See
  "## Findings".
- The duplicate test at js/popup-helpers.js:75 uses `in`, which also finds names inherited from
  `Object.prototype`. The main model uses the evidently intended own-key test: a name is a
  duplicate when it is a key of the saved-window map. See "## Findings".

## Model

| member | source | states |
|---|---|---|
| NameValidation.UnsafeMsg | js/popup-helpers.js:82 | the unsafe-character message is `Cannot contain [ch] character.`, names the character at position 16 and differs from the duplicate message |
| NameValidation.FirstUnsafeFrom | js/popup-helpers.js:79-84 | the position found holds a character of `"`, `&`, `<`, `>` that the name contains, and every character listed before it is absent from the name; the list's length when none occurs |
| NameValidation.Decide | js/popup-helpers.js:72-88 | an allowed duplicate gives null whatever else holds; a string is accepted iff it is not allowed, not a saved name and safe; a saved name is rejected with the duplicate message even when it is also unsafe; otherwise an unsafe name is rejected naming the first offending character in list order |
| NameValidation.IsSafe | js/popup-helpers.js:78-85 | a name is safe exactly when the scan over `"`, `&`, `<`, `>` finds none of them in it |
| NameValidation.ValidateName | js/popup-helpers.js:68-91 | the loop's result: a chosen name is one of the submitted strings, and input runs out only when every submitted string was rejected; `ValidateNameSound` and `ValidateNameAfterRejected` complete this contract |
| NameValidation.ValidateNameSound | js/popup-helpers.js:68-91 | a returned name was submitted, is not a saved name, is not an allowed duplicate and has no unsafe character; null comes only from a submitted allowed duplicate; the loop runs out of input exactly when every submitted string is rejected |
| NameValidation.NoNullWithoutAllowedDuplicates | js/popup-helpers.js:62-72 | with the default empty set of allowed duplicates the loop never returns null |
| NameValidation.ValidateNameAfterRejected | js/popup-helpers.js:68-89 | rejected submissions do not affect the loop's result; the loop goes on with the next string |
| NameValidation.CheckUnsafeChars | js/popup-helpers.js:78-85 | the scan reports valid iff the name holds none of the unsafe characters, and otherwise the message for the first one in list order |
| NameValidation.GetValidWindowNameFromUser | js/popup-helpers.js:61-92 | the loop returns what `ValidateName` gives; it opens the text box once per submitted string consumed (plus once more when input runs out), the first time with no message and each later time with the message of the most recent rejection; it stops only at an accepted name or an allowed duplicate |
| Registry.Reindex | js/popup.js:84-87 | after writing the new name under each listed id, the index's keys are the old keys plus the listed ids; listed ids map to the new name and every other key keeps its name |
| Registry.Unindex | js/popup.js:98-101 | after removing each listed id's key, the index's keys are the old keys minus the listed ids, with the remaining names unchanged |
| Registry.SaveOrUpdate | js/popup.js:155-201 | a save or update that does not complete writes nothing; neither path calls the window host; a completed one leaves the current window indexed under a saved entry that holds the current URLs and lists the current id; `SaveNewWindow`, `UpdateSavedWindow` and the lemmas after them complete this contract |
| Registry.Open | js/popup.js:46-62 | opening a name that is not saved writes nothing; a completed open calls the host once to create a window on the entry's URLs, lists the new id in the entry and indexes it under the name; `OpenSavedWindow` completes this contract |
| Registry.Rename | js/popup.js:63-90 | a rename that does not complete writes nothing; no window-host call is made; a completed one removes the old name and leaves every id of the old entry indexed under a saved name holding exactly that entry; `RenameMovesEntry`, `RenameToSameNameChangesNothing` and `RenameRoundTrip` complete this contract |
| Registry.RenameTo | js/popup.js:76-90 | what the handler does with the prompt's answer: anything but a completed rename writes nothing, and no window-host call is made |
| Registry.Remove | js/popup.js:91-106 | removing a name that is not saved writes nothing; no window-host call is made; a completed remove deletes the name and the index key of every id it listed; `RemoveDeletesEntry` completes this contract |
| Registry.Swap | js/popup.js:107-139 | a swap that does not complete creates and closes no window; a completed one makes exactly two host calls after the earlier ones, closing the current window and then creating the new one; `SwapSavesBeforeClosing` and the swap lemmas complete this contract |
| Registry.SaveNewWindow | js/popup.js:174-191 | saving a window the index does not know adds exactly one entry (the key count grows by one) under a fresh, safe, submitted name, with the current URLs and `window_ids = [cur]`; it indexes `cur` under that name; other entries and the window host are untouched |
| Registry.SaveWithMissingRegistry | js/popup.js:169-170 | an absent `"windows"` value is treated as the empty map, so the save writes the one-entry map |
| Registry.SaveWithoutNameChangesNothing | js/popup.js:174-178 | when every submitted name is rejected, nothing is written |
| Registry.UpdateSavedWindow | js/popup.js:192-199 | re-saving a known window replaces its entry's URLs and appends `cur` to `window_ids` (length grows by exactly one, even if `cur` is already listed); the keys, the index and all other entries are unchanged |
| Registry.UpdateOfMissingEntryFails | js/popup.js:192-194 | an id indexed under a name that is not saved makes the update fail with nothing written |
| Registry.OpenSavedWindow | js/popup.js:48-62 | opening creates one window on the entry's `tab_urls`, appends the new id to its `window_ids` and indexes the new id under the name; `tab_urls`, the keys and all other entries are unchanged |
| Registry.RenameToSameNameChangesNothing | js/popup.js:70-76 | whenever validation returns null (the old name is submitted, after any number of rejected strings), nothing changes |
| Registry.RenameMovesEntry | js/popup.js:78-90 | the new name is fresh and safe and holds exactly the old entry; the old name is gone; every id of the entry maps to the new name; other entries, other index keys and the window host are unchanged |
| Registry.RenameRoundTrip | js/popup.js:80-90 | renaming A to B and then B back to A restores the saved windows and the index, when every id A lists is indexed under A |
| Registry.RemoveDeletesEntry | js/popup.js:98-106 | the name is absent afterwards, the index keys of all its ids are deleted, the other entries and unrelated index keys are unchanged, and no window is closed |
| Registry.RemoveTwiceFails | js/popup.js:94-98 | removing a name already removed fails and writes nothing |
| Registry.SwapWithSelfChangesNothing | js/popup.js:114-120 | when the current window is indexed under the target, the swap writes nothing and creates or closes no window |
| Registry.SwapSavesBeforeClosing | js/popup.js:122-138 | otherwise the current window is saved (indexed, with its URLs, under its name) before it is closed; then the host receives exactly close(current) and create(target's URLs); the target's `window_ids` gains the new id and the index maps it to the target; the keys, every other entry and every other index key are those the save left |
| Registry.SwapWithoutSaveClosesNothing | js/popup.js:122-123 | a swap whose save does not complete closes and opens nothing and leaves the state unchanged |
| Registry.SessionScenario | js/popup.js:45-201 | a session run from an empty registry: save "Work", rename it to "Office", open it again, then remove it; removal deletes both window ids' index keys and closes no window |
| Registry.SaveOrUpdatePreservesConsistency | js/popup.js:174-199 | save-new and update preserve: every indexed id names a saved window listing that id |
| Registry.OpenPreservesConsistency | js/popup.js:58-62 | open preserves the consistency invariant |
| Registry.RenamePreservesConsistency | js/popup.js:80-90 | rename preserves the consistency invariant |
| Registry.RemovePreservesConsistency | js/popup.js:98-106 | remove preserves the consistency invariant |
| Registry.SwapPreservesConsistency | js/popup.js:122-138 | swap preserves the consistency invariant |
| Registry.SaveOrUpdatePreservesInverse | js/popup.js:174-199 | save-new and update preserve the index being exactly the inverse of the `window_ids` lists |
| Registry.OpenPreservesInverse | js/popup.js:54-62 | open with a fresh window id preserves the inverse invariant |
| Registry.RenamePreservesInverse | js/popup.js:80-90 | rename preserves the inverse invariant |
| Registry.RemovePreservesInverse | js/popup.js:98-106 | remove preserves the inverse invariant |
| Registry.SwapPreservesInverse | js/popup.js:122-138 | swap with a fresh new window id preserves the inverse invariant |
| Popup.WindowRegistry.SaveOrUpdateCurrentWindow | js/popup.js:155-201 | the method leaves exactly the state and status of `Registry.SaveOrUpdate` and keeps both invariants |
| Popup.WindowRegistry.OpenSavedWindow | js/popup.js:46-62 | the method leaves exactly the state and status of `Registry.Open` and keeps both invariants (the inverse one given a fresh id) |
| Popup.WindowRegistry.RenameSavedWindow | js/popup.js:63-90 | the method, looping over `window_ids`, leaves exactly the state and status of `Registry.Rename` and keeps both invariants |
| Popup.WindowRegistry.RemoveSavedWindow | js/popup.js:91-106 | the method, looping over `window_ids`, leaves exactly the state and status of `Registry.Remove` and keeps both invariants |
| Popup.WindowRegistry.SwapWith | js/popup.js:107-139 | the method leaves exactly the state and status of `Registry.Swap` and keeps both invariants (the inverse one given a fresh id different from the current one) |
| Findings.DecideAsWritten | js/popup-helpers.js:75 | the duplicate test as written judges a string as the intended test would if the inherited Object.prototype names were saved names |
| Findings.InheritedNameRefusedAsWritten | js/popup-helpers.js:75 | with nothing saved, "toString" is refused as a duplicate as written, and accepted by the intended test |
| Findings.InheritedNamesNeverChosenAsWritten | js/popup-helpers.js:75 | as written, no inherited property name can ever be accepted |
| Findings.HasAsWritten | js/popup-helpers.js:72 | `allowed_duplicates.has(name)` answers for a Set and throws on a string |
| Findings.ValidateNameWith | js/popup-helpers.js:68-91 | the re-prompt loop with `allowed_duplicates` given either as a Set or as a string: with a Set it is `ValidateName`; with a string it throws on the first submitted string |
| Findings.RenameWithArg | js/popup.js:63-90 | the rename handler with the given allowed-duplicates argument writes nothing unless the rename completes |
| Findings.RenameNeverRenamesAsWritten | js/popup.js:70-72 | as written (the old name passed as a string), once the user submits any string the handler throws and nothing is written, so no saved window is ever renamed |
| Findings.RenameWithIntendedSet | js/popup.js:70-90 | with `{old_name}` passed, the handler is exactly `Registry.Rename` |
| Findings.RenameThrowsAsWritten | js/popup.js:70-72 | as written, the rename handler throws on the first submitted string, whatever it is; with `{old_name}`, re-entering the old name is the allowed duplicate and a fresh safe name is accepted |

## Left out

- Modal and DOM handling are not modelled: `openModal`, `closeModal`,
  `updateWindowSelectModalHtml`, `getUserInputWithTextbox`, `waitForEnterKey`,
  `waitForClickAndGetTarget` and `getUserConfirmation` (js/popup-helpers.js:19-56, 97-151). They
  are user-interface plumbing. The text box is the `inputs` sequence.
- The HTML listing in `handleOpenSavedWindow` and `handleSwapWith` (js/popup.js:204-250), the
  element lookups and the listener wiring (js/popup.js:20-48, 143-148) are left out. They only
  render the saved names.
- The Chrome `storage.sync`, `windows` and `tabs` APIs are replaced by fields and parameters.
  Storage failures, window-creation failures and the `state: "maximized"` option are not
  modelled.
- The loop that copies `tab.url` out of `chrome.tabs.query`'s result (js/popup.js:157-162) is
  folded into the `tabUrls` parameter.
- Every step is modelled as sequential. Races from the unawaited `chrome.storage.sync.set` calls
  (for example the read at js/popup.js:125 after the writes at 181 and 190) and races between
  two popups are left out. So is the unawaited `chrome.windows.remove`.
- The source stores string ids in the save path (js/popup.js:164) and numeric ids in open and
  swap (js/popup.js:58, 134). It also passes the string id of js/popup.js:110 to
  `chrome.windows.remove` at js/popup.js:129, where Chrome's argument check may reject it. The
  model uses one `Id` type, so this mismatch and a possibly refused close are not modelled.
- `console.log` output is left out.
- Registry.Rename: when the old name is not saved, the model fails with `NotFound` without
  prompting. The source prompts first. Re-entering the old name then returns null with no write
  (js/popup-helpers.js:72, js/popup.js:76). A fresh name makes the handler throw at
  js/popup.js:84 before any write. With `"windows"` absent, validation itself throws at
  js/popup-helpers.js:75. In every case the stored state is unchanged; only the status differs.
  `Findings.RenameWithArg` follows the source's order.
- NameValidation.Decide accepts `__proto__`. A fix of the duplicate test alone would not make
  that name saveable in the source, because assigning it at js/popup.js:184 sets the object's
  prototype instead of adding an entry. The model treats it as an ordinary name.
- Registry.OpenPreservesInverse and Registry.SwapPreservesInverse assume the window host returns
  an id the registry has never recorded. Chrome ids are unique only within a browser session, and
  the source never prunes stale ids, so after a restart this assumption can fail.
- `NoInput` stands for a prompt the user never answers acceptably. The source would wait for
  ever; the model stops when `inputs` runs out.

## Findings

| source | as written | input that shows it | evidently intended | confidence | as-written member | corrected member |
|---|---|---|---|---|---|---|
| js/popup-helpers.js:75 | `window_name in windows_data_obj` also finds properties inherited from `Object.prototype` | with no window saved, the name `toString` (or `constructor`, `valueOf`, `hasOwnProperty`, ...) is refused with "Window name already exists" | refuse only names that are keys of the saved-window map | high; not executed | Findings.DecideAsWritten, Findings.InheritedNameRefusedAsWritten | NameValidation.Decide |
| js/popup.js:70-72 | the old name, a string, is passed as `allowed_duplicates`, and js/popup-helpers.js:72 calls `.has` on it | renaming any saved window and submitting any string: `"Work".has` is not a function, so a TypeError ends the handler before any write | pass `new Set([old_window_name])` | high; not executed | Findings.RenameNeverRenamesAsWritten, Findings.RenameThrowsAsWritten | Findings.RenameWithIntendedSet, Registry.RenameMovesEntry |
