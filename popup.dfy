/** The popup's handlers (js/popup.js) as methods of one object whose fields are the storage keys
    and the record of window-host calls. Each handler reads the "windows" value into a local copy,
    changes the copy in place, and writes the keys back, as the handlers do; each is proved to
    perform exactly the corresponding step of the Registry module and to keep its invariant.

    The browser's answers are parameters: `cur` is the current window's id, `tabUrls` the URLs of
    its tabs in order, `newId` the id the window host gives the window it creates, and `inputs` the
    strings the user submits in the name text box, in order.
 */
module Popup {
  import opened NameValidation
  import opened Registry

  class WindowRegistry {
    var windows: Option<map<string, Entry>>
    var index: map<Id, string>
    var calls: seq<HostCall>

    function Snapshot(): State
      reads this
    {
      State(windows, index, calls)
    }

    constructor (windows: Option<map<string, Entry>>, index: map<Id, string>)
      ensures Snapshot() == State(windows, index, [])
    {
      this.windows := windows;
      this.index := index;
      this.calls := [];
    }

    /** saveOrUpdateCurrentWindow (js/popup.js:155-201). */
    method SaveOrUpdateCurrentWindow(cur: Id, tabUrls: seq<string>, inputs: seq<string>) returns (status: Status)
      modifies this
      ensures Step(status, Snapshot()) == SaveOrUpdate(old(Snapshot()), cur, tabUrls, inputs)
      ensures old(Consistent(Snapshot())) ==> Consistent(Snapshot())
      ensures old(Inverse(Snapshot())) ==> Inverse(Snapshot())
    {
      ghost var before := Snapshot();
      var windowsDataObj := if windows.Some? then windows.value else map[];
      if cur !in index {
        var windowName, _ := GetValidWindowNameFromUser(inputs, windowsDataObj.Keys, {});
        if !windowName.Chosen? {
          return NoInput;
        }
        index := index[cur := windowName.name];
        windowsDataObj := windowsDataObj[windowName.name := Entry(tabUrls, [cur])];
        windows := Some(windowsDataObj);
      } else {
        var savedName := index[cur];
        if savedName !in windowsDataObj {
          return NotFound;
        }
        var entry := windowsDataObj[savedName].(tab_urls := tabUrls);
        entry := entry.(window_ids := entry.window_ids + [cur]);
        windowsDataObj := windowsDataObj[savedName := entry];
        windows := Some(windowsDataObj);
      }
      if Inverse(before) {
        SaveOrUpdatePreservesInverse(before, cur, tabUrls, inputs);
      } else if Consistent(before) {
        SaveOrUpdatePreservesConsistency(before, cur, tabUrls, inputs);
      }
      status := Done;
    }

    /** The open button (js/popup.js:46-62). */
    method OpenSavedWindow(name: string, newId: Id) returns (status: Status)
      modifies this
      ensures Step(status, Snapshot()) == Open(old(Snapshot()), name, newId)
      ensures old(Consistent(Snapshot())) ==> Consistent(Snapshot())
      ensures old(Inverse(Snapshot())) && old(FreshId(Snapshot(), newId)) ==> Inverse(Snapshot())
    {
      ghost var before := Snapshot();
      var windowsDataObj := if windows.Some? then windows.value else map[];
      if name !in windowsDataObj {
        return NotFound;
      }
      var tabUrls := windowsDataObj[name].tab_urls;
      calls := calls + [CreateWindow(newId, tabUrls)];
      var entry := windowsDataObj[name];
      windowsDataObj := windowsDataObj[name := entry.(window_ids := entry.window_ids + [newId])];
      index := index[newId := name];
      windows := Some(windowsDataObj);
      if Inverse(before) && FreshId(before, newId) {
        OpenPreservesInverse(before, name, newId);
      } else if Consistent(before) {
        OpenPreservesConsistency(before, name, newId);
      }
      status := Done;
    }

    /** The rename button (js/popup.js:63-90), with the old name as the one allowed duplicate. */
    method RenameSavedWindow(oldName: string, inputs: seq<string>) returns (status: Status)
      modifies this
      ensures Step(status, Snapshot()) == Rename(old(Snapshot()), oldName, inputs)
      ensures old(Consistent(Snapshot())) ==> Consistent(Snapshot())
      ensures old(Inverse(Snapshot())) ==> Inverse(Snapshot())
    {
      ghost var before := Snapshot();
      var windowsDataObj := if windows.Some? then windows.value else map[];
      if oldName !in windowsDataObj {
        return NotFound;
      }
      assert windowsDataObj == Saved(before);
      var newName, _ := GetValidWindowNameFromUser(inputs, windowsDataObj.Keys, {oldName});
      if newName.Null? {
        return SameName;
      } else if newName.NoMoreInput? {
        return NoInput;
      }
      windowsDataObj := windowsDataObj[newName.name := windowsDataObj[oldName]];
      windowsDataObj := windowsDataObj - {oldName};
      var windowIds := windowsDataObj[newName.name].window_ids;
      var newIndex := index;
      for i := 0 to |windowIds|
        invariant newIndex == Reindex(before.index, windowIds[..i], newName.name)
      {
        assert windowIds[..i + 1][..i] == windowIds[..i];
        newIndex := newIndex[windowIds[i] := newName.name];
      }
      assert windowIds[..|windowIds|] == windowIds;
      index := newIndex;
      assert windowIds == Saved(before)[oldName].window_ids;
      windows := Some(windowsDataObj);
      if Inverse(before) {
        RenamePreservesInverse(before, oldName, inputs);
      } else if Consistent(before) {
        RenamePreservesConsistency(before, oldName, inputs);
      }
      status := Done;
    }

    /** The remove button (js/popup.js:91-106): no window is closed. */
    method RemoveSavedWindow(name: string) returns (status: Status)
      modifies this
      ensures Step(status, Snapshot()) == Remove(old(Snapshot()), name)
      ensures old(Consistent(Snapshot())) ==> Consistent(Snapshot())
      ensures old(Inverse(Snapshot())) ==> Inverse(Snapshot())
    {
      ghost var before := Snapshot();
      var windowsDataObj := if windows.Some? then windows.value else map[];
      if name !in windowsDataObj {
        return NotFound;
      }
      var windowIds := windowsDataObj[name].window_ids;
      var newIndex := index;
      for i := 0 to |windowIds|
        invariant newIndex == Unindex(before.index, windowIds[..i])
      {
        assert windowIds[..i + 1][..i] == windowIds[..i];
        newIndex := newIndex - {windowIds[i]};
      }
      assert windowIds[..|windowIds|] == windowIds;
      index := newIndex;
      windowsDataObj := windowsDataObj - {name};
      windows := Some(windowsDataObj);
      if Inverse(before) {
        RemovePreservesInverse(before, name);
      } else if Consistent(before) {
        RemovePreservesConsistency(before, name);
      }
      status := Done;
    }

    /** The swap buttons (js/popup.js:107-139): save the current window, close it, open the target. */
    method SwapWith(cur: Id, tabUrls: seq<string>, target: string, inputs: seq<string>, newId: Id) returns (status: Status)
      modifies this
      ensures Step(status, Snapshot()) == Swap(old(Snapshot()), cur, tabUrls, target, inputs, newId)
      ensures old(Consistent(Snapshot())) ==> Consistent(Snapshot())
      ensures old(Inverse(Snapshot())) && old(FreshId(Snapshot(), newId)) && newId != cur ==> Inverse(Snapshot())
    {
      ghost var before := Snapshot();
      if cur in index && index[cur] == target {
        return SameWindow;
      }
      status := SaveOrUpdateCurrentWindow(cur, tabUrls, inputs);
      if status != Done {
        return;
      }
      var windowsDataObj := if windows.Some? then windows.value else map[];
      if target !in windowsDataObj {
        return NotFound;
      }
      calls := calls + [CloseWindow(cur)];
      status := OpenSavedWindow(target, newId);
      if Inverse(before) && FreshId(before, newId) && newId != cur {
        SwapPreservesInverse(before, cur, tabUrls, target, inputs, newId);
      } else if Consistent(before) {
        SwapPreservesConsistency(before, cur, tabUrls, target, inputs, newId);
      }
    }
  }
}
