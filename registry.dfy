/** The saved-window registry of js/popup.js, as values.

    The extension's storage holds two things: under the key "windows" a map from window name to
    its saved entry, and, under each window id, the name of the saved window that browser window
    belongs to. `State` holds both, plus the calls made to the browser's window host. Every
    operation of the popup is a function from a `State` to a `Step`: how the operation ended and
    the state it left behind. The popup class in popup.dfy is proved to perform exactly these steps.
 */
module Registry {
  import opened NameValidation

  /** A browser window id. */
  type Id = nat

  /** One saved window: the URLs of its tabs and the ids of the browser windows showing it. */
  datatype Entry = Entry(tab_urls: seq<string>, window_ids: seq<Id>)

  /** A call to the browser's window host: opening a window on some URLs, or closing one. */
  datatype HostCall = CreateWindow(id: Id, urls: seq<string>) | CloseWindow(id: Id)

  /** `windows` is the "windows" storage key (None when it was never written); `index` holds the
      per-window-id keys; `calls` is every window-host call made so far, oldest first. */
  datatype State = State(windows: Option<map<string, Entry>>, index: map<Id, string>, calls: seq<HostCall>)

  /** How an operation ended. NotFound: the code reads an entry that is absent and throws before
      writing anything. NoInput: the user never submitted an acceptable name (the popup would wait
      for ever). SameName: rename given the old name. SameWindow: swap with the window itself. */
  datatype Status = Done | SameName | SameWindow | NotFound | NoInput

  datatype Step = Step(status: Status, next: State)

  /** The saved windows, an absent "windows" key read as the empty map (`windows_data.windows || {}`). */
  function Saved(s: State): map<string, Entry> {
    if s.windows.Some? then s.windows.value else map[]
  }

  /** Every indexed id names a saved window that lists the id among its window ids. */
  ghost predicate Consistent(s: State) {
    forall id :: id in s.index ==> s.index[id] in Saved(s) && id in Saved(s)[s.index[id]].window_ids
  }

  /** The index is exactly the inverse of the window-id lists. */
  ghost predicate Inverse(s: State) {
    && Consistent(s)
    && forall n, id :: n in Saved(s) && id in Saved(s)[n].window_ids ==> id in s.index && s.index[id] == n
  }

  /** An id the registry has never recorded, as a newly created browser window's id is. */
  ghost predicate FreshId(s: State, id: Id) {
    id !in s.index && forall n :: n in Saved(s) ==> id !in Saved(s)[n].window_ids
  }

  /** The index after writing `name` under every id of `ids`, one after the other. */
  function Reindex(index: map<Id, string>, ids: seq<Id>, name: string): (r: map<Id, string>)
    ensures forall id :: id in r <==> id in index || id in ids
    ensures forall id :: id in r ==> r[id] == if id in ids then name else index[id]
    decreases |ids|
  {
    if ids == [] then index
    else Reindex(index, ids[..|ids| - 1], name)[ids[|ids| - 1] := name]
  }

  /** The index after removing the key of every id of `ids`, one after the other. */
  function Unindex(index: map<Id, string>, ids: seq<Id>): (r: map<Id, string>)
    ensures forall id :: id in r <==> id in index && id !in ids
    ensures forall id :: id in r ==> r[id] == index[id]
    decreases |ids|
  {
    if ids == [] then index
    else Unindex(index, ids[..|ids| - 1]) - {ids[|ids| - 1]}
  }

  /** saveOrUpdateCurrentWindow: a window the index does not know is saved under a name asked of
      the user; a known window has its saved entry's URLs replaced and its id appended again. */
  function SaveOrUpdate(s: State, cur: Id, urls: seq<string>, inputs: seq<string>): (r: Step)
    ensures r.status != Done ==> r.next == s
    ensures r.next.calls == s.calls
    ensures r.status == Done ==>
      && cur in r.next.index && r.next.index[cur] in Saved(r.next)
      && Saved(r.next)[r.next.index[cur]].tab_urls == urls
      && cur in Saved(r.next)[r.next.index[cur]].window_ids
  {
    if cur !in s.index then
      match ValidateName(inputs, Saved(s).Keys, {})
      case Chosen(n) =>
        Step(Done, s.(windows := Some(Saved(s)[n := Entry(urls, [cur])]), index := s.index[cur := n]))
      case _ => Step(NoInput, s)
    else if s.index[cur] !in Saved(s) then Step(NotFound, s)
    else
      var n := s.index[cur];
      var e := Saved(s)[n];
      Step(Done, s.(windows := Some(Saved(s)[n := Entry(urls, e.window_ids + [cur])])))
  }

  /** The open button: a window `newId` is created on the entry's URLs and recorded under its name. */
  function Open(s: State, name: string, newId: Id): (r: Step)
    ensures r.status != Done ==> r.next == s
    ensures r.status == Done ==>
      && name in Saved(s)
      && r.next.calls == s.calls + [CreateWindow(newId, Saved(s)[name].tab_urls)]
      && name in Saved(r.next) && newId in Saved(r.next)[name].window_ids
      && newId in r.next.index && r.next.index[newId] == name
  {
    if name !in Saved(s) then Step(NotFound, s)
    else
      var e := Saved(s)[name];
      Step(Done, State(Some(Saved(s)[name := e.(window_ids := e.window_ids + [newId])]),
                       s.index[newId := name],
                       s.calls + [CreateWindow(newId, e.tab_urls)]))
  }

  /** The rename button: the old name is the one allowed duplicate, and entering it cancels. */
  function Rename(s: State, oldName: string, inputs: seq<string>): (r: Step)
    ensures r.status != Done ==> r.next == s
    ensures r.next.calls == s.calls
    ensures r.status == Done ==>
      && oldName in Saved(s) && oldName !in Saved(r.next)
      && forall id :: id in Saved(s)[oldName].window_ids ==>
           id in r.next.index && r.next.index[id] in Saved(r.next) && Saved(r.next)[r.next.index[id]] == Saved(s)[oldName]
  {
    if oldName !in Saved(s) then Step(NotFound, s)
    else
      ValidateNameSound(inputs, Saved(s).Keys, {oldName});
      RenameTo(s, oldName, ValidateName(inputs, Saved(s).Keys, {oldName}))
  }

  /** What the rename handler does with the name prompt's answer `v`: null returns early, and a
      chosen name receives the old entry, which is deleted, and is written under each of its ids.
      An old name that is not saved makes the handler throw before any write. */
  function RenameTo(s: State, oldName: string, v: NameResult): (r: Step)
    ensures r.status != Done ==> r.next == s
    ensures r.next.calls == s.calls
  {
    match v
    case Null => Step(SameName, s)
    case NoMoreInput => Step(NoInput, s)
    case Chosen(n) =>
      if oldName !in Saved(s) then Step(NotFound, s)
      else
        var e := Saved(s)[oldName];
        Step(Done, s.(windows := Some(Saved(s)[n := e] - {oldName}), index := Reindex(s.index, e.window_ids, n)))
  }

  /** The remove button: the entry and the index keys of its window ids go; no window is closed. */
  function Remove(s: State, name: string): (r: Step)
    ensures r.status != Done ==> r.next == s
    ensures r.next.calls == s.calls
    ensures r.status == Done ==>
      name in Saved(s) && name !in Saved(r.next) && forall id :: id in Saved(s)[name].window_ids ==> id !in r.next.index
  {
    if name !in Saved(s) then Step(NotFound, s)
    else Step(Done, s.(windows := Some(Saved(s) - {name}), index := Unindex(s.index, Saved(s)[name].window_ids)))
  }

  /** The swap buttons: unless the current window already is `target`, save or update it, then
      close it and open `target` in a new window `newId`. */
  function Swap(s: State, cur: Id, urls: seq<string>, target: string, inputs: seq<string>, newId: Id): (r: Step)
    ensures r.status != Done ==> r.next.calls == s.calls
    ensures r.status == Done ==>
      && |r.next.calls| == |s.calls| + 2 && r.next.calls[..|s.calls|] == s.calls
      && r.next.calls[|s.calls|] == CloseWindow(cur)
      && r.next.calls[|s.calls| + 1].CreateWindow? && r.next.calls[|s.calls| + 1].id == newId
  {
    if cur in s.index && s.index[cur] == target then Step(SameWindow, s)
    else
      var saved := SaveOrUpdate(s, cur, urls, inputs);
      if saved.status != Done then saved
      else if target !in Saved(saved.next) then Step(NotFound, saved.next)
      else Open(saved.next.(calls := saved.next.calls + [CloseWindow(cur)]), target, newId)
  }

  // ---------------------------------------------------------------------------------------------
  // Save and update

  /** Saving a window the index does not know adds exactly one entry, under a fresh and safe name,
      holding the current URLs and the current id, and indexes the id under that name. */
  lemma SaveNewWindow(s: State, cur: Id, urls: seq<string>, inputs: seq<string>)
    requires cur !in s.index
    requires ValidateName(inputs, Saved(s).Keys, {}).Chosen?
    ensures var n := ValidateName(inputs, Saved(s).Keys, {}).name;
      var t := SaveOrUpdate(s, cur, urls, inputs);
      && t.status == Done
      && n !in Saved(s) && n in inputs && IsSafe(n)
      && Saved(t.next) == Saved(s)[n := Entry(urls, [cur])]
      && Saved(t.next).Keys == Saved(s).Keys + {n}
      && |Saved(t.next)| == |Saved(s)| + 1
      && t.next.index == s.index[cur := n]
      && t.next.calls == s.calls
  {
    ValidateNameSound(inputs, Saved(s).Keys, {});
  }

  /** An absent "windows" key is saved as the one-entry map. */
  lemma SaveWithMissingRegistry(s: State, cur: Id, urls: seq<string>, inputs: seq<string>, n: string)
    requires s.windows.None? && cur !in s.index
    requires ValidateName(inputs, {}, {}) == Chosen(n)
    ensures SaveOrUpdate(s, cur, urls, inputs) == Step(Done, State(Some(map[n := Entry(urls, [cur])]), s.index[cur := n], s.calls))
  {
    assert Saved(s).Keys == {};
  }

  /** A save that gets no acceptable name changes nothing. */
  lemma SaveWithoutNameChangesNothing(s: State, cur: Id, urls: seq<string>, inputs: seq<string>)
    requires cur !in s.index
    requires forall k :: 0 <= k < |inputs| ==> Decide(inputs[k], Saved(s).Keys, {}).Reject?
    ensures SaveOrUpdate(s, cur, urls, inputs) == Step(NoInput, s)
  {
    ValidateNameSound(inputs, Saved(s).Keys, {});
  }

  /** Re-saving a window the index knows replaces its entry's URLs, appends the id once more
      (even when it is already listed), and leaves the keys, the index and every other entry alone. */
  lemma UpdateSavedWindow(s: State, cur: Id, urls: seq<string>, inputs: seq<string>)
    requires cur in s.index && s.index[cur] in Saved(s)
    ensures var n := s.index[cur];
      var t := SaveOrUpdate(s, cur, urls, inputs);
      && t.status == Done
      && Saved(t.next).Keys == Saved(s).Keys
      && Saved(t.next)[n].tab_urls == urls
      && Saved(t.next)[n].window_ids == Saved(s)[n].window_ids + [cur]
      && |Saved(t.next)[n].window_ids| == |Saved(s)[n].window_ids| + 1
      && (forall k :: k in Saved(s) && k != n ==> Saved(t.next)[k] == Saved(s)[k])
      && t.next.index == s.index && t.next.calls == s.calls
  {
  }

  /** An id indexed under a name that is not saved makes the update throw before any write. */
  lemma UpdateOfMissingEntryFails(s: State, cur: Id, urls: seq<string>, inputs: seq<string>)
    requires cur in s.index && s.index[cur] !in Saved(s)
    ensures SaveOrUpdate(s, cur, urls, inputs) == Step(NotFound, s)
  {
  }

  // ---------------------------------------------------------------------------------------------
  // Open

  /** Opening a saved window creates one browser window on its URLs, appends the new id to its
      window ids, indexes the new id under its name, and changes nothing else. */
  lemma OpenSavedWindow(s: State, name: string, newId: Id)
    requires name in Saved(s)
    ensures var t := Open(s, name, newId);
      && t.status == Done
      && t.next.calls == s.calls + [CreateWindow(newId, Saved(s)[name].tab_urls)]
      && Saved(t.next).Keys == Saved(s).Keys
      && Saved(t.next)[name].tab_urls == Saved(s)[name].tab_urls
      && Saved(t.next)[name].window_ids == Saved(s)[name].window_ids + [newId]
      && (forall k :: k in Saved(s) && k != name ==> Saved(t.next)[k] == Saved(s)[k])
      && t.next.index == s.index[newId := name]
  {
  }

  // ---------------------------------------------------------------------------------------------
  // Rename

  /** Entering the old name again (after any number of rejected strings) cancels the rename:
      nothing changes. */
  lemma RenameToSameNameChangesNothing(s: State, oldName: string, inputs: seq<string>)
    requires oldName in Saved(s)
    requires ValidateName(inputs, Saved(s).Keys, {oldName}) == Null
    ensures Rename(s, oldName, inputs) == Step(SameName, s)
  {
  }

  /** A rename moves exactly the old entry to the new name, a fresh and safe one, deletes the old
      name, writes the new name under every id of the entry, and leaves everything else alone. */
  lemma RenameMovesEntry(s: State, oldName: string, inputs: seq<string>)
    requires oldName in Saved(s)
    requires ValidateName(inputs, Saved(s).Keys, {oldName}).Chosen?
    ensures var n := ValidateName(inputs, Saved(s).Keys, {oldName}).name;
      var e := Saved(s)[oldName];
      var t := Rename(s, oldName, inputs);
      && t.status == Done
      && n != oldName && n !in Saved(s) && IsSafe(n)
      && n in Saved(t.next) && Saved(t.next)[n] == e
      && oldName !in Saved(t.next)
      && Saved(t.next).Keys == Saved(s).Keys - {oldName} + {n}
      && (forall k :: k in Saved(s) && k != oldName ==> Saved(t.next)[k] == Saved(s)[k])
      && (forall id :: id in e.window_ids ==> id in t.next.index && t.next.index[id] == n)
      && (forall id :: id in s.index && id !in e.window_ids ==> id in t.next.index && t.next.index[id] == s.index[id])
      && (forall id :: id in t.next.index ==> id in s.index || id in e.window_ids)
      && t.next.calls == s.calls
  {
    ValidateNameSound(inputs, Saved(s).Keys, {oldName});
  }

  /** Renaming A to B and then B back to A restores the saved windows and the index, when every id
      A lists is indexed under A (as the inverse invariant guarantees). */
  lemma {:induction false} RenameRoundTrip(s: State, a: string, b: string)
    requires a in Saved(s) && b !in Saved(s) && IsSafe(a) && IsSafe(b)
    requires forall id :: id in Saved(s)[a].window_ids ==> id in s.index && s.index[id] == a
    ensures var t := Rename(s, a, [b]);
      && t.status == Done
      && Rename(t.next, b, [a]) == Step(Done, s.(windows := Some(Saved(s))))
  {
    var e := Saved(s)[a];
    var t := Rename(s, a, [b]);
    assert Decide(b, Saved(s).Keys, {a}) == Accept;
    assert t.next.windows == Some(Saved(s)[b := e] - {a});
    assert Saved(t.next)[b] == e;
    assert Decide(a, Saved(t.next).Keys, {b}) == Accept;
    var u := Rename(t.next, b, [a]);
    assert Saved(u.next) == Saved(s);
    assert u.next.index == s.index;
  }

  // ---------------------------------------------------------------------------------------------
  // Remove

  /** Removing a saved window deletes its entry and the index keys of all its ids, leaves every
      other entry and index key alone, and calls no window host (no window is closed). */
  lemma RemoveDeletesEntry(s: State, name: string)
    requires name in Saved(s)
    ensures var t := Remove(s, name);
      && t.status == Done
      && name !in Saved(t.next)
      && Saved(t.next).Keys == Saved(s).Keys - {name}
      && (forall k :: k in Saved(t.next) ==> Saved(t.next)[k] == Saved(s)[k])
      && (forall id :: id in Saved(s)[name].window_ids ==> id !in t.next.index)
      && (forall id :: id in s.index && id !in Saved(s)[name].window_ids ==> id in t.next.index && t.next.index[id] == s.index[id])
      && t.next.index.Keys <= s.index.Keys
      && t.next.calls == s.calls
  {
  }

  /** Removing an already removed name fails and changes nothing. */
  lemma RemoveTwiceFails(s: State, name: string)
    requires name in Saved(s)
    ensures Remove(Remove(s, name).next, name) == Step(NotFound, Remove(s, name).next)
  {
  }

  // ---------------------------------------------------------------------------------------------
  // Swap

  /** Swapping with the saved window the current window already shows does nothing at all. */
  lemma SwapWithSelfChangesNothing(s: State, cur: Id, urls: seq<string>, inputs: seq<string>, newId: Id)
    requires cur in s.index
    ensures Swap(s, cur, urls, s.index[cur], inputs, newId) == Step(SameWindow, s)
  {
  }

  /** Otherwise the swap first saves the current window (its URLs are in the registry under its
      name before it is closed), then closes it, then opens the target in the new window. */
  lemma SwapSavesBeforeClosing(s: State, cur: Id, urls: seq<string>, target: string, inputs: seq<string>, newId: Id)
    requires !(cur in s.index && s.index[cur] == target)
    requires SaveOrUpdate(s, cur, urls, inputs).status == Done
    requires target in Saved(s)
    ensures var saved := SaveOrUpdate(s, cur, urls, inputs).next;
      var t := Swap(s, cur, urls, target, inputs, newId);
      && cur in saved.index && saved.index[cur] in Saved(saved)
      && Saved(saved)[saved.index[cur]].tab_urls == urls
      && cur in Saved(saved)[saved.index[cur]].window_ids
      && target in Saved(saved) && Saved(saved)[target] == Saved(s)[target]
      && t.status == Done
      && t.next.calls == s.calls + [CloseWindow(cur), CreateWindow(newId, Saved(s)[target].tab_urls)]
      && Saved(t.next)[target].window_ids == Saved(s)[target].window_ids + [newId]
      && t.next.index == saved.index[newId := target]
      && Saved(t.next).Keys == Saved(saved).Keys
      && (forall k :: k in Saved(saved) && k != target ==> Saved(t.next)[k] == Saved(saved)[k])
  {
    if cur !in s.index {
      var n := ValidateName(inputs, Saved(s).Keys, {}).name;
      ValidateNameSound(inputs, Saved(s).Keys, {});
      assert n != target;
    }
  }

  /** A swap whose save does not complete closes and opens nothing. */
  lemma SwapWithoutSaveClosesNothing(s: State, cur: Id, urls: seq<string>, target: string, inputs: seq<string>, newId: Id)
    requires SaveOrUpdate(s, cur, urls, inputs).status != Done
    ensures Swap(s, cur, urls, target, inputs, newId).next == s
  {
  }

  // ---------------------------------------------------------------------------------------------
  // A session

  /** Save the current window as "Work", rename it "Office", open it again, remove it: the removal
      drops both window ids from the index and closes neither window. */
  lemma {:induction false} SessionScenario()
    ensures var s0 := State(None, map[], []);
      var s1 := SaveOrUpdate(s0, 1, ["https://a"], ["Work"]).next;
      var s2 := Rename(s1, "Work", ["Office"]).next;
      var s3 := Open(s2, "Office", 2).next;
      var s4 := Remove(s3, "Office").next;
      && s1 == State(Some(map["Work" := Entry(["https://a"], [1])]), map[1 := "Work"], [])
      && s2 == State(Some(map["Office" := Entry(["https://a"], [1])]), map[1 := "Office"], [])
      && s3 == State(Some(map["Office" := Entry(["https://a"], [1, 2])]), map[1 := "Office", 2 := "Office"],
                     [CreateWindow(2, ["https://a"])])
      && s4 == State(Some(map[]), map[], [CreateWindow(2, ["https://a"])])
  {
    SafeWord("Work");
    SafeWord("Office");
    var s0 := State(None, map[], []);
    assert Decide("Work", {}, {}) == Accept;
    assert ValidateName(["Work"], {}, {}) == Chosen("Work");
    SaveWithMissingRegistry(s0, 1, ["https://a"], ["Work"], "Work");
    var s1 := State(Some(map["Work" := Entry(["https://a"], [1])]), map[1 := "Work"], []);
    assert SaveOrUpdate(s0, 1, ["https://a"], ["Work"]).next == s1;
    assert Saved(s1).Keys == {"Work"};
    assert Decide("Office", {"Work"}, {"Work"}) == Accept;
    assert ValidateName(["Office"], {"Work"}, {"Work"}) == Chosen("Office");
    var s2 := State(Some(map["Office" := Entry(["https://a"], [1])]), map[1 := "Office"], []);
    assert Reindex(map[1 := "Work"], [1], "Office") == map[1 := "Office"];
    assert map["Work" := Entry(["https://a"], [1])]["Office" := Entry(["https://a"], [1])] - {"Work"}
      == map["Office" := Entry(["https://a"], [1])];
    assert Rename(s1, "Work", ["Office"]).next == s2;
    var s3 := State(Some(map["Office" := Entry(["https://a"], [1, 2])]), map[1 := "Office", 2 := "Office"],
                    [CreateWindow(2, ["https://a"])]);
    assert [1] + [2] == [1, 2];
    assert map["Office" := Entry(["https://a"], [1])]["Office" := Entry(["https://a"], [1, 2])]
      == map["Office" := Entry(["https://a"], [1, 2])];
    assert Open(s2, "Office", 2).next == s3;
    assert Unindex(s3.index, [1, 2]) == map[] by {
      assert [1, 2][..1] == [1];
      assert Unindex(s3.index, [1]) == map[2 := "Office"];
    }
    assert Remove(s3, "Office").next == State(Some(map[]), map[], [CreateWindow(2, ["https://a"])]);
  }

  /** A name made of letters only is safe. */
  lemma SafeWord(w: string)
    requires forall i :: 0 <= i < |w| ==> 'A' <= w[i] <= 'Z' || 'a' <= w[i] <= 'z'
    ensures IsSafe(w)
  {
    forall k | 0 <= k < |UnsafeChars| ensures UnsafeChars[k] !in w {
      assert UnsafeChars[k] in ['"', '&', '<', '>'];
    }
  }

  // ---------------------------------------------------------------------------------------------
  // The consistency invariant

  lemma {:induction false} SaveOrUpdatePreservesConsistency(s: State, cur: Id, urls: seq<string>, inputs: seq<string>)
    requires Consistent(s)
    ensures Consistent(SaveOrUpdate(s, cur, urls, inputs).next)
  {
    var t := SaveOrUpdate(s, cur, urls, inputs).next;
    if cur !in s.index && ValidateName(inputs, Saved(s).Keys, {}).Chosen? {
      ValidateNameSound(inputs, Saved(s).Keys, {});
      var n := ValidateName(inputs, Saved(s).Keys, {}).name;
      forall id | id in t.index
        ensures t.index[id] in Saved(t) && id in Saved(t)[t.index[id]].window_ids
      {
        if id != cur {
          assert s.index[id] != n;
        }
      }
    }
  }

  lemma {:induction false} OpenPreservesConsistency(s: State, name: string, newId: Id)
    requires Consistent(s)
    ensures Consistent(Open(s, name, newId).next)
  {
  }

  lemma {:induction false} RenamePreservesConsistency(s: State, oldName: string, inputs: seq<string>)
    requires Consistent(s)
    ensures Consistent(Rename(s, oldName, inputs).next)
  {
    if oldName in Saved(s) && ValidateName(inputs, Saved(s).Keys, {oldName}).Chosen? {
      RenameMovesEntry(s, oldName, inputs);
    }
  }

  lemma {:induction false} RemovePreservesConsistency(s: State, name: string)
    requires Consistent(s)
    ensures Consistent(Remove(s, name).next)
  {
    if name in Saved(s) {
      var t := Remove(s, name).next;
      forall id | id in t.index
        ensures t.index[id] in Saved(t) && id in Saved(t)[t.index[id]].window_ids
      {
        assert s.index[id] != name;
      }
    }
  }

  lemma {:induction false} SwapPreservesConsistency(s: State, cur: Id, urls: seq<string>, target: string, inputs: seq<string>, newId: Id)
    requires Consistent(s)
    ensures Consistent(Swap(s, cur, urls, target, inputs, newId).next)
  {
    SaveOrUpdatePreservesConsistency(s, cur, urls, inputs);
    var saved := SaveOrUpdate(s, cur, urls, inputs).next;
    OpenPreservesConsistency(saved.(calls := saved.calls + [CloseWindow(cur)]), target, newId);
  }

  // ---------------------------------------------------------------------------------------------
  // The inverse invariant: it also needs the window host to hand out ids the registry never saw

  lemma {:induction false} SaveOrUpdatePreservesInverse(s: State, cur: Id, urls: seq<string>, inputs: seq<string>)
    requires Inverse(s)
    ensures Inverse(SaveOrUpdate(s, cur, urls, inputs).next)
  {
    SaveOrUpdatePreservesConsistency(s, cur, urls, inputs);
    var t := SaveOrUpdate(s, cur, urls, inputs).next;
    if cur !in s.index && ValidateName(inputs, Saved(s).Keys, {}).Chosen? {
      ValidateNameSound(inputs, Saved(s).Keys, {});
      var n := ValidateName(inputs, Saved(s).Keys, {}).name;
      forall k, id | k in Saved(t) && id in Saved(t)[k].window_ids
        ensures id in t.index && t.index[id] == k
      {
        if k != n {
          assert id in Saved(s)[k].window_ids;
        }
      }
    }
  }

  lemma {:induction false} OpenPreservesInverse(s: State, name: string, newId: Id)
    requires Inverse(s) && FreshId(s, newId)
    ensures Inverse(Open(s, name, newId).next)
  {
    OpenPreservesConsistency(s, name, newId);
    var t := Open(s, name, newId).next;
    if name in Saved(s) {
      forall k, id | k in Saved(t) && id in Saved(t)[k].window_ids
        ensures id in t.index && t.index[id] == k
      {
        if id != newId {
          assert id in Saved(s)[k].window_ids;
        } else {
          assert k == name;
        }
      }
    }
  }

  lemma {:induction false} RenamePreservesInverse(s: State, oldName: string, inputs: seq<string>)
    requires Inverse(s)
    ensures Inverse(Rename(s, oldName, inputs).next)
  {
    RenamePreservesConsistency(s, oldName, inputs);
    if oldName in Saved(s) && ValidateName(inputs, Saved(s).Keys, {oldName}).Chosen? {
      RenameMovesEntry(s, oldName, inputs);
      var n := ValidateName(inputs, Saved(s).Keys, {oldName}).name;
      var e := Saved(s)[oldName];
      var t := Rename(s, oldName, inputs).next;
      forall k, id | k in Saved(t) && id in Saved(t)[k].window_ids
        ensures id in t.index && t.index[id] == k
      {
        if k != n {
          assert k in Saved(s) && k != oldName && id in Saved(s)[k].window_ids;
          assert s.index[id] == k;
        }
      }
    }
  }

  lemma {:induction false} RemovePreservesInverse(s: State, name: string)
    requires Inverse(s)
    ensures Inverse(Remove(s, name).next)
  {
    RemovePreservesConsistency(s, name);
    if name in Saved(s) {
      var t := Remove(s, name).next;
      forall k, id | k in Saved(t) && id in Saved(t)[k].window_ids
        ensures id in t.index && t.index[id] == k
      {
        assert id in Saved(s)[k].window_ids;
        assert id !in Saved(s)[name].window_ids;
      }
    }
  }

  lemma {:induction false} SwapPreservesInverse(s: State, cur: Id, urls: seq<string>, target: string, inputs: seq<string>, newId: Id)
    requires Inverse(s) && FreshId(s, newId) && newId != cur
    ensures Inverse(Swap(s, cur, urls, target, inputs, newId).next)
  {
    SaveOrUpdatePreservesInverse(s, cur, urls, inputs);
    var saved := SaveOrUpdate(s, cur, urls, inputs).next;
    var closed := saved.(calls := saved.calls + [CloseWindow(cur)]);
    if cur !in s.index && ValidateName(inputs, Saved(s).Keys, {}).Chosen? {
      ValidateNameSound(inputs, Saved(s).Keys, {});
    }
    assert FreshId(closed, newId);
    OpenPreservesInverse(closed, target, newId);
  }
}
