/** Two places where js/popup-helpers.js and js/popup.js do not do what they evidently mean to.
    Each is modelled here as written, next to a lemma that exhibits the difference; the rest of
    the model uses the intended behaviour (NameValidation.Decide and Registry.Rename).
 */
module Findings {
  import opened NameValidation
  import opened Registry

  // ---------------------------------------------------------------------------------------------
  // 1. The duplicate test `window_name in windows_data_obj` (js/popup-helpers.js:75)

  /** The property names a plain JavaScript object inherits from Object.prototype, which the `in`
      operator finds on every object read back from storage. (`__proto__` is refused as written
      too, but a fix of the duplicate test alone would not make it saveable: assigning it at
      js/popup.js:184 sets the object's prototype instead of adding an entry.) */
  const InheritedNames: set<string> := {
    "constructor", "hasOwnProperty", "isPrototypeOf", "propertyIsEnumerable", "toLocaleString",
    "toString", "valueOf", "__proto__", "__defineGetter__", "__defineSetter__",
    "__lookupGetter__", "__lookupSetter__"
  }

  /** The judgement of one submitted string as the code is written: the duplicate test also
      succeeds for inherited property names. */
  function DecideAsWritten(name: string, existing: set<string>, allowed: set<string>): (v: Verdict)
    ensures v == Decide(name, existing + InheritedNames, allowed)
  {
    if name in allowed then AllowedDuplicate
    else if name in existing || name in InheritedNames then Reject(DuplicateMsg)
    else
      var k := FirstUnsafeFrom(name, 0);
      if k < |UnsafeChars| then Reject(UnsafeMsg(UnsafeChars[k])) else Accept
  }

  /** With nothing saved yet, the name "toString" is refused as already existing, while the
      intended test accepts it. */
  lemma InheritedNameRefusedAsWritten()
    ensures DecideAsWritten("toString", {}, {}) == Reject(DuplicateMsg)
    ensures Decide("toString", {}, {}) == Accept
  {
    assert IsSafe("toString") by {
      forall k | 0 <= k < |UnsafeChars| ensures UnsafeChars[k] !in "toString" {
        assert UnsafeChars[k] in ['"', '&', '<', '>'];
      }
    }
  }

  /** No inherited name can ever be chosen as written, whatever is saved. */
  lemma {:induction false} InheritedNamesNeverChosenAsWritten(name: string, existing: set<string>, allowed: set<string>)
    requires name in InheritedNames
    ensures DecideAsWritten(name, existing, allowed) != Accept
  {
  }

  // ---------------------------------------------------------------------------------------------
  // 2. The rename handler's allowed duplicates (js/popup.js:70-72 against js/popup-helpers.js:62,72)

  /** What the rename handler passes as `allowed_duplicates`: the helper expects a Set of names,
      the handler passes the old name itself, a string. */
  datatype AllowedArg = NameSet(names: set<string>) | NameString(text: string)

  /** `allowed_duplicates.has(window_name)`: a Set answers; a string has no `has` method, so the
      call throws a TypeError, modelled as None. */
  function HasAsWritten(arg: AllowedArg, name: string): (r: Option<bool>)
    ensures arg.NameSet? <==> r.Some?
  {
    match arg
    case NameSet(names) => Some(name in names)
    case NameString(_) => None
  }

  /** On the first string the user submits, `.has` on the old name throws; with the intended set
      `{oldName}` re-entering the old name is the allowed duplicate and any fresh safe name is
      accepted. */
  lemma RenameThrowsAsWritten(oldName: string, submitted: string, existing: set<string>)
    ensures HasAsWritten(NameString(oldName), submitted) == None
    ensures HasAsWritten(NameSet({oldName}), oldName) == Some(true)
    ensures Decide(oldName, existing, {oldName}) == AllowedDuplicate
    ensures submitted != oldName && submitted !in existing && IsSafe(submitted) ==>
      Decide(submitted, existing, {oldName}) == Accept
  {
  }

  /** The re-prompt loop with `allowed_duplicates` given as `arg`: None when the `.has` call throws
      (js/popup-helpers.js:72), otherwise what the loop returns. With a Set it is the loop of the
      rest of the model; with a string it throws on the first submitted string. */
  function ValidateNameWith(arg: AllowedArg, inputs: seq<string>, existing: set<string>): (r: Option<NameResult>)
    ensures arg.NameSet? ==> r == Some(ValidateName(inputs, existing, arg.names))
    ensures arg.NameString? && inputs != [] ==> r == None
    decreases |inputs|
  {
    if inputs == [] then Some(NoMoreInput)
    else
      match HasAsWritten(arg, inputs[0])
      case None => None
      case Some(isAllowed) =>
        if isAllowed then Some(Null)
        else if Decide(inputs[0], existing, {}) == Accept then Some(Chosen(inputs[0]))
        else ValidateNameWith(arg, inputs[1..], existing)
  }

  /** The rename handler (js/popup.js:63-90) with `arg` passed as the allowed duplicates: a throw
      in the name prompt ends it before any write; otherwise it goes on as Registry.RenameTo. */
  function RenameWithArg(s: State, oldName: string, arg: AllowedArg, inputs: seq<string>): (r: Step)
    ensures r.status != Done ==> r.next == s
  {
    match ValidateNameWith(arg, inputs, Saved(s).Keys)
    case None => Step(NotFound, s)
    case Some(v) => RenameTo(s, oldName, v)
  }

  /** As written (the old name itself passed), no rename writes anything once the user submits a
      string: the handler always ends in the TypeError, so no saved window is ever renamed. */
  lemma RenameNeverRenamesAsWritten(s: State, oldName: string, inputs: seq<string>)
    requires inputs != []
    ensures RenameWithArg(s, oldName, NameString(oldName), inputs) == Step(NotFound, s)
  {
  }

  /** With the intended set `{oldName}`, the handler is the rename of the rest of the model. */
  lemma RenameWithIntendedSet(s: State, oldName: string, inputs: seq<string>)
    requires oldName in Saved(s)
    ensures RenameWithArg(s, oldName, NameSet({oldName}), inputs) == Rename(s, oldName, inputs)
  {
  }
}
