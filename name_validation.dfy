/** Validation of a user-supplied window name (js/popup-helpers.js, getValidWindowNameFromUser).

    The text box the user types into is modelled as the sequence of strings the user will submit,
    in order. Each submitted string is judged by `Decide`; `ValidateName` is the meaning of the
    whole re-prompt loop and `GetValidWindowNameFromUser` is the loop itself.
 */
module NameValidation {

  datatype Option<T> = None | Some(value: T)

  /** The characters a name may not contain, in the order they are checked. */
  const UnsafeChars: seq<char> := ['"', '&', '<', '>']

  const DuplicateMsg: string := "Window name already exists; please choose another."

  /** The message naming an offending character: `Cannot contain [ch] character.` */
  function UnsafeMsg(ch: char): (msg: string)
    ensures msg != DuplicateMsg
    ensures |msg| == 29 && msg[16] == ch
  {
    "Cannot contain [" + [ch] + "] character."
  }

  /** A name is safe when it holds none of UnsafeChars: exactly when the scan from the first
      unsafe character on finds none. */
  predicate IsSafe(name: string): (b: bool)
    ensures b <==> FirstUnsafeFrom(name, 0) == |UnsafeChars|
  {
    forall k :: 0 <= k < |UnsafeChars| ==> UnsafeChars[k] !in name
  }

  /** Position, from `from` on, of the first character of UnsafeChars that occurs in `name`;
      |UnsafeChars| when there is none. */
  function FirstUnsafeFrom(name: string, from: nat): (k: nat)
    requires from <= |UnsafeChars|
    ensures from <= k <= |UnsafeChars|
    ensures k < |UnsafeChars| ==> UnsafeChars[k] in name
    ensures forall j :: from <= j < k ==> UnsafeChars[j] !in name
    decreases |UnsafeChars| - from
  {
    if from == |UnsafeChars| then from
    else if UnsafeChars[from] in name then from
    else FirstUnsafeFrom(name, from + 1)
  }

  /** The judgement of one submitted string. */
  datatype Verdict = Accept | AllowedDuplicate | Reject(msg: string)

  /** One pass of the loop body: the allowed-duplicate test first, then the duplicate test against
      the existing keys, then the unsafe characters in list order. */
  function Decide(name: string, existing: set<string>, allowed: set<string>): (v: Verdict)
    ensures v == AllowedDuplicate <==> name in allowed
    ensures v == Accept <==> name !in allowed && name !in existing && IsSafe(name)
    ensures name !in allowed && name in existing ==> v == Reject(DuplicateMsg)
    ensures name !in allowed && name !in existing && !IsSafe(name) ==>
      FirstUnsafeFrom(name, 0) < |UnsafeChars| && v == Reject(UnsafeMsg(UnsafeChars[FirstUnsafeFrom(name, 0)]))
  {
    if name in allowed then AllowedDuplicate
    else if name in existing then Reject(DuplicateMsg)
    else
      var k := FirstUnsafeFrom(name, 0);
      if k < |UnsafeChars| then Reject(UnsafeMsg(UnsafeChars[k])) else Accept
  }

  /** What the loop returns: a fresh name, null (an allowed duplicate), or nothing because the user
      never submitted an acceptable string. */
  datatype NameResult = Chosen(name: string) | Null | NoMoreInput

  /** The result of the re-prompt loop on the strings the user submits: the first string that is
      not rejected decides it. */
  function ValidateName(inputs: seq<string>, existing: set<string>, allowed: set<string>): (r: NameResult)
    ensures r.Chosen? ==> r.name in inputs
    ensures r.NoMoreInput? ==> forall k :: 0 <= k < |inputs| ==> Decide(inputs[k], existing, allowed).Reject?
  {
    if inputs == [] then NoMoreInput
    else
      match Decide(inputs[0], existing, allowed)
      case Accept => Chosen(inputs[0])
      case AllowedDuplicate => Null
      case Reject(_) => ValidateName(inputs[1..], existing, allowed)
  }

  /** A chosen name is one of the submitted strings, is not an existing key, is not an allowed
      duplicate and holds no unsafe character; null comes only from an allowed duplicate; and the
      loop runs out of input exactly when every submitted string is rejected. */
  lemma {:induction false} ValidateNameSound(inputs: seq<string>, existing: set<string>, allowed: set<string>)
    ensures var r := ValidateName(inputs, existing, allowed);
      && (r.Chosen? ==> r.name in inputs && r.name !in existing && r.name !in allowed && IsSafe(r.name))
      && (r.Null? ==> exists k :: 0 <= k < |inputs| && inputs[k] in allowed)
      && (r.NoMoreInput? <==> forall k :: 0 <= k < |inputs| ==> Decide(inputs[k], existing, allowed).Reject?)
  {
    if inputs != [] && Decide(inputs[0], existing, allowed).Reject? {
      ValidateNameSound(inputs[1..], existing, allowed);
      assert forall k :: 1 <= k < |inputs| ==> inputs[k] == inputs[1..][k - 1];
    }
  }

  /** With no allowed duplicates (saving a new window) the loop never returns null. */
  lemma NoNullWithoutAllowedDuplicates(inputs: seq<string>, existing: set<string>)
    ensures ValidateName(inputs, existing, {}) != Null
  {
    ValidateNameSound(inputs, existing, {});
  }

  /** Strings the loop rejected do not affect its result. */
  lemma {:induction false} ValidateNameAfterRejected(inputs: seq<string>, i: nat, existing: set<string>, allowed: set<string>)
    requires i <= |inputs|
    requires forall k :: 0 <= k < i ==> Decide(inputs[k], existing, allowed).Reject?
    ensures ValidateName(inputs, existing, allowed) == ValidateName(inputs[i..], existing, allowed)
  {
    if i > 0 {
      ValidateNameAfterRejected(inputs[1..], i - 1, existing, allowed);
      assert inputs[1..][i - 1..] == inputs[i..];
    }
  }

  /** The inner loop of getValidWindowNameFromUser: scans UnsafeChars in order and stops at the
      first one the name contains. */
  method CheckUnsafeChars(name: string) returns (valid: bool, errorMsg: string)
    ensures valid <==> IsSafe(name)
    ensures !valid ==> errorMsg == UnsafeMsg(UnsafeChars[FirstUnsafeFrom(name, 0)])
  {
    valid, errorMsg := true, "";
    for i := 0 to |UnsafeChars|
      invariant forall j :: 0 <= j < i ==> UnsafeChars[j] !in name
    {
      if UnsafeChars[i] in name {
        valid := false;
        errorMsg := UnsafeMsg(UnsafeChars[i]);
        break;
      }
    }
  }

  /** The loop of getValidWindowNameFromUser. `prompts` are the error messages the text box is
      opened with, one per prompt: empty the first time, then the latest rejection's message. */
  method GetValidWindowNameFromUser(inputs: seq<string>, existing: set<string>, allowed: set<string>)
    returns (r: NameResult, prompts: seq<string>)
    ensures r == ValidateName(inputs, existing, allowed)
    ensures 1 <= |prompts| <= |inputs| + 1 && prompts[0] == ""
    ensures forall k :: 0 <= k < |prompts| - 1 ==> Decide(inputs[k], existing, allowed) == Reject(prompts[k + 1])
    ensures r.NoMoreInput? <==> |prompts| == |inputs| + 1
    ensures r.Chosen? ==> r.name == inputs[|prompts| - 1] && Decide(r.name, existing, allowed) == Accept
    ensures r.Null? ==> inputs[|prompts| - 1] in allowed
  {
    var windowName := "";
    var errorMsg := "";
    var inputIsValid := false;
    var next := 0;
    prompts := [];
    while !inputIsValid
      invariant next <= |inputs| && |prompts| == next
      invariant next > 0 ==> prompts[0] == ""
      invariant next == 0 ==> errorMsg == "" && !inputIsValid
      invariant forall k :: 0 <= k < next - 1 ==> Decide(inputs[k], existing, allowed) == Reject(prompts[k + 1])
      invariant !inputIsValid && next > 0 ==> Decide(inputs[next - 1], existing, allowed) == Reject(errorMsg)
      invariant inputIsValid ==> next > 0 && windowName == inputs[next - 1] && Decide(windowName, existing, allowed) == Accept
      decreases |inputs| - next
    {
      ghost var before := next;
      prompts := prompts + [errorMsg];
      assert forall k :: 0 <= k < before - 1 ==> Decide(inputs[k], existing, allowed) == Reject(prompts[k + 1]);
      assert before > 0 ==> Decide(inputs[before - 1], existing, allowed) == Reject(prompts[before]);
      if next == |inputs| {
        ValidateNameAfterRejected(inputs, next, existing, allowed);
        return NoMoreInput, prompts;
      }
      windowName := inputs[next];
      next := next + 1;
      if windowName in allowed {
        ValidateNameAfterRejected(inputs, next - 1, existing, allowed);
        assert inputs[next - 1..][0] == windowName;
        return Null, prompts;
      }
      inputIsValid := windowName !in existing;
      if inputIsValid {
        var unsafeMsg;
        inputIsValid, unsafeMsg := CheckUnsafeChars(windowName);
        if !inputIsValid {
          errorMsg := unsafeMsg;
        }
      } else {
        errorMsg := DuplicateMsg;
      }
    }
    ValidateNameAfterRejected(inputs, next - 1, existing, allowed);
    assert inputs[next - 1..][0] == windowName;
    r := Chosen(windowName);
  }
}
