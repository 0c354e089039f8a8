/**
 How Linux-PAM evaluates a flat auth stack, after the libpam dispatcher and the pam.conf(5) manual
 page: each module's result selects an action from its control.
 */
module PamStack {

  /** A module's return value; failures carry their code. */
  datatype RetVal = Success | NewAuthtokReqd | Ignore | Failure(code: nat)

  datatype Action = Skip | Ok | Done | Bad | Die | Reset | Jump(n: nat)

  /** A control as its bracket form: actions for success, new_authtok_reqd, ignore and the rest. */
  datatype Control = Control(success: Action, newAuthtokReqd: Action, ignore: Action, default: Action) {
    function On(r: RetVal): Action {
      match r
      case Success => success
      case NewAuthtokReqd => newAuthtokReqd
      case Ignore => ignore
      case Failure(_) => default
    }
  }

  const REQUIRED: Control := Control(Ok, Ok, Skip, Bad)
  const REQUISITE: Control := Control(Ok, Ok, Skip, Die)
  const SUFFICIENT: Control := Control(Done, Done, Skip, Skip)
  const OPTIONAL: Control := Control(Ok, Ok, Skip, Skip)

  /** `[success=n default=ignore]`. */
  function JumpOnSuccess(n: nat): Control {
    Control(Jump(n), Skip, Skip, Skip)
  }

  /** PAM_PERM_DENIED, which libpam starts from and falls back to. */
  const MUST_FAIL: RetVal := Failure(6)

  datatype Impression = Undef | Positive | Negative

  /** libpam's final check: success without a positive impression is a failure. */
  function Decision(impression: Impression, status: RetVal): RetVal {
    if status == Success && impression != Positive then MUST_FAIL else status
  }

  /** What one module's result does: end the stack with a decision, or go on `skip` modules further. */
  datatype Outcome = Stop(decision: RetVal) | Go(skip: nat, impression: Impression, status: RetVal)

  function Effect(action: Action, r: RetVal, impression: Impression, status: RetVal): Outcome {
    var settles := impression == Undef || (impression == Positive && status == Success);
    var blamed := if impression == Negative then status else if r == Ignore then MUST_FAIL else r;
    match action
    case Skip => Go(0, impression, status)
    case Ok => if settles && r != Ignore then Go(0, Positive, r) else Go(0, impression, status)
    case Done =>
      if settles && r != Ignore then Stop(Decision(Positive, r))
      else if impression == Positive then Stop(Decision(Positive, status))
      else Go(0, impression, status)
    case Bad => Go(0, Negative, blamed)
    case Die => Stop(Decision(Negative, blamed))
    case Reset => Go(0, Undef, MUST_FAIL)
    case Jump(n) => Go(n, impression, status)
  }

  /** The rest of the stack, in the state reached so far; a jump past the end refuses. */
  function Dispatch(stack: seq<Control>, results: seq<RetVal>, impression: Impression, status: RetVal): RetVal
    requires |stack| == |results|
    decreases |stack|
  {
    if stack == [] then Decision(impression, status)
    else
      match Effect(stack[0].On(results[0]), results[0], impression, status)
      case Stop(decision) => decision
      case Go(n, i, s) =>
        if n < |stack| then Dispatch(stack[n + 1..], results[n + 1..], i, s) else Decision(Negative, MUST_FAIL)
  }

  /** What the stack decides when its modules would return `results`. */
  function Decide(stack: seq<Control>, results: seq<RetVal>): RetVal
    requires |stack| == |results|
  {
    Dispatch(stack, results, Undef, MUST_FAIL)
  }

  // ---------- where decisions come from ----------

  lemma NoNewFailure(action: Action, r: RetVal, impression: Impression, status: RetVal, code: nat)
    requires code != 6 && status != Failure(code) && r != Failure(code)
    ensures var o := Effect(action, r, impression, status);
            if o.Stop? then o.decision != Failure(code) else o.status != Failure(code)
  {
  }

  /** A failure code other than the fallback is one that a module returned. */
  lemma {:induction false} FailureHasSource(stack: seq<Control>, results: seq<RetVal>, impression: Impression,
                                            status: RetVal, code: nat)
    requires |stack| == |results| && code != 6
    requires status != Failure(code) && forall i :: 0 <= i < |results| ==> results[i] != Failure(code)
    ensures Dispatch(stack, results, impression, status) != Failure(code)
    decreases |stack|
  {
    hide Effect, Control.On;
    if stack != [] {
      var action, r := stack[0].On(results[0]), results[0];
      NoNewFailure(action, r, impression, status, code);
      var o := Effect(action, r, impression, status);
      if o.Go? && o.skip < |stack| {
        FailureHasSource(stack[o.skip + 1..], results[o.skip + 1..], o.impression, o.status, code);
      }
    }
  }

  /** A stack of required modules succeeds exactly when there is one and none fails. */
  lemma {:induction false} RequiredStack(stack: seq<Control>, results: seq<RetVal>)
    requires |stack| == |results| && stack != [] && forall i :: 0 <= i < |stack| ==> stack[i] == REQUIRED
    requires forall i :: 0 <= i < |results| ==> results[i] == Success || results[i].Failure?
    ensures Decide(stack, results) == Success <==> forall i :: 0 <= i < |results| ==> results[i] == Success
  {
    RequiredFrom(stack, results, Undef, MUST_FAIL);
  }

  lemma {:induction false} RequiredFrom(stack: seq<Control>, results: seq<RetVal>, impression: Impression,
                                        status: RetVal)
    requires |stack| == |results| && forall i :: 0 <= i < |stack| ==> stack[i] == REQUIRED
    requires forall i :: 0 <= i < |results| ==> results[i] == Success || results[i].Failure?
    requires match impression
             case Undef => status == MUST_FAIL && stack != []
             case Positive => status == Success
             case Negative => status.Failure?
    ensures Dispatch(stack, results, impression, status) == Success <==>
            impression != Negative && forall i :: 0 <= i < |results| ==> results[i] == Success
    decreases |stack|
  {
    if stack != [] {
      var r := results[0];
      assert results == [r] + results[1..];
      if r == Success {
        if impression == Negative {
          RequiredFrom(stack[1..], results[1..], impression, status);
        } else {
          RequiredFrom(stack[1..], results[1..], Positive, Success);
        }
      } else {
        RequiredFrom(stack[1..], results[1..], Negative, if impression == Negative then status else r);
      }
    }
  }

  // ---------- a face line in front ----------

  /** The rewritten stack decides as the original does, whatever the other modules return. */
  ghost predicate Transparent(face: Control, r: RetVal) {
    forall stack: seq<Control>, results: seq<RetVal> :: |stack| == |results| ==>
      Decide([face] + stack, [r] + results) == Decide(stack, results)
  }

  lemma FrontModule(face: Control, r: RetVal, stack: seq<Control>, results: seq<RetVal>)
    requires |stack| == |results|
    ensures face.On(r) == Skip ==> Decide([face] + stack, [r] + results) == Decide(stack, results)
    ensures face.On(r) == Done && r != Ignore ==> Decide([face] + stack, [r] + results) == r
    ensures face.On(r) == Jump(1) ==>
              Decide([face] + stack, [r] + results) ==
                if stack == [] then MUST_FAIL else Decide(stack[1..], results[1..])
  {
    assert ([face] + stack)[1..] == stack && ([r] + results)[1..] == results;
    if stack != [] {
      assert ([face] + stack)[2..] == stack[1..] && ([r] + results)[2..] == results[1..];
    }
  }

  /** A single required module decides with its own failure. */
  lemma LoneRequired(code: nat)
    ensures Decide([REQUIRED], [Failure(code)]) == Failure(code)
  {
    var stack, results := [REQUIRED], [Failure(code)];
    assert stack[1..] == [] && results[1..] == [];
    assert Dispatch(stack[1..], results[1..], Negative, Failure(code)) == Failure(code);
  }

  /** `sufficient` is out of the way exactly when the module returns neither success nor
      new_authtok_reqd, both of which it ends the stack on. */
  lemma SufficientTransparent(r: RetVal)
    ensures Transparent(SUFFICIENT, r) <==> r != Success && r != NewAuthtokReqd
  {
    if r == Success || r == NewAuthtokReqd {
      FrontModule(SUFFICIENT, r, [REQUIRED], [Failure(7)]);
      LoneRequired(7);
    } else {
      forall stack: seq<Control>, results: seq<RetVal> | |stack| == |results|
        ensures Decide([SUFFICIENT] + stack, [r] + results) == Decide(stack, results)
      {
        FrontModule(SUFFICIENT, r, stack, results);
      }
    }
  }

  /** The greeter's jump is out of the way exactly when the module does not return success. */
  lemma JumpTransparent(r: RetVal)
    ensures Transparent(JumpOnSuccess(1), r) <==> r != Success
  {
    if r == Success {
      FrontModule(JumpOnSuccess(1), r, [REQUIRED], [Failure(7)]);
      LoneRequired(7);
    } else {
      forall stack: seq<Control>, results: seq<RetVal> | |stack| == |results|
        ensures Decide([JumpOnSuccess(1)] + stack, [r] + results) == Decide(stack, results)
      {
        FrontModule(JumpOnSuccess(1), r, stack, results);
      }
    }
  }
}
