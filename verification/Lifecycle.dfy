/** The engine state machine and the start/stop handlers that share it
    (radiant-dtn-abstraction/src/lifecycle/state.rs, src/api/handlers.rs). */
module Lifecycle {
  import opened Prelude

  datatype EngineState = Stopped | Starting | Running | Stopping | Failed

  predicate IsValidTransition(from: EngineState, next: EngineState) {
    match (from, next)
    case (Stopped, Starting) => true
    case (Starting, Running) => true
    case (Starting, Failed) => true
    case (Running, Stopping) => true
    case (Running, Failed) => true
    case (Stopping, Stopped) => true
    case (Failed, Starting) => true
    case (Failed, Stopped) => true
    case _ => false
  }

  datatype Machine = Machine(state: EngineState, failureReason: Option<string>)
  {
    /** A failure reason is recorded exactly while the engine is Failed. */
    predicate IsConsistent() { failureReason.Some? <==> state == Failed }

    /** transition_to: Failed is never reachable this way, and leaving Failed drops the reason. */
    function To(next: EngineState): (Machine, bool) {
      if next == Failed || !IsValidTransition(state, next) then (this, false)
      else (Machine(next, None), true)
    }

    /** transition_to_failed. */
    function ToFailed(reason: string): (Machine, bool) {
      if !IsValidTransition(state, Failed) then (this, false)
      else (Machine(Failed, Some(reason)), true)
    }
  }

  /** The moves there are, and what they leave: a start from rest or from a failure, its success,
      a stop of a running engine, and rest after a stop or as the acknowledgement of a failure;
      a refused move changes nothing. */
  lemma MovesExactly(m: Machine, next: EngineState)
    ensures m.To(next).1 <==>
            || (next == Starting && (m.state == Stopped || m.state == Failed))
            || (next == Running && m.state == Starting)
            || (next == Stopping && m.state == Running)
            || (next == Stopped && (m.state == Stopping || m.state == Failed))
    ensures m.To(next).0 == if m.To(next).1 then Machine(next, None) else m
  {
  }

  /** An engine can fail while it starts or runs, and then remembers why. */
  lemma FailsExactly(m: Machine, reason: string)
    ensures m.ToFailed(reason).1 <==> m.state == Starting || m.state == Running
    ensures m.ToFailed(reason).0 == if m.ToFailed(reason).1 then Machine(Failed, Some(reason)) else m
  {
  }

  class StateMachine {
    var state: EngineState
    var failureReason: Option<string>

    constructor ()
      ensures Value() == Machine(Stopped, None)
    {
      state, failureReason := Stopped, None;
    }

    ghost function Value(): Machine
      reads this
    {
      Machine(state, failureReason)
    }

    method TransitionTo(next: EngineState) returns (ok: bool)
      modifies this
      ensures (Value(), ok) == old(Value()).To(next)
    {
      if next == Failed {
        return false;
      }
      if !IsValidTransition(state, next) {
        return false;
      }
      state := next;
      if failureReason.Some? {
        failureReason := None;
      }
      ok := true;
    }

    method TransitionToFailed(reason: string) returns (ok: bool)
      modifies this
      ensures (Value(), ok) == old(Value()).ToFailed(reason)
    {
      if !IsValidTransition(state, Failed) {
        return false;
      }
      state := Failed;
      failureReason := Some(reason);
      ok := true;
    }
  }

  // -------------------------------------------------------------- concurrent handlers

  datatype Kind = Start | Stop

  /** A handler before its opening transition, between its two transitions, or finished. */
  datatype Phase = Ready(kind: Kind) | Engaged(kind: Kind) | Done

  /** The shared machine, every request handler so far, and whether some stop has failed. */
  datatype System = System(machine: Machine, handlers: map<nat, Phase>, stopFailed: bool)

  const INITIAL := System(Machine(Stopped, None), map[], false)

  /** Atomic steps: each takes the machine's write lock at most once. */
  datatype Step =
    | Arrive(h: nat, kind: Kind)                  // a new request
    | GiveUp(h: nat)                              // no configuration or no adapter
    | Open(h: nat)                                // the opening transition
    | Close(h: nat, failure: Option<string>)      // the adapter's answer and the closing transition

  function Opening(kind: Kind): EngineState {
    if kind == Start then Starting else Stopping
  }

  /** The closing transition of a handler, and whether it succeeded; a failed stop makes none. */
  function Closing(m: Machine, kind: Kind, failure: Option<string>): (Machine, bool) {
    match (kind, failure)
    case (Start, None) => m.To(Running)
    case (Start, Some(reason)) => m.ToFailed(reason)
    case (Stop, None) => m.To(Stopped)
    case (Stop, Some(_)) => (m, true)
  }

  function Fire(s: System, step: Step): Option<System> {
    match step
    case Arrive(h, kind) =>
      if h in s.handlers then None else Some(s.(handlers := s.handlers[h := Ready(kind)]))
    case GiveUp(h) =>
      if h in s.handlers && s.handlers[h].Ready? then Some(s.(handlers := s.handlers[h := Done])) else None
    case Open(h) =>
      if h in s.handlers && s.handlers[h].Ready? then
        var kind := s.handlers[h].kind;
        var (m, ok) := s.machine.To(Opening(kind));
        Some(s.(machine := m, handlers := s.handlers[h := if ok then Engaged(kind) else Done]))
      else None
    case Close(h, failure) =>
      if h in s.handlers && s.handlers[h].Engaged? then
        var kind := s.handlers[h].kind;
        Some(System(Closing(s.machine, kind, failure).0, s.handlers[h := Done],
                    s.stopFailed || (kind == Stop && failure.Some?)))
      else None
  }

  function Exec(s: System, schedule: seq<Step>): System
    decreases |schedule|
  {
    if schedule == [] then s
    else
      var before := Exec(s, schedule[..|schedule| - 1]);
      match Fire(before, schedule[|schedule| - 1])
      case None => before
      case Some(after) => after
  }

  ghost predicate IsEngaged(s: System, h: nat) {
    h in s.handlers && s.handlers[h].Engaged?
  }

  ghost predicate NobodyEngaged(s: System) {
    forall h :: !IsEngaged(s, h)
  }

  /** The machine is the lock: who is engaged, and with what, can be read off its state. */
  ghost predicate Inv(s: System) {
    && s.machine.IsConsistent()
    && (forall g, h :: IsEngaged(s, g) && IsEngaged(s, h) ==> g == h)
    && (forall h :: IsEngaged(s, h) ==> s.machine.state == Opening(s.handlers[h].kind) && !s.stopFailed)
    && (NobodyEngaged(s) ==> s.machine.state != Starting)
    && (NobodyEngaged(s) ==> (s.machine.state == Stopping <==> s.stopFailed))
  }

  lemma FireKeepsInv(s: System, step: Step)
    requires Inv(s) && Fire(s, step).Some?
    ensures Inv(Fire(s, step).value)
  {
    var t := Fire(s, step).value;
    match step
    case Arrive(h, _) => OthersUnchanged(s, t, h, t.handlers[h]);
    case GiveUp(h) => OthersUnchanged(s, t, h, t.handlers[h]);
    case Open(h) =>
      OthersUnchanged(s, t, h, t.handlers[h]);
      if IsEngaged(t, h) {
        assert s.machine.state != Starting && s.machine.state != Stopping;
        assert NobodyEngaged(s);
      }
    case Close(h, _) =>
      assert IsEngaged(s, h);
      OthersUnchanged(s, t, h, t.handlers[h]);
      assert NobodyEngaged(t);
  }

  lemma OthersUnchanged(s: System, t: System, h: nat, p: Phase)
    requires t.handlers == s.handlers[h := p]
    ensures forall g :: g != h ==> (IsEngaged(s, g) <==> IsEngaged(t, g))
    ensures forall g :: g != h && IsEngaged(s, g) ==> t.handlers[g] == s.handlers[g]
    ensures !IsEngaged(s, h) && !IsEngaged(t, h) ==> (NobodyEngaged(s) <==> NobodyEngaged(t))
  {
    if !IsEngaged(s, h) && !IsEngaged(t, h) && NobodyEngaged(t) {
      forall g ensures !IsEngaged(s, g) {
        assert !IsEngaged(t, g);
      }
    }
  }

  lemma {:induction false} Reachable(schedule: seq<Step>)
    ensures Inv(Exec(INITIAL, schedule))
    decreases |schedule|
  {
    if schedule != [] {
      Reachable(schedule[..|schedule| - 1]);
      var before := Exec(INITIAL, schedule[..|schedule| - 1]);
      if Fire(before, schedule[|schedule| - 1]).Some? {
        FireKeepsInv(before, schedule[|schedule| - 1]);
      }
    }
  }

  /** Under every interleaving of any number of handlers: at most one is between its two
      transitions, and a failure reason is recorded exactly while the engine is Failed. */
  lemma MutualExclusion(schedule: seq<Step>, g: nat, h: nat)
    ensures var s := Exec(INITIAL, schedule);
            s.machine.IsConsistent() && (IsEngaged(s, g) && IsEngaged(s, h) ==> g == h)
  {
    Reachable(schedule);
  }

  /** A waiting handler gets the engine exactly when it starts a stopped or failed one or stops a
      running one; one that does not get it is done, and the machine is as before. */
  lemma OpensExactly(schedule: seq<Step>, h: nat)
    requires h in Exec(INITIAL, schedule).handlers && Exec(INITIAL, schedule).handlers[h].Ready?
    ensures var s, t := Exec(INITIAL, schedule), Exec(INITIAL, schedule + [Open(h)]);
            var kind, state := s.handlers[h].kind, s.machine.state;
            && (IsEngaged(t, h) <==> (kind == Start && (state == Stopped || state == Failed)) ||
                                     (kind == Stop && state == Running))
            && (IsEngaged(t, h) ==> t.machine == Machine(if kind == Start then Starting else Stopping, None))
            && (!IsEngaged(t, h) ==> t.machine == s.machine && t.handlers[h] == Done)
  {
    var next := schedule + [Open(h)];
    assert next[..|next| - 1] == schedule;
  }

  lemma ExecNothing(s: System)
    ensures Exec(s, []) == s
  {
  }

  /** The steps of one new handler that is not refused. */
  function Request(h: nat, kind: Kind, failure: Option<string>): seq<Step> {
    [Arrive(h, kind), Open(h), Close(h, failure)]
  }

  lemma ExecAppend(s: System, schedule: seq<Step>, step: Step)
    ensures Exec(s, schedule + [step]) ==
            var before := Exec(s, schedule);
            match Fire(before, step)
            case None => before
            case Some(after) => after
  {
    assert (schedule + [step])[..|schedule|] == schedule;
  }

  /** What one request does: a start takes a stopped or failed engine to Running or, if the adapter
      fails, to Failed; a stop takes a running one to Stopped, or leaves it in Stopping. */
  lemma RequestOutcome(s: System, h: nat, kind: Kind, failure: Option<string>)
    requires h !in s.handlers
    requires if kind == Start then s.machine.state == Stopped || s.machine.state == Failed
             else s.machine.state == Running
    ensures var t := Exec(s, Request(h, kind, failure));
            && t.handlers == s.handlers[h := Done]
            && t.machine == match kind
                            case Start => if failure.None? then Machine(Running, None) else Machine(Failed, failure)
                            case Stop => if failure.None? then Machine(Stopped, None) else Machine(Stopping, None)
  {
    hide Exec;
    ExecNothing(s);
    ExecAppend(s, [], Arrive(h, kind));
    ExecAppend(s, [Arrive(h, kind)], Open(h));
    ExecAppend(s, [Arrive(h, kind), Open(h)], Close(h, failure));
    assert [] + [Arrive(h, kind)] == [Arrive(h, kind)];
    assert [Arrive(h, kind)] + [Open(h)] == [Arrive(h, kind), Open(h)];
    assert [Arrive(h, kind), Open(h)] + [Close(h, failure)] == Request(h, kind, failure);
  }

  lemma {:induction false} ExecConcat(s: System, a: seq<Step>, b: seq<Step>)
    ensures Exec(s, a + b) == Exec(Exec(s, a), b)
    decreases |b|
  {
    if b == [] {
      assert a + b == a;
    } else {
      var n := |b| - 1;
      ExecConcat(s, a, b[..n]);
      assert (a + b)[..|a| + n] == a + b[..n];
    }
  }

  /** After a start that fails, a second one can bring the engine up. */
  lemma FailedStartCanBeRetried(s: System, g: nat, h: nat, reason: string)
    requires g !in s.handlers && h !in s.handlers && g != h
    requires s.machine.state == Stopped || s.machine.state == Failed
    ensures Exec(s, Request(g, Start, Some(reason))).machine == Machine(Failed, Some(reason))
    ensures Exec(s, Request(g, Start, Some(reason)) + Request(h, Start, None)).machine == Machine(Running, None)
  {
    RequestOutcome(s, g, Start, Some(reason));
    var failed := Exec(s, Request(g, Start, Some(reason)));
    RequestOutcome(failed, h, Start, None);
    ExecConcat(s, Request(g, Start, Some(reason)), Request(h, Start, None));
  }

  /** The closing transition whose result the handlers discard always succeeds, and leaves the
      state the handler reports. */
  lemma DiscardedTransitionSucceeds(schedule: seq<Step>, h: nat, failure: Option<string>)
    requires IsEngaged(Exec(INITIAL, schedule), h)
    ensures var s := Exec(INITIAL, schedule);
            var kind := s.handlers[h].kind;
            var (m, ok) := Closing(s.machine, kind, failure);
            ok && m.state == (if kind == Start then (if failure.None? then Running else Failed)
                              else if failure.None? then Stopped else Stopping)
  {
    Reachable(schedule);
  }

  /** Stopping with nobody engaged to finish it. */
  ghost predicate IsWedged(s: System) {
    s.machine.state == Stopping && NobodyEngaged(s)
  }

  /** The engine is wedged exactly when some stop has failed. */
  lemma WedgedExactlyAfterFailedStop(schedule: seq<Step>)
    ensures var s := Exec(INITIAL, schedule);
            IsWedged(s) <==> s.stopFailed
  {
    Reachable(schedule);
    var s := Exec(INITIAL, schedule);
    if s.stopFailed {
      assert NobodyEngaged(s);
    }
  }

  /** It happens: a start that works, then a stop that the adapter refuses. */
  lemma StopCanFail(reason: string)
    ensures var s := Exec(INITIAL, Request(0, Start, None) + Request(1, Stop, Some(reason)));
            s.stopFailed && IsWedged(s)
  {
    hide Exec;
    var up, refused := Request(0, Start, None), Request(1, Stop, Some(reason));
    RequestOutcome(INITIAL, 0, Start, None);
    RequestOutcome(Exec(INITIAL, up), 1, Stop, Some(reason));
    ExecConcat(INITIAL, up, refused);
    WedgedExactlyAfterFailedStop(up + refused);
  }

  lemma WedgedStep(s: System, step: Step)
    requires IsWedged(s) && Fire(s, step).Some?
    ensures IsWedged(Fire(s, step).value)
  {
    var t := Fire(s, step).value;
    assert !IsEngaged(s, step.h);
    OthersUnchanged(s, t, step.h, t.handlers[step.h]);
  }

  /** After a failed stop no sequence of further starts and stops leaves Stopping. */
  lemma {:induction false} FailedStopIsForever(s: System, schedule: seq<Step>)
    requires IsWedged(s)
    ensures IsWedged(Exec(s, schedule)) && Exec(s, schedule).machine.state == Stopping
    decreases |schedule|
  {
    if schedule != [] {
      FailedStopIsForever(s, schedule[..|schedule| - 1]);
      var before := Exec(s, schedule[..|schedule| - 1]);
      if Fire(before, schedule[|schedule| - 1]).Some? {
        WedgedStep(before, schedule[|schedule| - 1]);
      }
    }
  }
}
