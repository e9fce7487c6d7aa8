/**
 Escalation chains: an incident that needs an acknowledgement fires the steps of its policy
 one after the other, then repeats the last one, then reports the chain exhausted.

 Numbers are unbounded and dates are well formed milliseconds.
 */
module Escalate {
  import opened Wrappers
  import opened AlertTypes

  function FindStep(steps: seq<EscalationStep>, n: int): Option<EscalationStep> {
    if steps == [] then None else if steps[0].step == n then Some(steps[0]) else FindStep(steps[1..], n)
  }

  datatype Outcome = Step(step: EscalationStep, next: EscalationState) | UsedUp(next: EscalationState) | NotYet

  function Current(esc: EscalationState): int { Or(esc.currentStep, 0) }

  function Repeats(esc: EscalationState): int { Or(esc.repeatCount, 0) }

  function NextEscalationState(inc: Incident, policy: EscalationPolicy, now: int): Outcome {
    var esc := inc.escalation;
    var attachedAt := Or(esc.attachedAt, inc.firstSeenAt);
    var nextStep := FindStep(policy.steps, Current(esc) + 1);
    if nextStep.Some? then
      if now < attachedAt + nextStep.value.waitSeconds * 1000 then NotYet
      else Step(nextStep.value,
                esc.(currentStep := Some(nextStep.value.step), nextFireAt := None, attachedAt := Some(attachedAt)))
    else if policy.steps != [] && policy.repeatLastStepEverySeconds > 0 && Repeats(esc) < policy.maxRepeats then
      if now < Or(esc.lastFiredAt, attachedAt) + policy.repeatLastStepEverySeconds * 1000 then NotYet
      else Step(policy.steps[|policy.steps| - 1],
                esc.(repeatCount := Some(Repeats(esc) + 1), nextFireAt := None, lastFiredAt := Some(now)))
    else UsedUp(esc.(nextFireAt := None))
  }

  function InitialEscalationState(policy: EscalationPolicy, now: int): EscalationState {
    var first := FindStep(policy.steps, 1);
    EscalationState(Some(policy.policyId), Some(0), Some(now), None,
                    if first.Some? then Some(now + first.value.waitSeconds * 1000) else None, None)
  }

  // What the store returns as due.
  predicate Due(inc: Incident, now: int) {
    && inc.requiresAck && (inc.state == Open || inc.state == Escalated)
    && inc.escalation.nextFireAt.Some? && inc.escalation.nextFireAt.value <= now
  }

  // The state written after a step has fired, with the time of the following one.
  function Scheduled(fired: Outcome, policy: EscalationPolicy, now: int): EscalationState
    requires fired.Step?
  {
    var following := FindStep(policy.steps, fired.step.step + 1);
    var esc := fired.next.(lastFiredAt := Some(now));
    if following.Some? then
      esc.(nextFireAt := Some(Or(esc.attachedAt, now) + following.value.waitSeconds * 1000))
    else if policy.repeatLastStepEverySeconds > 0 then
      esc.(nextFireAt := Some(now + policy.repeatLastStepEverySeconds * 1000))
    else esc
  }

  datatype Firing = Fired(at: int, step: EscalationStep) | Exhausted(at: int)

  // The write that ends the turn of an incident, given what was read and decided before.
  function Written(inc: Incident, out: Outcome, policy: EscalationPolicy, now: int): Incident {
    match out
    case NotYet => inc
    case Step(_, _) => inc.(escalation := Scheduled(out, policy, now), state := Escalated)
    case UsedUp(next) => inc.(escalation := next, state := Escalated, exhausted := true)
  }

  function Fires(out: Outcome, now: int): seq<Firing> {
    match out
    case NotYet => []
    case Step(step, _) => [Fired(now, step)]
    case UsedUp(_) => [Exhausted(now)]
  }

  // One scan's turn of one incident. Without a policy to be found the chain is parked.
  function Scan(inc: Incident, policy: Option<EscalationPolicy>, now: int): (Incident, seq<Firing>) {
    if !Due(inc, now) then (inc, [])
    else if policy.None? then (inc.(escalation := inc.escalation.(nextFireAt := None)), [])
    else
      var out := NextEscalationState(inc, policy.value, now);
      (Written(inc, out, policy.value, now), Fires(out, now))
  }

  // ----- Runs of one incident's chain ------------------------------------------------------

  datatype ChainOp = ScanAt(now: int) | Ack(at: int) | Resolve

  function Handled(inc: Incident, op: ChainOp): Incident
    requires !op.ScanAt?
  {
    if op.Resolve? then inc.(state := Resolved)
    else if inc.state == Acknowledged || inc.state == Resolved then inc
    else inc.(state := Acknowledged, ackAt := Some(op.at))
  }

  function Apply(inc: Incident, policy: EscalationPolicy, op: ChainOp): (Incident, seq<Firing>) {
    if op.ScanAt? then Scan(inc, Some(policy), op.now) else (Handled(inc, op), [])
  }

  function Run(inc: Incident, policy: EscalationPolicy, ops: seq<ChainOp>): (Incident, seq<Firing>)
    decreases |ops|
  {
    if ops == [] then (inc, [])
    else
      var (inc', now') := Apply(inc, policy, ops[0]);
      var (end, later) := Run(inc', policy, ops[1..]);
      (end, now' + later)
  }

  // An incident to which the chain has just been attached.
  predicate Attached(inc: Incident, policy: EscalationPolicy, t0: int) {
    inc.requiresAck && inc.state == Open && !inc.exhausted && inc.escalation == InitialEscalationState(policy, t0)
  }

  /** The firings so far, in the order the policy promises: the steps numbered 1, 2, and so on,
      none before its wait is over; then repeats of the last listed step, each at least the
      interval after the firing before it; then, once, the exhaustion. */
  predicate InOrder(log: seq<Firing>, policy: EscalationPolicy, t0: int, steps: nat, repeats: nat, exhausted: bool) {
    && |log| == steps + repeats + (if exhausted then 1 else 0)
    && (forall i :: 0 <= i < steps ==>
          log[i].Fired? && FindStep(policy.steps, i + 1) == Some(log[i].step)
          && log[i].at >= t0 + log[i].step.waitSeconds * 1000)
    && (repeats > 0 ==> steps > 0 && policy.steps != [])
    && (forall i :: steps <= i < steps + repeats ==>
          log[i].Fired? && log[i].step == policy.steps[|policy.steps| - 1]
          && log[i].at >= log[i - 1].at + policy.repeatLastStepEverySeconds * 1000)
    && (exhausted ==> log[steps + repeats].Exhausted?)
  }

  predicate Inv(inc: Incident, policy: EscalationPolicy, t0: int, log: seq<Firing>) {
    var esc := inc.escalation;
    var (c, r) := (Current(esc), Repeats(esc));
    && inc.requiresAck && esc.attachedAt == Some(t0) && c >= 0 && r >= 0
    && InOrder(log, policy, t0, c, r, inc.exhausted)
    && (r > 0 ==>
          FindStep(policy.steps, c + 1).None? && r <= policy.maxRepeats && policy.repeatLastStepEverySeconds > 0)
    && (c > 0 ==> esc.lastFiredAt == Some(log[c + r - 1].at) && policy.steps != [])
    && (esc.nextFireAt.Some? ==>
          !inc.exhausted && (FindStep(policy.steps, c + 1).Some? || (c > 0 && policy.repeatLastStepEverySeconds > 0)))
    && (inc.exhausted ==>
          FindStep(policy.steps, c + 1).None? && policy.repeatLastStepEverySeconds > 0 && r >= policy.maxRepeats)
  }

  lemma {:induction false} FoundHasNumber(steps: seq<EscalationStep>, n: int)
    ensures FindStep(steps, n).Some? ==> FindStep(steps, n).value in steps && FindStep(steps, n).value.step == n
    ensures FindStep(steps, n).None? <==> forall s <- steps :: s.step != n
  {
    if steps != [] {
      FoundHasNumber(steps[1..], n);
      assert steps == [steps[0]] + steps[1..];
    }
  }

  lemma OneMoreStep(log: seq<Firing>, policy: EscalationPolicy, t0: int, c: nat, step: EscalationStep, now: int)
    requires InOrder(log, policy, t0, c, 0, false)
    requires FindStep(policy.steps, c + 1) == Some(step) && now >= t0 + step.waitSeconds * 1000
    ensures InOrder(log + [Fired(now, step)], policy, t0, c + 1, 0, false)
  {
    hide FindStep;
  }

  lemma OneMoreRepeat(log: seq<Firing>, policy: EscalationPolicy, t0: int, c: nat, r: nat, now: int)
    requires InOrder(log, policy, t0, c, r, false) && c > 0 && policy.steps != []
    requires now >= log[c + r - 1].at + policy.repeatLastStepEverySeconds * 1000
    ensures InOrder(log + [Fired(now, policy.steps[|policy.steps| - 1])], policy, t0, c, r + 1, false)
  {
    hide FindStep;
    var log' := log + [Fired(now, policy.steps[|policy.steps| - 1])];
    assert forall i :: 0 <= i < |log| ==> log'[i] == log[i];
  }

  lemma ThenExhausted(log: seq<Firing>, policy: EscalationPolicy, t0: int, c: nat, r: nat, now: int)
    requires InOrder(log, policy, t0, c, r, false)
    ensures InOrder(log + [Exhausted(now)], policy, t0, c, r, true)
  {
    hide FindStep;
    assert forall i :: 0 <= i < |log| ==> (log + [Exhausted(now)])[i] == log[i];
  }

  lemma ScanKeeps(inc: Incident, policy: EscalationPolicy, t0: int, log: seq<Firing>, now: int)
    requires Inv(inc, policy, t0, log)
    ensures var (inc', fired) := Scan(inc, Some(policy), now); Inv(inc', policy, t0, log + fired)
  {
    var esc := inc.escalation;
    var (c, r) := (Current(esc), Repeats(esc));
    FoundHasNumber(policy.steps, c + 1);
    hide FindStep, InOrder;
    assert log + [] == log;
    if Due(inc, now) {
      match NextEscalationState(inc, policy, now)
      case NotYet =>
      case Step(step, next) =>
        if FindStep(policy.steps, c + 1).Some? {
          OneMoreStep(log, policy, t0, c, step, now);
          LogSize(log, policy, t0, c, r, false);
        } else {
          LogSize(log, policy, t0, c, r, false);
          OneMoreRepeat(log, policy, t0, c, r, now);
        }
      case UsedUp(next) =>
        LogSize(log, policy, t0, c, r, false);
        ThenExhausted(log, policy, t0, c, r, now);
    }
  }

  lemma LogSize(log: seq<Firing>, policy: EscalationPolicy, t0: int, c: nat, r: nat, exhausted: bool)
    requires InOrder(log, policy, t0, c, r, exhausted)
    ensures |log| == c + r + (if exhausted then 1 else 0)
    ensures forall i :: 0 <= i < c + r ==> log[i].Fired?
  {
  }

  lemma ApplyKeeps(inc: Incident, policy: EscalationPolicy, t0: int, log: seq<Firing>, op: ChainOp)
    requires Inv(inc, policy, t0, log)
    ensures Inv(Apply(inc, policy, op).0, policy, t0, log + Apply(inc, policy, op).1)
  {
    assert log + [] == log;
    if op.ScanAt? {
      hide Inv, Scan;
      ScanKeeps(inc, policy, t0, log, op.now);
    } else {
      hide InOrder, FindStep;
    }
  }

  lemma {:induction false} RunKeeps(inc: Incident, policy: EscalationPolicy, t0: int, log: seq<Firing>,
                                    ops: seq<ChainOp>)
    requires Inv(inc, policy, t0, log)
    ensures Inv(Run(inc, policy, ops).0, policy, t0, log + Run(inc, policy, ops).1)
    decreases |ops|
  {
    hide Inv, Apply;
    if ops == [] {
      assert log + [] == log;
    } else {
      var (inc', fired) := Apply(inc, policy, ops[0]);
      ApplyKeeps(inc, policy, t0, log, ops[0]);
      RunKeeps(inc', policy, t0, log + fired, ops[1..]);
      var later := Run(inc', policy, ops[1..]).1;
      assert (log + fired) + later == log + (fired + later);
    }
  }

  // ----- How many firings there can be -------------------------------------------------------

  function Numbers(steps: seq<EscalationStep>): set<int> {
    if steps == [] then {} else {steps[0].step} + Numbers(steps[1..])
  }

  function UpTo(n: nat): set<int> { if n == 0 then {} else UpTo(n - 1) + {n} }

  lemma {:induction false} UpToSize(n: nat)
    ensures |UpTo(n)| == n && forall k :: k in UpTo(n) <==> 1 <= k <= n
  {
    if n > 0 { UpToSize(n - 1); }
  }

  lemma {:induction false} UpToWithin(n: nat, s: set<int>)
    requires forall k :: 1 <= k <= n ==> k in s
    ensures UpTo(n) <= s
  {
    if n > 0 { UpToWithin(n - 1, s); }
  }

  lemma {:induction false} NumbersSize(steps: seq<EscalationStep>)
    ensures |Numbers(steps)| <= |steps| && forall k :: FindStep(steps, k).Some? <==> k in Numbers(steps)
  {
    if steps != [] { NumbersSize(steps[1..]); }
  }

  lemma SubsetSize(a: set<int>, b: set<int>)
    requires a <= b
    ensures |a| <= |b|
  {
    assert b == a + (b - a);
  }

  lemma StepsBounded(policy: EscalationPolicy, c: nat)
    requires forall n :: 1 <= n <= c ==> FindStep(policy.steps, n).Some?
    ensures c <= |policy.steps|
  {
    UpToSize(c);
    NumbersSize(policy.steps);
    UpToWithin(c, Numbers(policy.steps));
    SubsetSize(UpTo(c), Numbers(policy.steps));
  }

  lemma StepsInLogBounded(log: seq<Firing>, policy: EscalationPolicy, t0: int, c: nat, r: nat, exhausted: bool)
    requires InOrder(log, policy, t0, c, r, exhausted)
    ensures c <= |policy.steps|
  {
    hide FindStep;
    forall n | 1 <= n <= c ensures FindStep(policy.steps, n).Some? {
      assert log[n - 1].Fired?;
    }
    StepsBounded(policy, c);
  }

  function Max0(n: int): nat { if n > 0 then n else 0 }

  /** Over any run of scans, acknowledgements and resolutions, at any times whatever, the
      firings come in the promised order, no more of them than steps and repeats, with at most
      one exhaustion, which comes last and only when steps and repeats are used up. */
  lemma ChainFiresInOrder(inc: Incident, policy: EscalationPolicy, t0: int, ops: seq<ChainOp>)
    requires Attached(inc, policy, t0)
    ensures var (end, log) := Run(inc, policy, ops);
            var (c, r) := (Current(end.escalation), Repeats(end.escalation));
            && 0 <= c <= |policy.steps| && 0 <= r <= Max0(policy.maxRepeats)
            && InOrder(log, policy, t0, c, r, end.exhausted)
            && (end.exhausted ==> FindStep(policy.steps, c + 1).None? && r == Max0(policy.maxRepeats))
  {
    hide *;
    Starts(inc, policy, t0);
    RunKeeps(inc, policy, t0, [], ops);
    var (end, log) := Run(inc, policy, ops);
    assert [] + log == log;
    InvBounds(end, policy, t0, log);
  }

  lemma Starts(inc: Incident, policy: EscalationPolicy, t0: int)
    requires Attached(inc, policy, t0)
    ensures Inv(inc, policy, t0, []) && (inc.escalation.nextFireAt.Some? <==> FindStep(policy.steps, 1).Some?)
  {
  }

  lemma InvBounds(inc: Incident, policy: EscalationPolicy, t0: int, log: seq<Firing>)
    requires Inv(inc, policy, t0, log)
    ensures var (c, r) := (Current(inc.escalation), Repeats(inc.escalation));
            && 0 <= c <= |policy.steps| && 0 <= r <= Max0(policy.maxRepeats)
            && InOrder(log, policy, t0, c, r, inc.exhausted)
            && (inc.exhausted ==> FindStep(policy.steps, c + 1).None? && r == Max0(policy.maxRepeats))
  {
    hide InOrder, FindStep;
    StepsInLogBounded(log, policy, t0, Current(inc.escalation), Repeats(inc.escalation), inc.exhausted);
  }

  /** An acknowledged or resolved incident fires nothing any more. */
  lemma {:induction false} QuietOnceHandled(inc: Incident, policy: EscalationPolicy, ops: seq<ChainOp>)
    requires inc.state == Acknowledged || inc.state == Resolved
    ensures Run(inc, policy, ops).1 == []
    decreases |ops|
  {
    if ops != [] {
      QuietOnceHandled(Apply(inc, policy, ops[0]).0, policy, ops[1..]);
    }
  }

  // Nothing is scheduled any more.
  lemma {:induction false} QuietWhenUnscheduled(inc: Incident, policy: EscalationPolicy, ops: seq<ChainOp>)
    requires inc.escalation.nextFireAt.None?
    ensures Run(inc, policy, ops).1 == [] && Run(inc, policy, ops).0.exhausted == inc.exhausted
    decreases |ops|
  {
    if ops != [] {
      QuietWhenUnscheduled(Apply(inc, policy, ops[0]).0, policy, ops[1..]);
    }
  }

  /** A chain whose policy the store does not know is parked at its first due scan and stays
      silent, even if the policy turns up later. */
  lemma ParkedForGood(inc: Incident, later: EscalationPolicy, now: int, ops: seq<ChainOp>)
    requires Due(inc, now)
    ensures Scan(inc, None, now).1 == []
    ensures Run(Scan(inc, None, now).0, later, ops).1 == []
  {
    QuietWhenUnscheduled(Scan(inc, None, now).0, later, ops);
  }

  // ----- Progress ---------------------------------------------------------------------------

  // From when on a scan is late enough to make progress.
  function ReadyAt(inc: Incident, policy: EscalationPolicy): int
    requires inc.escalation.nextFireAt.Some?
  {
    var esc := inc.escalation;
    var attachedAt := Or(esc.attachedAt, inc.firstSeenAt);
    var step := FindStep(policy.steps, Current(esc) + 1);
    var computed := if step.Some? then attachedAt + step.value.waitSeconds * 1000
                    else Or(esc.lastFiredAt, attachedAt) + policy.repeatLastStepEverySeconds * 1000;
    if esc.nextFireAt.value >= computed then esc.nextFireAt.value else computed
  }

  predicate Alive(inc: Incident, policy: EscalationPolicy, t0: int, log: seq<Firing>) {
    && Inv(inc, policy, t0, log) && (inc.state == Open || inc.state == Escalated)
    && inc.escalation.nextFireAt.Some?
  }

  // Steps, repeats and the exhaustion that are still to come, at most.
  function Remaining(inc: Incident, policy: EscalationPolicy): int {
    |policy.steps| - Current(inc.escalation) + Max0(policy.maxRepeats) - Repeats(inc.escalation)
      + (if inc.exhausted then 0 else 1)
  }

  /** With a positive repeat interval a scan that is late enough always makes progress, and
      leaves the chain exhausted or scheduled again. */
  lemma LateScanProgresses(inc: Incident, policy: EscalationPolicy, t0: int, log: seq<Firing>, now: int)
    requires Alive(inc, policy, t0, log) && policy.repeatLastStepEverySeconds > 0 && now >= ReadyAt(inc, policy)
    ensures var (inc', fired) := Scan(inc, Some(policy), now);
            && |fired| == 1 && Remaining(inc', policy) == Remaining(inc, policy) - 1
            && (inc'.exhausted || Alive(inc', policy, t0, log + fired))
  {
    ScanKeeps(inc, policy, t0, log, now);
    LateScanFires(inc, policy, t0, log, now);
    hide Scan, Inv, ReadyAt, Remaining;
  }

  lemma LateScanFires(inc: Incident, policy: EscalationPolicy, t0: int, log: seq<Firing>, now: int)
    requires Alive(inc, policy, t0, log) && policy.repeatLastStepEverySeconds > 0 && now >= ReadyAt(inc, policy)
    ensures var (inc', fired) := Scan(inc, Some(policy), now);
            && |fired| == 1 && Remaining(inc', policy) == Remaining(inc, policy) - 1
            && (inc'.exhausted || (inc'.state == Escalated && inc'.escalation.nextFireAt.Some?))
  {
    FoundHasNumber(policy.steps, Current(inc.escalation) + 1);
    hide FindStep, InOrder;
    match NextEscalationState(inc, policy, now)
    case NotYet => assert false;
    case Step(step, next) => assert Scan(inc, Some(policy), now).0.escalation.nextFireAt.Some?;
    case UsedUp(next) =>
  }

  lemma RemainingPositive(inc: Incident, policy: EscalationPolicy, t0: int, log: seq<Firing>)
    requires Inv(inc, policy, t0, log)
    ensures Remaining(inc, policy) >= 0 && (!inc.exhausted ==> Remaining(inc, policy) > 0)
  {
    hide InOrder;
    StepsInLogBounded(log, policy, t0, Current(inc.escalation), Repeats(inc.escalation), inc.exhausted);
  }

  // Every time is late enough for the state its scan finds.
  predicate AllLate(inc: Incident, policy: EscalationPolicy, times: seq<int>)
    decreases |times|
  {
    times == [] || inc.exhausted
    || (inc.escalation.nextFireAt.Some? && times[0] >= ReadyAt(inc, policy)
        && AllLate(Scan(inc, Some(policy), times[0]).0, policy, times[1..]))
  }

  function Scans(times: seq<int>): seq<ChainOp> {
    if times == [] then [] else [ScanAt(times[0])] + Scans(times[1..])
  }

  lemma {:induction false} ExhaustedStays(inc: Incident, policy: EscalationPolicy, t0: int, log: seq<Firing>,
                                          ops: seq<ChainOp>)
    requires Inv(inc, policy, t0, log) && inc.exhausted
    ensures Run(inc, policy, ops).0.exhausted
  {
    QuietWhenUnscheduled(inc, policy, ops);
  }

  /** With a positive repeat interval, late enough scans exhaust the chain within as many of
      them as there are steps and repeats, plus one. */
  lemma {:induction false} LateScansExhaust(inc: Incident, policy: EscalationPolicy, t0: int, log: seq<Firing>,
                                            times: seq<int>)
    requires inc.exhausted ==> Inv(inc, policy, t0, log)
    requires !inc.exhausted ==> Alive(inc, policy, t0, log)
    requires policy.repeatLastStepEverySeconds > 0 && AllLate(inc, policy, times) && |times| >= Remaining(inc, policy)
    ensures Run(inc, policy, Scans(times)).0.exhausted
    decreases |times|
  {
    if inc.exhausted {
      ExhaustedStays(inc, policy, t0, log, Scans(times));
    } else {
      RemainingPositive(inc, policy, t0, log);
      LateScanProgresses(inc, policy, t0, log, times[0]);
      var (inc', fired) := Scan(inc, Some(policy), times[0]);
      ScanKeeps(inc, policy, t0, log, times[0]);
      assert Scans(times)[0] == ScanAt(times[0]) && Scans(times)[1..] == Scans(times[1..]);
      LateScansExhaust(inc', policy, t0, log + fired, times[1..]);
    }
  }

  lemma {:induction false} LateTimesExist(inc: Incident, policy: EscalationPolicy, t0: int, log: seq<Firing>, n: nat)
    returns (times: seq<int>)
    requires inc.exhausted || Alive(inc, policy, t0, log)
    requires policy.repeatLastStepEverySeconds > 0
    ensures |times| == n && AllLate(inc, policy, times)
    decreases n
  {
    if n == 0 {
      times := [];
    } else if inc.exhausted {
      times := seq(n, i => 0);
    } else {
      var now := ReadyAt(inc, policy);
      LateScanProgresses(inc, policy, t0, log, now);
      var (inc', fired) := Scan(inc, Some(policy), now);
      var rest := LateTimesExist(inc', policy, t0, log + fired, n - 1);
      times := [now] + rest;
      assert times[1..] == rest;
    }
  }

  /** A chain can report exhaustion exactly when its policy has a step numbered 1 and a positive
      repeat interval. With interval 0 it stops after its last step and nobody is told. */
  lemma ExhaustsIffRepeats(inc: Incident, policy: EscalationPolicy, t0: int)
    requires Attached(inc, policy, t0)
    ensures (exists ops :: Run(inc, policy, ops).0.exhausted)
       <==> FindStep(policy.steps, 1).Some? && policy.repeatLastStepEverySeconds > 0
  {
    assert Inv(inc, policy, t0, []);
    if FindStep(policy.steps, 1).Some? && policy.repeatLastStepEverySeconds > 0 {
      RemainingPositive(inc, policy, t0, []);
      var times := LateTimesExist(inc, policy, t0, [], Remaining(inc, policy));
      LateScansExhaust(inc, policy, t0, [], times);
    }
    forall ops | Run(inc, policy, ops).0.exhausted
      ensures FindStep(policy.steps, 1).Some? && policy.repeatLastStepEverySeconds > 0
    {
      RunKeeps(inc, policy, t0, [], ops);
      if FindStep(policy.steps, 1).None? { QuietWhenUnscheduled(inc, policy, ops); }
    }
  }

  // ----- Exactly when it fires ----------------------------------------------------------------

  // The time of the next firing that the last one has put down. After a repeat it is the wait of the
  // step numbered behind the repeated one, if there is such a step, though that one never comes.
  function NextAt(policy: EscalationPolicy, t0: int, log: seq<Firing>, c: nat, r: nat): int
    requires FindStep(policy.steps, c + 1).None? ==> 0 < c + r <= |log| && policy.steps != []
  {
    var next := FindStep(policy.steps, c + 1);
    if next.Some? then t0 + next.value.waitSeconds * 1000
    else
      var behind := FindStep(policy.steps, policy.steps[|policy.steps| - 1].step + 1);
      if r > 0 && behind.Some? then t0 + behind.value.waitSeconds * 1000
      else log[c + r - 1].at + policy.repeatLastStepEverySeconds * 1000
  }

  // No step is left, and nothing is to be repeated or reported.
  predicate Ended(policy: EscalationPolicy, c: nat, exhausted: bool) {
    exhausted || (FindStep(policy.steps, c + 1).None? && (c == 0 || policy.repeatLastStepEverySeconds <= 0))
  }

  predicate Timed(inc: Incident, policy: EscalationPolicy, t0: int, log: seq<Firing>)
    requires Inv(inc, policy, t0, log)
  {
    var (c, r) := (Current(inc.escalation), Repeats(inc.escalation));
    && (inc.escalation.nextFireAt.None? <==> Ended(policy, c, inc.exhausted))
    && (inc.escalation.nextFireAt.Some? && !Ended(policy, c, inc.exhausted) ==>
          inc.escalation.nextFireAt.value == NextAt(policy, t0, log, c, r))
  }

  lemma ScanTimed(inc: Incident, policy: EscalationPolicy, t0: int, log: seq<Firing>, now: int)
    requires Inv(inc, policy, t0, log) && Timed(inc, policy, t0, log)
    ensures var (inc', fired) := Scan(inc, Some(policy), now);
            Inv(inc', policy, t0, log + fired) && Timed(inc', policy, t0, log + fired)
  {
    hide FindStep, InOrder, Inv;
    ScanKeeps(inc, policy, t0, log, now);
    InvFacts(inc, policy, t0, log);
    FoundHasNumber(policy.steps, Current(inc.escalation) + 1);
    assert log + [] == log;
  }

  lemma InvFacts(inc: Incident, policy: EscalationPolicy, t0: int, log: seq<Firing>)
    requires Inv(inc, policy, t0, log)
    ensures var (esc, c, r) := (inc.escalation, Current(inc.escalation), Repeats(inc.escalation));
            && inc.requiresAck && esc.attachedAt == Some(t0) && c >= 0 && r >= 0
            && |log| == c + r + (if inc.exhausted then 1 else 0)
            && (r > 0 ==> FindStep(policy.steps, c + 1).None? && policy.repeatLastStepEverySeconds > 0 && c > 0)
            && (forall i :: 0 <= i < c + r ==> log[i].Fired?)
            && (c > 0 ==> policy.steps != [] && esc.lastFiredAt == Some(log[c + r - 1].at))
            && (esc.nextFireAt.Some? ==>
                  !inc.exhausted && (FindStep(policy.steps, c + 1).Some?
                                     || (c > 0 && policy.repeatLastStepEverySeconds > 0)))
  {
    LogSize(log, policy, t0, Current(inc.escalation), Repeats(inc.escalation), inc.exhausted);
    hide FindStep;
  }

  lemma ApplyTimed(inc: Incident, policy: EscalationPolicy, t0: int, log: seq<Firing>, op: ChainOp)
    requires Inv(inc, policy, t0, log) && Timed(inc, policy, t0, log)
    ensures var (inc', fired) := Apply(inc, policy, op);
            Inv(inc', policy, t0, log + fired) && Timed(inc', policy, t0, log + fired)
  {
    if op.ScanAt? {
      hide Inv, Scan, Timed;
      ScanTimed(inc, policy, t0, log, op.now);
    } else {
      hide InOrder, FindStep;
      assert log + [] == log;
    }
  }

  lemma {:induction false} RunTimed(inc: Incident, policy: EscalationPolicy, t0: int, log: seq<Firing>,
                                    ops: seq<ChainOp>)
    requires Inv(inc, policy, t0, log) && Timed(inc, policy, t0, log)
    ensures var (end, later) := Run(inc, policy, ops);
            Inv(end, policy, t0, log + later) && Timed(end, policy, t0, log + later)
    decreases |ops|
  {
    hide Inv, Apply, Timed;
    if ops == [] {
      assert log + [] == log;
    } else {
      var (inc', fired) := Apply(inc, policy, ops[0]);
      ApplyTimed(inc, policy, t0, log, ops[0]);
      RunTimed(inc', policy, t0, log + fired, ops[1..]);
      var later := Run(inc', policy, ops[1..]).1;
      assert (log + fired) + later == log + (fired + later);
    }
  }

  // What a scan at this time fires, given the firings so far.
  ghost predicate FiresAt(end: Incident, policy: EscalationPolicy, t0: int, log: seq<Firing>, now: int) {
    var (c, r) := (Current(end.escalation), Repeats(end.escalation));
    var fired := Scan(end, Some(policy), now).1;
    && c >= 0 && r >= 0
    && if (end.state != Open && end.state != Escalated) || Ended(policy, c, end.exhausted) then fired == []
       else if FindStep(policy.steps, c + 1).Some? then
         var step := FindStep(policy.steps, c + 1).value;
         fired == if now >= t0 + step.waitSeconds * 1000 then [Fired(now, step)] else []
       else
         && 0 < c + r <= |log| && policy.steps != []
         && var (last, at) := (policy.steps[|policy.steps| - 1], NextAt(policy, t0, log, c, r));
            if r < policy.maxRepeats then
              fired == if now >= at && now >= log[c + r - 1].at + policy.repeatLastStepEverySeconds * 1000
                       then [Fired(now, last)] else []
            else fired == if now >= at then [Exhausted(now)] else []
  }

  /** Exactly when a scan fires, and what, after any run of an attached chain that nobody has
      handled: the next step from the end of its wait on; once there is none, a repeat of the last
      listed step while there are repeats left, from the interval after the last firing on and not
      before the time put down; then the exhaustion at that time; and nothing any more once it has
      been reported, or when the interval is not positive, or when there is no step 1. */
  lemma FiresExactlyWhenDue(inc: Incident, policy: EscalationPolicy, t0: int, ops: seq<ChainOp>, now: int)
    requires Attached(inc, policy, t0)
    ensures var (end, log) := Run(inc, policy, ops); FiresAt(end, policy, t0, log, now)
  {
    hide *;
    Starts(inc, policy, t0);
    StartsTimed(inc, policy, t0);
    RunTimed(inc, policy, t0, [], ops);
    var (end, log) := Run(inc, policy, ops);
    assert [] + log == log;
    FiresWhenTimed(end, policy, t0, log, now);
  }

  lemma StartsTimed(inc: Incident, policy: EscalationPolicy, t0: int)
    requires Attached(inc, policy, t0) && Inv(inc, policy, t0, [])
    ensures Timed(inc, policy, t0, [])
  {
  }

  lemma FiresWhenTimed(end: Incident, policy: EscalationPolicy, t0: int, log: seq<Firing>, now: int)
    requires Inv(end, policy, t0, log) && Timed(end, policy, t0, log)
    ensures FiresAt(end, policy, t0, log, now)
  {
    var (c, r) := (Current(end.escalation), Repeats(end.escalation));
    LogSize(log, policy, t0, c, r, end.exhausted);
    FoundHasNumber(policy.steps, c + 1);
    hide FindStep, InOrder;
  }

  /** So a repeat can be late: with steps 1, 6 and 5, listed so, and a wait of an hour for step 6,
      the second repeat waits for that hour, although the interval is a minute. */
  lemma RepeatWaitsForUnusedStep(inc: Incident, targets: seq<Target>)
    requires Attached(inc, EscalationPolicy("p", [EscalationStep(1, 0, targets), EscalationStep(6, 3600, targets),
                                                  EscalationStep(5, 0, targets)], 60, 4), 0)
    ensures var policy := EscalationPolicy("p", [EscalationStep(1, 0, targets), EscalationStep(6, 3600, targets),
                                                 EscalationStep(5, 0, targets)], 60, 4);
            var end := Run(inc, policy, [ScanAt(0), ScanAt(60000)]).0;
            && Repeats(end.escalation) == 1
            && Scan(end, Some(policy), 3599999).1 == [] && |Scan(end, Some(policy), 3600000).1| == 1
  {
    var policy := EscalationPolicy("p", [EscalationStep(1, 0, targets), EscalationStep(6, 3600, targets),
                                         EscalationStep(5, 0, targets)], 60, 4);
    FindOf3(policy.steps);
    hide FindStep;
    var one := Scan(inc, Some(policy), 0).0;
    var two := Scan(one, Some(policy), 60000).0;
    RunOfTwo(inc, policy, 0, 60000);
  }

  lemma FindOf3(steps: seq<EscalationStep>)
    requires |steps| == 3
    ensures forall n :: FindStep(steps, n) == if steps[0].step == n then Some(steps[0])
                                              else if steps[1].step == n then Some(steps[1])
                                              else if steps[2].step == n then Some(steps[2]) else None
  {
    forall n ensures FindStep(steps, n) == if steps[0].step == n then Some(steps[0])
                                           else if steps[1].step == n then Some(steps[1])
                                           else if steps[2].step == n then Some(steps[2]) else None {
      var (two, one) := (steps[1..], [steps[2]]);
      assert two[1..] == one && one[1..] == [];
      assert FindStep(one, n) == if steps[2].step == n then Some(steps[2]) else None;
      assert FindStep(two, n) == if steps[1].step == n then Some(steps[1]) else FindStep(one, n);
    }
  }

  lemma RunOfTwo(inc: Incident, policy: EscalationPolicy, t1: int, t2: int)
    ensures Run(inc, policy, [ScanAt(t1), ScanAt(t2)]).0
         == Scan(Scan(inc, Some(policy), t1).0, Some(policy), t2).0
  {
    hide Scan;
    var (one, two) := ([ScanAt(t2)], [ScanAt(t1), ScanAt(t2)]);
    assert two[1..] == one && one[1..] == [];
    var mid := Scan(inc, Some(policy), t1).0;
    assert Run(mid, policy, one).0 == Run(Scan(mid, Some(policy), t2).0, policy, []).0;
  }

  // The chain critical incidents get when the organization has defined none.
  function DefaultEscalationPolicy(slack: Option<string>): EscalationPolicy {
    var step0 := if Truthy(slack) then [Target(Slack, slack.value, Some("incident_card"))] else [];
    EscalationPolicy("esc_bootstrap_default", [EscalationStep(0, 0, step0), EscalationStep(1, 900, step0)], 3600, 4)
  }

  /** The immediate step 0 of the default chain never fires: the first notification comes with
      step 1, not before 900 seconds are over. */
  lemma StepZeroNeverFires(inc: Incident, slack: Option<string>, t0: int, ops: seq<ChainOp>, i: nat)
    requires Attached(inc, DefaultEscalationPolicy(slack), t0)
    requires i < |Run(inc, DefaultEscalationPolicy(slack), ops).1|
    ensures var f := Run(inc, DefaultEscalationPolicy(slack), ops).1[i];
            (f.Fired? ==> f.step.step == 1) && (i == 0 ==> f.Fired? && f.at >= t0 + 900000)
  {
    var policy := DefaultEscalationPolicy(slack);
    var (end, log) := Run(inc, policy, ops);
    ChainFiresInOrder(inc, policy, t0, ops);
    hide Run, Attached, DefaultEscalationPolicy;
    FoundHasNumber(policy.steps, i + 1);
    DefaultSteps(slack);
  }

  lemma DefaultSteps(slack: Option<string>)
    ensures var p := DefaultEscalationPolicy(slack);
            && |p.steps| == 2 && p.steps[1].step == 1 && p.steps[1].waitSeconds == 900
            && forall n :: n >= 1 ==> FindStep(p.steps, n) == if n == 1 then Some(p.steps[1]) else None
  {
    var steps := DefaultEscalationPolicy(slack).steps;
    forall n | n >= 1 ensures FindStep(steps, n) == if n == 1 then Some(steps[1]) else None {
      assert steps[1..] == [steps[1]] && [steps[1]][1..] == [];
      assert FindStep([], n) == None;
      assert FindStep([steps[1]], n) == if n == 1 then Some(steps[1]) else None;
    }
  }

  // ----- Turns split between their read and their write -----------------------------------------

  // What a turn decides on the incident it has read.
  datatype Turn = Idle | Park | Fire(out: Outcome)

  function Decide(read: Incident, policy: Option<EscalationPolicy>, now: int): (t: Turn)
    ensures t.Fire? ==> policy.Some? && !t.out.NotYet?
  {
    if !Due(read, now) then Idle
    else if policy.None? then Park
    else
      var out := NextEscalationState(read, policy.value, now);
      if out.NotYet? then Idle else Fire(out)
  }

  // What it writes later, on the incident as it is by then.
  function Commit(inc: Incident, read: Incident, policy: Option<EscalationPolicy>, now: int): Incident {
    match Decide(read, policy, now)
    case Idle => inc
    case Park => inc.(escalation := read.escalation.(nextFireAt := None))
    case Fire(out) => Written(inc, out, policy.value, now)
  }

  function FiringsOf(read: Incident, policy: Option<EscalationPolicy>, now: int): seq<Firing> {
    match Decide(read, policy, now) case Fire(out) => Fires(out, now) case _ => []
  }

  // Undisturbed, the two parts are a scan's turn.
  lemma ScanIsBothParts(inc: Incident, policy: Option<EscalationPolicy>, now: int)
    ensures Scan(inc, policy, now) == (Commit(inc, inc, policy, now), FiringsOf(inc, policy, now))
  {
    hide NextEscalationState, Scheduled;
  }

  // The turn has another one to come: a further step, or a repeat.
  predicate MoreToCome(t: Turn, policy: EscalationPolicy) {
    t.Fire? && t.out.Step?
    && (FindStep(policy.steps, t.out.step.step + 1).Some? || policy.repeatLastStepEverySeconds > 0)
  }

  lemma ScheduledIff(out: Outcome, policy: EscalationPolicy, now: int)
    requires out.Step? && out.next.nextFireAt.None?
    ensures Scheduled(out, policy, now).nextFireAt.Some?
       <==> FindStep(policy.steps, out.step.step + 1).Some? || policy.repeatLastStepEverySeconds > 0
  {
  }

  lemma NextUnscheduled(inc: Incident, policy: EscalationPolicy, now: int)
    ensures var out := NextEscalationState(inc, policy, now); !out.NotYet? ==> out.next.nextFireAt.None?
  {
  }

  /** An acknowledgement or resolution between the loop's read and its write stands if and only if
      the turn fires nothing. If it fires, the incident is escalated again, and it comes up for
      another notification exactly when there is a further step or a repeat interval. */
  lemma AckBetweenReadAndWriteIsLost(inc: Incident, policy: Option<EscalationPolicy>, now: int, op: ChainOp)
    requires Due(inc, now) && !op.ScanAt?
    ensures var (turn, w) := (Decide(inc, policy, now), Commit(Handled(inc, op), inc, policy, now));
            && (w.state == Handled(inc, op).state <==> !turn.Fire?)
            && (turn.Fire? ==> w.state == Escalated)
            && ((exists later :: Due(w, later)) <==> policy.Some? && MoreToCome(turn, policy.value))
  {
    var (turn, w) := (Decide(inc, policy, now), Commit(Handled(inc, op), inc, policy, now));
    if turn.Fire? { NextUnscheduled(inc, policy.value, now); }
    hide NextEscalationState, Scheduled, FindStep;
    if turn.Fire? && turn.out.Step? {
      ScheduledIff(turn.out, policy.value, now);
      if w.escalation.nextFireAt.Some? { assert Due(w, w.escalation.nextFireAt.value); }
    }
  }

  // Two scans that both read before either writes: where the incident ends up, and what has fired.
  function Overlapped(inc: Incident, policy: EscalationPolicy, now1: int, now2: int): (Incident, seq<Firing>) {
    (Commit(Commit(inc, inc, Some(policy), now1), inc, Some(policy), now2),
     FiringsOf(inc, Some(policy), now1) + FiringsOf(inc, Some(policy), now2))
  }

  // What fires at one time fires at every later one, the same step.
  lemma LaterFiresToo(inc: Incident, policy: EscalationPolicy, now1: int, now2: int)
    requires now1 <= now2 && Decide(inc, Some(policy), now1).Fire?
    ensures var (a, b) := (Decide(inc, Some(policy), now1), Decide(inc, Some(policy), now2));
            b.Fire? && (a.out.Step? <==> b.out.Step?) && (a.out.Step? ==> a.out.step == b.out.step)
  {
    hide FindStep;
  }

  lemma InvSize(inc: Incident, policy: EscalationPolicy, t0: int, log: seq<Firing>)
    requires Inv(inc, policy, t0, log)
    ensures |log| == Current(inc.escalation) + Repeats(inc.escalation) + (if inc.exhausted then 1 else 0)
  {
    LogSize(log, policy, t0, Current(inc.escalation), Repeats(inc.escalation), inc.exhausted);
  }

  // However often the write is repeated, it counts once.
  lemma CountsOnce(inc: Incident, policy: EscalationPolicy, t0: int, log: seq<Firing>, cur: Incident, now: int)
    requires Inv(inc, policy, t0, log) && Decide(inc, Some(policy), now).Fire?
    requires cur.exhausted ==> Decide(inc, Some(policy), now).out.UsedUp?
    ensures var w := Commit(cur, inc, Some(policy), now);
            Current(w.escalation) + Repeats(w.escalation) + (if w.exhausted then 1 else 0) == |log| + 1
  {
    InvSize(inc, policy, t0, log);
    FoundHasNumber(policy.steps, Current(inc.escalation) + 1);
    hide FindStep, InOrder;
  }

  lemma CommitExhausts(inc: Incident, policy: EscalationPolicy, t0: int, log: seq<Firing>, now: int)
    requires Inv(inc, policy, t0, log) && Decide(inc, Some(policy), now).Fire?
    ensures Commit(inc, inc, Some(policy), now).exhausted ==> Decide(inc, Some(policy), now).out.UsedUp?
  {
    hide FindStep, InOrder, NextEscalationState, Scheduled;
  }

  /** Two scans that overlap keep the promised order of firings if and only if the earlier of them
      fires nothing. Otherwise both fire the same step, or both report exhaustion, and the state
      counts one firing only. */
  lemma OverlappingScansFireTwice(inc: Incident, policy: EscalationPolicy, t0: int, log: seq<Firing>, now1: int,
                                  now2: int)
    requires Inv(inc, policy, t0, log) && now1 <= now2
    ensures var (end, fired) := Overlapped(inc, policy, now1, now2);
            && (Inv(end, policy, t0, log + fired) <==> Scan(inc, Some(policy), now1).1 == [])
            && (Scan(inc, Some(policy), now1).1 != [] ==>
                  |fired| == 2 && (fired[0].Fired? <==> fired[1].Fired?)
                  && (fired[0].Fired? ==> fired[0].step == fired[1].step))
  {
    var (end, fired) := Overlapped(inc, policy, now1, now2);
    ScanIsBothParts(inc, Some(policy), now1);
    if Decide(inc, Some(policy), now1).Fire? {
      LaterFiresToo(inc, policy, now1, now2);
      CommitExhausts(inc, policy, t0, log, now1);
      CountsOnce(inc, policy, t0, log, Commit(inc, inc, Some(policy), now1), now2);
      hide Inv, Decide, Commit, InOrder;
      if Inv(end, policy, t0, log + fired) { InvSize(end, policy, t0, log + fired); }
    } else {
      ScanIsBothParts(inc, Some(policy), now2);
      ScanKeeps(inc, policy, t0, log, now2);
      hide Inv, Scan;
      assert fired == [] + FiringsOf(inc, Some(policy), now2) == FiringsOf(inc, Some(policy), now2);
    }
  }
}
