/**
 Escalation chains in the store: what Escalate proves of one incident's chain holds of every
 incident along every run of the pipeline, with ingests, orders, retries, acknowledgements and
 policy changes in between.
 */
module HeraldChains {
  import opened Wrappers
  import opened AlertTypes
  import opened AlertAuthz
  import Dedup
  import opened Routing
  import opened Herald
  import opened HeraldRuns
  import opened HeraldGuarantees
  import Escalate

  // ----- The escalation loop, incident by incident ----------------------------------------------------

  lemma TurnIsScan(s: State, cfg: Config, i: nat, now: int)
    requires i < |s.incidents| && Escalate.Due(s.incidents[i], now)
    ensures var s' := EscalationTurn(s, cfg, i, now);
            && s'.incidents == s.incidents[i := Escalate.Scan(s.incidents[i], ChainOf(s, s.incidents[i]), now).0]
            && s'.chains == s.chains
  {
    hide FireStep, FireExhausted, Escalate.NextEscalationState, Escalate.Written, Escalate.Due, StoredChain;
    var inc := s.incidents[i];
    if ChainOf(s, inc).Some? {
      var out := Escalate.NextEscalationState(inc, ChainOf(s, inc).value, now);
      match out
      case NotYet =>
      case Step(step, _) => FiringKeepsRows(s, cfg, i, step);
      case UsedUp(_) => ExhaustionKeepsRows(s, cfg, i);
    }
  }

  lemma FiringKeepsRows(s: State, cfg: Config, i: nat, step: EscalationStep)
    requires i < |s.incidents|
    ensures FireStep(s, cfg, i, step).incidents == s.incidents && FireStep(s, cfg, i, step).chains == s.chains
  {
  }

  lemma ExhaustionKeepsRows(s: State, cfg: Config, i: nat)
    requires i < |s.incidents|
    ensures FireExhausted(s, cfg, i).incidents == s.incidents && FireExhausted(s, cfg, i).chains == s.chains
  {
  }

  lemma {:induction false} TurnsAreScans(s: State, cfg: Config, due: seq<nat>, now: int, i: nat)
    requires DueOnce(due, s.incidents, now) && Within(due, |s.incidents|) && i < |s.incidents|
    ensures var s' := EscalationTurns(s, cfg, due, now);
            |s'.incidents| == |s.incidents|
            && s'.incidents[i] == if i in due then Escalate.Scan(s.incidents[i], ChainOf(s, s.incidents[i]), now).0
                                  else s.incidents[i]
    decreases |due|
  {
    hide EscalationTurn, Escalate.Due, Escalate.Scan;
    if due != [] {
      TurnIsScan(s, cfg, due[0], now);
      var s1 := EscalationTurn(s, cfg, due[0], now);
      assert due == [due[0]] + due[1..];
      assert DueOnce(due[1..], s1.incidents, now);
      TurnsAreScans(s1, cfg, due[1..], now, i);
    }
  }

  /** One pass of the escalation loop gives every incident exactly one turn of its own chain. */
  lemma LoopScansEveryIncident(s: State, cfg: Config, now: int, i: nat)
    requires i < |s.incidents|
    ensures |EscalationScan(s, cfg, now).incidents| == |s.incidents|
    ensures EscalationScan(s, cfg, now).chains == s.chains
    ensures EscalationScan(s, cfg, now).incidents[i] == Escalate.Scan(s.incidents[i], ChainOf(s, s.incidents[i]), now).0
  {
    hide EscalationTurns;
    DueIncidentsOnce(s.incidents, now, 0);
    TurnsAreScans(s, cfg, DueIncidents(s.incidents, now, 0), now, i);
    TurnsKeepChains(s, cfg, DueIncidents(s.incidents, now, 0), now);
  }

  lemma {:induction false} TurnsKeepChains(s: State, cfg: Config, due: seq<nat>, now: int)
    requires DueOnce(due, s.incidents, now) && Within(due, |s.incidents|)
    ensures EscalationTurns(s, cfg, due, now).chains == s.chains
    decreases |due|
  {
    hide EscalationTurn, Escalate.Due, Escalate.Scan;
    if due != [] {
      TurnIsScan(s, cfg, due[0], now);
      var s1 := EscalationTurn(s, cfg, due[0], now);
      assert DueOnce(due[1..], s1.incidents, now);
      TurnsKeepChains(s1, cfg, due[1..], now);
    }
  }

  // ----- What the other steps leave alone ---------------------------------------------------------------

  predicate Handled(inc: Incident) { inc.state == Acknowledged || inc.state == Resolved }

  // A chain once attached is not touched, and an incident that was handled stays so.
  predicate ChainKept(a: Incident, b: Incident) {
    && b.orgId == a.orgId && b.exhausted == a.exhausted && (a.requiresAck ==> b.requiresAck)
    && (Truthy(a.escalation.policyId) ==> b.escalation == a.escalation) && (Handled(a) ==> Handled(b))
  }

  predicate ChainsKept(s: State, s': State) {
    && |s.incidents| <= |s'.incidents| && s'.chains == s.chains
    && forall i :: 0 <= i < |s.incidents| ==> ChainKept(s.incidents[i], s'.incidents[i])
  }

  lemma KeptNothing(s: State)
    ensures ChainsKept(s, s)
  {
  }

  lemma KeptTwice(a: State, b: State, c: State)
    requires ChainsKept(a, b) && ChainsKept(b, c)
    ensures ChainsKept(a, c)
  {
    forall i | 0 <= i < |a.incidents| ensures ChainKept(a.incidents[i], c.incidents[i]) {
      assert ChainKept(a.incidents[i], b.incidents[i]) && ChainKept(b.incidents[i], c.incidents[i]);
    }
  }

  // Only the incidents matter, and the chains.
  lemma KeptBesides(a: State, a': State, b: State)
    requires ChainsKept(a', b) && a'.incidents == a.incidents && a'.chains == a.chains
    ensures ChainsKept(a, b)
  {
    hide ChainKept;
  }

  lemma CorrelateKept(s: State, e: Event, severity: Severity, now: int)
    requires e.eventId in s.alerts
    ensures ChainsKept(s, Correlate(s, e, severity, now).0)
  {
    hide MaxSeverity, CorrelationKey, FindOpen, NewIncident;
  }

  lemma RouteKept(s: State, cfg: Config, i: nat, now: int, stillFiring: bool)
    requires i < |s.incidents|
    ensures ChainsKept(s, RouteAndQueue(s, cfg, i, now, stillFiring).0)
  {
    hide Decided, ChainFor, Retemplated, DeliveriesTo, Escalate.InitialEscalationState;
  }

  lemma ProcessKept(s: State, cfg: Config, id: string, now: int, dedupUp: bool)
    requires id in s.alerts && s.alerts[id].event.eventId == id
    ensures ChainsKept(s, ProcessStored(s, cfg, id, now, dedupUp).0)
  {
    hide Dedup.DedupCheck, RouteAndQueue, Correlate, ChainsKept;
    var row := s.alerts[id];
    var (seen', occurrence, degraded) := Dedup.DedupCheck(s.seen, row.event, now, dedupUp);
    var s1 := s.(seen := seen', alerts := s.alerts[id := row.(occurrence := occurrence)]);
    KeptNothing(s);
    if occurrence == Dedup.Duplicate {
      KeptSame(s, ProcessStored(s, cfg, id, now, dedupUp).0);
    } else {
      CorrelateKept(s1, row.event, row.severity, now);
      var (s2, i) := Correlate(s1, row.event, row.severity, now);
      CorrelatedWithin(s1, row.event, row.severity, now);
      RouteKept(s2, cfg, i, now, occurrence == Dedup.Renotify);
      var s3 := RouteAndQueue(s2, cfg, i, now, occurrence == Dedup.Renotify).0;
      KeptTwice(s1, s2, s3);
      KeptBesides(s, s1, s3);
    }
  }

  lemma KeptSame(s: State, s': State)
    requires s'.incidents == s.incidents && s'.chains == s.chains
    ensures ChainsKept(s, s')
  {
  }

  lemma CorrelatedWithin(s: State, e: Event, severity: Severity, now: int)
    requires e.eventId in s.alerts
    ensures Correlate(s, e, severity, now).1 < |Correlate(s, e, severity, now).0.incidents|
  {
    hide MaxSeverity, CorrelationKey, NewIncident;
  }

  lemma AcceptKept(s: State, cfg: Config, row: Alert, now: int, dedupUp: bool)
    requires row.event.eventId !in s.alerts
    ensures ChainsKept(s, ProcessStored(Insert(s, row), cfg, row.event.eventId, now, dedupUp).0)
  {
    hide ProcessStored, ChainsKept;
    var s1 := Insert(s, row);
    ProcessKept(s1, cfg, row.event.eventId, now, dedupUp);
    KeptBesides(s, s1, ProcessStored(s1, cfg, row.event.eventId, now, dedupUp).0);
  }

  lemma IngestAsKept(s: State, cfg: Config, e: Event, verdict: Verdict, token: Option<string>, now: int, dedupUp: bool)
    ensures ChainsKept(s, IngestAs(s, cfg, e, verdict, token, now, dedupUp).0)
  {
    hide ProcessStored, ChainsKept, EffectiveSeverity;
    KeptNothing(s);
    var s' := IngestAs(s, cfg, e, verdict, token, now, dedupUp).0;
    match verdict
    case Rejected(_) => KeptSame(s, s');
    case Unavailable => KeptSame(s, s');
    case _ =>
      if e.eventId !in s.alerts {
        var authz := if verdict == Verified then Cleared else Unneeded;
        AcceptKept(s, cfg, Row(e, now, Shown, authz, None), now, dedupUp);
      }
  }

  lemma IngestKept(s: State, cfg: Config, e: Event, token: Option<string>, lookup: Option<Severity>,
                   check: TokenCheck, now: int, dedupUp: bool)
    ensures ChainsKept(s, Ingest(s, cfg, e, token, lookup, check, now, dedupUp).0)
  {
    hide IngestAs, Verify, ChainsKept;
    KeptNothing(s);
    IngestAsKept(s, cfg, Enriched(e, lookup), Verify(Enriched(e, lookup), token, check), token, now, dedupUp);
  }

  lemma RetryKept(s: State, cfg: Config, id: string, check: TokenCheck, now: int, dedupUp: bool)
    requires id in s.alerts && s.alerts[id].event.eventId == id
    ensures ChainsKept(s, RetryTurn(s, cfg, id, check, now, dedupUp))
  {
    hide ProcessStored, Verify, ChainsKept;
    var (row, s') := (s.alerts[id], RetryTurn(s, cfg, id, check, now, dedupUp));
    match Verify(row.event, row.heldToken, check)
    case Unavailable => KeptSame(s, s');
    case Rejected(_) => KeptSame(s, s');
    case verdict =>
      var authz := if verdict == Verified then Cleared else Unneeded;
      var s1 := SetAlert(s, id, row.(authz := authz, heldToken := None, retryAt := None));
      ProcessKept(s1, cfg, id, now, dedupUp);
      KeptBesides(s, s1, s');
  }

  lemma {:induction false} RetriesKept(s: State, cfg: Config, due: seq<string>, checks: Checks, now: int, dedupUp: bool)
    ensures ChainsKept(s, RetryTurns(s, cfg, due, checks, now, dedupUp))
    decreases |due|
  {
    hide RetryTurn, ChainsKept;
    KeptNothing(s);
    if due != [] {
      if due[0] in s.alerts && s.alerts[due[0]].event.eventId == due[0] {
        var s1 := RetryTurn(s, cfg, due[0], checks(due[0]), now, dedupUp);
        RetryKept(s, cfg, due[0], checks(due[0]), now, dedupUp);
        RetriesKept(s1, cfg, due[1..], checks, now, dedupUp);
        KeptTwice(s, s1, RetryTurns(s1, cfg, due[1..], checks, now, dedupUp));
      } else {
        RetriesKept(s, cfg, due[1..], checks, now, dedupUp);
      }
    }
  }

  lemma OverrideKept(s: State, cfg: Config, row: Alert, overrides: seq<string>, now: int)
    requires row.event.eventId !in s.alerts
    ensures ChainsKept(s, NotifyAccepted(Insert(s, row), cfg, overrides, row.event.eventId, now).0)
  {
    hide Correlate, Split, EgressFor, OverrideTargets, DeliveriesTo, ChainsKept;
    var s1 := Insert(s, row);
    CorrelateKept(s1, row.event, row.severity, now);
    CorrelatedWithin(s1, row.event, row.severity, now);
    var s2 := Correlate(s1, row.event, row.severity, now).0;
    var s3 := NotifyAccepted(s1, cfg, overrides, row.event.eventId, now).0;
    KeptSame(s2, s3);
    KeptTwice(s1, s2, s3);
    KeptBesides(s, s1, s3);
  }

  lemma NotifyKept(s: State, cfg: Config, o: Order, eventId: string, lookup: Option<Severity>, check: TokenCheck,
                   now: int, dedupUp: bool)
    ensures ChainsKept(s, Notify(s, cfg, o, eventId, lookup, check, now, dedupUp).0)
  {
    hide Ingest, Verify, NotifyAccepted, ChainsKept, EffectiveSeverity;
    KeptNothing(s);
    var e := OrderEvent(o, eventId, now);
    IngestKept(s, cfg, e, o.token, lookup, check, now, dedupUp);
    if o.channelOverride.Some? && eventId !in s.alerts {
      var e' := Enriched(e, lookup);
      OverrideKept(s, cfg, Row(e', now, Shown, Cleared, None), o.channelOverride.value, now);
      OverrideKept(s, cfg, Row(e', now, Shown, Unneeded, None), o.channelOverride.value, now);
    }
  }

  // ----- Chains along a run -------------------------------------------------------------------------------

  // What a step fires for incident i.
  function FiredIn(s: State, op: Op, i: nat): seq<Escalate.Firing> {
    if op.EscalateOp? && i < |s.incidents| then Escalate.Scan(s.incidents[i], ChainOf(s, s.incidents[i]), op.now).1
    else []
  }

  // What `more` fires for it, after `before`.
  function FiredAlong(cfg: Config, before: seq<Op>, more: seq<Op>, i: nat): seq<Escalate.Firing> {
    if more == [] then []
    else
      var n := |more| - 1;
      FiredAlong(cfg, before, more[..n], i) + FiredIn(Run(cfg, before + more[..n]), more[n], i)
  }

  // The chain is stored, under its organization and id.
  predicate Stored(s: State, org: string, chain: EscalationPolicy) {
    StoredChain(s, org, chain.policyId) == Some(chain)
  }

  // The step does not put another chain in its place.
  predicate Spares(op: Op, org: string, chain: EscalationPolicy) {
    op.PutChain? && op.org == org && op.chain.policyId == chain.policyId ==> op.chain == chain
  }

  // The incident is in the state its chain's firings have led to.
  predicate OnChain(s: State, i: nat, org: string, chain: EscalationPolicy, t0: int, log: seq<Escalate.Firing>) {
    && i < |s.incidents| && s.incidents[i].orgId == org && Stored(s, org, chain)
    && s.incidents[i].escalation.policyId == Some(chain.policyId)
    && Escalate.Inv(s.incidents[i], chain, t0, log)
  }

  lemma InvCarries(a: Incident, b: Incident, chain: EscalationPolicy, t0: int, log: seq<Escalate.Firing>)
    requires Escalate.Inv(a, chain, t0, log) && Truthy(a.escalation.policyId) && ChainKept(a, b)
    ensures Escalate.Inv(b, chain, t0, log)
  {
    hide Escalate.InOrder, Escalate.FindStep;
  }

  lemma KeptOnChain(s: State, s': State, i: nat, org: string, chain: EscalationPolicy, t0: int,
                    log: seq<Escalate.Firing>)
    requires ChainsKept(s, s') && chain.policyId != "" && OnChain(s, i, org, chain, t0, log)
    ensures OnChain(s', i, org, chain, t0, log)
  {
    hide Escalate.Inv;
    InvCarries(s.incidents[i], s'.incidents[i], chain, t0, log);
  }

  lemma ScanKeepsId(inc: Incident, chain: EscalationPolicy, now: int)
    ensures var inc' := Escalate.Scan(inc, Some(chain), now).0;
            inc'.escalation.policyId == inc.escalation.policyId && inc'.orgId == inc.orgId
            && (Handled(inc) ==> inc' == inc)
  {
    hide Escalate.FindStep;
  }

  // Every step but a scan of the escalation loop and a change of chains leaves chains alone.
  lemma OthersKeep(s: State, cfg: Config, op: Op)
    requires !op.EscalateOp? && !op.PutChain?
    ensures ChainsKept(s, After(s, cfg, op))
  {
    hide Ingest, Notify, RetryTurns, ChainsKept;
    match op
    case IngestOp(event, token, lookup, check, now, up) => IngestKept(s, cfg, event, token, lookup, check, now, up);
    case NotifyOp(order, id, lookup, check, now, up) => NotifyKept(s, cfg, order, id, lookup, check, now, up);
    case RetryOp(due, checks, now, up) => RetriesKept(s, cfg, due, checks, now, up);
    case AckOp(i, nonce, now) => AckKept(s, i, nonce, now);
    case ResolveOp(i) => ResolveKept(s, i);
    case _ => KeptSame(s, After(s, cfg, op));
  }

  lemma AckKept(s: State, i: nat, nonce: string, now: int)
    ensures ChainsKept(s, AckIncident(s, i, nonce, now).0)
  {
  }

  lemma ResolveKept(s: State, i: nat)
    ensures ChainsKept(s, ResolveIncident(s, i))
  {
  }

  lemma StepOnChain(s: State, cfg: Config, op: Op, i: nat, org: string, chain: EscalationPolicy, t0: int,
                    log: seq<Escalate.Firing>)
    requires OnChain(s, i, org, chain, t0, log) && chain.policyId != "" && Spares(op, org, chain)
    ensures OnChain(After(s, cfg, op), i, org, chain, t0, log + FiredIn(s, op, i))
  {
    hide Escalate.Inv, Escalate.Scan, ChainsKept;
    var inc := s.incidents[i];
    if op.EscalateOp? {
      hide EscalationScan;
      assert ChainOf(s, inc) == Some(chain);
      LoopScansEveryIncident(s, cfg, op.now, i);
      Escalate.ScanKeeps(inc, chain, t0, log, op.now);
      ScanKeepsId(inc, chain, op.now);
    } else {
      assert log + [] == log;
      if !op.PutChain? {
        OthersKeep(s, cfg, op);
        hide After;
        KeptOnChain(s, After(s, cfg, op), i, org, chain, t0, log);
      }
    }
  }

  lemma RunLast(cfg: Config, ops: seq<Op>)
    requires ops != []
    ensures Run(cfg, ops) == After(Run(cfg, ops[..|ops| - 1]), cfg, ops[|ops| - 1])
  {
    hide After;
  }

  lemma RunStep(cfg: Config, before: seq<Op>, more: seq<Op>)
    requires more != []
    ensures var n := |more| - 1;
            Run(cfg, before + more) == After(Run(cfg, before + more[..n]), cfg, more[n])
  {
    hide After, Run;
    var (n, all) := (|more| - 1, before + more);
    RunLast(cfg, all);
    assert all[..|all| - 1] == before + more[..n] && all[|all| - 1] == more[n];
  }

  lemma {:induction false} RunOnChain(cfg: Config, before: seq<Op>, more: seq<Op>, i: nat, org: string,
                                      chain: EscalationPolicy, t0: int)
    requires OnChain(Run(cfg, before), i, org, chain, t0, []) && chain.policyId != ""
    requires forall op <- more :: Spares(op, org, chain)
    ensures OnChain(Run(cfg, before + more), i, org, chain, t0, FiredAlong(cfg, before, more, i))
    decreases |more|
  {
    hide OnChain, After, FiredIn, Spares, Run;
    if more == [] {
      assert before + more == before;
    } else {
      var n := |more| - 1;
      RunStep(cfg, before, more);
      RunOnChain(cfg, before, more[..n], i, org, chain, t0);
      assert more[n] in more;
      StepOnChain(Run(cfg, before + more[..n]), cfg, more[n], i, org, chain, t0, FiredAlong(cfg, before, more[..n], i));
    }
  }

  // The chain has just been attached to the incident, as routing does.
  predicate JustAttached(s: State, i: nat, chain: EscalationPolicy, t0: int) {
    && i < |s.incidents| && s.incidents[i].requiresAck && !s.incidents[i].exhausted
    && s.incidents[i].escalation == Escalate.InitialEscalationState(chain, t0)
    && Stored(s, s.incidents[i].orgId, chain) && chain.policyId != ""
  }

  lemma AttachedOnChain(s: State, i: nat, chain: EscalationPolicy, t0: int)
    requires JustAttached(s, i, chain, t0)
    ensures OnChain(s, i, s.incidents[i].orgId, chain, t0, []) && chain.policyId != ""
  {
    Escalate.Starts(s.incidents[i].(state := Open), chain, t0);
    hide Escalate.FindStep, Escalate.InOrder;
  }

  /** On every run of the pipeline, whatever happens in between, an incident to which a stored chain
      was attached hears of its steps in order, each after its wait, then of the repeats, and of the
      exhaustion at most once, last, and only when all are used up; as long as the chain is not
      replaced. */
  lemma StoreChainsFireInOrder(cfg: Config, before: seq<Op>, more: seq<Op>, i: nat, chain: EscalationPolicy, t0: int)
    requires JustAttached(Run(cfg, before), i, chain, t0)
    requires forall op <- more :: Spares(op, Run(cfg, before).incidents[i].orgId, chain)
    ensures i < |Run(cfg, before + more).incidents|
    ensures var (inc, log) := (Run(cfg, before + more).incidents[i], FiredAlong(cfg, before, more, i));
            var (c, r) := (Escalate.Current(inc.escalation), Escalate.Repeats(inc.escalation));
            && 0 <= c <= |chain.steps| && 0 <= r <= Escalate.Max0(chain.maxRepeats)
            && Escalate.InOrder(log, chain, t0, c, r, inc.exhausted)
            && (inc.exhausted ==> Escalate.FindStep(chain.steps, c + 1).None? && r == Escalate.Max0(chain.maxRepeats))
  {
    hide Run, FiredAlong, Spares, JustAttached, Escalate.Inv, Escalate.InOrder, Escalate.FindStep, Stored;
    AttachedOnChain(Run(cfg, before), i, chain, t0);
    var org := Run(cfg, before).incidents[i].orgId;
    RunOnChain(cfg, before, more, i, org, chain, t0);
    Escalate.InvBounds(Run(cfg, before + more).incidents[i], chain, t0, FiredAlong(cfg, before, more, i));
  }

  // ----- Silence after handling -----------------------------------------------------------------------------

  lemma StepStaysHandled(s: State, cfg: Config, op: Op, i: nat)
    requires i < |s.incidents| && Handled(s.incidents[i])
    ensures i < |After(s, cfg, op).incidents| && Handled(After(s, cfg, op).incidents[i]) && FiredIn(s, op, i) == []
  {
    if op.EscalateOp? {
      LoopScansEveryIncident(s, cfg, op.now, i);
      hide EscalationScan, ChainOf;
    } else if op.PutChain? {
    } else {
      OthersKeep(s, cfg, op);
      hide After;
    }
  }

  /** On every run of the pipeline, once an incident is acknowledged or resolved it stays so and
      nothing fires for it any more, whatever alerts still join it. */
  lemma {:induction false} HandledStaysQuiet(cfg: Config, before: seq<Op>, more: seq<Op>, i: nat)
    requires i < |Run(cfg, before).incidents| && Handled(Run(cfg, before).incidents[i])
    ensures i < |Run(cfg, before + more).incidents| && Handled(Run(cfg, before + more).incidents[i])
    ensures FiredAlong(cfg, before, more, i) == []
    decreases |more|
  {
    hide After, FiredIn, Handled, Run;
    if more == [] {
      assert before + more == before;
    } else {
      var n := |more| - 1;
      RunStep(cfg, before, more);
      HandledStaysQuiet(cfg, before, more[..n], i);
      StepStaysHandled(Run(cfg, before + more[..n]), cfg, more[n], i);
    }
  }
}
