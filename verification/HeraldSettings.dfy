/**
 Which routing policies, chains and egress entries are in force after a run of the alert pipeline:
 the last ones put for the organization, and otherwise the bootstrap and seed ones.
 */
module HeraldSettings {
  import opened Wrappers
  import opened AlertTypes
  import opened Routing
  import opened Herald
  import opened AlertAuthz
  import opened Dedup
  import G = HeraldGuarantees
  import Escalate

  // The last egress entries put for an organization.
  function EgressPut(ops: seq<G.Op>, org: string): Option<seq<EgressEntry>> {
    if ops == [] then None
    else
      var last := ops[|ops| - 1];
      if last.PutEgress? && last.org == org then Some(last.entries) else EgressPut(ops[..|ops| - 1], org)
  }

  function PoliciesPut(ops: seq<G.Op>, org: string): Option<seq<RoutingPolicy>> {
    if ops == [] then None
    else
      var last := ops[|ops| - 1];
      if last.PutPolicies? && last.org == org then Some(last.policies) else PoliciesPut(ops[..|ops| - 1], org)
  }

  function ChainPut(ops: seq<G.Op>, org: string, id: string): Option<EscalationPolicy> {
    if ops == [] then None
    else
      var last := ops[|ops| - 1];
      if last.PutChain? && last.org == org && last.chain.policyId == id then Some(last.chain)
      else ChainPut(ops[..|ops| - 1], org, id)
  }

  predicate SameSettings(s: State, s': State) {
    s'.policies == s.policies && s'.chains == s.chains && s'.egress == s.egress
  }

  lemma RouteKeepsSettings(s: State, cfg: Config, i: nat, now: int, stillFiring: bool)
    requires i < |s.incidents|
    ensures SameSettings(s, RouteAndQueue(s, cfg, i, now, stillFiring).0)
  {
    hide Decided, ChainFor, DeliveriesTo, Retemplated, Escalate.InitialEscalationState;
  }

  lemma CorrelateKeepsSettings(s: State, e: Event, severity: Severity, now: int)
    requires e.eventId in s.alerts
    ensures var (s', i) := Correlate(s, e, severity, now); i < |s'.incidents| && SameSettings(s, s')
  {
    hide FindOpen, NewIncident, Joined;
  }

  lemma ProcessKeepsSettings(s: State, cfg: Config, id: string, now: int, dedupUp: bool)
    requires id in s.alerts && s.alerts[id].event.eventId == id
    ensures SameSettings(s, ProcessStored(s, cfg, id, now, dedupUp).0)
  {
    hide DedupCheck, Correlate, RouteAndQueue;
    var row := s.alerts[id];
    var (seen', occurrence, degraded) := DedupCheck(s.seen, row.event, now, dedupUp);
    if occurrence != Duplicate {
      var s1 := s.(seen := seen', alerts := s.alerts[id := row.(occurrence := occurrence)]);
      CorrelateKeepsSettings(s1, row.event, row.severity, now);
      var (s2, i) := Correlate(s1, row.event, row.severity, now);
      RouteKeepsSettings(s2, cfg, i, now, occurrence == Renotify);
    }
  }

  lemma TakenInKeepsSettings(s: State, cfg: Config, e: Event, verdict: Verdict, token: Option<string>, now: int,
                             dedupUp: bool)
    ensures SameSettings(s, IngestAs(s, cfg, e, verdict, token, now, dedupUp).0)
  {
    hide ProcessStored, EffectiveSeverity;
    var row := Row(e, now, Shown, if verdict == Verified then Cleared else Unneeded, None);
    if e.eventId !in s.alerts { ProcessKeepsSettings(Insert(s, row), cfg, e.eventId, now, dedupUp); }
  }

  lemma IngestKeepsSettings(s: State, cfg: Config, e: Event, token: Option<string>, lookup: Option<Severity>,
                            check: TokenCheck, now: int, dedupUp: bool)
    ensures SameSettings(s, Ingest(s, cfg, e, token, lookup, check, now, dedupUp).0)
  {
    hide IngestAs, Verify;
    var x := Enriched(e, lookup);
    TakenInKeepsSettings(s, cfg, x, Verify(x, token, check), token, now, dedupUp);
  }

  lemma RetryKeepsSettings(s: State, cfg: Config, id: string, check: TokenCheck, now: int, dedupUp: bool)
    requires id in s.alerts && s.alerts[id].event.eventId == id
    ensures SameSettings(s, RetryTurn(s, cfg, id, check, now, dedupUp))
  {
    hide ProcessStored, Verify;
    var row := s.alerts[id];
    var authz := if Verify(row.event, row.heldToken, check) == Verified then Cleared else Unneeded;
    var row' := row.(authz := authz, heldToken := None, retryAt := None);
    ProcessKeepsSettings(SetAlert(s, id, row'), cfg, id, now, dedupUp);
  }

  lemma {:induction false} RetriesKeepSettings(s: State, cfg: Config, due: seq<string>, checks: Checks, now: int,
                                               dedupUp: bool)
    ensures SameSettings(s, RetryTurns(s, cfg, due, checks, now, dedupUp))
    decreases |due|
  {
    hide RetryTurn;
    if due != [] {
      if due[0] in s.alerts && s.alerts[due[0]].event.eventId == due[0] {
        RetryKeepsSettings(s, cfg, due[0], checks(due[0]), now, dedupUp);
        var s' := RetryTurn(s, cfg, due[0], checks(due[0]), now, dedupUp);
        RetriesKeepSettings(s', cfg, due[1..], checks, now, dedupUp);
      } else {
        RetriesKeepSettings(s, cfg, due[1..], checks, now, dedupUp);
      }
    }
  }

  lemma TurnKeepsSettings(s: State, cfg: Config, i: nat, now: int)
    requires i < |s.incidents|
    ensures SameSettings(s, EscalationTurn(s, cfg, i, now))
  {
    hide Split, DeliveriesTo, EgressFor, Escalate.NextEscalationState, Escalate.Written, FailSafe;
  }

  lemma {:induction false} ScanKeepsSettings(s: State, cfg: Config, due: seq<nat>, now: int)
    requires Within(due, |s.incidents|)
    ensures SameSettings(s, EscalationTurns(s, cfg, due, now))
    decreases |due|
  {
    if due != [] {
      TurnKeepsSettings(s, cfg, due[0], now);
      TurnSize(s, cfg, due[0], now);
      hide EscalationTurn;
      ScanKeepsSettings(EscalationTurn(s, cfg, due[0], now), cfg, due[1..], now);
    }
  }

  lemma TurnSize(s: State, cfg: Config, i: nat, now: int)
    requires i < |s.incidents|
    ensures |EscalationTurn(s, cfg, i, now).incidents| == |s.incidents|
  {
    hide Split, DeliveriesTo, EgressFor, Escalate.NextEscalationState, Escalate.Written, FailSafe;
  }

  lemma NotifyKeepsSettings(s: State, cfg: Config, o: Order, eventId: string, lookup: Option<Severity>,
                            check: TokenCheck, now: int, dedupUp: bool)
    ensures SameSettings(s, Notify(s, cfg, o, eventId, lookup, check, now, dedupUp).0)
  {
    hide Ingest, Verify, EffectiveSeverity, Correlate, Split, OverrideTargets, DeliveriesTo, EgressFor;
    var e := OrderEvent(o, eventId, now);
    IngestKeepsSettings(s, cfg, e, o.token, lookup, check, now, dedupUp);
    var x := Enriched(e, lookup);
    var row := Row(x, now, Shown, if Verify(x, o.token, check) == Verified then Cleared else Unneeded, None);
    if eventId !in s.alerts { CorrelateKeepsSettings(Insert(s, row), x, row.severity, now); }
  }

  lemma OthersKeepSettings(s: State, cfg: Config, op: G.Op)
    requires !op.PutPolicies? && !op.PutChain? && !op.PutEgress?
    ensures SameSettings(s, G.After(s, cfg, op))
  {
    hide Ingest, Notify, RetryTurns, EscalationTurns, DueIncidents;
    match op
    case IngestOp(e, token, lookup, check, now, up) => IngestKeepsSettings(s, cfg, e, token, lookup, check, now, up);
    case NotifyOp(o, id, lookup, check, now, up) => NotifyKeepsSettings(s, cfg, o, id, lookup, check, now, up);
    case RetryOp(due, checks, now, up) => RetriesKeepSettings(s, cfg, due, checks, now, up);
    case EscalateOp(now) => ScanKeepsSettings(s, cfg, DueIncidents(s.incidents, now, 0), now);
    case AckOp(_, _, _) =>
    case ResolveOp(_) =>
  }

  /** After every run an organization's egress entries are the last ones put for it, and its seed
      entries as long as none were; its routing policies the last ones put, and the bootstrap ones if
      there are none; and a chain the last one put under its id, save that the bootstrap id always
      stands for the compiled-in chain when routing attaches it. */
  lemma {:induction false} SettingsInForce(cfg: Config, ops: seq<G.Op>, org: string, id: string, now: int)
    ensures var s := G.Run(cfg, ops);
            && EgressFor(s, cfg, org)
               == (if EgressPut(ops, org).Some? then EgressPut(ops, org)
                   else if org in cfg.egressSeed then Some(cfg.egressSeed[org]) else None)
            && PoliciesFor(s, cfg, org, now)
               == (if PoliciesPut(ops, org).Some? && PoliciesPut(ops, org).value != [] then PoliciesPut(ops, org).value
                   else BootstrapPolicies(cfg.bootstrap, now))
            && StoredChain(s, org, id) == ChainPut(ops, org, id)
            && ChainFor(s, cfg, org, id)
               == (if id == "esc_bootstrap_default"
                   then Some(Escalate.DefaultEscalationPolicy(cfg.bootstrap.slackSecAlerts))
                   else ChainPut(ops, org, id))
    decreases |ops|
  {
    hide BootstrapPolicies, Escalate.DefaultEscalationPolicy;
    if ops != [] {
      var (front, op) := (ops[..|ops| - 1], ops[|ops| - 1]);
      SettingsInForce(cfg, front, org, id, now);
      if !op.PutPolicies? && !op.PutChain? && !op.PutEgress? {
        hide G.After;
        OthersKeepSettings(G.Run(cfg, front), cfg, op);
      }
    }
  }
}
