/**
 The guarantees of the alert pipeline over whole runs: authorization before notification, the
 egress policy on every delivery, no alert lost or joined twice, no alert held for ever.
 */
module HeraldGuarantees {
  import opened Wrappers
  import opened AlertTypes
  import opened AlertAuthz
  import opened Dedup
  import opened Routing
  import opened Herald
  import opened HeraldRuns
  import Escalate

  // ----- The remaining steps keep the invariant ------------------------------------------------

  lemma WrittenKeepsKey(inc: Incident, chain: EscalationPolicy, now: int)
    ensures var inc' := Escalate.Written(inc, Escalate.NextEscalationState(inc, chain, now), chain, now);
            && HeraldRuns.SameKey(inc, inc') && inc.alertIds == inc'.alertIds
            && (inc' == inc || inc'.state == Escalated)
  {
    hide Escalate.NextEscalationState, Escalate.Scheduled;
  }

  // Deliveries first, then the incident's own write.
  lemma FiredAndWritten(s: State, cfg: Config, i: nat, ts: seq<Target>, urgency: Urgency, step: Option<int>,
                        template: Option<string>, inc': Incident)
    requires Inv(s, cfg) && i < |s.incidents| && Unresolved(s.incidents[i])
    requires HeraldRuns.SameKey(s.incidents[i], inc') && s.incidents[i].alertIds == inc'.alertIds
    ensures var s1 := CreateDeliveries(s, i, ts, urgency, step, template);
            var incs' := s.incidents[i := inc'];
            s1.incidents == s.incidents && Inv(s1.(incidents := incs'), cfg) && Grown(s.incidents, incs')
  {
    hide InvExcept, DeliveriesTo, Grown, HeraldRuns.SameKey;
    AddDeliveries(s, cfg, i, ts, urgency, step, template);
    SetIncident(CreateDeliveries(s, i, ts, urgency, step, template), cfg, i, inc');
  }

  lemma EscalationTurnKeeps(s: State, cfg: Config, i: nat, now: int)
    requires Inv(s, cfg) && i < |s.incidents| && Escalate.Due(s.incidents[i], now)
    ensures var s' := EscalationTurn(s, cfg, i, now);
            && Inv(s', cfg) && Grown(s.incidents, s'.incidents) && s'.alerts == s.alerts && s'.egress == s.egress
            && |s'.incidents| == |s.incidents|
            && forall j :: 0 <= j < |s.incidents| && j != i ==> s'.incidents[j] == s.incidents[j]
  {
    hide Inv, Split, Grown, HeraldRuns.SameKey, EgressFor, Escalate.NextEscalationState, Escalate.Written;
    hide StoredChain, FailSafe;
    var inc := s.incidents[i];
    GrownSame(s.incidents);
    if ChainOf(s, inc).None? {
      KeyUnaffected(inc);
      SetIncident(s, cfg, i, inc.(escalation := inc.escalation.(nextFireAt := None)));
    } else {
      var chain := ChainOf(s, inc).value;
      var out := Escalate.NextEscalationState(inc, chain, now);
      var inc' := Escalate.Written(inc, out, chain, now);
      WrittenKeepsKey(inc, chain, now);
      match out
      case NotYet => NothingWritten(s, inc, chain, i, now);
      case Step(step, _) =>
        var urgency := if UrgencyFor(inc.severity) == UrgencyCritical then UrgencyCritical else UrgencyHigh;
        var ts := Split(step.targets, EgressFor(s, cfg, inc.orgId), cfg.hostOf, true);
        FiredAndWritten(s, cfg, i, ts, urgency, Some(step.step), Some("escalation"), inc');
      case UsedUp(_) =>
        FiredAndWritten(s, cfg, i, FailSafe(cfg), UrgencyCritical, None, None, inc');
    }
  }

  lemma KeyUnaffected(inc: Incident)
    ensures HeraldRuns.SameKey(inc, inc.(escalation := inc.escalation.(nextFireAt := None)))
  {
  }

  lemma NothingWritten(s: State, inc: Incident, chain: EscalationPolicy, i: nat, now: int)
    requires i < |s.incidents| && s.incidents[i] == inc && Escalate.NextEscalationState(inc, chain, now).NotYet?
    ensures var out := Escalate.NextEscalationState(inc, chain, now);
            s.(incidents := s.incidents[i := Escalate.Written(inc, out, chain, now)]) == s
  {
  }

  // Each listed incident is due and listed once.
  predicate DueOnce(due: seq<nat>, incs: seq<Incident>, now: int) {
    && (forall k :: 0 <= k < |due| ==> due[k] < |incs| && Escalate.Due(incs[due[k]], now))
    && (forall k, l :: 0 <= k < l < |due| ==> due[k] != due[l])
  }

  lemma NoneDue(incs: seq<Incident>, now: int)
    ensures DueOnce([], incs, now)
  {
  }

  lemma OneMoreDue(i: nat, rest: seq<nat>, incs: seq<Incident>, now: int)
    requires DueOnce(rest, incs, now) && i < |incs| && Escalate.Due(incs[i], now) && i !in rest
    ensures DueOnce([i] + rest, incs, now)
  {
    hide Escalate.Due;
    forall k | 0 <= k < |rest| ensures rest[k] != i { assert rest[k] in rest; }
  }

  lemma {:induction false} DueIncidentsOnce(incs: seq<Incident>, now: int, i: nat)
    requires i <= |incs|
    ensures DueOnce(DueIncidents(incs, now, i), incs, now)
    decreases |incs| - i
  {
    hide Escalate.Due, DueOnce;
    if i < |incs| {
      DueIncidentsOnce(incs, now, i + 1);
      var rest := DueIncidents(incs, now, i + 1);
      assert [] + rest == rest;
      if Escalate.Due(incs[i], now) { OneMoreDue(i, rest, incs, now); }
    } else {
      NoneDue(incs, now);
    }
  }

  lemma {:induction false} EscalationTurnsKeep(s: State, cfg: Config, due: seq<nat>, now: int)
    requires Inv(s, cfg) && DueOnce(due, s.incidents, now) && Within(due, |s.incidents|)
    ensures var s' := EscalationTurns(s, cfg, due, now);
            && Inv(s', cfg) && Grown(s.incidents, s'.incidents) && s'.alerts == s.alerts && s'.egress == s.egress
            && NewApproved(s, s', cfg)
    decreases |due|
  {
    hide InvExcept, EscalationTurn, Grown, Escalate.Due, Approved;
    GrownSame(s.incidents);
    if due != [] {
      EscalationTurnKeeps(s, cfg, due[0], now);
      EscalationTurnApproved(s, cfg, due[0], now);
      var s1 := EscalationTurn(s, cfg, due[0], now);
      assert DueOnce(due[1..], s1.incidents, now);
      EscalationTurnsKeep(s1, cfg, due[1..], now);
      var s' := EscalationTurns(s1, cfg, due[1..], now);
      GrownTwice(s.incidents, s1.incidents, s'.incidents);
      ApprovedTwice(s, s1, s', cfg);
    }
  }

  lemma NotifyAcceptedKeeps(s: State, cfg: Config, row: Alert, overrides: seq<string>, now: int)
    requires Inv(s, cfg) && row.event.eventId !in s.alerts && RowPending(row.event.eventId, row)
             && row.occurrence != Duplicate
    ensures var s' := NotifyAccepted(Insert(s, row), cfg, overrides, row.event.eventId, now).0;
            && Inv(s', cfg) && Grown(s.incidents, s'.incidents) && SameRowsBut(s.alerts, s'.alerts, row.event.eventId)
  {
    hide Backlinked, OneOpenPerKey, DeliveriesOk, Accepted, RowOk, Grown, Correlate, Split, EgressFor;
    hide OverrideTargets, DeliveriesTo, RowsOk;
    var id := row.event.eventId;
    var s1 := Insert(s, row);
    SetRow(s, cfg, None, id, row, Some(id));
    CorrelateKeeps(s1, cfg, id, row.severity, now);
    CorrelateRows(s1, row.event, row.severity, now);
    var (s2, i) := Correlate(s1, row.event, row.severity, now);
    var ts := Split(OverrideTargets(overrides), EgressFor(s2, cfg, row.event.orgId), cfg.hostOf, true);
    AddDeliveries(s2, cfg, i, ts, UrgencyFor(row.severity), None, Some("notify"));
  }

  lemma NotifyKeeps(s: State, cfg: Config, o: Order, eventId: string, lookup: Option<Severity>, check: TokenCheck,
                    now: int, dedupUp: bool)
    requires Inv(s, cfg) && Sane(cfg)
    ensures var s' := Notify(s, cfg, o, eventId, lookup, check, now, dedupUp).0;
            && Inv(s', cfg) && Grown(s.incidents, s'.incidents) && SameRowsBut(s.alerts, s'.alerts, eventId)
            && (eventId in s.alerts ==> s' == s)
  {
    hide NotifyAccepted, Ingest, InvExcept, Verify, NeedsNoToken, Grown, EffectiveSeverity;
    GrownSame(s.incidents);
    var e := OrderEvent(o, eventId, now);
    IngestKeeps(s, cfg, e, o.token, lookup, check, now, dedupUp);
    var e' := Enriched(e, lookup);
    VerdictAccepts(e', o.token, check);
    if o.channelOverride.Some? && eventId !in s.alerts {
      match Verify(e', o.token, check)
      case Rejected(_) =>
      case Unavailable =>
      case Verified => NotifyAcceptedKeeps(s, cfg, Row(e', now, Shown, Cleared, None), o.channelOverride.value, now);
      case NotRequired =>
        NotifyAcceptedKeeps(s, cfg, Row(e', now, Shown, Unneeded, None), o.channelOverride.value, now);
    }
  }

  // ----- Egress ----------------------------------------------------------------------------------

  // The organization's fail-safe channel, told of an exhausted chain.
  predicate IsFailSafe(d: Delivery, cfg: Config) {
    && Truthy(cfg.bootstrap.orgSiemWebhook) && d.channel == Webhook
       && d.destination == cfg.bootstrap.orgSiemWebhook.value
    && d.template == "escalation" && d.urgency == UrgencyCritical && d.escalationStep.None?
  }

  // The egress policy of state s lets the delivery through, or it is the fail-safe one.
  predicate Approved(d: Delivery, s: State, cfg: Config) {
    EgressAllows(EgressFor(s, cfg, d.orgId), Target(d.channel, d.destination, None), cfg.hostOf) || IsFailSafe(d, cfg)
  }

  predicate NewApproved(s: State, s': State, cfg: Config) {
    && s'.egress == s.egress && s.deliveries <= s'.deliveries
    && forall j :: |s.deliveries| <= j < |s'.deliveries| ==> Approved(s'.deliveries[j], s, cfg)
  }

  lemma ApprovedTwice(a: State, b: State, c: State, cfg: Config)
    requires NewApproved(a, b, cfg) && NewApproved(b, c, cfg)
    ensures NewApproved(a, c, cfg)
  {
    hide EgressAllows, IsFailSafe;
    assert forall j :: 0 <= j < |b.deliveries| ==> c.deliveries[j] == b.deliveries[j];
  }

  lemma KeptTargetsApproved(s: State, cfg: Config, i: nat, ts: seq<Target>, urgency: Urgency, step: Option<int>,
                            template: Option<string>)
    requires i < |s.incidents|
    requires forall t <- ts :: EgressAllows(EgressFor(s, cfg, s.incidents[i].orgId), t, cfg.hostOf)
    ensures NewApproved(s, CreateDeliveries(s, i, ts, urgency, step, template), cfg)
  {
    hide EgressFor;
    var s' := CreateDeliveries(s, i, ts, urgency, step, template);
    forall j | |s.deliveries| <= j < |s'.deliveries| ensures Approved(s'.deliveries[j], s, cfg) {
      var t := ts[j - |s.deliveries|];
      TemplateIrrelevant(EgressFor(s, cfg, s.incidents[i].orgId), t, cfg.hostOf, None);
    }
  }

  lemma TemplateIrrelevant(entries: Option<seq<EgressEntry>>, t: Target, hostOf: HostOf, template: Option<string>)
    ensures EgressAllows(entries, t.(template := template), hostOf) == EgressAllows(entries, t, hostOf)
  {
    if entries.Some? {
      assert forall e :: e in entries.value ==> Admits(e, t.(template := template), hostOf) == Admits(e, t, hostOf);
    }
  }

  lemma SplitApproved(s: State, cfg: Config, i: nat, ts: seq<Target>, urgency: Urgency, step: Option<int>,
                      template: Option<string>)
    requires i < |s.incidents|
    ensures var kept := Split(ts, EgressFor(s, cfg, s.incidents[i].orgId), cfg.hostOf, true);
            NewApproved(s, CreateDeliveries(s, i, kept, urgency, step, template), cfg)
  {
    SplitMembers(ts, EgressFor(s, cfg, s.incidents[i].orgId), cfg.hostOf);
    hide EgressAllows, EgressFor, Split, NewApproved, CreateDeliveries;
    var kept := Split(ts, EgressFor(s, cfg, s.incidents[i].orgId), cfg.hostOf, true);
    KeptTargetsApproved(s, cfg, i, kept, urgency, step, template);
  }

  lemma EscalationTurnApproved(s: State, cfg: Config, i: nat, now: int)
    requires i < |s.incidents|
    ensures NewApproved(s, EscalationTurn(s, cfg, i, now), cfg)
  {
    hide Split, DeliveriesTo, EgressFor, Escalate.NextEscalationState, Escalate.Written, StoredChain, Approved;
    hide EgressAllows;
    var inc := s.incidents[i];
    if ChainOf(s, inc).Some? {
      var out := Escalate.NextEscalationState(inc, ChainOf(s, inc).value, now);
      match out
      case NotYet =>
      case Step(step, _) =>
        var urgency := if UrgencyFor(inc.severity) == UrgencyCritical then UrgencyCritical else UrgencyHigh;
        SplitApproved(s, cfg, i, step.targets, urgency, Some(step.step), Some("escalation"));
      case UsedUp(_) => FailSafeApproved(s, cfg, i);
    }
  }

  lemma FailSafeApproved(s: State, cfg: Config, i: nat)
    requires i < |s.incidents|
    ensures NewApproved(s, FireExhausted(s, cfg, i), cfg)
  {
    hide EgressAllows, EgressFor;
  }

  lemma RouteApproved(s: State, cfg: Config, i: nat, now: int, stillFiring: bool)
    requires i < |s.incidents|
    ensures NewApproved(s, RouteAndQueue(s, cfg, i, now, stillFiring).0, cfg)
  {
    var inc := s.incidents[i];
    var d := Decided(s, cfg, inc, now);
    var entries := EgressFor(s, cfg, inc.orgId);
    SplitMembers(Route(PoliciesFor(s, cfg, inc.orgId, now), inc, now).targets, entries, cfg.hostOf);
    assert forall t :: t in d.targets ==> EgressAllows(entries, t, cfg.hostOf);
    hide Split, Route, EgressAllows, EgressFor, PoliciesFor, Decided, ChainFor, DeliveriesTo, Approved;
    var ts := Retemplated(d.targets, stillFiring);
    forall t <- ts ensures EgressAllows(entries, t, cfg.hostOf) {
      var k :| 0 <= k < |ts| && ts[k] == t;
      assert d.targets[k] in d.targets;
      TemplateIrrelevant(entries, d.targets[k], cfg.hostOf, t.template);
    }
    KeptTargetsApproved(s, cfg, i, ts, UrgencyFor(inc.severity), None, None);
  }

  lemma ProcessApproved(s: State, cfg: Config, id: string, now: int, dedupUp: bool)
    requires id in s.alerts && s.alerts[id].event.eventId == id
    ensures NewApproved(s, ProcessStored(s, cfg, id, now, dedupUp).0, cfg)
  {
    hide RouteAndQueue, DedupCheck, FindOpen, NewIncident, Joined, Approved;
    var row := s.alerts[id];
    var (seen', occurrence, degraded) := DedupCheck(s.seen, row.event, now, dedupUp);
    if occurrence != Duplicate {
      var s1 := s.(seen := seen', alerts := s.alerts[id := row.(occurrence := occurrence)]);
      var (s2, i) := Correlate(s1, row.event, row.severity, now);
      RouteApproved(s2, cfg, i, now, occurrence == Renotify);
      SameEgress(s, s2, RouteAndQueue(s2, cfg, i, now, occurrence == Renotify).0, cfg);
    }
  }

  // What is approved in a state is approved in any with the same egress policies.
  lemma SameEgress(s: State, s1: State, s': State, cfg: Config)
    requires s1.egress == s.egress && s1.deliveries == s.deliveries && NewApproved(s1, s', cfg)
    ensures NewApproved(s, s', cfg)
  {
    hide EgressAllows, IsFailSafe;
    forall j | |s.deliveries| <= j < |s'.deliveries| ensures Approved(s'.deliveries[j], s, cfg) {
      assert Approved(s'.deliveries[j], s1, cfg);
    }
  }

  lemma AcceptApproved(s: State, cfg: Config, row: Alert, now: int, dedupUp: bool)
    requires row.event.eventId !in s.alerts
    ensures NewApproved(s, ProcessStored(Insert(s, row), cfg, row.event.eventId, now, dedupUp).0, cfg)
  {
    hide ProcessStored, NewApproved;
    var s1 := Insert(s, row);
    ProcessApproved(s1, cfg, row.event.eventId, now, dedupUp);
    SameEgress(s, s1, ProcessStored(s1, cfg, row.event.eventId, now, dedupUp).0, cfg);
  }

  lemma IngestAsApproved(s: State, cfg: Config, e: Event, verdict: Verdict, token: Option<string>, now: int,
                         dedupUp: bool)
    ensures NewApproved(s, IngestAs(s, cfg, e, verdict, token, now, dedupUp).0, cfg)
  {
    hide ProcessStored, Approved;
    if e.eventId !in s.alerts {
      AcceptApproved(s, cfg, Row(e, now, Shown, if verdict == Verified then Cleared else Unneeded, None), now, dedupUp);
    }
  }

  lemma IngestApproved(s: State, cfg: Config, e: Event, token: Option<string>, lookup: Option<Severity>,
                       check: TokenCheck, now: int, dedupUp: bool)
    ensures NewApproved(s, Ingest(s, cfg, e, token, lookup, check, now, dedupUp).0, cfg)
  {
    hide IngestAs, Verify, Approved;
    IngestAsApproved(s, cfg, Enriched(e, lookup), Verify(Enriched(e, lookup), token, check), token, now, dedupUp);
  }

  lemma RetryApproved(s: State, cfg: Config, id: string, check: TokenCheck, now: int, dedupUp: bool)
    requires id in s.alerts && s.alerts[id].event.eventId == id
    ensures NewApproved(s, RetryTurn(s, cfg, id, check, now, dedupUp), cfg)
  {
    hide ProcessStored, Verify, Approved;
    var row := s.alerts[id];
    var authz := if Verify(row.event, row.heldToken, check) == Verified then Cleared else Unneeded;
    var s1 := SetAlert(s, id, row.(authz := authz, heldToken := None, retryAt := None));
    ProcessApproved(s1, cfg, id, now, dedupUp);
    SameEgress(s, s1, ProcessStored(s1, cfg, id, now, dedupUp).0, cfg);
  }

  lemma NotifyApproved(s: State, cfg: Config, o: Order, eventId: string, lookup: Option<Severity>, check: TokenCheck,
                       now: int, dedupUp: bool)
    ensures NewApproved(s, Notify(s, cfg, o, eventId, lookup, check, now, dedupUp).0, cfg)
  {
    hide Ingest, Verify, EffectiveSeverity, Approved, NotifyAccepted;
    var e := OrderEvent(o, eventId, now);
    IngestApproved(s, cfg, e, o.token, lookup, check, now, dedupUp);
    if o.channelOverride.Some? && eventId !in s.alerts {
      var e' := Enriched(e, lookup);
      var authz := if Verify(e', o.token, check) == Verified then Cleared else Unneeded;
      OverrideApproved(s, cfg, Row(e', now, Shown, authz, None), o.channelOverride.value, now);
    }
  }

  lemma NewIncidentOrg(e: Event, severity: Severity, now: int)
    ensures NewIncident(e, severity, now).orgId == e.orgId
  {
  }

  lemma OverrideApproved(s: State, cfg: Config, row: Alert, overrides: seq<string>, now: int)
    requires row.event.eventId !in s.alerts
    ensures NewApproved(s, NotifyAccepted(Insert(s, row), cfg, overrides, row.event.eventId, now).0, cfg)
  {
    hide Approved, EgressFor, Split, OverrideTargets, DeliveriesTo, NewIncident;
    var s1 := Insert(s, row);
    var (s2, i) := Correlate(s1, row.event, row.severity, now);
    NewIncidentOrg(row.event, row.severity, now);
    assert s2.incidents[i].orgId == row.event.orgId;
    SplitApproved(s2, cfg, i, OverrideTargets(overrides), UrgencyFor(row.severity), None, Some("notify"));
    SameEgress(s, s2, NotifyAccepted(s1, cfg, overrides, row.event.eventId, now).0, cfg);
  }

  // ----- A retry scan ------------------------------------------------------------------------------

  // What the store may list as due: rows whose retry time has come, each once, perhaps not all.
  predicate Listing(due: seq<string>, alerts: map<string, Alert>, now: int) {
    && (forall k :: 0 <= k < |due| ==> due[k] in alerts && RetryDue(alerts[due[k]], now))
    && (forall k, l :: 0 <= k < l < |due| ==> due[k] != due[l])
  }

  // What became of a row's hold in a scan: over, or the window still open.
  predicate HeldInWindow(a: Alert, a': Alert, cfg: Config, now: int) {
    a'.authz == Held ==> a'.receivedAt == a.receivedAt && now < a.receivedAt + cfg.authzHoldMs
  }

  lemma ListingTail(due: seq<string>, alerts: map<string, Alert>, alerts': map<string, Alert>, now: int)
    requires due != [] && Listing(due, alerts, now) && SameRowsBut(alerts, alerts', due[0])
    ensures Listing(due[1..], alerts', now)
  {
    hide RetryDue;
    forall k | 0 <= k < |due[1..]| ensures due[1..][k] in alerts' && RetryDue(alerts'[due[1..][k]], now) {
      assert due[1..][k] == due[k + 1];
    }
  }

  lemma InWindow(a: Alert, a': Alert, cfg: Config, now: int)
    requires a'.authz == Held ==> a'.receivedAt == a.receivedAt && now < a.receivedAt + cfg.authzHoldMs
    ensures HeldInWindow(a, a', cfg, now)
  {
  }

  lemma {:induction false} RetryTurnsKeep(s: State, cfg: Config, due: seq<string>, checks: Checks, now: int,
                                          dedupUp: bool)
    requires Inv(s, cfg) && Sane(cfg) && Listing(due, s.alerts, now)
    ensures var s' := RetryTurns(s, cfg, due, checks, now, dedupUp);
            && Inv(s', cfg) && Grown(s.incidents, s'.incidents) && NewApproved(s, s', cfg)
            && s'.alerts.Keys == s.alerts.Keys
            && (forall id :: id in s.alerts && id !in due ==> s'.alerts[id] == s.alerts[id])
            && (forall k :: 0 <= k < |due| ==> HeldInWindow(s.alerts[due[k]], s'.alerts[due[k]], cfg, now))
    decreases |due|
  {
    hide Inv, RetryTurn, Grown, NewApproved, Sane, HeldInWindow;
    GrownSame(s.incidents);
    ApprovedNothing(s, cfg);
    if due != [] {
      var (id, rest) := (due[0], due[1..]);
      assert RetryDue(s.alerts[id], now);
      RetryKeeps(s, cfg, id, checks(id), now, dedupUp);
      RetryApproved(s, cfg, id, checks(id), now, dedupUp);
      var s1 := RetryTurn(s, cfg, id, checks(id), now, dedupUp);
      ListingTail(due, s.alerts, s1.alerts, now);
      RetryTurnsKeep(s1, cfg, rest, checks, now, dedupUp);
      var s' := RetryTurns(s1, cfg, rest, checks, now, dedupUp);
      GrownTwice(s.incidents, s1.incidents, s'.incidents);
      ApprovedTwice(s, s1, s', cfg);
      InWindow(s.alerts[id], s1.alerts[id], cfg, now);
      assert id !in rest;
      forall k | 0 <= k < |due| ensures HeldInWindow(s.alerts[due[k]], s'.alerts[due[k]], cfg, now) {
        if k > 0 { assert rest[k - 1] == due[k] && due[k] != id; }
      }
      assert forall x :: x in rest ==> x in due;
    }
  }

  lemma ApprovedNothing(s: State, cfg: Config)
    ensures NewApproved(s, s, cfg)
  {
  }

  // ----- Runs ----------------------------------------------------------------------------------------

  datatype Op =
    | IngestOp(event: Event, token: Option<string>, lookup: Option<Severity>, check: TokenCheck, now: int,
               dedupUp: bool)
    | NotifyOp(order: Order, eventId: string, lookup: Option<Severity>, check: TokenCheck, now: int, dedupUp: bool)
    | RetryOp(due: seq<string>, checks: Checks, now: int, dedupUp: bool)
    | EscalateOp(now: int)
    | AckOp(incident: nat, nonce: string, now: int)
    | ResolveOp(incident: nat)
    | PutPolicies(org: string, policies: seq<RoutingPolicy>)
    | PutChain(org: string, chain: EscalationPolicy)
    | PutEgress(org: string, entries: seq<EgressEntry>)

  function After(s: State, cfg: Config, op: Op): State {
    match op
    case IngestOp(event, token, lookup, check, now, up) => Ingest(s, cfg, event, token, lookup, check, now, up).0
    case NotifyOp(order, id, lookup, check, now, up) => Notify(s, cfg, order, id, lookup, check, now, up).0
    case RetryOp(due, checks, now, up) => RetryTurns(s, cfg, due, checks, now, up)
    case EscalateOp(now) => EscalationScan(s, cfg, now)
    case AckOp(i, nonce, now) => AckIncident(s, i, nonce, now).0
    case ResolveOp(i) => ResolveIncident(s, i)
    case PutPolicies(org, policies) => s.(policies := s.policies[org := policies])
    case PutChain(org, chain) => s.(chains := s.chains[(org, chain.policyId) := chain])
    case PutEgress(org, entries) => s.(egress := s.egress[org := entries])
  }

  predicate Legal(s: State, op: Op) { op.RetryOp? ==> Listing(op.due, s.alerts, op.now) }

  function Run(cfg: Config, ops: seq<Op>): State
    decreases |ops|
  {
    if ops == [] then State(map[], [], [], map[], {}, map[], map[], map[])
    else After(Run(cfg, ops[..|ops| - 1]), cfg, ops[|ops| - 1])
  }

  predicate RunLegal(cfg: Config, ops: seq<Op>)
    decreases |ops|
  {
    ops == [] || (RunLegal(cfg, ops[..|ops| - 1]) && Legal(Run(cfg, ops[..|ops| - 1]), ops[|ops| - 1]))
  }

  // What is not held never changes again.
  predicate Settled(a: map<string, Alert>, b: map<string, Alert>) {
    forall id :: id in a ==> id in b && (a[id].authz != Held ==> b[id] == a[id])
  }

  // New deliveries were approved in the state they were made in.
  predicate DeliveriesApproved(s: State, s': State, cfg: Config) {
    && s.deliveries <= s'.deliveries
    && forall j :: |s.deliveries| <= j < |s'.deliveries| ==> Approved(s'.deliveries[j], s, cfg)
  }

  lemma SettledBut(s: State, s': State, id: string)
    requires SameRowsBut(s.alerts, s'.alerts, id) && (id in s.alerts ==> s' == s)
    ensures Settled(s.alerts, s'.alerts)
  {
  }

  lemma SettledRetries(s: State, s': State, due: seq<string>, now: int)
    requires Listing(due, s.alerts, now) && s'.alerts.Keys == s.alerts.Keys
    requires forall id :: id in s.alerts && id !in due ==> s'.alerts[id] == s.alerts[id]
    ensures Settled(s.alerts, s'.alerts)
  {
    assert forall k :: 0 <= k < |due| ==> s.alerts[due[k]].authz == Held;
  }

  lemma AckKeeps(s: State, cfg: Config, op: Op)
    requires Inv(s, cfg) && (op.AckOp? || op.ResolveOp?)
    ensures Inv(After(s, cfg, op), cfg) && Grown(s.incidents, After(s, cfg, op).incidents)
    ensures After(s, cfg, op).alerts == s.alerts && After(s, cfg, op).deliveries == s.deliveries
  {
    hide InvExcept, Grown;
    GrownSame(s.incidents);
    if op.incident < |s.incidents| {
      var inc := s.incidents[op.incident];
      match op
      case AckOp(i, nonce, now) =>
        if AckIncident(s, i, nonce, now).1 == Acked {
          SetIncident(s, cfg, i, inc.(state := Acknowledged, ackAt := Some(now)));
          var incs' := s.incidents[i := inc.(state := Acknowledged, ackAt := Some(now))];
          OtherFields(s.(incidents := incs'), After(s, cfg, op), cfg);
        }
      case ResolveOp(i) => SetIncident(s, cfg, i, inc.(state := Resolved));
    }
  }

  lemma OtherFields(s: State, s': State, cfg: Config)
    requires Inv(s, cfg) && s'.alerts == s.alerts && s'.incidents == s.incidents && s'.deliveries == s.deliveries
    ensures Inv(s', cfg)
  {
  }

  lemma StepKeeps(s: State, cfg: Config, op: Op)
    requires Inv(s, cfg) && Sane(cfg) && Legal(s, op)
    ensures var s' := After(s, cfg, op);
            && Inv(s', cfg) && Grown(s.incidents, s'.incidents) && Settled(s.alerts, s'.alerts)
            && DeliveriesApproved(s, s', cfg)
  {
    hide Inv, Grown, Sane, Ingest, Notify, RetryTurns, EscalationTurns, Listing, Approved, AckIncident;
    hide ResolveIncident, DueIncidents, SameRowsBut;
    GrownSame(s.incidents);
    match op
    case IngestOp(event, token, lookup, check, now, up) =>
      IngestKeeps(s, cfg, event, token, lookup, check, now, up);
      IngestApproved(s, cfg, event, token, lookup, check, now, up);
      SettledBut(s, After(s, cfg, op), event.eventId);
    case NotifyOp(order, id, lookup, check, now, up) =>
      NotifyKeeps(s, cfg, order, id, lookup, check, now, up);
      NotifyApproved(s, cfg, order, id, lookup, check, now, up);
      SettledBut(s, After(s, cfg, op), id);
    case RetryOp(due, checks, now, up) =>
      RetryTurnsKeep(s, cfg, due, checks, now, up);
      SettledRetries(s, After(s, cfg, op), due, now);
    case EscalateOp(now) =>
      DueIncidentsOnce(s.incidents, now, 0);
      EscalationTurnsKeep(s, cfg, DueIncidents(s.incidents, now, 0), now);
    case AckOp(_, _, _) => AckKeeps(s, cfg, op);
    case ResolveOp(_) => AckKeeps(s, cfg, op);
    case PutPolicies(_, _) => OtherFields(s, After(s, cfg, op), cfg);
    case PutChain(_, _) => OtherFields(s, After(s, cfg, op), cfg);
    case PutEgress(_, _) => OtherFields(s, After(s, cfg, op), cfg);
  }

  lemma {:induction false} RunKeeps(cfg: Config, ops: seq<Op>)
    requires Sane(cfg) && RunLegal(cfg, ops)
    ensures Inv(Run(cfg, ops), cfg)
    decreases |ops|
  {
    if ops == [] {
    } else {
      hide Inv, After, Legal, Sane;
      RunKeeps(cfg, ops[..|ops| - 1]);
      StepKeeps(Run(cfg, ops[..|ops| - 1]), cfg, ops[|ops| - 1]);
    }
  }

  // ----- The guarantees --------------------------------------------------------------------------------

  // Verified, or an event that may go without a token.
  predicate MayBeShown(a: Alert) {
    || a.authz == Cleared
    || (a.authz == Unneeded
        && a.event.sourceModule != DdosEngine && a.event.sourceModule != AiRedteam
        && !((a.event.category == Vuln || a.event.category == Exposure) && a.event.confidence == Confirmed))
  }

  /** No token, no notification: on every run, each alert in an incident or a delivery is verified,
      or comes neither from the DDoS engine nor from the AI red team and is no confirmed
      vulnerability or exposure. What turns an alert verified is in ClearedByVerdict. */
  lemma AuthorizedOnly(cfg: Config, ops: seq<Op>)
    requires Sane(cfg) && RunLegal(cfg, ops)
    ensures var s := Run(cfg, ops);
            && (forall i, k :: 0 <= i < |s.incidents| && 0 <= k < |s.incidents[i].alertIds| ==>
                  s.incidents[i].alertIds[k] in s.alerts && MayBeShown(s.alerts[s.incidents[i].alertIds[k]]))
            && (forall j, k :: 0 <= j < |s.deliveries| && 0 <= k < |s.deliveries[j].alertIds| ==>
                  s.deliveries[j].alertIds[k] in s.alerts && MayBeShown(s.alerts[s.deliveries[j].alertIds[k]]))
  {
    hide Run, RunLegal;
    RunKeeps(cfg, ops);
    var s := Run(cfg, ops);
    hide NoRepeats, OneOpenPerKey, MayBeShown;
    forall i, k | 0 <= i < |s.incidents| && 0 <= k < |s.incidents[i].alertIds|
      ensures s.incidents[i].alertIds[k] in s.alerts && MayBeShown(s.alerts[s.incidents[i].alertIds[k]])
    {
      var id := s.incidents[i].alertIds[k];
      assert RowOk(id, s.alerts[id], s.incidents, cfg);
      AcceptedMayBeShown(s.alerts[id]);
    }
    forall j, k | 0 <= j < |s.deliveries| && 0 <= k < |s.deliveries[j].alertIds|
      ensures s.deliveries[j].alertIds[k] in s.alerts && MayBeShown(s.alerts[s.deliveries[j].alertIds[k]])
    {
      var d := s.deliveries[j];
      assert DeliveryOk(d, s.incidents);
      assert d.alertIds[k] in s.incidents[d.incident].alertIds;
      var l :| 0 <= l < |s.incidents[d.incident].alertIds| && s.incidents[d.incident].alertIds[l] == d.alertIds[k];
    }
  }

  lemma AcceptedMayBeShown(a: Alert)
    requires Accepted(a)
    ensures MayBeShown(a)
  {
  }

  // Position k of incident i.
  predicate At(s: State, i: nat, k: nat, id: string) {
    i < |s.incidents| && k < |s.incidents[i].alertIds| && s.incidents[i].alertIds[k] == id
  }

  /** On every run an event joins at most one incident, and that once. */
  lemma JoinsAtMostOnce(cfg: Config, ops: seq<Op>, id: string, i: nat, k: nat, j: nat, l: nat)
    requires Sane(cfg) && RunLegal(cfg, ops)
    requires At(Run(cfg, ops), i, k, id) && At(Run(cfg, ops), j, l, id)
    ensures i == j && k == l
  {
    hide Run, RunLegal, RowsOk, DeliveriesOk, OneOpenPerKey;
    RunKeeps(cfg, ops);
    var s := Run(cfg, ops);
    assert s.alerts[id].incident == Some(i) && s.alerts[id].incident == Some(j);
    assert NoRepeats(s.incidents[i].alertIds);
  }

  // Where an alert can be.
  datatype Place = OnHoldPlace | RefusedPlace | DuplicatePlace | IncidentPlace(i: nat)

  predicate In(s: State, cfg: Config, id: string, p: Place)
    requires id in s.alerts
  {
    var a := s.alerts[id];
    match p
    case OnHoldPlace =>
      a.authz == Held && a.retryAt.Some? && a.retryAt.value < a.receivedAt + cfg.authzHoldMs + cfg.authzRetryMs
    case RefusedPlace => a.authz == Refused && a.state == Suppressed && a.heldToken.None?
    case DuplicatePlace => Accepted(a) && a.state == Suppressed && a.occurrence == Duplicate && a.heldToken.None?
    case IncidentPlace(i) => Accepted(a) && a.state == Shown && InIncident(id, i, s.incidents) && a.heldToken.None?
  }

  /** Nothing is lost: on every run each ingested alert is in exactly one place, on hold with its
      next retry before the hold window and one retry interval are over, refused, suppressed as a
      duplicate, or in one incident. */
  lemma AccountedFor(cfg: Config, ops: seq<Op>, id: string) returns (p: Place)
    requires Sane(cfg) && RunLegal(cfg, ops) && id in Run(cfg, ops).alerts
    ensures In(Run(cfg, ops), cfg, id, p) && forall q :: In(Run(cfg, ops), cfg, id, q) ==> q == p
  {
    hide Run, RunLegal, DeliveriesOk, OneOpenPerKey, NeedsNoToken, NoRepeats;
    RunKeeps(cfg, ops);
    var s := Run(cfg, ops);
    var a := s.alerts[id];
    assert RowOk(id, a, s.incidents, cfg);
    p := if a.authz == Held then OnHoldPlace else if a.authz == Refused then RefusedPlace
         else if a.incident.None? then DuplicatePlace else IncidentPlace(a.incident.value);
    forall q | In(s, cfg, id, q) ensures q == p {
      if q.IncidentPlace? {
        var k :| 0 <= k < |s.incidents[q.i].alertIds| && s.incidents[q.i].alertIds[k] == id;
        assert a.incident == Some(q.i);
      }
    }
  }

  /** What is no longer held has been settled for good, and incidents only gain alerts. */
  lemma {:induction false} SettledForGood(cfg: Config, ops: seq<Op>, more: seq<Op>)
    requires Sane(cfg) && RunLegal(cfg, ops + more)
    ensures Settled(Run(cfg, ops).alerts, Run(cfg, ops + more).alerts)
    ensures Grown(Run(cfg, ops).incidents, Run(cfg, ops + more).incidents)
    decreases |more|
  {
    var all := ops + more;
    if more == [] {
      assert all == ops;
      GrownSame(Run(cfg, ops).incidents);
    } else {
      var n := |all| - 1;
      assert all[..n] == ops + more[..|more| - 1];
      hide After, Inv, Legal, Grown, DeliveriesApproved, Sane;
      SettledForGood(cfg, ops, more[..|more| - 1]);
      RunKeeps(cfg, all[..n]);
      StepKeeps(Run(cfg, all[..n]), cfg, all[n]);
      GrownTwice(Run(cfg, ops).incidents, Run(cfg, all[..n]).incidents, Run(cfg, all).incidents);
    }
  }

  // Delivery j was made by the step after the first k, under the egress policy of that moment.
  predicate MadeAt(cfg: Config, ops: seq<Op>, j: nat, k: nat) {
    && k < |ops| && |Run(cfg, ops[..k]).deliveries| <= j < |Run(cfg, ops[..k + 1]).deliveries|
    && j < |Run(cfg, ops).deliveries|
    && Approved(Run(cfg, ops).deliveries[j], Run(cfg, ops[..k]), cfg)
  }

  /** On every run, every delivery was let through by the egress policy in force when it was
      made, but for the fail-safe of an exhausted chain. */
  lemma {:induction false} EveryDeliveryApproved(cfg: Config, ops: seq<Op>, j: nat) returns (k: nat)
    requires Sane(cfg) && RunLegal(cfg, ops) && j < |Run(cfg, ops).deliveries|
    ensures MadeAt(cfg, ops, j, k)
    decreases |ops|
  {
    assert ops != [];
    var n := |ops| - 1;
    var before := ops[..n];
    hide After, Legal, Inv, Sane, Approved;
    RunKeeps(cfg, before);
    StepKeeps(Run(cfg, before), cfg, ops[n]);
    assert ops[..n + 1] == ops;
    var (s, s') := (Run(cfg, before), Run(cfg, ops));
    assert DeliveriesApproved(s, s', cfg);
    hide Run;
    if j >= |s.deliveries| {
      k := n;
    } else {
      k := EveryDeliveryApproved(cfg, before, j);
      MadeEarlier(cfg, ops, j, k);
    }
  }

  lemma MadeEarlier(cfg: Config, ops: seq<Op>, j: nat, k: nat)
    requires ops != [] && MadeAt(cfg, ops[..|ops| - 1], j, k)
    requires Run(cfg, ops[..|ops| - 1]).deliveries <= Run(cfg, ops).deliveries
    ensures MadeAt(cfg, ops, j, k)
  {
    hide Run, Approved;
    var before := ops[..|ops| - 1];
    assert before[..k] == ops[..k] && before[..k + 1] == ops[..k + 1];
  }

  /** After a scan that was given every due row, no alert is held whose hold window and one retry
      interval are over. */
  lemma FullScanEndsHolds(s: State, cfg: Config, due: seq<string>, checks: Checks, now: int, dedupUp: bool, id: string)
    requires Inv(s, cfg) && Sane(cfg) && id in s.alerts
    requires forall x :: x in due <==> x in s.alerts && s.alerts[x].authz == Held && s.alerts[x].retryAt.Some?
                                       && s.alerts[x].retryAt.value <= now
    requires forall k, l :: 0 <= k < l < |due| ==> due[k] != due[l]
    ensures var s' := RetryTurns(s, cfg, due, checks, now, dedupUp);
            && id in s'.alerts
            && (s'.alerts[id].authz == Held ==> now < s'.alerts[id].receivedAt + cfg.authzHoldMs + cfg.authzRetryMs)
  {
    assert forall k :: 0 <= k < |due| ==> due[k] in due;
    RetryTurnsKeep(s, cfg, due, checks, now, dedupUp);
    var s' := RetryTurns(s, cfg, due, checks, now, dedupUp);
    hide RetryTurns, Grown, NewApproved, Inv;
    if id in due {
      var k :| 0 <= k < |due| && due[k] == id;
      assert HeldInWindow(s.alerts[due[k]], s'.alerts[due[k]], cfg, now);
    } else if s.alerts[id].authz == Held {
      HeldRow(s, cfg, id);
    }
  }

  // ----- Verified means verified ------------------------------------------------------------------------

  lemma IngestAsCleared(s: State, cfg: Config, e: Event, verdict: Verdict, token: Option<string>, now: int,
                        dedupUp: bool)
    requires e.eventId !in s.alerts
    ensures var s' := IngestAs(s, cfg, e, verdict, token, now, dedupUp).0;
            e.eventId in s'.alerts && s'.alerts[e.eventId].event == e
            && (s'.alerts[e.eventId].authz == Cleared ==> verdict == Verified)
  {
    hide ProcessStored, EffectiveSeverity;
    var authz := if verdict == Verified then Cleared else Unneeded;
    ProcessKeepsAuthz(Insert(s, Row(e, now, Shown, authz, None)), cfg, e.eventId, now, dedupUp);
  }

  lemma IngestCleared(s: State, cfg: Config, e: Event, token: Option<string>, lookup: Option<Severity>,
                      check: TokenCheck, now: int, dedupUp: bool)
    requires e.eventId !in s.alerts
    ensures var s' := Ingest(s, cfg, e, token, lookup, check, now, dedupUp).0;
            e.eventId in s'.alerts && s'.alerts[e.eventId].authz == Cleared ==>
              s'.alerts[e.eventId].event == Enriched(e, lookup) && Verify(Enriched(e, lookup), token, check) == Verified
  {
    hide IngestAs, Verify;
    IngestAsCleared(s, cfg, Enriched(e, lookup), Verify(Enriched(e, lookup), token, check), token, now, dedupUp);
  }

  lemma RetryCleared(s: State, cfg: Config, id: string, check: TokenCheck, now: int, dedupUp: bool)
    requires id in s.alerts && s.alerts[id].event.eventId == id && s.alerts[id].authz == Held
    ensures var s' := RetryTurn(s, cfg, id, check, now, dedupUp);
            id in s'.alerts && s'.alerts[id].event == s.alerts[id].event
            && (s'.alerts[id].authz == Cleared ==>
                  Verify(s.alerts[id].event, s.alerts[id].heldToken, check) == Verified)
  {
    hide ProcessStored, Verify;
    var row := s.alerts[id];
    var authz := if Verify(row.event, row.heldToken, check) == Verified then Cleared else Unneeded;
    ProcessKeepsAuthz(SetAlert(s, id, row.(authz := authz, heldToken := None, retryAt := None)), cfg, id, now, dedupUp);
  }

  lemma {:induction false} RetriesCleared(s: State, cfg: Config, due: seq<string>, checks: Checks, now: int,
                                          dedupUp: bool, id: string)
    requires Inv(s, cfg) && Sane(cfg) && Listing(due, s.alerts, now) && id in s.alerts && s.alerts[id].authz == Held
    ensures var s' := RetryTurns(s, cfg, due, checks, now, dedupUp);
            id in s'.alerts && (s'.alerts[id].authz == Cleared ==>
              s'.alerts[id].event == s.alerts[id].event
              && Verify(s.alerts[id].event, s.alerts[id].heldToken, checks(id)) == Verified)
    decreases |due|
  {
    hide RetryTurn, Inv, Sane, Verify;
    if due != [] {
      assert RetryDue(s.alerts[due[0]], now);
      RetryKeeps(s, cfg, due[0], checks(due[0]), now, dedupUp);
      var s1 := RetryTurn(s, cfg, due[0], checks(due[0]), now, dedupUp);
      ListingTail(due, s.alerts, s1.alerts, now);
      if due[0] == id {
        RetryCleared(s, cfg, id, checks(id), now, dedupUp);
        RetryTurnsKeep(s1, cfg, due[1..], checks, now, dedupUp);
        assert id !in due[1..];
      } else {
        RetriesCleared(s1, cfg, due[1..], checks, now, dedupUp, id);
      }
    }
  }

  /** An alert turns verified only in a step that had its event checked against a token and the
      check came out verified: with the token it arrived with, or the one kept while on hold. */
  lemma ClearedByVerdict(s: State, cfg: Config, op: Op, id: string)
    requires Inv(s, cfg) && Sane(cfg) && Legal(s, op)
    requires id in After(s, cfg, op).alerts && After(s, cfg, op).alerts[id].authz == Cleared
    requires id in s.alerts ==> s.alerts[id].authz != Cleared
    ensures var e := After(s, cfg, op).alerts[id].event;
            match op
            case IngestOp(event, token, _, check, _, _) =>
              e.eventId == event.eventId && Verify(e, token, check) == Verified
            case NotifyOp(order, _, _, check, _, _) => Verify(e, order.token, check) == Verified
            case RetryOp(_, checks, _, _) => id in s.alerts && Verify(e, s.alerts[id].heldToken, checks(id)) == Verified
            case _ => false
  {
    hide Inv, Verify, Ingest, Notify, RetryTurns, EscalationTurns, DueIncidents, Sane, AckIncident, ResolveIncident;
    hide Grown, NewApproved, DeliveriesApproved;
    StepKeeps(s, cfg, op);
    match op
    case IngestOp(event, token, lookup, check, now, up) =>
      IngestKeeps(s, cfg, event, token, lookup, check, now, up);
      if event.eventId !in s.alerts { IngestCleared(s, cfg, event, token, lookup, check, now, up); }
    case NotifyOp(order, eventId, lookup, check, now, up) =>
      NotifyKeeps(s, cfg, order, eventId, lookup, check, now, up);
      if eventId !in s.alerts { NotifyCleared(s, cfg, order, eventId, lookup, check, now, up); }
    case RetryOp(due, checks, now, up) =>
      RetryTurnsKeep(s, cfg, due, checks, now, up);
      RetriesCleared(s, cfg, due, checks, now, up, id);
    case EscalateOp(now) =>
      DueIncidentsOnce(s.incidents, now, 0);
      EscalationTurnsKeep(s, cfg, DueIncidents(s.incidents, now, 0), now);
    case AckOp(_, _, _) => AckKeeps(s, cfg, op);
    case ResolveOp(_) => AckKeeps(s, cfg, op);
    case PutPolicies(_, _) =>
    case PutChain(_, _) =>
    case PutEgress(_, _) =>
  }

  lemma NotifyCleared(s: State, cfg: Config, o: Order, eventId: string, lookup: Option<Severity>, check: TokenCheck,
                      now: int, dedupUp: bool)
    requires eventId !in s.alerts
    ensures var s' := Notify(s, cfg, o, eventId, lookup, check, now, dedupUp).0;
            eventId in s'.alerts && s'.alerts[eventId].authz == Cleared ==>
              Verify(s'.alerts[eventId].event, o.token, check) == Verified
  {
    hide Ingest, Verify, EffectiveSeverity, NotifyAccepted;
    var e := OrderEvent(o, eventId, now);
    IngestCleared(s, cfg, e, o.token, lookup, check, now, dedupUp);
    var e' := Enriched(e, lookup);
    var authz := if Verify(e', o.token, check) == Verified then Cleared else Unneeded;
    if o.channelOverride.Some? {
      OverrideKeepsAuthz(s, cfg, Row(e', now, Shown, authz, None), o.channelOverride.value, now);
    }
  }

  lemma OverrideKeepsAuthz(s: State, cfg: Config, row: Alert, overrides: seq<string>, now: int)
    requires row.event.eventId !in s.alerts
    ensures var s' := NotifyAccepted(Insert(s, row), cfg, overrides, row.event.eventId, now).0;
            row.event.eventId in s'.alerts && s'.alerts[row.event.eventId].authz == row.authz
            && s'.alerts[row.event.eventId].event == row.event
  {
    hide FindOpen, Joined, NewIncident, Split, EgressFor, OverrideTargets, DeliveriesTo;
  }

  /** Delivering an event again changes nothing at all, whatever token comes with it. */
  lemma RedeliveryChangesNothing(s: State, cfg: Config, e: Event, token: Option<string>, lookup: Option<Severity>,
                                 check: TokenCheck, now: int, dedupUp: bool)
    requires e.eventId in s.alerts
    ensures Ingest(s, cfg, e, token, lookup, check, now, dedupUp).0 == s
  {
    hide ProcessStored, Verify, EffectiveSeverity;
  }

  /** On every run an organization has at most one unresolved incident for a correlation key. */
  lemma OneUnresolvedPerKey(cfg: Config, ops: seq<Op>, i: nat, j: nat)
    requires Sane(cfg) && RunLegal(cfg, ops) && i < j < |Run(cfg, ops).incidents|
    requires Unresolved(Run(cfg, ops).incidents[i]) && Unresolved(Run(cfg, ops).incidents[j])
    ensures Run(cfg, ops).incidents[i].orgId != Run(cfg, ops).incidents[j].orgId
         || Run(cfg, ops).incidents[i].correlationKey != Run(cfg, ops).incidents[j].correlationKey
  {
    hide Run, RunLegal, RowsOk, Backlinked, DeliveriesOk;
    RunKeeps(cfg, ops);
  }
}
