/**
 The pipeline object over its store, row by row: what each method leaves behind is the state
 that the step function of the same name gives.
 */
module Pipeline {
  import opened Wrappers
  import opened AlertTypes
  import opened AlertAuthz
  import opened Dedup
  import opened Routing
  import opened Herald
  import Escalate

  class HeraldPipeline {
    const cfg: Config
    var alerts: map<string, Alert>
    var incidents: seq<Incident>
    var deliveries: seq<Delivery>
    var seen: map<string, Seen>
    var ackNonces: set<string>
    var policies: map<string, seq<RoutingPolicy>>
    var chains: map<(string, string), EscalationPolicy>
    var egress: map<string, seq<EgressEntry>>

    function St(): State
      reads this
    {
      State(alerts, incidents, deliveries, seen, ackNonces, policies, chains, egress)
    }

    constructor (cfg: Config)
      ensures this.cfg == cfg
      ensures St() == State(map[], [], [], map[], {}, map[], map[], map[])
    {
      this.cfg := cfg;
      alerts, incidents, deliveries, seen, ackNonces := map[], [], [], map[], {};
      policies, chains, egress := map[], map[], map[];
    }

    method InsertAlertRow(row: Alert) returns (inserted: bool)
      modifies this`alerts
      ensures inserted == (row.event.eventId !in old(alerts))
      ensures St() == Insert(old(St()), row)
    {
      if row.event.eventId in alerts { return false; }
      alerts := alerts[row.event.eventId := row];
      return true;
    }

    method CreateDeliveriesFor(incident: nat, targets: seq<Target>, urgency: Urgency, step: Option<int>,
                               template: Option<string>)
      returns (created: nat)
      requires incident < |incidents|
      modifies this`deliveries
      ensures created == |targets|
      ensures St() == CreateDeliveries(old(St()), incident, targets, urgency, step, template)
    {
      var inc := incidents[incident];
      ghost var before := deliveries;
      ghost var all := DeliveriesTo(targets, inc.orgId, incident, inc.alertIds, urgency, step, template);
      created := 0;
      while created < |targets|
        invariant 0 <= created <= |targets|
        invariant deliveries == before + all[..created]
      {
        var d := DeliveryTo(targets[created], inc.orgId, incident, inc.alertIds, urgency, step, template);
        deliveries := deliveries + [d];
        assert all[..created + 1] == all[..created] + [d];
        created := created + 1;
      }
      assert all[..created] == all;
    }

    method FindOpenIncident(org: string, key: string) returns (r: Option<nat>)
      ensures r == FindOpen(incidents, org, key, 0)
    {
      var i := 0;
      while i < |incidents|
        invariant 0 <= i <= |incidents|
        invariant FindOpen(incidents, org, key, 0) == FindOpen(incidents, org, key, i)
      {
        var inc := incidents[i];
        if inc.orgId == org && inc.correlationKey == key
           && (inc.state == Open || inc.state == Acknowledged || inc.state == Escalated) {
          return Some(i);
        }
        i := i + 1;
      }
      return None;
    }

    method AttachAlertToIncident(i: nat, e: Event)
      requires i < |incidents|
      modifies this`incidents
      ensures incidents == old(incidents)[i := Joined(old(incidents)[i], e)]
    {
      var inc := incidents[i];
      if e.eventId !in inc.alertIds { inc := inc.(alertIds := inc.alertIds + [e.eventId]); }
      inc := inc.(severity := MaxSeverity(inc.severity, e.severity));
      if e.requiresAck { inc := inc.(requiresAck := true); }
      if Rank(e.severity) > Rank(inc.severity) { inc := inc.(severity := e.severity); }
      incidents := incidents[i := inc];
    }

    method CorrelateAlert(e: Event, severity: Severity, now: int) returns (i: nat, created: bool)
      requires e.eventId in alerts
      modifies this`incidents, this`alerts
      ensures (St(), i) == Correlate(old(St()), e, severity, now)
      ensures i < |incidents|
      ensures created == FindOpen(old(incidents), e.orgId, CorrelationKey(e), 0).None?
    {
      var found := FindOpenIncident(e.orgId, CorrelationKey(e));
      if found.Some? {
        i, created := found.value, false;
      } else {
        i, created := |incidents|, true;
        incidents := incidents + [NewIncident(e, severity, now)];
      }
      AttachAlertToIncident(i, e);
      alerts := alerts[e.eventId := alerts[e.eventId].(incident := Some(i))];
    }

    method RouteAndQueueIncident(i: nat, now: int, stillFiring: bool) returns (count: nat)
      requires i < |incidents|
      modifies this`deliveries, this`incidents
      ensures (St(), count) == RouteAndQueue(old(St()), cfg, i, now, stillFiring)
    {
      hide Route, Filtered, PoliciesFor, EgressFor, CreateDeliveries, ChainFor;
      var inc := incidents[i];
      var decision := RouteIncident(PoliciesFor(St(), cfg, inc.orgId, now), inc, now);
      decision := ApplyEgressPolicy(decision, EgressFor(St(), cfg, inc.orgId), cfg.hostOf);
      assert decision == Decided(St(), cfg, inc, now);
      var targets := Retemplated(decision.targets, stillFiring);
      count := CreateDeliveriesFor(i, targets, UrgencyFor(inc.severity), None, None);
      KeepsIncidents(old(St()), i, targets, UrgencyFor(inc.severity), None, None);
      if inc.requiresAck && !Truthy(inc.escalation.policyId) {
        var policyId := decision.escalationPolicyId;
        var policy := if Truthy(policyId) then ChainFor(St(), cfg, inc.orgId, policyId.value) else None;
        if policy.Some? {
          incidents := incidents[i := inc.(escalation := Escalate.InitialEscalationState(policy.value, now))];
        }
      }
    }

    method ProcessStoredAlert(id: string, now: int, dedupUp: bool) returns (result: IngestResult)
      requires id in alerts && alerts[id].event.eventId == id
      modifies this`alerts, this`incidents, this`deliveries, this`seen
      ensures (St(), result) == ProcessStored(old(St()), cfg, id, now, dedupUp)
    {
      hide DedupCheck, Correlate, RouteAndQueue;
      var row := alerts[id];
      var (seen', occurrence, degraded) := DedupCheck(seen, row.event, now, dedupUp);
      seen := seen';
      alerts := alerts[id := row.(occurrence := occurrence)];
      if occurrence == Duplicate {
        alerts := alerts[id := alerts[id].(state := Suppressed)];
        return SuppressedByDedup;
      }
      var i, created := CorrelateAlert(row.event, row.severity, now);
      var n := RouteAndQueueIncident(i, now, occurrence == Renotify);
      return if occurrence == Renotify then Renotified(i, n) else Processed(i, n);
    }

    // The row is inserted first and given its retry time after.
    method HoldAlert(row: Alert, retryAt: int) returns (inserted: bool)
      requires row.authz == Held
      modifies this`alerts
      ensures inserted == (row.event.eventId !in old(alerts))
      ensures St() == Insert(old(St()), row.(retryAt := Some(retryAt)))
    {
      inserted := InsertAlertRow(row);
      if !inserted { return; }
      var id := row.event.eventId;
      alerts := alerts[id := alerts[id].(authz := Held, retryAt := Some(retryAt))];
      assert alerts == old(alerts)[id := row.(retryAt := Some(retryAt))];
    }

    method IngestEvent(e: Event, token: Option<string>, lookup: Option<Severity>, check: TokenCheck, now: int,
                       dedupUp: bool)
      returns (result: IngestResult)
      modifies this`alerts, this`incidents, this`deliveries, this`seen
      ensures (St(), result) == Ingest(old(St()), cfg, e, token, lookup, check, now, dedupUp)
    {
      hide IngestAs, Verify;
      if e.occurredAt.None? || now - e.occurredAt.value > OCCURRED_AT_TOLERANCE_MS
         || e.occurredAt.value - now > OCCURRED_AT_TOLERANCE_MS {
        return IngestRejected("OCCURRED_AT_OUT_OF_RANGE");
      }
      var enriched := Enriched(e, lookup);
      result := IngestVerdict(enriched, Verify(enriched, token, check), token, now, dedupUp);
    }

    method IngestVerdict(e: Event, verdict: Verdict, token: Option<string>, now: int, dedupUp: bool)
      returns (result: IngestResult)
      modifies this`alerts, this`incidents, this`deliveries, this`seen
      ensures (St(), result) == IngestAs(old(St()), cfg, e, verdict, token, now, dedupUp)
    {
      hide ProcessStored;
      match verdict
      case Rejected(code) =>
        var _ := InsertAlertRow(Row(e, now, Suppressed, Refused, None));
        return IngestRejected(code);
      case Unavailable =>
        var inserted := HoldAlert(Row(e, now, Shown, Held, token), now + cfg.authzRetryMs);
        if !inserted { return DuplicateEvent; }
        return OnHold;
      case _ =>
        var inserted := InsertAlertRow(Row(e, now, Shown, if verdict == Verified then Cleared else Unneeded, None));
        if !inserted { return DuplicateEvent; }
        result := ProcessStoredAlert(e.eventId, now, dedupUp);
    }

    method Quarantine(id: string)
      requires id in alerts
      modifies this`alerts
      ensures St() == SetAlert(old(St()), id, Quarantined(old(alerts)[id]))
    {
      alerts := alerts[id := alerts[id].(authz := Refused, heldToken := None, retryAt := None)];
      alerts := alerts[id := alerts[id].(state := Suppressed)];
    }

    method RetryAlert(id: string, check: TokenCheck, now: int, dedupUp: bool) returns (processed: bool)
      requires id in alerts && alerts[id].event.eventId == id
      modifies this`alerts, this`incidents, this`deliveries, this`seen
      ensures St() == RetryTurn(old(St()), cfg, id, check, now, dedupUp)
      ensures var verdict := Verify(old(alerts)[id].event, old(alerts)[id].heldToken, check);
              processed <==> verdict == Verified || verdict == NotRequired
    {
      hide ProcessStored, Verify;
      var row := alerts[id];
      match Verify(row.event, row.heldToken, check)
      case Unavailable =>
        if now - row.receivedAt >= cfg.authzHoldMs {
          Quarantine(id);
        } else {
          alerts := alerts[id := row.(authz := Held, retryAt := Some(now + cfg.authzRetryMs))];
        }
        return false;
      case Rejected(_) =>
        Quarantine(id);
        return false;
      case verdict =>
        var authz := if verdict == Verified then Cleared else Unneeded;
        alerts := alerts[id := row.(authz := authz, heldToken := None, retryAt := None)];
        var _ := ProcessStoredAlert(id, now, dedupUp);
        return true;
    }

    // What the store lists as due: each row on hold whose time has come, once, in no particular order.
    method DueAuthzRetries(now: int) returns (due: seq<string>)
      ensures forall id :: id in due <==> id in alerts && alerts[id].authz == Held && alerts[id].retryAt.Some?
                                          && alerts[id].retryAt.value <= now
      ensures forall k, l :: 0 <= k < l < |due| ==> due[k] != due[l]
    {
      due := [];
      var rest := alerts.Keys;
      while rest != {}
        invariant rest <= alerts.Keys
        invariant forall id :: id in due <==> id in alerts && id !in rest && RetryDue(alerts[id], now)
        invariant forall k, l :: 0 <= k < l < |due| ==> due[k] != due[l]
        decreases |rest|
      {
        var id :| id in rest;
        if RetryDue(alerts[id], now) { due := due + [id]; }
        rest := rest - {id};
      }
    }

    // `due` is what the store lists, in whatever order it lists it.
    method RunDueAuthzRetries(due: seq<string>, checks: Checks, now: int, dedupUp: bool) returns (processed: nat)
      modifies this`alerts, this`incidents, this`deliveries, this`seen
      ensures St() == RetryTurns(old(St()), cfg, due, checks, now, dedupUp)
      ensures processed == AcceptedIn(old(St()), cfg, due, checks, now, dedupUp)
    {
      hide RetryTurn, Verify;
      processed := 0;
      var k := 0;
      assert due[0..] == due;
      while k < |due|
        invariant 0 <= k <= |due|
        invariant RetryTurns(St(), cfg, due[k..], checks, now, dedupUp)
                  == RetryTurns(old(St()), cfg, due, checks, now, dedupUp)
        invariant processed + AcceptedIn(St(), cfg, due[k..], checks, now, dedupUp)
                  == AcceptedIn(old(St()), cfg, due, checks, now, dedupUp)
      {
        var id := due[k];
        assert due[k..][0] == id && due[k..][1..] == due[k + 1..];
        if id in alerts && alerts[id].event.eventId == id {
          var ok := RetryAlert(id, checks(id), now, dedupUp);
          if ok { processed := processed + 1; }
        }
        k := k + 1;
      }
    }

    method FireStepFor(i: nat, step: EscalationStep)
      requires i < |incidents|
      modifies this`deliveries
      ensures St() == FireStep(old(St()), cfg, i, step)
    {
      hide Split, EgressFor;
      var inc := incidents[i];
      var d := ApplyEgressPolicy(Decision(step.targets, [], None, []), EgressFor(St(), cfg, inc.orgId), cfg.hostOf);
      var urgency := if UrgencyFor(inc.severity) == UrgencyCritical then UrgencyCritical else UrgencyHigh;
      var _ := CreateDeliveriesFor(i, d.targets, urgency, Some(step.step), Some("escalation"));
    }

    method RunDueEscalations(now: int) returns (fired: nat)
      modifies this`incidents, this`deliveries
      ensures St() == EscalationScan(old(St()), cfg, now)
      ensures fired == FiredIn(old(St()), cfg, DueIncidents(old(incidents), now, 0), now)
    {
      hide EscalationTurns, EscalationTurn, FiredIn, Fires;
      var due := DueIncidents(incidents, now, 0);
      fired := 0;
      var k := 0;
      TurnsFromStart(St(), cfg, due, now);
      while k < |due|
        invariant 0 <= k <= |due| && |incidents| == |old(incidents)|
        invariant Within(due[k..], |incidents|)
        invariant EscalationTurns(St(), cfg, due[k..], now) == EscalationScan(old(St()), cfg, now)
        invariant fired + FiredIn(St(), cfg, due[k..], now) == FiredIn(old(St()), cfg, due, now)
      {
        NextTurn(St(), cfg, due, k, now);
        var stepped := EscalateIncident(due[k], now);
        if stepped { fired := fired + 1; }
        k := k + 1;
      }
      TurnsAtEnd(St(), cfg, due, now);
    }

    method EscalateIncident(i: nat, now: int) returns (fired: bool)
      requires i < |incidents|
      modifies this`incidents, this`deliveries
      ensures St() == EscalationTurn(old(St()), cfg, i, now)
      ensures |incidents| == old(|incidents|) && fired == Fires(old(St()), i, now)
    {
      hide FireStep, FireExhausted, StoredChain;
      var inc := incidents[i];
      var chain := if Truthy(inc.escalation.policyId) then StoredChain(St(), inc.orgId, inc.escalation.policyId.value)
                   else None;
      if chain.None? {
        incidents := incidents[i := inc.(escalation := inc.escalation.(nextFireAt := None))];
        return false;
      }
      var out := Escalate.NextEscalationState(inc, chain.value, now);
      match out
      case NotYet => return false;
      case Step(step, _) =>
        FireStepFor(i, step);
        FireStepKeeps(old(St()), cfg, i, step);
        incidents := incidents[i := Escalate.Written(inc, out, chain.value, now)];
        return true;
      case UsedUp(_) =>
        FireExhaustedFor(i);
        FireExhaustedKeeps(old(St()), cfg, i);
        incidents := incidents[i := Escalate.Written(inc, out, chain.value, now)];
        return true;
    }

    method FireExhaustedFor(i: nat)
      requires i < |incidents|
      modifies this`deliveries
      ensures St() == FireExhausted(old(St()), cfg, i)
    {
      if Truthy(cfg.bootstrap.orgSiemWebhook) {
        var _ := CreateDeliveriesFor(i, [Target(Webhook, cfg.bootstrap.orgSiemWebhook.value, Some("escalation"))],
                                     UrgencyCritical, None, None);
      } else {
        assert DeliveriesTo([], incidents[i].orgId, i, incidents[i].alertIds, UrgencyCritical, None, None) == [];
        assert deliveries == deliveries + [];
      }
    }

    method AckIncidentBy(i: nat, nonce: string, now: int) returns (result: AckResult)
      modifies this`ackNonces, this`incidents
      ensures (St(), result) == AckIncident(old(St()), i, nonce, now)
    {
      if nonce in ackNonces { return NonceUsed; }
      if i >= |incidents| { return NotFound; }
      if incidents[i].state == Acknowledged || incidents[i].state == Resolved { return Already; }
      ackNonces := ackNonces + {nonce};
      incidents := incidents[i := incidents[i].(state := Acknowledged, ackAt := Some(now))];
      return Acked;
    }

    method ParseOverrides(raws: seq<string>) returns (overrides: seq<Target>)
      ensures overrides == OverrideTargets(raws)
    {
      hide OverrideTargets, ChannelNamed;
      overrides := [];
      var k := 0;
      NoOverrides(raws);
      while k < |raws|
        invariant 0 <= k <= |raws|
        invariant overrides == OverrideTargets(raws[..k])
      {
        OverridesOneMore(raws, k);
        var raw := raws[k];
        k := k + 1;
        var idx := IndexOfColon(raw);
        if idx <= 0 { continue; }
        var channel := ChannelNamed(raw[..idx]);
        if channel.None? { continue; }
        overrides := overrides + [Target(channel.value, raw[idx + 1..], None)];
      }
      assert raws[..k] == raws;
    }

    method NotifyOrder(o: Order, eventId: string, lookup: Option<Severity>, check: TokenCheck, now: int, dedupUp: bool)
      returns (result: IngestResult)
      modifies this`alerts, this`incidents, this`deliveries, this`seen
      ensures (St(), result) == Notify(old(St()), cfg, o, eventId, lookup, check, now, dedupUp)
    {
      hide Ingest, Verify, NotifyAs;
      var severity := Or(o.severity, Info);
      if o.severityFloor.Some? && Rank(severity) < Rank(o.severityFloor.value) { return SuppressedByFloor; }
      var e := OrderEvent(o, eventId, now);
      if o.channelOverride.None? || |o.channelOverride.value| == 0 {
        result := IngestEvent(e, o.token, lookup, check, now, dedupUp);
        return;
      }
      var enriched := Enriched(e, lookup);
      result := NotifyVerdict(enriched, Verify(enriched, o.token, check), o.channelOverride.value, now);
    }

    method NotifyVerdict(e: Event, verdict: Verdict, channelOverride: seq<string>, now: int)
      returns (result: IngestResult)
      modifies this`alerts, this`incidents, this`deliveries
      ensures (St(), result) == NotifyAs(old(St()), cfg, e, verdict, channelOverride, now)
    {
      hide NotifyAccepted;
      match verdict
      case Rejected(code) => return IngestRejected(code);
      case Unavailable => return OnHold;
      case _ =>
        var inserted := InsertAlertRow(Row(e, now, Shown, if verdict == Verified then Cleared else Unneeded, None));
        if !inserted { return DuplicateEvent; }
        result := NotifyOverridden(channelOverride, e.eventId, now);
    }

    method NotifyOverridden(channelOverride: seq<string>, id: string, now: int) returns (result: IngestResult)
      requires id in alerts && alerts[id].event.eventId == id
      modifies this`alerts, this`incidents, this`deliveries
      ensures (St(), result) == NotifyAccepted(old(St()), cfg, channelOverride, id, now)
    {
      hide Correlate, Split, OverrideTargets, EgressFor, CreateDeliveries;
      var row := alerts[id];
      var i, created := CorrelateAlert(row.event, row.severity, now);
      var overrides := ParseOverrides(channelOverride);
      var allowed := ApplyEgressPolicy(Decision(overrides, ["channel_override"], None, []),
                                       EgressFor(St(), cfg, row.event.orgId), cfg.hostOf);
      var count := CreateDeliveriesFor(i, allowed.targets, UrgencyFor(row.severity), None, Some("notify"));
      return Processed(i, count);
    }
  }

  lemma KeepsIncidents(s: State, i: nat, ts: seq<Target>, urgency: Urgency, step: Option<int>, template: Option<string>)
    requires i < |s.incidents|
    ensures CreateDeliveries(s, i, ts, urgency, step, template)
         == s.(deliveries := CreateDeliveries(s, i, ts, urgency, step, template).deliveries)
  {
  }

  lemma {:induction false} OverridesConcat(a: seq<string>, b: seq<string>)
    ensures OverrideTargets(a + b) == OverrideTargets(a) + OverrideTargets(b)
  {
    hide OverrideTarget;
    if a == [] {
      assert a + b == b;
    } else {
      assert (a + b)[0] == a[0] && (a + b)[1..] == a[1..] + b;
      OverridesConcat(a[1..], b);
      assert OverrideTarget(a[0]) + (OverrideTargets(a[1..]) + OverrideTargets(b))
          == (OverrideTarget(a[0]) + OverrideTargets(a[1..])) + OverrideTargets(b);
    }
  }

  lemma NoOverrides(raws: seq<string>)
    ensures OverrideTargets(raws[..0]) == []
  {
    assert raws[..0] == [];
  }

  lemma OverridesOneMore(raws: seq<string>, k: nat)
    requires k < |raws|
    ensures OverrideTargets(raws[..k + 1]) == OverrideTargets(raws[..k]) + OverrideTarget(raws[k])
  {
    hide OverrideTarget;
    assert raws[..k + 1] == raws[..k] + [raws[k]];
    OverridesConcat(raws[..k], [raws[k]]);
    assert [raws[k]][1..] == [] && OverrideTargets([]) == [];
    assert OverrideTargets([raws[k]]) == OverrideTarget(raws[k]) + [];
  }

  lemma TurnsFromStart(s: State, cfg: Config, due: seq<nat>, now: int)
    requires Within(due, |s.incidents|)
    ensures due[0..] == due && EscalationTurns(s, cfg, due[0..], now) == EscalationTurns(s, cfg, due, now)
    ensures FiredIn(s, cfg, due[0..], now) == FiredIn(s, cfg, due, now)
  {
  }

  lemma TurnsAtEnd(s: State, cfg: Config, due: seq<nat>, now: int)
    ensures due[|due|..] == [] && EscalationTurns(s, cfg, [], now) == s && FiredIn(s, cfg, [], now) == 0
  {
  }

  lemma NextTurn(s: State, cfg: Config, due: seq<nat>, k: nat, now: int)
    requires k < |due| && Within(due[k..], |s.incidents|)
    ensures due[k] < |s.incidents|
    ensures var s' := EscalationTurn(s, cfg, due[k], now);
            && Within(due[k + 1..], |s'.incidents|)
            && EscalationTurns(s, cfg, due[k..], now) == EscalationTurns(s', cfg, due[k + 1..], now)
            && FiredIn(s, cfg, due[k..], now) == (if Fires(s, due[k], now) then 1 else 0)
                                                 + FiredIn(s', cfg, due[k + 1..], now)
  {
    assert due[k..][0] == due[k] && due[k..][1..] == due[k + 1..];
    TurnKeepsCount(s, cfg, due[k], now);
    hide EscalationTurn;
  }

  lemma TurnKeepsCount(s: State, cfg: Config, i: nat, now: int)
    requires i < |s.incidents|
    ensures |EscalationTurn(s, cfg, i, now).incidents| == |s.incidents|
  {
    hide Split, Escalate.NextEscalationState, DeliveriesTo, Escalate.Written, EgressFor;
  }

  lemma FireStepKeeps(s: State, cfg: Config, i: nat, step: EscalationStep)
    requires i < |s.incidents|
    ensures FireStep(s, cfg, i, step) == s.(deliveries := FireStep(s, cfg, i, step).deliveries)
  {
  }

  lemma FireExhaustedKeeps(s: State, cfg: Config, i: nat)
    requires i < |s.incidents|
    ensures FireExhausted(s, cfg, i) == s.(deliveries := FireExhausted(s, cfg, i).deliveries)
  {
  }
}
