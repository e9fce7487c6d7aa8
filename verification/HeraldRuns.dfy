/**
 What every run of the alert pipeline keeps, whatever events, tokens, outages, retries, orders
 and policy changes it is made of.
 */
module HeraldRuns {
  import opened Wrappers
  import opened AlertTypes
  import opened AlertAuthz
  import opened Dedup
  import opened Routing
  import opened Herald
  import Escalate

  // ----- The invariant -----------------------------------------------------------------------

  // The verdict agrees with what the event demands.
  predicate Accepted(a: Alert) {
    if NeedsNoToken(a.event) then a.authz == Unneeded else a.authz == Cleared
  }

  predicate InIncident(id: string, i: nat, incs: seq<Incident>) { i < |incs| && id in incs[i].alertIds }

  /** Every row is in exactly one of four places: held with a retry time before its deadline,
      refused, suppressed as a duplicate, or in an incident. Only a held row keeps its token. */
  predicate RowOk(id: string, a: Alert, incs: seq<Incident>, cfg: Config) {
    && a.event.eventId == id
    && (a.heldToken.Some? ==> a.authz == Held)
    && match a.authz
       case Held =>
         && !NeedsNoToken(a.event) && a.state == Shown && a.incident.None?
         && a.retryAt.Some? && a.retryAt.value < a.receivedAt + cfg.authzHoldMs + cfg.authzRetryMs
       case Refused => a.state == Suppressed && a.incident.None?
       case _ =>
         && Accepted(a)
         && if a.incident.Some? then
              a.state == Shown && a.occurrence != Duplicate && InIncident(id, a.incident.value, incs)
            else a.state == Suppressed && a.occurrence == Duplicate
  }

  // Accepted, but not yet deduplicated and correlated.
  predicate RowPending(id: string, a: Alert) {
    a.event.eventId == id && a.heldToken.None? && Accepted(a) && a.state == Shown && a.incident.None?
  }

  predicate RowsOk(alerts: map<string, Alert>, incs: seq<Incident>, cfg: Config, pending: Option<string>) {
    forall id :: id in alerts ==>
      if pending == Some(id) then RowPending(id, alerts[id]) else RowOk(id, alerts[id], incs, cfg)
  }

  // Incidents list alerts that point back at them, each once.
  predicate Backlinked(incs: seq<Incident>, alerts: map<string, Alert>) {
    && (forall i, k :: 0 <= i < |incs| && 0 <= k < |incs[i].alertIds| ==>
          incs[i].alertIds[k] in alerts && alerts[incs[i].alertIds[k]].incident == Some(i))
    && (forall i :: 0 <= i < |incs| ==> NoRepeats(incs[i].alertIds))
  }

  predicate NoRepeats(ids: seq<string>) { forall k, l :: 0 <= k < l < |ids| ==> ids[k] != ids[l] }

  predicate SameKey(a: Incident, b: Incident) { a.orgId == b.orgId && a.correlationKey == b.correlationKey }

  /** At most one unresolved incident for an organization and a correlation key. */
  predicate OneOpenPerKey(incs: seq<Incident>) {
    forall i, j :: 0 <= i < j < |incs| && Unresolved(incs[i]) && Unresolved(incs[j]) ==> !SameKey(incs[i], incs[j])
  }

  // A delivery names alerts of its own incident only.
  predicate DeliveryOk(d: Delivery, incs: seq<Incident>) {
    && d.incident < |incs| && d.orgId == incs[d.incident].orgId
    && forall k :: 0 <= k < |d.alertIds| ==> d.alertIds[k] in incs[d.incident].alertIds
  }

  predicate DeliveriesOk(ds: seq<Delivery>, incs: seq<Incident>) {
    forall j :: 0 <= j < |ds| ==> DeliveryOk(ds[j], incs)
  }

  predicate InvExcept(s: State, cfg: Config, pending: Option<string>) {
    && RowsOk(s.alerts, s.incidents, cfg, pending)
    && Backlinked(s.incidents, s.alerts)
    && OneOpenPerKey(s.incidents)
    && DeliveriesOk(s.deliveries, s.incidents)
  }

  predicate Inv(s: State, cfg: Config) { InvExcept(s, cfg, None) }

  // Incidents only get more alerts.
  predicate Grown(incs: seq<Incident>, incs': seq<Incident>) {
    && |incs| <= |incs'|
    && forall i :: 0 <= i < |incs| ==> SameKey(incs[i], incs'[i]) && incs[i].alertIds <= incs'[i].alertIds
  }

  // ----- Single writes -------------------------------------------------------------------------

  lemma RowsSurvive(alerts: map<string, Alert>, incs: seq<Incident>, incs': seq<Incident>, cfg: Config,
                    pending: Option<string>)
    requires RowsOk(alerts, incs, cfg, pending) && Grown(incs, incs')
    ensures RowsOk(alerts, incs', cfg, pending)
  {
    hide Accepted;
    forall id | id in alerts && pending != Some(id) ensures RowOk(id, alerts[id], incs', cfg) {
      assert RowOk(id, alerts[id], incs, cfg);
    }
  }

  lemma DeliveriesSurvive(ds: seq<Delivery>, incs: seq<Incident>, incs': seq<Incident>)
    requires DeliveriesOk(ds, incs) && Grown(incs, incs')
    ensures DeliveriesOk(ds, incs')
  {
    forall j | 0 <= j < |ds| ensures DeliveryOk(ds[j], incs') {
      assert DeliveryOk(ds[j], incs);
    }
  }

  // Writing a row that is in no incident.
  lemma SetRow(s: State, cfg: Config, x: Option<string>, id: string, a: Alert, x': Option<string>)
    requires InvExcept(s, cfg, x) && (x.None? || x == Some(id))
    requires id in s.alerts ==> s.alerts[id].incident.None?
    requires a.incident.None?
    requires if x'.Some? then x' == Some(id) && RowPending(id, a) else RowOk(id, a, s.incidents, cfg)
    ensures InvExcept(SetAlert(s, id, a), cfg, x')
  {
    hide RowOk, RowPending, OneOpenPerKey, DeliveriesOk, NoRepeats;
    var alerts' := s.alerts[id := a];
    forall i, k | 0 <= i < |s.incidents| && 0 <= k < |s.incidents[i].alertIds|
      ensures s.incidents[i].alertIds[k] in alerts' && alerts'[s.incidents[i].alertIds[k]].incident == Some(i)
    {
      assert s.incidents[i].alertIds[k] != id;
    }
  }

  // Writing an incident without touching its alerts.
  lemma SetIncident(s: State, cfg: Config, i: nat, inc: Incident)
    requires Inv(s, cfg) && i < |s.incidents|
    requires SameKey(s.incidents[i], inc) && s.incidents[i].alertIds == inc.alertIds
    requires Unresolved(inc) ==> Unresolved(s.incidents[i])
    ensures Inv(s.(incidents := s.incidents[i := inc]), cfg)
    ensures Grown(s.incidents, s.incidents[i := inc])
  {
    hide RowsOk, DeliveriesOk, Unresolved, NoRepeats;
    var incs' := s.incidents[i := inc];
    assert forall j :: 0 <= j < |incs'| ==> incs'[j].alertIds == s.incidents[j].alertIds;
    RowsSurvive(s.alerts, s.incidents, incs', cfg, None);
    DeliveriesSurvive(s.deliveries, s.incidents, incs');
  }

  lemma AddDeliveries(s: State, cfg: Config, i: nat, ts: seq<Target>, urgency: Urgency, step: Option<int>,
                      template: Option<string>)
    requires Inv(s, cfg) && i < |s.incidents|
    ensures Inv(CreateDeliveries(s, i, ts, urgency, step, template), cfg)
  {
    hide RowsOk, Backlinked, OneOpenPerKey;
  }

  // ----- Correlation ---------------------------------------------------------------------------

  lemma AppendIncident(s: State, cfg: Config, id: string, inc: Incident)
    requires InvExcept(s, cfg, Some(id)) && inc.alertIds == []
    requires forall j :: 0 <= j < |s.incidents| ==> !Takes(s.incidents[j], inc.orgId, inc.correlationKey)
    ensures InvExcept(s.(incidents := s.incidents + [inc]), cfg, Some(id))
    ensures Grown(s.incidents, s.incidents + [inc])
  {
    hide RowsOk, DeliveriesOk, Unresolved;
    var incs' := s.incidents + [inc];
    RowsSurvive(s.alerts, s.incidents, incs', cfg, Some(id));
    DeliveriesSurvive(s.deliveries, s.incidents, incs');
    assert forall i :: 0 <= i < |s.incidents| ==> incs'[i] == s.incidents[i];
    forall i, j | 0 <= i < j < |incs'| && Unresolved(incs'[i]) && Unresolved(incs'[j])
      ensures !SameKey(incs'[i], incs'[j])
    {
      if j == |s.incidents| { assert !Takes(s.incidents[i], inc.orgId, inc.correlationKey); }
    }
  }

  lemma JoinIncident(s: State, cfg: Config, id: string, i: nat)
    requires InvExcept(s, cfg, Some(id)) && id in s.alerts && i < |s.incidents| && s.alerts[id].occurrence != Duplicate
    ensures var incs' := s.incidents[i := Joined(s.incidents[i], s.alerts[id].event)];
            && Inv(s.(incidents := incs', alerts := s.alerts[id := s.alerts[id].(incident := Some(i))]), cfg)
            && Grown(s.incidents, incs')
  {
    hide MaxSeverity, DeliveriesOk;
    var (was, row) := (s.incidents[i], s.alerts[id]);
    var inc' := Joined(was, row.event);
    var incs' := s.incidents[i := inc'];
    var alerts' := s.alerts[id := row.(incident := Some(i))];
    assert RowPending(id, row);
    NotListed(s, cfg, id);
    assert inc'.alertIds == was.alertIds + [id];
    DeliveriesSurvive(s.deliveries, s.incidents, incs');
    JoinedRows(s, cfg, id, i, incs');
    hide RowsOk;
    forall j, k | 0 <= j < |incs'| && 0 <= k < |incs'[j].alertIds|
      ensures incs'[j].alertIds[k] in alerts' && alerts'[incs'[j].alertIds[k]].incident == Some(j)
    {
      if j == i && k == |was.alertIds| {
        assert incs'[j].alertIds[k] == id;
      } else {
        assert incs'[j].alertIds[k] == s.incidents[j].alertIds[k];
      }
    }
    assert NoRepeats(inc'.alertIds);
  }

  lemma NotListed(s: State, cfg: Config, id: string)
    requires Backlinked(s.incidents, s.alerts) && id in s.alerts && s.alerts[id].incident.None?
    ensures forall j :: 0 <= j < |s.incidents| ==> id !in s.incidents[j].alertIds
  {
  }

  lemma JoinedRows(s: State, cfg: Config, id: string, i: nat, incs': seq<Incident>)
    requires RowsOk(s.alerts, s.incidents, cfg, Some(id)) && id in s.alerts && s.alerts[id].occurrence != Duplicate
    requires Grown(s.incidents, incs') && InIncident(id, i, incs')
    ensures RowsOk(s.alerts[id := s.alerts[id].(incident := Some(i))], incs', cfg, None)
  {
    RowsSurvive(s.alerts, s.incidents, incs', cfg, Some(id));
    var row := s.alerts[id];
    assert RowPending(id, row);
    assert RowOk(id, row.(incident := Some(i)), incs', cfg);
    hide RowOk, RowPending;
  }

  lemma CorrelateKeeps(s: State, cfg: Config, id: string, severity: Severity, now: int)
    requires InvExcept(s, cfg, Some(id)) && id in s.alerts && s.alerts[id].occurrence != Duplicate
    requires s.alerts[id].event.eventId == id
    ensures var (s', i) := Correlate(s, s.alerts[id].event, severity, now);
            && i < |s'.incidents| && Inv(s', cfg) && Grown(s.incidents, s'.incidents)
  {
    hide InvExcept, Joined, Grown;
    var e := s.alerts[id].event;
    var found := FindOpen(s.incidents, e.orgId, CorrelationKey(e), 0);
    if found.Some? {
      JoinIncident(s, cfg, id, found.value);
    } else {
      var inc := NewIncident(e, severity, now);
      var s1 := s.(incidents := s.incidents + [inc]);
      AppendIncident(s, cfg, id, inc);
      JoinIncident(s1, cfg, id, |s.incidents|);
      GrownTwice(s.incidents, s1.incidents, s1.incidents[|s.incidents| := Joined(inc, e)]);
    }
  }

  lemma GrownTwice(a: seq<Incident>, b: seq<Incident>, c: seq<Incident>)
    requires Grown(a, b) && Grown(b, c)
    ensures Grown(a, c)
  {
  }

  // ----- Processing, ingest, retries -------------------------------------------------------------

  lemma RouteKeeps(s: State, cfg: Config, i: nat, now: int, stillFiring: bool)
    requires Inv(s, cfg) && i < |s.incidents|
    ensures Inv(RouteAndQueue(s, cfg, i, now, stillFiring).0, cfg)
    ensures Grown(s.incidents, RouteAndQueue(s, cfg, i, now, stillFiring).0.incidents)
    ensures RouteAndQueue(s, cfg, i, now, stillFiring).0.alerts == s.alerts
  {
    hide InvExcept, Decided, Retemplated, DeliveriesTo, Grown, ChainFor;
    var inc := s.incidents[i];
    var d := Decided(s, cfg, inc, now);
    var ts := Retemplated(d.targets, stillFiring);
    AddDeliveries(s, cfg, i, ts, UrgencyFor(inc.severity), None, None);
    var s1 := CreateDeliveries(s, i, ts, UrgencyFor(inc.severity), None, None);
    GrownSame(s.incidents);
    if AttachChain(s1, cfg, i, d.escalationPolicyId, now) != s1 {
      var chain := ChainFor(s1, cfg, inc.orgId, d.escalationPolicyId.value).value;
      SetIncident(s1, cfg, i, inc.(escalation := Escalate.InitialEscalationState(chain, now)));
    }
  }

  lemma GrownSame(incs: seq<Incident>)
    ensures Grown(incs, incs)
  {
  }

  lemma ProcessKeeps(s: State, cfg: Config, id: string, now: int, dedupUp: bool)
    requires InvExcept(s, cfg, Some(id)) && id in s.alerts && s.alerts[id].event.eventId == id
    ensures var s' := ProcessStored(s, cfg, id, now, dedupUp).0;
            && Inv(s', cfg) && Grown(s.incidents, s'.incidents) && SameRowsBut(s.alerts, s'.alerts, id)
  {
    hide DedupCheck, RouteAndQueue, Correlate, InvExcept, Grown;
    var row := s.alerts[id];
    var (seen', occurrence, degraded) := DedupCheck(s.seen, row.event, now, dedupUp);
    TouchedKeeps(s, cfg, id, seen', occurrence);
    GrownSame(s.incidents);
    var s1 := s.(seen := seen', alerts := s.alerts[id := row.(occurrence := occurrence)]);
    if occurrence != Duplicate {
      CorrelateKeeps(s1, cfg, id, row.severity, now);
      var (s2, i) := Correlate(s1, row.event, row.severity, now);
      CorrelateRows(s1, row.event, row.severity, now);
      RouteKeeps(s2, cfg, i, now, occurrence == Renotify);
      GrownTwice(s.incidents, s2.incidents, RouteAndQueue(s2, cfg, i, now, occurrence == Renotify).0.incidents);
    }
  }

  // Noting the occurrence: settled if it is a duplicate, still pending otherwise.
  lemma TouchedKeeps(s: State, cfg: Config, id: string, seen': map<string, Seen>, occurrence: Occurrence)
    requires InvExcept(s, cfg, Some(id)) && id in s.alerts
    ensures var row := s.alerts[id].(occurrence := occurrence);
            var s1 := s.(seen := seen', alerts := s.alerts[id := row]);
            if occurrence == Duplicate then Inv(SetAlert(s1, id, row.(state := Suppressed)), cfg)
            else InvExcept(s1, cfg, Some(id))
  {
    hide Backlinked, OneOpenPerKey, DeliveriesOk, NeedsNoToken;
    var row := s.alerts[id].(occurrence := occurrence);
    var s0 := s.(seen := seen');
    assert RowPending(id, s.alerts[id]) && InvExcept(s0, cfg, Some(id));
    hide RowsOk;
    if occurrence == Duplicate {
      SetRow(s0, cfg, Some(id), id, row.(state := Suppressed), None);
      assert s.alerts[id := row][id := row.(state := Suppressed)] == s.alerts[id := row.(state := Suppressed)];
    } else {
      SetRow(s0, cfg, Some(id), id, row, Some(id));
    }
  }

  lemma CorrelateRows(s: State, e: Event, severity: Severity, now: int)
    requires e.eventId in s.alerts
    ensures SameRowsBut(s.alerts, Correlate(s, e, severity, now).0.alerts, e.eventId)
    ensures Correlate(s, e, severity, now).0.deliveries == s.deliveries
  {
    hide FindOpen, Joined, NewIncident;
  }

  // The only row that may differ, or be new, is the one with this id.
  predicate SameRowsBut(a: map<string, Alert>, b: map<string, Alert>, id: string) {
    a.Keys <= b.Keys <= a.Keys + {id} && forall x :: x in a && x != id ==> a[x] == b[x]
  }

  // A positive hold window, as configured.
  predicate Sane(cfg: Config) { cfg.authzHoldMs > 0 && cfg.authzRetryMs >= 0 }

  lemma AcceptKeeps(s: State, cfg: Config, row: Alert, now: int, dedupUp: bool)
    requires Inv(s, cfg) && row.event.eventId !in s.alerts && RowPending(row.event.eventId, row)
    ensures var s' := ProcessStored(Insert(s, row), cfg, row.event.eventId, now, dedupUp).0;
            && Inv(s', cfg) && Grown(s.incidents, s'.incidents) && SameRowsBut(s.alerts, s'.alerts, row.event.eventId)
  {
    hide ProcessStored, Backlinked, OneOpenPerKey, DeliveriesOk, Accepted, RowOk, Grown;
    SetRow(s, cfg, None, row.event.eventId, row, Some(row.event.eventId));
    ProcessKeeps(Insert(s, row), cfg, row.event.eventId, now, dedupUp);
  }

  // The verdict that goes with an accepted row.
  lemma VerdictAccepts(e: Event, token: Option<string>, check: TokenCheck)
    ensures Verify(e, token, check) == Verified ==> !NeedsNoToken(e)
    ensures Verify(e, token, check) == NotRequired <==> NeedsNoToken(e)
  {
    VerifiedIff(e, token, check);
  }

  lemma IngestAsKeeps(s: State, cfg: Config, e: Event, token: Option<string>, check: TokenCheck, now: int,
                      dedupUp: bool)
    requires Inv(s, cfg) && Sane(cfg)
    ensures var s' := IngestAs(s, cfg, e, Verify(e, token, check), token, now, dedupUp).0;
            && Inv(s', cfg) && Grown(s.incidents, s'.incidents) && SameRowsBut(s.alerts, s'.alerts, e.eventId)
            && (e.eventId in s.alerts ==> s' == s)
  {
    hide ProcessStored, InvExcept, Verify, NeedsNoToken, Grown, EffectiveSeverity;
    VerdictAccepts(e, token, check);
    GrownSame(s.incidents);
    if e.eventId !in s.alerts {
      match Verify(e, token, check)
      case Rejected(_) => SetRow(s, cfg, None, e.eventId, Row(e, now, Suppressed, Refused, None), None);
      case Unavailable =>
        var held := Row(e, now, Shown, Held, token).(retryAt := Some(now + cfg.authzRetryMs));
        SetRow(s, cfg, None, e.eventId, held, None);
      case Verified => AcceptKeeps(s, cfg, Row(e, now, Shown, Cleared, None), now, dedupUp);
      case NotRequired => AcceptKeeps(s, cfg, Row(e, now, Shown, Unneeded, None), now, dedupUp);
    }
  }

  lemma IngestKeeps(s: State, cfg: Config, e: Event, token: Option<string>, lookup: Option<Severity>,
                    check: TokenCheck, now: int, dedupUp: bool)
    requires Inv(s, cfg) && Sane(cfg)
    ensures var s' := Ingest(s, cfg, e, token, lookup, check, now, dedupUp).0;
            && Inv(s', cfg) && Grown(s.incidents, s'.incidents) && SameRowsBut(s.alerts, s'.alerts, e.eventId)
            && (e.eventId in s.alerts ==> s' == s)
  {
    hide IngestAs, InvExcept, Verify, Grown;
    GrownSame(s.incidents);
    IngestAsKeeps(s, cfg, Enriched(e, lookup), token, check, now, dedupUp);
  }

  lemma HeldRow(s: State, cfg: Config, id: string)
    requires Inv(s, cfg) && id in s.alerts && s.alerts[id].authz == Held
    ensures var a := s.alerts[id];
            && a.event.eventId == id && !NeedsNoToken(a.event) && a.state == Shown && a.incident.None?
            && a.retryAt.Some? && a.retryAt.value < a.receivedAt + cfg.authzHoldMs + cfg.authzRetryMs
  {
    hide Backlinked, OneOpenPerKey, DeliveriesOk, NeedsNoToken;
    assert RowOk(id, s.alerts[id], s.incidents, cfg);
  }

  lemma QuarantineKeeps(s: State, cfg: Config, id: string)
    requires Inv(s, cfg) && id in s.alerts && s.alerts[id].authz == Held
    ensures Inv(SetAlert(s, id, Quarantined(s.alerts[id])), cfg)
  {
    HeldRow(s, cfg, id);
    hide InvExcept, NeedsNoToken;
    SetRow(s, cfg, None, id, Quarantined(s.alerts[id]), None);
  }

  lemma RescheduleKeeps(s: State, cfg: Config, id: string, now: int)
    requires Inv(s, cfg) && Sane(cfg) && id in s.alerts && s.alerts[id].authz == Held
    requires now - s.alerts[id].receivedAt < cfg.authzHoldMs
    ensures Inv(SetAlert(s, id, s.alerts[id].(authz := Held, retryAt := Some(now + cfg.authzRetryMs))), cfg)
  {
    HeldRow(s, cfg, id);
    hide InvExcept, NeedsNoToken;
    SetRow(s, cfg, None, id, s.alerts[id].(authz := Held, retryAt := Some(now + cfg.authzRetryMs)), None);
  }

  lemma RetryKeeps(s: State, cfg: Config, id: string, check: TokenCheck, now: int, dedupUp: bool)
    requires Inv(s, cfg) && Sane(cfg) && id in s.alerts && s.alerts[id].authz == Held
    ensures s.alerts[id].event.eventId == id
    ensures var s' := RetryTurn(s, cfg, id, check, now, dedupUp);
            && Inv(s', cfg) && Grown(s.incidents, s'.incidents) && SameRowsBut(s.alerts, s'.alerts, id)
            && (s'.alerts[id].authz == Held ==>
                  s'.alerts[id].receivedAt == s.alerts[id].receivedAt
                  && now < s.alerts[id].receivedAt + cfg.authzHoldMs)
  {
    hide ProcessStored, Inv, Verify, NeedsNoToken, Grown, RowOk;
    var row := s.alerts[id];
    HeldRow(s, cfg, id);
    VerdictAccepts(row.event, row.heldToken, check);
    GrownSame(s.incidents);
    match Verify(row.event, row.heldToken, check)
    case Unavailable =>
      if now - row.receivedAt >= cfg.authzHoldMs {
        QuarantineKeeps(s, cfg, id);
      } else {
        RescheduleKeeps(s, cfg, id, now);
      }
    case Rejected(_) => QuarantineKeeps(s, cfg, id);
    case Verified => ResumeKeeps(s, cfg, id, Cleared, now, dedupUp);
    case NotRequired =>
  }

  lemma ResumeKeeps(s: State, cfg: Config, id: string, authz: AuthzStatus, now: int, dedupUp: bool)
    requires Inv(s, cfg) && id in s.alerts && s.alerts[id].authz == Held && authz == Cleared
    requires s.alerts[id].event.eventId == id
    ensures var s1 := SetAlert(s, id, s.alerts[id].(authz := authz, heldToken := None, retryAt := None));
            var s' := ProcessStored(s1, cfg, id, now, dedupUp).0;
            && Inv(s', cfg) && Grown(s.incidents, s'.incidents) && SameRowsBut(s.alerts, s'.alerts, id)
            && s'.alerts[id].authz != Held
  {
    hide ProcessStored, Backlinked, OneOpenPerKey, DeliveriesOk, NeedsNoToken, Grown;
    var row := s.alerts[id];
    assert RowOk(id, row, s.incidents, cfg);
    var row' := row.(authz := authz, heldToken := None, retryAt := None);
    var s1 := SetAlert(s, id, row');
    SetRow(s, cfg, None, id, row', Some(id));
    ProcessKeeps(s1, cfg, id, now, dedupUp);
    ProcessKeepsAuthz(s1, cfg, id, now, dedupUp);
  }

  lemma ProcessKeepsAuthz(s: State, cfg: Config, id: string, now: int, dedupUp: bool)
    requires id in s.alerts && s.alerts[id].event.eventId == id
    ensures var s' := ProcessStored(s, cfg, id, now, dedupUp).0;
            id in s'.alerts && s'.alerts[id].authz == s.alerts[id].authz && s'.alerts[id].event == s.alerts[id].event
  {
    hide DedupCheck, FindOpen, Decided, ChainFor, NewIncident, Joined, Retemplated, DeliveriesTo;
  }
}
