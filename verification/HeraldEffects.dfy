/**
 What a step of the alert pipeline brings about, said without the pipeline's own functions: which
 answer it gives, which incident an alert joins, and one delivery for each target that is routed
 and approved, no more and no fewer.
 */
module HeraldEffects {
  import opened Wrappers
  import opened AlertTypes
  import opened AlertAuthz
  import opened Dedup
  import opened Routing
  import opened Herald
  import Escalate

  // ----- One delivery for each approved target -----------------------------------------------

  /** The rising positions of exactly the targets that the egress policy approves. */
  ghost predicate Picks(at: seq<nat>, ts: seq<Target>, entries: Option<seq<EgressEntry>>, hostOf: HostOf) {
    && (forall k :: 0 <= k < |at| ==> at[k] < |ts|)
    && (forall k, l :: 0 <= k < l < |at| ==> at[k] < at[l])
    && (forall j :: 0 <= j < |ts| ==> (j in at <==> EgressAllows(entries, ts[j], hostOf)))
  }

  // What all deliveries of one step have in common.
  datatype Notice = Notice(orgId: string, incident: nat, alertIds: seq<string>, urgency: Urgency, step: Option<int>)

  // The delivery of a notice to a target.
  ghost predicate Carries(d: Delivery, n: Notice, t: Target, template: string) {
    && d.orgId == n.orgId && d.incident == n.incident && d.alertIds == n.alertIds && d.urgency == n.urgency
    && d.escalationStep == n.step && d.channel == t.channel && d.destination == t.destination && d.template == template
  }

  type Templates = Target -> string

  /** `after` is `before` and one delivery for each target at these positions, in their order. */
  ghost predicate Appended(before: seq<Delivery>, after: seq<Delivery>, n: Notice, ts: seq<Target>, at: seq<nat>,
                           template: Templates)
  {
    && |after| == |before| + |at| && before <= after
    && forall k :: 0 <= k < |at| ==>
         at[k] < |ts| && Carries(after[|before| + k], n, ts[at[k]], template(ts[at[k]]))
  }

  /** One delivery was made for each approved one of these targets, and none besides. */
  ghost predicate Delivered(s: State, s': State, cfg: Config, n: Notice, ts: seq<Target>, template: Templates) {
    exists at :: Picks(at, ts, EgressFor(s, cfg, n.orgId), cfg.hostOf)
                 && Appended(s.deliveries, s'.deliveries, n, ts, at, template)
  }

  function Shifted(at: seq<nat>): seq<nat> { seq(|at|, k requires 0 <= k < |at| => at[k] + 1) }

  lemma PicksCons(t: Target, rest: seq<Target>, at: seq<nat>, entries: Option<seq<EgressEntry>>, hostOf: HostOf)
    requires Picks(at, rest, entries, hostOf)
    ensures Picks((if EgressAllows(entries, t, hostOf) then [0] else []) + Shifted(at), [t] + rest, entries, hostOf)
  {
    hide EgressAllows;
    var (head, ts) := (if EgressAllows(entries, t, hostOf) then [0] else [], [t] + rest);
    var all := head + Shifted(at);
    ShiftedHas(at);
    assert forall j: nat :: j in all <==> j in head || j in Shifted(at);
    assert forall j :: 0 < j < |ts| ==> ts[j] == rest[j - 1];
    hide Shifted;
  }

  lemma ShiftedHas(at: seq<nat>)
    ensures |Shifted(at)| == |at| && forall k :: 0 <= k < |at| ==> Shifted(at)[k] == at[k] + 1
    ensures forall j: nat :: j in Shifted(at) <==> j > 0 && j - 1 in at
  {
    forall j: nat ensures j in Shifted(at) <==> j > 0 && j - 1 in at {
      if j in Shifted(at) { var k :| 0 <= k < |at| && Shifted(at)[k] == j; }
      if j > 0 && j - 1 in at { var k :| 0 <= k < |at| && at[k] == j - 1; assert Shifted(at)[k] == j; }
    }
  }

  lemma {:induction false} SplitPicks(ts: seq<Target>, entries: Option<seq<EgressEntry>>, hostOf: HostOf)
    returns (at: seq<nat>)
    ensures Picks(at, ts, entries, hostOf)
    ensures var kept := Split(ts, entries, hostOf, true);
            |kept| == |at| && forall k :: 0 <= k < |at| ==> kept[k] == ts[at[k]]
  {
    hide EgressAllows, Picks;
    if ts == [] {
      at := [];
      NothingPicked(entries, hostOf);
    } else {
      var rest := SplitPicks(ts[1..], entries, hostOf);
      PicksCons(ts[0], ts[1..], rest, entries, hostOf);
      assert ts == [ts[0]] + ts[1..];
      at := (if EgressAllows(entries, ts[0], hostOf) then [0] else []) + Shifted(rest);
      PicksInRange(rest, ts[1..], entries, hostOf);
    }
  }

  lemma NothingPicked(entries: Option<seq<EgressEntry>>, hostOf: HostOf)
    ensures Picks([], [], entries, hostOf)
  {
  }

  lemma PicksInRange(at: seq<nat>, ts: seq<Target>, entries: Option<seq<EgressEntry>>, hostOf: HostOf)
    requires Picks(at, ts, entries, hostOf)
    ensures forall k :: 0 <= k < |at| ==> at[k] < |ts|
  {
  }

  // The same targets in other templates.
  predicate SameButTemplates(ts: seq<Target>, us: seq<Target>) {
    |ts| == |us|
    && forall k :: 0 <= k < |ts| ==> ts[k].channel == us[k].channel && ts[k].destination == us[k].destination
  }

  lemma CreatedAre(s: State, i: nat, us: seq<Target>, urgency: Urgency, step: Option<int>, template: Option<string>,
                   cfg: Config, ts: seq<Target>, templates: Templates)
    requires i < |s.incidents|
    requires var kept := Split(ts, EgressFor(s, cfg, s.incidents[i].orgId), cfg.hostOf, true);
             SameButTemplates(kept, us)
             && forall k :: 0 <= k < |us| ==>
                  (if template.Some? then template.value else Or(us[k].template, "incident_card")) == templates(kept[k])
    ensures var n := Notice(s.incidents[i].orgId, i, s.incidents[i].alertIds, urgency, step);
            && Delivered(s, CreateDeliveries(s, i, us, urgency, step, template), cfg, n, ts, templates)
            && |CreateDeliveries(s, i, us, urgency, step, template).deliveries| == |s.deliveries| + |us|
  {
    var s' := CreateDeliveries(s, i, us, urgency, step, template);
    var n := Notice(s.incidents[i].orgId, i, s.incidents[i].alertIds, urgency, step);
    var at := SplitPicks(ts, EgressFor(s, cfg, s.incidents[i].orgId), cfg.hostOf);
    hide Split, EgressFor;
    PicksInRange(at, ts, EgressFor(s, cfg, s.incidents[i].orgId), cfg.hostOf);
    hide Picks;
    assert Appended(s.deliveries, s'.deliveries, n, ts, at, templates);
  }

  // ----- Routing an incident -------------------------------------------------------------------

  predicate UrgencyOf(u: Urgency, s: Severity) {
    && (u == UrgencyCritical <==> s == Critical) && (u == UrgencyHigh <==> s == High)
    && (u == UrgencyNormal <==> s == Medium) && (u == UrgencyLow <==> s == Low || s == Info)
  }

  // A routed target's template: its own or the card, unless the incident is still firing.
  function RoutedTemplate(stillFiring: bool): Templates {
    (t: Target) =>
      if stillFiring then "still_firing" else if t.template.Some? then t.template.value else "incident_card"
  }

  // The escalation written when a chain is attached: nothing fired yet, step 1 after its wait.
  ghost predicate FreshChain(esc: EscalationState, chain: EscalationPolicy, now: int) {
    && esc.policyId == Some(chain.policyId) && esc.currentStep == Some(0) && esc.attachedAt == Some(now)
    && esc.lastFiredAt.None? && esc.repeatCount.None?
    && (if exists st <- chain.steps :: st.step == 1 then
          exists k :: 0 <= k < |chain.steps| && chain.steps[k].step == 1
                      && (forall l :: 0 <= l < k ==> chain.steps[l].step != 1)
                      && esc.nextFireAt == Some(now + chain.steps[k].waitSeconds * 1000)
        else esc.nextFireAt.None?)
  }

  // A chain is attached to incident i, or nothing changes about the incidents.
  ghost predicate ChainAttached(s: State, s': State, cfg: Config, i: nat, policyId: Option<string>, now: int)
    requires i < |s.incidents|
  {
    var inc := s.incidents[i];
    var attach := inc.requiresAck && !Truthy(inc.escalation.policyId) && Truthy(policyId)
                  && ChainFor(s, cfg, inc.orgId, policyId.value).Some?;
    && |s'.incidents| == |s.incidents|
    && (forall j :: 0 <= j < |s.incidents| && j != i ==> s'.incidents[j] == s.incidents[j])
    && s'.incidents[i] == inc.(escalation := s'.incidents[i].escalation)
    && (if attach then FreshChain(s'.incidents[i].escalation, ChainFor(s, cfg, inc.orgId, policyId.value).value, now)
        else s'.incidents[i].escalation == inc.escalation)
  }

  /** Routing incident i: one delivery for each routed and approved target, counted in n, and a
      chain if the incident needs an acknowledgement, has none and is given one that is known. */
  ghost predicate Routed(s: State, s': State, cfg: Config, i: nat, n: nat, now: int, stillFiring: bool)
    requires i < |s.incidents|
  {
    var inc := s.incidents[i];
    var d := Route(PoliciesFor(s, cfg, inc.orgId, now), inc, now);
    && |s'.deliveries| == |s.deliveries| + n
    && (exists u :: UrgencyOf(u, inc.severity)
          && Delivered(s, s', cfg, Notice(inc.orgId, i, inc.alertIds, u, None), d.targets, RoutedTemplate(stillFiring)))
    && ChainAttached(s, s', cfg, i, d.escalationPolicyId, now)
    && s' == s.(deliveries := s'.deliveries, incidents := s'.incidents)
  }

  lemma {:induction false} FirstStep(steps: seq<EscalationStep>, n: int)
    ensures Escalate.FindStep(steps, n).Some? <==> exists st <- steps :: st.step == n
    ensures Escalate.FindStep(steps, n).Some? ==>
              exists k :: 0 <= k < |steps| && steps[k].step == n && (forall l :: 0 <= l < k ==> steps[l].step != n)
                          && Escalate.FindStep(steps, n).value == steps[k]
  {
    if steps != [] {
      assert steps == [steps[0]] + steps[1..];
      if steps[0].step != n {
        FirstStep(steps[1..], n);
        if Escalate.FindStep(steps[1..], n).Some? {
          var k :| 0 <= k < |steps[1..]| && steps[1..][k].step == n
                   && (forall l :: 0 <= l < k ==> steps[1..][l].step != n)
                   && Escalate.FindStep(steps[1..], n).value == steps[1..][k];
          assert forall l :: 0 < l < k + 1 ==> steps[l] == steps[1..][l - 1];
          assert steps[k + 1] == steps[1..][k];
        }
      }
    }
  }

  lemma ChainIsFresh(chain: EscalationPolicy, now: int)
    ensures FreshChain(Escalate.InitialEscalationState(chain, now), chain, now)
  {
    FirstStep(chain.steps, 1);
    hide Escalate.FindStep;
  }

  lemma UrgencyFits(s: Severity)
    ensures UrgencyOf(UrgencyFor(s), s)
  {
  }

  lemma RetemplatedAs(kept: seq<Target>, stillFiring: bool)
    ensures var us := Retemplated(kept, stillFiring);
            SameButTemplates(kept, us)
            && forall k :: 0 <= k < |us| ==> Or(us[k].template, "incident_card") == RoutedTemplate(stillFiring)(kept[k])
  {
  }

  lemma AttachBrings(s: State, s1: State, cfg: Config, i: nat, policyId: Option<string>, now: int)
    requires i < |s.incidents| && s1 == s.(deliveries := s1.deliveries)
    ensures var s' := AttachChain(s1, cfg, i, policyId, now);
            ChainAttached(s, s', cfg, i, policyId, now) && s' == s1.(incidents := s'.incidents)
  {
    hide FreshChain, Escalate.InitialEscalationState;
    if Truthy(policyId) {
      var chain := ChainFor(s, cfg, s.incidents[i].orgId, policyId.value);
      assert chain == ChainFor(s1, cfg, s.incidents[i].orgId, policyId.value);
      if chain.Some? { ChainIsFresh(chain.value, now); }
    }
  }

  lemma RouteBrings(s: State, cfg: Config, i: nat, now: int, stillFiring: bool)
    requires i < |s.incidents|
    ensures var (s', n) := RouteAndQueue(s, cfg, i, now, stillFiring); Routed(s, s', cfg, i, n, now, stillFiring)
  {
    var inc := s.incidents[i];
    var (s', n) := RouteAndQueue(s, cfg, i, now, stillFiring);
    hide Route, Split, PoliciesFor, EgressFor, AttachChain, DeliveriesTo, Delivered, Retemplated, UrgencyFor, UrgencyOf;
    hide ChainAttached, RoutedTemplate, SameButTemplates;
    var route := Route(PoliciesFor(s, cfg, inc.orgId, now), inc, now);
    var kept := Split(route.targets, EgressFor(s, cfg, inc.orgId), cfg.hostOf, true);
    var us := Retemplated(kept, stillFiring);
    RetemplatedAs(kept, stillFiring);
    RetemplatedSize(kept, stillFiring);
    UrgencyFits(inc.severity);
    CreatedAre(s, i, us, UrgencyFor(inc.severity), None, None, cfg, route.targets, RoutedTemplate(stillFiring));
    var s1 := CreateDeliveries(s, i, us, UrgencyFor(inc.severity), None, None);
    AttachBrings(s, s1, cfg, i, route.escalationPolicyId, now);
    SameDeliveries(s, s1, s', cfg, Notice(inc.orgId, i, inc.alertIds, UrgencyFor(inc.severity), None), route.targets,
                   RoutedTemplate(stillFiring));
  }

  lemma RetemplatedSize(ts: seq<Target>, stillFiring: bool)
    ensures |Retemplated(ts, stillFiring)| == |ts|
  {
  }

  lemma SameDeliveries(s: State, s1: State, s': State, cfg: Config, n: Notice, ts: seq<Target>, template: Templates)
    requires Delivered(s, s1, cfg, n, ts, template) && s'.deliveries == s1.deliveries
    ensures Delivered(s, s', cfg, n, ts, template)
  {
    hide Picks, Appended, EgressFor;
  }

  // ----- Joining an incident -------------------------------------------------------------------

  predicate HasKey(inc: Incident, e: Event) {
    inc.orgId == e.orgId && inc.state != Resolved
    && inc.correlationKey
       == "asset:" + e.assetId + "|" + (if e.fingerprintHint.Some? then e.fingerprintHint.value else e.sourceEventId)
  }

  predicate Worse(a: Severity, b: Severity) {
    match b
    case Info => a != Info
    case Low => a == Medium || a == High || a == Critical
    case Medium => a == High || a == Critical
    case High => a == Critical
    case Critical => false
  }

  /** The alert joins the first incident of its organization and finding that is not resolved, which
      may get more severe by it; without one it opens a new incident of its effective severity. */
  ghost predicate JoinedAt(s: State, s': State, e: Event, severity: Severity, i: nat, now: int)
    requires e.eventId in s.alerts
  {
    && i <= |s.incidents| && |s'.incidents| == (if i < |s.incidents| then |s.incidents| else |s.incidents| + 1)
    && (forall j :: 0 <= j < |s.incidents| && j != i ==> s'.incidents[j] == s.incidents[j])
    && (forall j :: 0 <= j < i ==> !HasKey(s.incidents[j], e))
    && HasKey(s'.incidents[i], e)
    && (var inc := s'.incidents[i];
        if i < |s.incidents| then
          var was := s.incidents[i];
          && HasKey(was, e)
          && inc == was.(alertIds := if e.eventId in was.alertIds then was.alertIds else was.alertIds + [e.eventId],
                         severity := if Worse(e.severity, was.severity) then e.severity else was.severity,
                         requiresAck := was.requiresAck || e.requiresAck)
        else
          && inc.state == Open && inc.alertIds == [e.eventId] && inc.category == e.category
          && inc.severity == (if Worse(e.severity, severity) then e.severity else severity)
          && inc.sourceModule == e.sourceModule && inc.criticality == e.criticality && inc.labels == e.labels
          && inc.requiresAck == e.requiresAck && inc.firstSeenAt == now && inc.ackAt.None?
          && !Truthy(inc.escalation.policyId) && inc.escalation.nextFireAt.None? && !inc.exhausted)
    && s' == s.(incidents := s'.incidents,
                alerts := s.alerts[e.eventId := s.alerts[e.eventId].(incident := Some(i))])
  }

  lemma WorseIsHigherRank(a: Severity, b: Severity)
    ensures Worse(a, b) <==> Rank(a) > Rank(b)
    ensures MaxSeverity(b, a) == if Worse(a, b) then a else b
  {
  }

  lemma TakesIffHasKey(inc: Incident, e: Event)
    ensures Takes(inc, e.orgId, CorrelationKey(e)) <==> HasKey(inc, e)
  {
  }

  lemma CorrelateBrings(s: State, e: Event, severity: Severity, now: int)
    requires e.eventId in s.alerts
    ensures var (s', i) := Correlate(s, e, severity, now); i < |s'.incidents| && JoinedAt(s, s', e, severity, i, now)
  {
    hide JoinedAt, Takes, CorrelationKey;
    if FindOpen(s.incidents, e.orgId, CorrelationKey(e), 0).Some? {
      JoinsFound(s, e, severity, now);
    } else {
      OpensNew(s, e, severity, now);
    }
  }

  // The lookup in terms of the finding.
  lemma FoundFor(incs: seq<Incident>, e: Event)
    ensures var r := FindOpen(incs, e.orgId, CorrelationKey(e), 0);
            && (r.Some? ==> r.value < |incs| && HasKey(incs[r.value], e))
            && (forall j :: 0 <= j < (if r.Some? then r.value else |incs|) ==> !HasKey(incs[j], e))
  {
    hide FindOpen, HasKey, Takes, CorrelationKey;
    forall inc ensures Takes(inc, e.orgId, CorrelationKey(e)) <==> HasKey(inc, e) { TakesIffHasKey(inc, e); }
  }

  lemma JoinsFound(s: State, e: Event, severity: Severity, now: int)
    requires e.eventId in s.alerts && FindOpen(s.incidents, e.orgId, CorrelationKey(e), 0).Some?
    ensures var (s', i) := Correlate(s, e, severity, now); i < |s'.incidents| && JoinedAt(s, s', e, severity, i, now)
  {
    hide FindOpen, HasKey, CorrelationKey, Worse, MaxSeverity, NewIncident;
    FoundFor(s.incidents, e);
    var was := s.incidents[FindOpen(s.incidents, e.orgId, CorrelationKey(e), 0).value];
    WorseIsHigherRank(e.severity, was.severity);
    SameKeyAfter(was, e);
  }

  lemma OpensNew(s: State, e: Event, severity: Severity, now: int)
    requires e.eventId in s.alerts && FindOpen(s.incidents, e.orgId, CorrelationKey(e), 0).None?
    ensures var (s', i) := Correlate(s, e, severity, now); i < |s'.incidents| && JoinedAt(s, s', e, severity, i, now)
  {
    hide FindOpen, HasKey, CorrelationKey, Worse, MaxSeverity;
    FoundFor(s.incidents, e);
    WorseIsHigherRank(e.severity, severity);
    NewHasKey(e, severity, now);
  }

  lemma SameKeyAfter(inc: Incident, e: Event)
    ensures HasKey(Joined(inc, e), e) == HasKey(inc, e)
  {
  }

  lemma NewHasKey(e: Event, severity: Severity, now: int)
    ensures HasKey(Joined(NewIncident(e, severity, now), e), e)
  {
    assert [] + [e.eventId] == [e.eventId];
  }

  // ----- Processing an accepted alert ----------------------------------------------------------

  /** What becomes of an accepted alert: suppressed as a duplicate, and nobody hears of it; or in an
      incident that is then routed, with the answer that names the incident and counts what was
      queued, in the templates of a repeated notice if it is one. */
  ghost predicate Processing(s: State, s': State, r: IngestResult, cfg: Config, id: string, now: int, dedupUp: bool)
    requires id in s.alerts && s.alerts[id].event.eventId == id
  {
    var row := s.alerts[id];
    var (seen', occurrence, _) := DedupCheck(s.seen, row.event, now, dedupUp);
    var noted := s.(seen := seen', alerts := s.alerts[id := row.(occurrence := occurrence)]);
    if occurrence == Duplicate then
      && r == SuppressedByDedup
      && s' == noted.(alerts := s.alerts[id := row.(occurrence := Duplicate, state := Suppressed)])
    else
      exists mid: State, i: nat, n: nat ::
        && i < |mid.incidents| && JoinedAt(noted, mid, row.event, row.severity, i, now)
        && Routed(mid, s', cfg, i, n, now, occurrence == Renotify)
        && r == (if occurrence == Renotify then Renotified(i, n) else Processed(i, n))
  }

  lemma ProcessBrings(s: State, cfg: Config, id: string, now: int, dedupUp: bool)
    requires id in s.alerts && s.alerts[id].event.eventId == id
    ensures var (s', r) := ProcessStored(s, cfg, id, now, dedupUp); Processing(s, s', r, cfg, id, now, dedupUp)
  {
    hide DedupCheck, Correlate, RouteAndQueue, Routed, JoinedAt;
    var row := s.alerts[id];
    var (seen', occurrence, degraded) := DedupCheck(s.seen, row.event, now, dedupUp);
    var noted := s.(seen := seen', alerts := s.alerts[id := row.(occurrence := occurrence)]);
    if occurrence == Duplicate {
      assert noted.alerts[id := noted.alerts[id].(state := Suppressed)]
          == s.alerts[id := row.(occurrence := Duplicate, state := Suppressed)];
    } else {
      CorrelateBrings(noted, row.event, row.severity, now);
      var (mid, i) := Correlate(noted, row.event, row.severity, now);
      RouteBrings(mid, cfg, i, now, occurrence == Renotify);
    }
  }

  // ----- Ingest ----------------------------------------------------------------------------------

  // Any confirmed vulnerability or exposure of a critical asset is at least high.
  ghost predicate Effective(severity: Severity, e: Event) {
    if e.criticality == Some(Critical) && e.confidence == Confirmed && (e.category == Vuln || e.category == Exposure)
       && (e.severity == Info || e.severity == Low || e.severity == Medium)
    then severity == High else severity == e.severity
  }

  lemma EffectiveIs(e: Event)
    ensures Effective(EffectiveSeverity(e), e)
  {
  }

  // The row an event comes in with.
  ghost predicate Arrived(a: Alert, e: Event, now: int, state: AlertState, authz: AuthzStatus) {
    && a.event == e && a.receivedAt == now && Effective(a.severity, e) && a.state == state && a.occurrence == New
    && a.authz == authz && a.incident.None?
  }

  /** What an event in its time comes to: a refused row; nothing at all if it is known; a row on hold
      with its token and the time of its first retry; or a processed alert, marked verified or as
      needing no token. */
  ghost predicate TakenIn(s: State, s': State, r: IngestResult, cfg: Config, e: Event, verdict: Verdict,
                          token: Option<string>, now: int, dedupUp: bool)
  {
    var id := e.eventId;
    if verdict.Rejected? then
      && r == IngestRejected(verdict.code)
      && (if id in s.alerts then s' == s
          else id in s'.alerts && Arrived(s'.alerts[id], e, now, Suppressed, Refused)
               && s'.alerts[id].heldToken.None? && s' == s.(alerts := s.alerts[id := s'.alerts[id]]))
    else if id in s.alerts then s' == s && r == DuplicateEvent
    else if verdict.Unavailable? then
      && r == OnHold && id in s'.alerts && Arrived(s'.alerts[id], e, now, Shown, Held)
      && s'.alerts[id].heldToken == token && s'.alerts[id].retryAt == Some(now + cfg.authzRetryMs)
      && s' == s.(alerts := s.alerts[id := s'.alerts[id]])
    else
      exists row :: Arrived(row, e, now, Shown, if verdict == Verified then Cleared else Unneeded)
        && row.heldToken.None? && row.retryAt.None?
        && Processing(s.(alerts := s.alerts[id := row]), s', r, cfg, id, now, dedupUp)
  }

  /** Each answer of the ingest with exactly its condition, and what it leaves behind. */
  ghost predicate Ingested(s: State, s': State, r: IngestResult, cfg: Config, e: Event, token: Option<string>,
                           lookup: Option<Severity>, check: TokenCheck, now: int, dedupUp: bool)
  {
    if e.occurredAt.None? || now - e.occurredAt.value > 86400000 || e.occurredAt.value - now > 86400000 then
      s' == s && r == IngestRejected("OCCURRED_AT_OUT_OF_RANGE")
    else
      var x := e.(criticality := if lookup.Some? then lookup else e.criticality);
      TakenIn(s, s', r, cfg, x, Verify(x, token, check), token, now, dedupUp)
  }

  lemma EnrichedIs(e: Event, lookup: Option<Severity>)
    ensures Enriched(e, lookup) == e.(criticality := if lookup.Some? then lookup else e.criticality)
  {
  }

  lemma RowArrives(e: Event, now: int, state: AlertState, authz: AuthzStatus, token: Option<string>)
    ensures Arrived(Row(e, now, state, authz, token), e, now, state, authz)
  {
    EffectiveIs(e);
    hide EffectiveSeverity, Effective;
  }

  lemma TakenInBrings(s: State, cfg: Config, e: Event, verdict: Verdict, token: Option<string>, now: int, dedupUp: bool)
    ensures var (s', r) := IngestAs(s, cfg, e, verdict, token, now, dedupUp);
            TakenIn(s, s', r, cfg, e, verdict, token, now, dedupUp)
  {
    hide ProcessStored, EffectiveSeverity, Effective, Processing;
    match verdict
    case Rejected(_) => RowArrives(e, now, Suppressed, Refused, None);
    case Unavailable => RowArrives(e, now, Shown, Held, token);
    case _ =>
      var authz := if verdict == Verified then Cleared else Unneeded;
      RowArrives(e, now, Shown, authz, None);
      var row := Row(e, now, Shown, authz, None);
      if e.eventId !in s.alerts {
        ProcessBrings(s.(alerts := s.alerts[e.eventId := row]), cfg, e.eventId, now, dedupUp);
      }
  }

  lemma IngestBrings(s: State, cfg: Config, e: Event, token: Option<string>, lookup: Option<Severity>,
                     check: TokenCheck, now: int, dedupUp: bool)
    ensures var (s', r) := Ingest(s, cfg, e, token, lookup, check, now, dedupUp);
            Ingested(s, s', r, cfg, e, token, lookup, check, now, dedupUp)
  {
    hide Verify, Enriched, IngestAs, TakenIn;
    EnrichedIs(e, lookup);
    var x := Enriched(e, lookup);
    TakenInBrings(s, cfg, x, Verify(x, token, check), token, now, dedupUp);
  }

  ghost predicate Resumed(s: State, s': State, cfg: Config, id: string, now: int, dedupUp: bool)
    requires id in s.alerts && s.alerts[id].event.eventId == id
  {
    exists r :: Processing(s, s', r, cfg, id, now, dedupUp)
  }

  /** A retry goes on where the ingest stopped: accepted, the alert is processed as any other, without
      its token; rejected, or past its hold window, it is refused; otherwise it waits again. */
  lemma RetryBrings(s: State, cfg: Config, id: string, check: TokenCheck, now: int, dedupUp: bool)
    requires id in s.alerts && s.alerts[id].event.eventId == id
    ensures var (row, s') := (s.alerts[id], RetryTurn(s, cfg, id, check, now, dedupUp));
            var verdict := Verify(row.event, row.heldToken, check);
            if verdict == Verified || verdict == NotRequired then
              var cleared := row.(authz := if verdict == Verified then Cleared else Unneeded, heldToken := None,
                                  retryAt := None);
              Resumed(s.(alerts := s.alerts[id := cleared]), s', cfg, id, now, dedupUp)
            else if verdict.Rejected? || now >= row.receivedAt + cfg.authzHoldMs then
              s' == s.(alerts := s.alerts[id := row.(authz := Refused, state := Suppressed, heldToken := None,
                                                     retryAt := None)])
            else s' == s.(alerts := s.alerts[id := row.(authz := Held, retryAt := Some(now + cfg.authzRetryMs))])
  {
    hide ProcessStored, Verify, Processing;
    var row := s.alerts[id];
    var verdict := Verify(row.event, row.heldToken, check);
    if verdict == Verified || verdict == NotRequired {
      var authz := if verdict == Verified then Cleared else Unneeded;
      var cleared := row.(authz := authz, heldToken := None, retryAt := None);
      ProcessBrings(s.(alerts := s.alerts[id := cleared]), cfg, id, now, dedupUp);
    }
  }

  // ----- Escalation ------------------------------------------------------------------------------

  // The chain of an incident is looked for among the stored ones only.
  ghost predicate StoredFor(s: State, inc: Incident, chain: EscalationPolicy) {
    Truthy(inc.escalation.policyId) && (inc.orgId, inc.escalation.policyId.value) in s.chains
    && s.chains[(inc.orgId, inc.escalation.policyId.value)] == chain
  }

  /** A turn of the escalation loop: a step that fires makes one delivery for each of its approved
      targets, in the escalation template, at least of high urgency and marked with the step; an
      exhausted chain makes the one to the SIEM webhook if there is one; a turn for which nothing is
      due changes nothing, and one whose chain is not stored takes the incident off the schedule. */
  ghost predicate TurnTaken(s: State, s': State, cfg: Config, i: nat, now: int)
    requires i < |s.incidents|
  {
    var inc := s.incidents[i];
    if forall chain :: !StoredFor(s, inc, chain) then
      s' == s.(incidents := s.incidents[i := inc.(escalation := inc.escalation.(nextFireAt := None))])
    else
      exists chain :: StoredFor(s, inc, chain) && TakenBy(s, s', cfg, i, chain, now)
  }

  ghost predicate TakenBy(s: State, s': State, cfg: Config, i: nat, chain: EscalationPolicy, now: int)
    requires i < |s.incidents|
  {
    var inc := s.incidents[i];
    var out := Escalate.NextEscalationState(inc, chain, now);
    && s' == s.(deliveries := s'.deliveries, incidents := s.incidents[i := Escalate.Written(inc, out, chain, now)])
    && match out
       case NotYet => s'.deliveries == s.deliveries
       case Step(step, _) =>
         Delivered(s, s', cfg,
                   Notice(inc.orgId, i, inc.alertIds, if inc.severity == Critical then UrgencyCritical else UrgencyHigh,
                          Some(step.step)),
                   step.targets, (t: Target) => "escalation")
       case UsedUp(_) =>
         if Truthy(cfg.bootstrap.orgSiemWebhook) then
           s'.deliveries == s.deliveries + [Delivery(inc.orgId, i, inc.alertIds, Webhook,
                                                     cfg.bootstrap.orgSiemWebhook.value, "escalation", UrgencyCritical,
                                                     None)]
         else s'.deliveries == s.deliveries
  }

  predicate Rising(s: seq<nat>) { forall k, l :: 0 <= k < l < |s| ==> s[k] < s[l] }

  lemma {:induction false} DueFrom(incs: seq<Incident>, now: int, i: nat)
    requires i <= |incs|
    ensures Rising(DueIncidents(incs, now, i))
    decreases |incs| - i
  {
    if i < |incs| {
      DueFrom(incs, now, i + 1);
      var rest := DueIncidents(incs, now, i + 1);
      FirstRises(i, rest);
      assert [] + rest == rest;
    }
  }

  lemma FirstRises(i: nat, rest: seq<nat>)
    requires Rising(rest) && forall j <- rest :: i < j
    ensures Rising([i] + rest)
  {
    assert forall l :: 0 <= l < |rest| ==> rest[l] in rest;
  }

  /** Whom a pass of the escalation loop visits, each once and in their order: the incidents that need
      an acknowledgement, are open or escalated, and whose time has come. */
  lemma DueAre(incs: seq<Incident>, now: int)
    ensures var due := DueIncidents(incs, now, 0);
            && (forall i: nat :: i in due <==>
                  && i < |incs| && incs[i].requiresAck && (incs[i].state == Open || incs[i].state == Escalated)
                  && exists at :: incs[i].escalation.nextFireAt == Some(at) && at <= now)
            && Rising(due)
  {
    DueFrom(incs, now, 0);
  }

  lemma StepBrings(s: State, cfg: Config, i: nat, step: EscalationStep)
    requires i < |s.incidents|
    ensures var (inc, s') := (s.incidents[i], FireStep(s, cfg, i, step));
            && Delivered(s, s', cfg,
                         Notice(inc.orgId, i, inc.alertIds,
                                if inc.severity == Critical then UrgencyCritical else UrgencyHigh, Some(step.step)),
                         step.targets, (t: Target) => "escalation")
            && s' == s.(deliveries := s'.deliveries)
  {
    hide Split, EgressFor, DeliveriesTo, Delivered;
    var inc := s.incidents[i];
    var kept := Split(step.targets, EgressFor(s, cfg, inc.orgId), cfg.hostOf, true);
    CreatedAre(s, i, kept, if inc.severity == Critical then UrgencyCritical else UrgencyHigh, Some(step.step),
               Some("escalation"), cfg, step.targets, (t: Target) => "escalation");
  }

  lemma ExhaustionBrings(s: State, cfg: Config, i: nat)
    requires i < |s.incidents|
    ensures var (inc, s') := (s.incidents[i], FireExhausted(s, cfg, i));
            && s' == s.(deliveries := s'.deliveries)
            && s'.deliveries == s.deliveries
                 + if Truthy(cfg.bootstrap.orgSiemWebhook) then
                     [Delivery(inc.orgId, i, inc.alertIds, Webhook, cfg.bootstrap.orgSiemWebhook.value, "escalation",
                               UrgencyCritical, None)]
                   else []
  {
  }

  lemma EscalationBrings(s: State, cfg: Config, i: nat, now: int)
    requires i < |s.incidents|
    ensures TurnTaken(s, EscalationTurn(s, cfg, i, now), cfg, i, now)
  {
    hide Delivered, FireStep, FireExhausted, Escalate.NextEscalationState, Escalate.Written;
    var inc := s.incidents[i];
    if ChainOf(s, inc).Some? {
      var chain := ChainOf(s, inc).value;
      var s' := EscalationTurn(s, cfg, i, now);
      assert StoredFor(s, inc, chain);
      match Escalate.NextEscalationState(inc, chain, now)
      case NotYet =>
      case Step(step, _) =>
        StepBrings(s, cfg, i, step);
        SameDeliveries(s, FireStep(s, cfg, i, step), s', cfg,
                       Notice(inc.orgId, i, inc.alertIds,
                              if inc.severity == Critical then UrgencyCritical else UrgencyHigh, Some(step.step)),
                       step.targets, (t: Target) => "escalation");
      case UsedUp(_) => ExhaustionBrings(s, cfg, i);
    }
  }

  // ----- Orders ------------------------------------------------------------------------------------

  function ChannelName(c: Channel): string {
    match c
    case Slack => "slack"
    case Teams => "teams"
    case SplunkHec => "splunk-hec"
    case Syslog => "syslog"
    case Webhook => "webhook"
  }

  // An override names a channel, a colon and a destination.
  ghost predicate Spells(raw: string, t: Target) {
    t.template.None? && raw == ChannelName(t.channel) + ":" + t.destination
  }

  // These are the targets spelled, in order; what spells none is passed over.
  ghost predicate SpelledBy(raws: seq<string>, ts: seq<Target>) {
    if raws == [] then ts == []
    else if exists t :: Spells(raws[0], t) then ts != [] && Spells(raws[0], ts[0]) && SpelledBy(raws[1..], ts[1..])
    else SpelledBy(raws[1..], ts)
  }

  lemma ColonAt(name: string, rest: string)
    requires ':' !in name
    ensures IndexOfColon(name + ":" + rest) == |name|
  {
    var raw := name + ":" + rest;
    if name != "" {
      assert raw[0] == name[0] && raw[1..] == name[1..] + ":" + rest;
      assert name[0] in name && forall c <- name[1..] :: c in name;
      ColonAt(name[1..], rest);
    }
  }

  lemma {:induction false} AtColon(raw: string)
    ensures var i := IndexOfColon(raw); i >= 0 ==> raw[i] == ':'
  {
    if raw != "" && raw[0] != ':' { AtColon(raw[1..]); }
  }

  lemma NamedChannel(name: string)
    ensures ChannelNamed(name).Some? ==> ChannelName(ChannelNamed(name).value) == name
    ensures forall c: Channel :: ChannelNamed(ChannelName(c)) == Some(c) && ':' !in ChannelName(c)
  {
  }

  lemma OverrideSpells(raw: string, t: Target)
    ensures Spells(raw, t) <==> OverrideTarget(raw) == [t]
  {
    hide ChannelNamed, ChannelName, IndexOfColon;
    var at := IndexOfColon(raw);
    AtColon(raw);
    NamedChannel(if at > 0 then raw[..at] else "");
    if at > 0 { assert raw == raw[..at] + ":" + raw[at + 1..]; }
    if Spells(raw, t) {
      var name := ChannelName(t.channel);
      ColonAt(name, t.destination);
      NameNotEmpty(t.channel);
      assert raw[..|name|] == name && raw[|name| + 1..] == t.destination;
    }
  }

  lemma NameNotEmpty(c: Channel)
    ensures ChannelName(c) != ""
  {
  }

  lemma OverrideAlone(raw: string)
    ensures OverrideTarget(raw) == [] || OverrideTarget(raw) == [OverrideTarget(raw)[0]]
  {
  }

  lemma {:induction false} OverridesSpelled(raws: seq<string>)
    ensures SpelledBy(raws, OverrideTargets(raws))
  {
    if raws != [] {
      OverridesSpelled(raws[1..]);
      OverrideAlone(raws[0]);
      forall t ensures Spells(raws[0], t) <==> OverrideTarget(raws[0]) == [t] { OverrideSpells(raws[0], t); }
      hide OverrideTarget, Spells;
      var own := OverrideTarget(raws[0]);
      if own == [] {
        assert own + OverrideTargets(raws[1..]) == OverrideTargets(raws[1..]);
      } else {
        assert Spells(raws[0], own[0]);
        assert (own + OverrideTargets(raws[1..]))[1..] == OverrideTargets(raws[1..]);
      }
    }
  }

  /** An order with overrides: its alert joins an incident, and one delivery is made for each override
      target that is approved, whatever the routing policies say. */
  ghost predicate Overridden(s: State, s': State, r: IngestResult, cfg: Config, raws: seq<string>, id: string, now: int)
    requires id in s.alerts && s.alerts[id].event.eventId == id
  {
    var row := s.alerts[id];
    exists mid: State, i: nat, ts: seq<Target>, u ::
      && i < |mid.incidents| && JoinedAt(s, mid, row.event, row.severity, i, now)
      && SpelledBy(raws, ts) && UrgencyOf(u, row.severity)
      && Delivered(mid, s', cfg, Notice(row.event.orgId, i, mid.incidents[i].alertIds, u, None), ts,
                   (t: Target) => "notify")
      && s' == mid.(deliveries := s'.deliveries) && |s'.deliveries| >= |s.deliveries|
      && r == Processed(i, |s'.deliveries| - |s.deliveries|)
  }

  lemma OverrideBrings(s: State, cfg: Config, raws: seq<string>, id: string, now: int)
    requires id in s.alerts && s.alerts[id].event.eventId == id
    ensures var (s', r) := NotifyAccepted(s, cfg, raws, id, now); Overridden(s, s', r, cfg, raws, id, now)
  {
    hide Correlate, Split, EgressFor, DeliveriesTo, OverrideTargets, SpelledBy, UrgencyFor, UrgencyOf;
    var (row, (s', r)) := (s.alerts[id], NotifyAccepted(s, cfg, raws, id, now));
    var (mid, i) := Correlate(s, row.event, row.severity, now);
    CorrelateBrings(s, row.event, row.severity, now);
    hide JoinedAt;
    JoinedOrg(s, mid, row.event, row.severity, i, now);
    hide Delivered;
    var ts := OverrideTargets(raws);
    OverridesSpelled(raws);
    UrgencyFits(row.severity);
    var kept := Split(ts, EgressFor(mid, cfg, row.event.orgId), cfg.hostOf, true);
    CreatedAre(mid, i, kept, UrgencyFor(row.severity), None, Some("notify"), cfg, ts, (t: Target) => "notify");
  }

  lemma JoinedOrg(s: State, s': State, e: Event, severity: Severity, i: nat, now: int)
    requires e.eventId in s.alerts && i < |s'.incidents| && JoinedAt(s, s', e, severity, i, now)
    ensures s'.incidents[i].orgId == e.orgId && s'.deliveries == s.deliveries
  {
  }

  // The event an order is turned into.
  ghost predicate OrderedAs(e: Event, o: Order, eventId: string, now: int) {
    && e.eventId == eventId && e.orgId == o.orgId && e.sourceModule == Commander
    && e.sourceEventId == (if o.orderId.Some? then o.orderId.value else eventId)
    && e.fingerprintHint == Some(e.sourceEventId) && e.tokenId == o.tokenId
    && e.severity == (if o.severity.Some? then o.severity.value else Info) && e.confidence == Confirmed
    && e.category == (if o.category.Some? then o.category.value else Operational)
    && e.assetId == (if o.assetId.Some? then o.assetId.value else "cmd_oneshot") && e.criticality == o.criticality
    && e.occurredAt == Some(now) && e.dedupWindowSeconds == Some(0) && e.renotifyEvery.None?
    && e.requiresAck == o.requiresAck && e.labels == map[]
  }

  /** Each answer to an order with exactly its condition. Overrides go round routing and deduplication,
      but neither round authorization nor round the egress policy; an order without any is an event
      like others. */
  ghost predicate Ordered(s: State, s': State, r: IngestResult, cfg: Config, o: Order, eventId: string,
                          lookup: Option<Severity>, check: TokenCheck, now: int, dedupUp: bool)
  {
    var severity := if o.severity.Some? then o.severity.value else Info;
    if o.severityFloor.Some? && Worse(o.severityFloor.value, severity) then s' == s && r == SuppressedByFloor
    else
      exists e :: OrderedAs(e, o, eventId, now)
        && if o.channelOverride.None? || o.channelOverride.value == [] then
             Ingested(s, s', r, cfg, e, o.token, lookup, check, now, dedupUp)
           else
             TakenAround(s, s', r, cfg, e.(criticality := if lookup.Some? then lookup else e.criticality), o.token,
                         check, o.channelOverride.value, now)
  }

  ghost predicate TakenAround(s: State, s': State, r: IngestResult, cfg: Config, e: Event, token: Option<string>,
                              check: TokenCheck, raws: seq<string>, now: int)
  {
    var (verdict, id) := (Verify(e, token, check), e.eventId);
    if verdict.Rejected? then s' == s && r == IngestRejected(verdict.code)
    else if verdict.Unavailable? then s' == s && r == OnHold
    else if id in s.alerts then s' == s && r == DuplicateEvent
    else
      exists row :: Arrived(row, e, now, Shown, if verdict == Verified then Cleared else Unneeded)
        && row.heldToken.None? && row.retryAt.None?
        && Overridden(s.(alerts := s.alerts[id := row]), s', r, cfg, raws, id, now)
  }

  lemma AroundBrings(s: State, cfg: Config, e: Event, token: Option<string>, check: TokenCheck, raws: seq<string>,
                     now: int)
    ensures var (s', r) := NotifyAs(s, cfg, e, Verify(e, token, check), raws, now);
            TakenAround(s, s', r, cfg, e, token, check, raws, now)
  {
    hide NotifyAccepted, Verify, Overridden, EffectiveSeverity, Effective;
    var verdict := Verify(e, token, check);
    var authz := if verdict == Verified then Cleared else Unneeded;
    var row := Row(e, now, Shown, authz, None);
    RowArrives(e, now, Shown, authz, None);
    if e.eventId !in s.alerts {
      OverrideBrings(s.(alerts := s.alerts[e.eventId := row]), cfg, raws, e.eventId, now);
    }
  }

  lemma OrderBrings(s: State, cfg: Config, o: Order, eventId: string, lookup: Option<Severity>, check: TokenCheck,
                    now: int, dedupUp: bool)
    ensures var (s', r) := Notify(s, cfg, o, eventId, lookup, check, now, dedupUp);
            Ordered(s, s', r, cfg, o, eventId, lookup, check, now, dedupUp)
  {
    hide Ingest, NotifyAs, Verify, Ingested, TakenAround, Worse;
    if o.severityFloor.Some? { WorseIsHigherRank(o.severityFloor.value, Or(o.severity, Info)); }
    var e := OrderEvent(o, eventId, now);
    assert OrderedAs(e, o, eventId, now);
    IngestBrings(s, cfg, e, o.token, lookup, check, now, dedupUp);
    if o.channelOverride.Some? {
      EnrichedIs(e, lookup);
      AroundBrings(s, cfg, Enriched(e, lookup), o.token, check, o.channelOverride.value, now);
    }
  }

  // ----- Acknowledging and resolving -----------------------------------------------------------------

  /** An acknowledgement takes effect exactly with a fresh nonce on an incident that is open or
      escalated, and only then uses the nonce up; a resolution always stands. Nothing else changes. */
  lemma HandlingBrings(s: State, i: nat, nonce: string, now: int)
    ensures var (s', r) := AckIncident(s, i, nonce, now);
            && (r == NonceUsed <==> nonce in s.ackNonces)
            && (r == NotFound <==> nonce !in s.ackNonces && i >= |s.incidents|)
            && (r == Acked <==> nonce !in s.ackNonces && i < |s.incidents|
                                && (s.incidents[i].state == Open || s.incidents[i].state == Escalated))
            && s' == if r == Acked
                     then s.(ackNonces := s.ackNonces + {nonce},
                             incidents := s.incidents[i := s.incidents[i].(state := Acknowledged, ackAt := Some(now))])
                     else s
    ensures ResolveIncident(s, i)
         == if i < |s.incidents| then s.(incidents := s.incidents[i := s.incidents[i].(state := Resolved)]) else s
  {
  }
}
