/**
 The alert pipeline as a state machine: the store's rows, and one function for each step that
 works on them.

 Steps are atomic here; what overlapping steps can do is in HeraldOverlaps. Incidents and
 deliveries are never deleted, so an incident's id is its position, and a fresh id is the next
 one. Audit records, bus messages, metrics and idempotency keys are not part of the state.
 */
module Herald {
  import opened Wrappers
  import opened AlertTypes
  import opened AlertAuthz
  import opened Dedup
  import opened Routing
  import Escalate

  datatype AuthzStatus = Unneeded | Cleared | Held | Refused

  datatype AlertState = Shown | Suppressed

  datatype Alert = Alert(
    event: Event,
    receivedAt: int,
    severity: Severity,
    state: AlertState,
    occurrence: Occurrence,
    authz: AuthzStatus,
    heldToken: Option<string>,
    retryAt: Option<int>,
    incident: Option<nat>)

  datatype Urgency = UrgencyLow | UrgencyNormal | UrgencyHigh | UrgencyCritical

  function UrgencyFor(s: Severity): Urgency {
    match s case Critical => UrgencyCritical case High => UrgencyHigh case Medium => UrgencyNormal case _ => UrgencyLow
  }

  datatype Delivery = Delivery(
    orgId: string,
    incident: nat,
    alertIds: seq<string>,
    channel: Channel,
    destination: string,
    template: string,
    urgency: Urgency,
    escalationStep: Option<int>)

  datatype State = State(
    alerts: map<string, Alert>,
    incidents: seq<Incident>,
    deliveries: seq<Delivery>,
    seen: map<string, Seen>,
    ackNonces: set<string>,
    policies: map<string, seq<RoutingPolicy>>,
    chains: map<(string, string), EscalationPolicy>,
    egress: map<string, seq<EgressEntry>>)

  datatype Config = Config(
    bootstrap: BootstrapChannels,
    egressSeed: map<string, seq<EgressEntry>>,
    authzRetryMs: int,
    authzHoldMs: int,
    hostOf: HostOf)

  const OCCURRED_AT_TOLERANCE_MS := 86400000

  datatype IngestResult =
    | Processed(incident: nat, deliveries: nat)
    | Renotified(incident: nat, deliveries: nat)
    | DuplicateEvent
    | SuppressedByDedup
    | SuppressedByFloor
    | OnHold
    | IngestRejected(code: string)

  // ----- Resolution with bootstrap fallback ------------------------------------------------

  function PoliciesFor(s: State, cfg: Config, org: string, now: int): seq<RoutingPolicy> {
    if org in s.policies && s.policies[org] != [] then s.policies[org] else BootstrapPolicies(cfg.bootstrap, now)
  }

  function StoredChain(s: State, org: string, id: string): Option<EscalationPolicy> {
    if (org, id) in s.chains then Some(s.chains[(org, id)]) else None
  }

  // What routing attaches; the escalation loop looks at the stored chains only.
  function ChainFor(s: State, cfg: Config, org: string, id: string): Option<EscalationPolicy> {
    if id == BOOTSTRAP_CHAIN then Some(Escalate.DefaultEscalationPolicy(cfg.bootstrap.slackSecAlerts))
    else StoredChain(s, org, id)
  }

  function EgressFor(s: State, cfg: Config, org: string): Option<seq<EgressEntry>> {
    if org in s.egress then Some(s.egress[org])
    else if org in cfg.egressSeed then Some(cfg.egressSeed[org]) else None
  }

  // ----- Deliveries ------------------------------------------------------------------------

  function DeliveryTo(t: Target, org: string, incident: nat, ids: seq<string>, urgency: Urgency,
                      step: Option<int>, template: Option<string>): Delivery
  {
    Delivery(org, incident, ids, t.channel, t.destination,
             if template.Some? then template.value else Or(t.template, "incident_card"), urgency, step)
  }

  function DeliveriesTo(ts: seq<Target>, org: string, incident: nat, ids: seq<string>, urgency: Urgency,
                        step: Option<int>, template: Option<string>): seq<Delivery>
  {
    seq(|ts|, i requires 0 <= i < |ts| => DeliveryTo(ts[i], org, incident, ids, urgency, step, template))
  }

  function CreateDeliveries(s: State, incident: nat, ts: seq<Target>, urgency: Urgency,
                            step: Option<int>, template: Option<string>): State
    requires incident < |s.incidents|
  {
    var inc := s.incidents[incident];
    s.(deliveries := s.deliveries + DeliveriesTo(ts, inc.orgId, incident, inc.alertIds, urgency, step, template))
  }

  // ----- Correlation -----------------------------------------------------------------------

  function CorrelationKey(e: Event): string {
    "asset:" + e.assetId + "|" + (if e.fingerprintHint.Some? then e.fingerprintHint.value else e.sourceEventId)
  }

  predicate Unresolved(inc: Incident) { inc.state == Open || inc.state == Acknowledged || inc.state == Escalated }

  predicate Takes(inc: Incident, org: string, key: string) {
    inc.orgId == org && inc.correlationKey == key && Unresolved(inc)
  }

  // The first incident from position i on that takes the key.
  function FindOpen(incs: seq<Incident>, org: string, key: string, i: nat): (r: Option<nat>)
    requires i <= |incs|
    ensures r.Some? ==> i <= r.value < |incs| && Takes(incs[r.value], org, key)
    ensures forall j :: i <= j < (if r.Some? then r.value else |incs|) ==> !Takes(incs[j], org, key)
    decreases |incs| - i
  {
    if i == |incs| then None else if Takes(incs[i], org, key) then Some(i) else FindOpen(incs, org, key, i + 1)
  }

  function NewIncident(e: Event, severity: Severity, now: int): Incident {
    Incident(e.orgId, Open, severity, e.category, e.sourceModule, e.criticality, e.labels, CorrelationKey(e), [],
             e.requiresAck, now, None, NO_ESCALATION, false)
  }

  // Joining raises the incident's severity to the event's own, not the effective one.
  function Joined(inc: Incident, e: Event): Incident {
    inc.(alertIds := if e.eventId in inc.alertIds then inc.alertIds else inc.alertIds + [e.eventId],
         severity := MaxSeverity(inc.severity, e.severity),
         requiresAck := inc.requiresAck || e.requiresAck)
  }

  function Correlate(s: State, e: Event, severity: Severity, now: int): (State, nat)
    requires e.eventId in s.alerts
  {
    var found := FindOpen(s.incidents, e.orgId, CorrelationKey(e), 0);
    var incs := if found.Some? then s.incidents else s.incidents + [NewIncident(e, severity, now)];
    var i := if found.Some? then found.value else |s.incidents|;
    (s.(incidents := incs[i := Joined(incs[i], e)],
        alerts := s.alerts[e.eventId := s.alerts[e.eventId].(incident := Some(i))]), i)
  }

  // ----- Routing ---------------------------------------------------------------------------

  function Retemplated(ts: seq<Target>, stillFiring: bool): seq<Target> {
    if stillFiring then seq(|ts|, i requires 0 <= i < |ts| => ts[i].(template := Some("still_firing"))) else ts
  }

  function Decided(s: State, cfg: Config, inc: Incident, now: int): Decision {
    Filtered(Route(PoliciesFor(s, cfg, inc.orgId, now), inc, now), EgressFor(s, cfg, inc.orgId), cfg.hostOf)
  }

  // Attach the matched policy's chain to an incident that needs an acknowledgement and has none.
  function AttachChain(s: State, cfg: Config, i: nat, policyId: Option<string>, now: int): State
    requires i < |s.incidents|
  {
    var inc := s.incidents[i];
    if inc.requiresAck && !Truthy(inc.escalation.policyId) && Truthy(policyId)
       && ChainFor(s, cfg, inc.orgId, policyId.value).Some?
    then
      var chain := ChainFor(s, cfg, inc.orgId, policyId.value).value;
      s.(incidents := s.incidents[i := inc.(escalation := Escalate.InitialEscalationState(chain, now))])
    else s
  }

  function RouteAndQueue(s: State, cfg: Config, i: nat, now: int, stillFiring: bool): (State, nat)
    requires i < |s.incidents|
  {
    var inc := s.incidents[i];
    var d := Decided(s, cfg, inc, now);
    var s1 := CreateDeliveries(s, i, Retemplated(d.targets, stillFiring), UrgencyFor(inc.severity), None, None);
    (AttachChain(s1, cfg, i, d.escalationPolicyId, now), |d.targets|)
  }

  // ----- Ingest ------------------------------------------------------------------------------

  function Enriched(e: Event, lookup: Option<Severity>): Event {
    if lookup.Some? then e.(criticality := lookup) else e
  }

  function EffectiveSeverity(e: Event): Severity {
    if e.criticality == Some(Critical) && e.confidence == Confirmed && (e.category == Vuln || e.category == Exposure)
    then MaxSeverity(e.severity, High) else e.severity
  }

  function Row(e: Event, receivedAt: int, state: AlertState, authz: AuthzStatus, token: Option<string>): Alert {
    Alert(e, receivedAt, EffectiveSeverity(e), state, New, authz, token, None, None)
  }

  function Insert(s: State, row: Alert): State {
    if row.event.eventId in s.alerts then s else s.(alerts := s.alerts[row.event.eventId := row])
  }

  function SetAlert(s: State, id: string, a: Alert): State { s.(alerts := s.alerts[id := a]) }

  // Dedup, correlate and route an accepted alert.
  function ProcessStored(s: State, cfg: Config, id: string, now: int, dedupUp: bool): (State, IngestResult)
    requires id in s.alerts && s.alerts[id].event.eventId == id
  {
    var row := s.alerts[id];
    var (seen', occurrence, degraded) := DedupCheck(s.seen, row.event, now, dedupUp);
    var s1 := s.(seen := seen', alerts := s.alerts[id := row.(occurrence := occurrence)]);
    if occurrence == Duplicate then
      (SetAlert(s1, id, s1.alerts[id].(state := Suppressed)), SuppressedByDedup)
    else
      var (s2, i) := Correlate(s1, row.event, row.severity, now);
      var (s3, n) := RouteAndQueue(s2, cfg, i, now, occurrence == Renotify);
      (s3, if occurrence == Renotify then Renotified(i, n) else Processed(i, n))
  }

  predicate InTime(e: Event, now: int) {
    e.occurredAt.Some? && -OCCURRED_AT_TOLERANCE_MS <= now - e.occurredAt.value <= OCCURRED_AT_TOLERANCE_MS
  }

  function IngestAs(s: State, cfg: Config, e: Event, verdict: Verdict, token: Option<string>, now: int, dedupUp: bool)
    : (State, IngestResult)
  {
    match verdict
    case Rejected(code) => (Insert(s, Row(e, now, Suppressed, Refused, None)), IngestRejected(code))
    case Unavailable =>
      if e.eventId in s.alerts then (s, DuplicateEvent)
      else (Insert(s, Row(e, now, Shown, Held, token).(retryAt := Some(now + cfg.authzRetryMs))), OnHold)
    case _ =>
      if e.eventId in s.alerts then (s, DuplicateEvent)
      else
        ProcessStored(Insert(s, Row(e, now, Shown, if verdict == Verified then Cleared else Unneeded, None)),
                      cfg, e.eventId, now, dedupUp)
  }

  function Ingest(s: State, cfg: Config, e: Event, token: Option<string>, lookup: Option<Severity>,
                  check: TokenCheck, now: int, dedupUp: bool): (State, IngestResult)
  {
    if !InTime(e, now) then (s, IngestRejected("OCCURRED_AT_OUT_OF_RANGE"))
    else
      var e' := Enriched(e, lookup);
      IngestAs(s, cfg, e', Verify(e', token, check), token, now, dedupUp)
  }

  // ----- Retrying held alerts --------------------------------------------------------------

  predicate RetryDue(a: Alert, now: int) { a.authz == Held && a.retryAt.Some? && a.retryAt.value <= now }

  function Quarantined(a: Alert): Alert {
    a.(authz := Refused, heldToken := None, retryAt := None, state := Suppressed)
  }

  function RetryTurn(s: State, cfg: Config, id: string, check: TokenCheck, now: int, dedupUp: bool): State
    requires id in s.alerts && s.alerts[id].event.eventId == id
  {
    var row := s.alerts[id];
    match Verify(row.event, row.heldToken, check)
    case Unavailable =>
      if now - row.receivedAt >= cfg.authzHoldMs then SetAlert(s, id, Quarantined(row))
      else SetAlert(s, id, row.(authz := Held, retryAt := Some(now + cfg.authzRetryMs)))
    case Rejected(_) => SetAlert(s, id, Quarantined(row))
    case verdict =>
      var row' := row.(authz := if verdict == Verified then Cleared else Unneeded, heldToken := None, retryAt := None);
      ProcessStored(SetAlert(s, id, row'), cfg, id, now, dedupUp).0
  }

  type Checks = string -> TokenCheck

  // The turns of the rows the store has listed as due, in its order.
  function RetryTurns(s: State, cfg: Config, due: seq<string>, checks: Checks, now: int, dedupUp: bool): State
    decreases |due|
  {
    if due == [] then s
    else if due[0] in s.alerts && s.alerts[due[0]].event.eventId == due[0] then
      RetryTurns(RetryTurn(s, cfg, due[0], checks(due[0]), now, dedupUp), cfg, due[1..], checks, now, dedupUp)
    else RetryTurns(s, cfg, due[1..], checks, now, dedupUp)
  }

  // How many of them come out accepted.
  function AcceptedIn(s: State, cfg: Config, due: seq<string>, checks: Checks, now: int, dedupUp: bool): nat
    decreases |due|
  {
    if due == [] then 0
    else if due[0] in s.alerts && s.alerts[due[0]].event.eventId == due[0] then
      var verdict := Verify(s.alerts[due[0]].event, s.alerts[due[0]].heldToken, checks(due[0]));
      (if verdict == Verified || verdict == NotRequired then 1 else 0)
        + AcceptedIn(RetryTurn(s, cfg, due[0], checks(due[0]), now, dedupUp), cfg, due[1..], checks, now, dedupUp)
    else AcceptedIn(s, cfg, due[1..], checks, now, dedupUp)
  }

  // ----- Escalation --------------------------------------------------------------------------

  predicate Within(due: seq<nat>, n: nat) { forall k :: 0 <= k < |due| ==> due[k] < n }

  function DueIncidents(incs: seq<Incident>, now: int, i: nat): (r: seq<nat>)
    requires i <= |incs|
    ensures forall j :: j in r <==> i <= j < |incs| && Escalate.Due(incs[j], now)
    ensures Within(r, |incs|)
    decreases |incs| - i
  {
    if i == |incs| then []
    else (if Escalate.Due(incs[i], now) then [i] else []) + DueIncidents(incs, now, i + 1)
  }

  function FireStep(s: State, cfg: Config, i: nat, step: EscalationStep): State
    requires i < |s.incidents|
  {
    var inc := s.incidents[i];
    var allowed := Split(step.targets, EgressFor(s, cfg, inc.orgId), cfg.hostOf, true);
    CreateDeliveries(s, i, allowed,
                     if UrgencyFor(inc.severity) == UrgencyCritical then UrgencyCritical else UrgencyHigh,
                     Some(step.step), Some("escalation"))
  }

  // The fail-safe target of an exhausted chain; it does not go through the egress policy.
  function FailSafe(cfg: Config): seq<Target> {
    if Truthy(cfg.bootstrap.orgSiemWebhook)
    then [Target(Webhook, cfg.bootstrap.orgSiemWebhook.value, Some("escalation"))] else []
  }

  function FireExhausted(s: State, cfg: Config, i: nat): State
    requires i < |s.incidents|
  {
    CreateDeliveries(s, i, FailSafe(cfg), UrgencyCritical, None, None)
  }

  function ChainOf(s: State, inc: Incident): Option<EscalationPolicy> {
    if Truthy(inc.escalation.policyId) then StoredChain(s, inc.orgId, inc.escalation.policyId.value) else None
  }

  function EscalationTurn(s: State, cfg: Config, i: nat, now: int): State
    requires i < |s.incidents|
  {
    var inc := s.incidents[i];
    var chain := ChainOf(s, inc);
    if chain.None? then
      s.(incidents := s.incidents[i := inc.(escalation := inc.escalation.(nextFireAt := None))])
    else
      var out := Escalate.NextEscalationState(inc, chain.value, now);
      var s1 := match out
        case NotYet => s
        case Step(step, _) => FireStep(s, cfg, i, step)
        case UsedUp(_) => FireExhausted(s, cfg, i);
      s1.(incidents := s1.incidents[i := Escalate.Written(inc, out, chain.value, now)])
  }

  function EscalationTurns(s: State, cfg: Config, due: seq<nat>, now: int): (r: State)
    requires Within(due, |s.incidents|)
    ensures |r.incidents| == |s.incidents|
    decreases |due|
  {
    if due == [] then s
    else
      EscalationTurns(EscalationTurn(s, cfg, due[0], now), cfg, due[1..], now)
  }

  // The incident's turn fires a step or reports exhaustion.
  predicate Fires(s: State, i: nat, now: int)
    requires i < |s.incidents|
  {
    var chain := ChainOf(s, s.incidents[i]);
    chain.Some? && Escalate.NextEscalationState(s.incidents[i], chain.value, now) != Escalate.NotYet
  }

  // How many of the turns do.
  function FiredIn(s: State, cfg: Config, due: seq<nat>, now: int): nat
    requires Within(due, |s.incidents|)
    decreases |due|
  {
    if due == [] then 0
    else
      (if Fires(s, due[0], now) then 1 else 0) + FiredIn(EscalationTurn(s, cfg, due[0], now), cfg, due[1..], now)
  }

  function EscalationScan(s: State, cfg: Config, now: int): State {
    EscalationTurns(s, cfg, DueIncidents(s.incidents, now, 0), now)
  }

  // ----- Acknowledging and resolving -----------------------------------------------------------

  datatype AckResult = Acked | Already | NotFound | NonceUsed

  function AckIncident(s: State, i: nat, nonce: string, now: int): (State, AckResult) {
    if nonce in s.ackNonces then (s, NonceUsed)
    else if i >= |s.incidents| then (s, NotFound)
    else if s.incidents[i].state == Acknowledged || s.incidents[i].state == Resolved then (s, Already)
    else (s.(ackNonces := s.ackNonces + {nonce},
             incidents := s.incidents[i := s.incidents[i].(state := Acknowledged, ackAt := Some(now))]), Acked)
  }

  function ResolveIncident(s: State, i: nat): State {
    if i >= |s.incidents| then s else s.(incidents := s.incidents[i := s.incidents[i].(state := Resolved)])
  }

  // ----- Commander's one-shot orders -----------------------------------------------------------

  datatype Order = Order(
    orgId: string,
    orderId: Option<string>,
    tokenId: Option<string>,
    token: Option<string>,
    channelOverride: Option<seq<string>>,
    severityFloor: Option<Severity>,
    severity: Option<Severity>,
    category: Option<Category>,
    requiresAck: bool,
    assetId: Option<string>,
    criticality: Option<Severity>)

  function OrderEvent(o: Order, eventId: string, now: int): Event {
    var ref := Or(o.orderId, eventId);
    Event(eventId, o.orgId, Commander, ref, o.tokenId, Some(ref), Or(o.severity, Info), Confirmed,
          Or(o.category, Operational), Or(o.assetId, "cmd_oneshot"), o.criticality, Some(now), Some(0), None,
          o.requiresAck, map[])
  }

  function ChannelNamed(name: string): Option<Channel> {
    if name == "slack" then Some(Slack) else if name == "teams" then Some(Teams)
    else if name == "splunk-hec" then Some(SplunkHec) else if name == "syslog" then Some(Syslog)
    else if name == "webhook" then Some(Webhook) else None
  }

  function IndexOfColon(raw: string): (i: int)
    ensures -1 <= i < |raw|
  {
    if raw == "" then -1 else if raw[0] == ':' then 0
    else if IndexOfColon(raw[1..]) < 0 then -1 else 1 + IndexOfColon(raw[1..])
  }

  // "channel:destination"; no egress entry has a channel of another name, so those are dropped here.
  function OverrideTarget(raw: string): seq<Target> {
    var at := IndexOfColon(raw);
    if at <= 0 || ChannelNamed(raw[..at]).None? then []
    else [Target(ChannelNamed(raw[..at]).value, raw[at + 1..], None)]
  }

  function OverrideTargets(raws: seq<string>): seq<Target> {
    if raws == [] then [] else OverrideTarget(raws[0]) + OverrideTargets(raws[1..])
  }

  // The order's alert is correlated at once, and only the override targets hear of it.
  function NotifyAccepted(s: State, cfg: Config, overrides: seq<string>, id: string, now: int): (State, IngestResult)
    requires id in s.alerts && s.alerts[id].event.eventId == id
  {
    var row := s.alerts[id];
    var (s', i) := Correlate(s, row.event, row.severity, now);
    var ts := Split(OverrideTargets(overrides), EgressFor(s', cfg, row.event.orgId), cfg.hostOf, true);
    (CreateDeliveries(s', i, ts, UrgencyFor(row.severity), None, Some("notify")), Processed(i, |ts|))
  }

  function NotifyAs(s: State, cfg: Config, e: Event, verdict: Verdict, overrides: seq<string>, now: int)
    : (State, IngestResult)
  {
    match verdict
    case Rejected(code) => (s, IngestRejected(code))
    case Unavailable => (s, OnHold)
    case _ =>
      if e.eventId in s.alerts then (s, DuplicateEvent)
      else
        var row := Row(e, now, Shown, if verdict == Verified then Cleared else Unneeded, None);
        NotifyAccepted(Insert(s, row), cfg, overrides, e.eventId, now)
  }

  function Notify(s: State, cfg: Config, o: Order, eventId: string, lookup: Option<Severity>,
                  check: TokenCheck, now: int, dedupUp: bool): (State, IngestResult)
  {
    if o.severityFloor.Some? && Rank(Or(o.severity, Info)) < Rank(o.severityFloor.value) then (s, SuppressedByFloor)
    else
      var e := OrderEvent(o, eventId, now);
      if o.channelOverride.None? || o.channelOverride.value == [] then
        Ingest(s, cfg, e, o.token, lookup, check, now, dedupUp)
      else
        var e' := Enriched(e, lookup);
        NotifyAs(s, cfg, e', Verify(e', o.token, check), o.channelOverride.value, now)
  }
}
