/**
 The values the alert service works on: events, incidents, policies, deliveries.

 Dates are milliseconds since the epoch. What no modelled decision looks at (titles,
 evidence, labels of the envelope, asset owner) is left out of the records.
 */
module AlertTypes {
  import opened Wrappers

  datatype Severity = Info | Low | Medium | High | Critical

  function Rank(s: Severity): int {
    match s case Info => 1 case Low => 2 case Medium => 3 case High => 4 case Critical => 5
  }

  function MaxSeverity(a: Severity, b: Severity): Severity { if Rank(a) >= Rank(b) then a else b }

  datatype Confidence = Confirmed | Probable | Possible

  datatype Category = Vuln | Exposure | ConfigDrift | NewAsset | Phishing | AiExploit | StressTest | Operational

  datatype SourceModule = Detect | Monitor | Discover | DdosEngine | AiRedteam | PhishCatcher | Commander

  datatype Event = Event(
    eventId: string,
    orgId: string,
    sourceModule: SourceModule,
    sourceEventId: string,
    tokenId: Option<string>,
    fingerprintHint: Option<string>,
    severity: Severity,
    confidence: Confidence,
    category: Category,
    assetId: string,
    criticality: Option<Severity>,
    occurredAt: Option<int>,
    dedupWindowSeconds: Option<int>,
    renotifyEvery: Option<int>,
    requiresAck: bool,
    labels: map<string, string>)

  datatype Channel = Slack | Teams | SplunkHec | Syslog | Webhook

  datatype Target = Target(channel: Channel, destination: string, template: Option<string>)

  datatype RoutingMatch = RoutingMatch(
    severityGte: Option<Severity>,
    categories: Option<seq<Category>>,
    criticalityGte: Option<Severity>,
    sourceModules: Option<seq<SourceModule>>,
    labelsAny: Option<map<string, string>>)

  datatype RoutingPolicy = RoutingPolicy(
    policyId: string,
    priority: int,
    createdAt: int,
    match_: RoutingMatch,
    targets: seq<Target>,
    escalationPolicyId: Option<string>,
    suppressIfAcknowledgedWithin: Option<int>)

  datatype EgressEntry = EgressEntry(channel: Channel, pattern: string)

  datatype EscalationStep = EscalationStep(step: int, waitSeconds: int, targets: seq<Target>)

  datatype EscalationPolicy = EscalationPolicy(
    policyId: string,
    steps: seq<EscalationStep>,
    repeatLastStepEverySeconds: int,
    maxRepeats: int)

  datatype EscalationState = EscalationState(
    policyId: Option<string>,
    currentStep: Option<int>,
    attachedAt: Option<int>,
    lastFiredAt: Option<int>,
    nextFireAt: Option<int>,
    repeatCount: Option<int>)

  const NO_ESCALATION := EscalationState(None, None, None, None, None, None)

  datatype IncidentState = Open | Acknowledged | Escalated | Resolved

  datatype Incident = Incident(
    orgId: string,
    state: IncidentState,
    severity: Severity,
    category: Category,
    sourceModule: SourceModule,
    criticality: Option<Severity>,
    labels: map<string, string>,
    correlationKey: string,
    alertIds: seq<string>,
    requiresAck: bool,
    firstSeenAt: int,
    ackAt: Option<int>,
    escalation: EscalationState,
    exhausted: bool)

  function Or<T>(o: Option<T>, d: T): T { if o.Some? then o.value else d }

  // A string that is there and not empty.
  predicate Truthy(o: Option<string>) { o.Some? && o.value != "" }
}
