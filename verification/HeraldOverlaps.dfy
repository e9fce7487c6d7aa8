/**
 Where the pipeline falls short of its guarantees: steps cut off or interleaved at an await,
 and cases whose outcome the documentation does not lead one to expect.
 */
module HeraldOverlaps {
  import opened Arith
  import opened Wrappers
  import opened AlertTypes
  import opened AlertAuthz
  import opened Dedup
  import opened Routing
  import opened Herald
  import opened HeraldRuns
  import opened HeraldGuarantees
  import Escalate

  /** A held alert gets its retry time in a second write. If the service stops between the two,
      the row is never listed as due, and delivering the event again does not help. */
  lemma StrandedBetweenWrites(s: State, cfg: Config, e: Event, token: Option<string>, received: int)
    requires e.eventId !in s.alerts
    ensures var s' := Insert(s, Row(e, received, Shown, Held, token));
            && (forall due, now :: Listing(due, s'.alerts, now) ==> e.eventId !in due)
            && forall t, lookup, check, now, up :: Ingest(s', cfg, e, t, lookup, check, now, up).0 == s'
  {
    var s' := Insert(s, Row(e, received, Shown, Held, token));
    forall due, now | Listing(due, s'.alerts, now) ensures e.eventId !in due {
      assert forall k :: 0 <= k < |due| ==> RetryDue(s'.alerts[due[k]], now);
    }
    forall t, lookup, check, now, up ensures Ingest(s', cfg, e, t, lookup, check, now, up).0 == s' {
      RedeliveryChangesNothing(s', cfg, e, t, lookup, check, now, up);
    }
  }

  // ----- Retry scans that overlap ------------------------------------------------------------

  // The turn of a scan that read the row earlier, on the row as it is now.
  function LateTurn(s: State, cfg: Config, read: Alert, check: TokenCheck, now: int, dedupUp: bool): State
    requires var id := read.event.eventId; id in s.alerts && s.alerts[id].event == read.event
  {
    var id := read.event.eventId;
    var row := s.alerts[id];
    match Verify(read.event, read.heldToken, check)
    case Unavailable =>
      if now - read.receivedAt >= cfg.authzHoldMs then SetAlert(s, id, Quarantined(row))
      else SetAlert(s, id, row.(authz := Held, retryAt := Some(now + cfg.authzRetryMs)))
    case Rejected(_) => SetAlert(s, id, Quarantined(row))
    case verdict =>
      var row' := row.(authz := if verdict == Verified then Cleared else Unneeded, heldToken := None, retryAt := None);
      ProcessStored(SetAlert(s, id, row'), cfg, id, now, dedupUp).0
  }

  // What a turn does with its alert: keeps it on hold, takes it out, or puts it in an incident.
  datatype Standing = Kept | Out | In

  function StandingOf(s: State, cfg: Config, read: Alert, check: TokenCheck, now: int, dedupUp: bool): Standing {
    match Verify(read.event, read.heldToken, check)
    case Unavailable => if now - read.receivedAt >= cfg.authzHoldMs then Out else Kept
    case Rejected(_) => Out
    case _ => if DedupCheck(s.seen, read.event, now, dedupUp).1 == Duplicate then Out else In
  }

  // The alert's row after a turn that found it as a.
  predicate Turned(a: Alert, a': Alert, st: Standing, incs: seq<Incident>, cfg: Config, now: int) {
    && a'.event == a.event && a'.receivedAt == a.receivedAt
    && match st
       case Kept => a' == a.(authz := Held, retryAt := Some(now + cfg.authzRetryMs))
       case Out =>
         && a'.state == Suppressed && a'.incident == a.incident && a'.heldToken.None?
         && (a'.authz == Refused || (Accepted(a') && a'.occurrence == Duplicate))
       case In =>
         && Accepted(a') && a'.state == a.state && a'.occurrence != Duplicate && a'.heldToken.None?
         && a'.incident.Some? && InIncident(a.event.eventId, a'.incident.value, incs)
  }

  lemma ProcessTurns(s: State, cfg: Config, id: string, now: int, dedupUp: bool)
    requires id in s.alerts && s.alerts[id].event.eventId == id && Accepted(s.alerts[id])
             && s.alerts[id].heldToken.None?
    ensures var (a, s') := (s.alerts[id], ProcessStored(s, cfg, id, now, dedupUp).0);
            var st := if DedupCheck(s.seen, a.event, now, dedupUp).1 == Duplicate then Out else In;
            id in s'.alerts && Turned(a, s'.alerts[id], st, s'.incidents, cfg, now)
  {
    hide DedupCheck, RouteAndQueue, CorrelationKey, NeedsNoToken, FindOpen, NewIncident;
    var row := s.alerts[id];
    var (seen', occurrence, degraded) := DedupCheck(s.seen, row.event, now, dedupUp);
    if occurrence != Duplicate {
      var s1 := s.(seen := seen', alerts := s.alerts[id := row.(occurrence := occurrence)]);
      var (s2, i) := Correlate(s1, row.event, row.severity, now);
      hide Correlate, Joined;
      CorrelateJoins(s1, row.event, row.severity, now);
      RouteKeepsIds(s2, cfg, i, now, occurrence == Renotify);
    }
  }

  lemma CorrelateJoins(s: State, e: Event, severity: Severity, now: int)
    requires e.eventId in s.alerts
    ensures var (s', i) := Correlate(s, e, severity, now);
            && s'.alerts == s.alerts[e.eventId := s.alerts[e.eventId].(incident := Some(i))]
            && InIncident(e.eventId, i, s'.incidents)
  {
    hide FindOpen, NewIncident;
  }

  lemma RouteKeepsIds(s: State, cfg: Config, i: nat, now: int, stillFiring: bool)
    requires i < |s.incidents|
    ensures var s' := RouteAndQueue(s, cfg, i, now, stillFiring).0;
            && s'.alerts == s.alerts && |s'.incidents| == |s.incidents|
            && forall j :: 0 <= j < |s.incidents| ==> s'.incidents[j].alertIds == s.incidents[j].alertIds
  {
    hide Decided, ChainFor, Retemplated, DeliveriesTo;
  }

  lemma TurnTurns(s: State, cfg: Config, read: Alert, check: TokenCheck, now: int, dedupUp: bool)
    requires var id := read.event.eventId; id in s.alerts && s.alerts[id].event == read.event
    ensures var (id, s') := (read.event.eventId, LateTurn(s, cfg, read, check, now, dedupUp));
            id in s'.alerts
            && var st := StandingOf(s, cfg, read, check, now, dedupUp);
            Turned(s.alerts[id], s'.alerts[id], st, s'.incidents, cfg, now)
  {
    hide ProcessStored, DedupCheck, Verify, NeedsNoToken;
    VerdictAccepts(read.event, read.heldToken, check);
    var (id, verdict) := (read.event.eventId, Verify(read.event, read.heldToken, check));
    if verdict == Verified || verdict == NotRequired {
      var authz := if verdict == Verified then Cleared else Unneeded;
      var row' := s.alerts[id].(authz := authz, heldToken := None, retryAt := None);
      ProcessTurns(SetAlert(s, id, row'), cfg, id, now, dedupUp);
    }
  }

  // A turn that comes in time is a late one on the row just read.
  lemma RetryIsLateTurn(s: State, cfg: Config, id: string, check: TokenCheck, now: int, dedupUp: bool)
    requires id in s.alerts && s.alerts[id].event.eventId == id
    ensures var (read, s') := (s.alerts[id], RetryTurn(s, cfg, id, check, now, dedupUp));
            id in s'.alerts && s'.alerts[id].event == read.event
            && Turned(read, s'.alerts[id], StandingOf(s, cfg, read, check, now, dedupUp), s'.incidents, cfg, now)
  {
    TurnTurns(s, cfg, s.alerts[id], check, now, dedupUp);
    hide ProcessStored, Verify, DedupCheck, NeedsNoToken;
    assert RetryTurn(s, cfg, id, check, now, dedupUp) == LateTurn(s, cfg, s.alerts[id], check, now, dedupUp);
  }

  // Two turns that both read the row before either writes.
  ghost function BothTurns(s: State, cfg: Config, id: string, check1: TokenCheck, check2: TokenCheck,
                           now1: int, now2: int, up1: bool, up2: bool): (s2: State)
    requires id in s.alerts && s.alerts[id].event.eventId == id
    ensures id in s2.alerts
  {
    RetryIsLateTurn(s, cfg, id, check1, now1, up1);
    var s1 := RetryTurn(s, cfg, id, check1, now1, up1);
    TurnTurns(s1, cfg, s.alerts[id], check2, now2, up2);
    LateTurn(s1, cfg, s.alerts[id], check2, now2, up2)
  }

  predicate Waiting(a: Alert, id: string) {
    a.event.eventId == id && a.authz == Held && !NeedsNoToken(a.event) && a.state == Shown && a.incident.None?
  }

  lemma TwoTurns(read: Alert, a: Alert, b: Alert, first: Standing, second: Standing, incs1: seq<Incident>,
                 incs2: seq<Incident>, cfg: Config, now1: int, now2: int)
    requires Waiting(read, read.event.eventId)
    requires Turned(read, a, first, incs1, cfg, now1) && Turned(a, b, second, incs2, cfg, now2)
    requires second == Kept ==> now2 - read.receivedAt < cfg.authzHoldMs
    ensures RowOk(read.event.eventId, b, incs2, cfg) <==> first == Kept || first == second
  {
    hide NeedsNoToken, InIncident;
  }

  lemma KeptInTime(s: State, cfg: Config, read: Alert, check: TokenCheck, now: int, dedupUp: bool)
    ensures StandingOf(s, cfg, read, check, now, dedupUp) == Kept ==> now - read.receivedAt < cfg.authzHoldMs
  {
    hide Verify, DedupCheck;
  }

  /** The retry timer starts a scan without waiting for the one before, so two can have read the
      same held row. The row the second turn leaves is sound, with its alert on hold, refused,
      suppressed or in an incident, if and only if the first turn kept the alert on hold or both
      turns came to the same. Otherwise an alert that is in an incident is refused, suppressed or
      held once more, or one that was refused or suppressed is held or joins an incident after all. */
  lemma OverlappingRetries(s: State, cfg: Config, id: string, check1: TokenCheck, check2: TokenCheck,
                           now1: int, now2: int, up1: bool, up2: bool)
    requires id in s.alerts && Waiting(s.alerts[id], id)
    ensures var (s1, s2) := (RetryTurn(s, cfg, id, check1, now1, up1),
            BothTurns(s, cfg, id, check1, check2, now1, now2, up1, up2));
            var first := StandingOf(s, cfg, s.alerts[id], check1, now1, up1);
            var second := StandingOf(s1, cfg, s.alerts[id], check2, now2, up2);
            RowOk(id, s2.alerts[id], s2.incidents, cfg) <==> first == Kept || first == second
  {
    hide RetryTurn, LateTurn, Turned, RowOk, NeedsNoToken, StandingOf;
    var read := s.alerts[id];
    RetryIsLateTurn(s, cfg, id, check1, now1, up1);
    var s1 := RetryTurn(s, cfg, id, check1, now1, up1);
    TurnTurns(s1, cfg, read, check2, now2, up2);
    var s2 := LateTurn(s1, cfg, read, check2, now2, up2);
    KeptInTime(s1, cfg, read, check2, now2, up2);
    TwoTurns(read, s1.alerts[id], s2.alerts[id], StandingOf(s, cfg, read, check1, now1, up1),
             StandingOf(s1, cfg, read, check2, now2, up2), s1.incidents, s2.incidents, cfg, now1, now2);
  }

  // Every held alert of a run is on hold in this sense.
  lemma HeldWaits(s: State, cfg: Config, id: string)
    requires Inv(s, cfg) && id in s.alerts && s.alerts[id].authz == Held
    ensures Waiting(s.alerts[id], id)
  {
    HeldRow(s, cfg, id);
    hide Inv, NeedsNoToken;
  }

  lemma SuppressedIff(read: Alert, a: Alert, b: Alert, first: Standing, second: Standing, incs1: seq<Incident>,
                      incs2: seq<Incident>, cfg: Config, now: int)
    requires read.state == Shown && read.incident.None? && first != Kept && second != Kept
    requires Turned(read, a, first, incs1, cfg, now) && Turned(a, b, second, incs2, cfg, now)
    ensures b.state == Suppressed && b.incident.Some? <==> first != second
  {
    hide Accepted, InIncident;
  }

  // The sightings of a fingerprint that still count.
  function CountAt(seen: map<string, Seen>, fp: string, now: int): nat
    requires SeenOk(seen, fp)
  {
    if fp in seen && seen[fp].expiresAt > now then seen[fp].count else 0
  }

  // One of two sightings in a row is suppressed and the other is not.
  predicate Clash(count: nat, renotifyEvery: int) {
    if count == 0 then renotifyEvery != 1 && renotifyEvery != 2
    else renotifyEvery > 1 && ((count + 1) % renotifyEvery == 0 || (count + 2) % renotifyEvery == 0)
  }

  lemma ClashIff(count: nat, r: int)
    ensures Clash(count, r)
            <==> (OccurrenceFor(count + 1, r) == Duplicate) != (OccurrenceFor(count + 2, r) == Duplicate)
  {
    if r == 1 {
      assert (count + 1) % 1 == 0 && (count + 2) % 1 == 0;
    } else if r > 1 {
      if (count + 1) % r == 0 { NotBoth(count + 1, r); }
      if count == 0 { DivModIs(2, r, if r == 2 then 1 else 0, if r == 2 then 0 else 2); }
    }
  }

  lemma NotBoth(n: nat, r: int)
    requires r > 1 && n % r == 0
    ensures (n + 1) % r != 0
  {
    DivModFact(n, r);
    DivModIs(n + 1, r, n / r, 1);
  }

  lemma SightedTwice(seen: map<string, Seen>, e: Event, now: int)
    requires SeenOk(seen, Fingerprint(e))
    ensures var n := CountAt(seen, Fingerprint(e), now);
            var (seen', v) := (DedupCheck(seen, e, now, true).0, DedupCheck(seen, e, now, true).1);
            && v == OccurrenceFor(n + 1, Or(e.renotifyEvery, 0))
            && DedupCheck(seen', e, now, true).1 == OccurrenceFor(n + 2, Or(e.renotifyEvery, 0))
  {
    hide Fingerprint;
  }

  // What the next two sightings of a finding come to.
  function NextStanding(seen: map<string, Seen>, e: Event, now: int, k: nat): Standing
    requires SeenOk(seen, Fingerprint(e))
  {
    if OccurrenceFor(CountAt(seen, Fingerprint(e), now) + k, Or(e.renotifyEvery, 0)) == Duplicate then Out else In
  }

  lemma Standings(s: State, cfg: Config, id: string, check: TokenCheck, now: int)
    requires id in s.alerts && s.alerts[id].event.eventId == id
    requires Verify(s.alerts[id].event, s.alerts[id].heldToken, check) == Verified
    requires SeenOk(s.seen, Fingerprint(s.alerts[id].event))
    ensures var (read, s1) := (s.alerts[id], RetryTurn(s, cfg, id, check, now, true));
            && StandingOf(s, cfg, read, check, now, true) == NextStanding(s.seen, read.event, now, 1)
            && StandingOf(s1, cfg, read, check, now, true) == NextStanding(s.seen, read.event, now, 2)
  {
    hide RetryTurn, Verify, DedupCheck, SeenOk, CountAt, Fingerprint, OccurrenceFor;
    SightedTwice(s.seen, s.alerts[id].event, now);
    TurnSees(s, cfg, id, check, now);
  }

  lemma NextStandingsDiffer(seen: map<string, Seen>, e: Event, now: int)
    requires SeenOk(seen, Fingerprint(e))
    ensures NextStanding(seen, e, now, 1) != NextStanding(seen, e, now, 2)
       <==> Clash(CountAt(seen, Fingerprint(e), now), Or(e.renotifyEvery, 0))
  {
    hide SeenOk, CountAt, Fingerprint, OccurrenceFor, Clash;
    ClashIff(CountAt(seen, Fingerprint(e), now), Or(e.renotifyEvery, 0));
  }

  /** When both turns verify the alert at one time, what they come to depends on how often its
      finding has been seen and on how often it asks to be renotified: the alert ends up suppressed
      in an incident exactly when one of the next two sightings is suppressed and the other not. A
      finding not seen before is such a case unless it is renotified every time or every other. */
  lemma OverlappingRetriesSuppress(s: State, cfg: Config, id: string, check: TokenCheck, now: int)
    requires id in s.alerts && Waiting(s.alerts[id], id) && SeenOk(s.seen, Fingerprint(s.alerts[id].event))
    requires Verify(s.alerts[id].event, s.alerts[id].heldToken, check) == Verified
    ensures var (e, a) := (s.alerts[id].event, BothTurns(s, cfg, id, check, check, now, now, true, true).alerts[id]);
            a.state == Suppressed && a.incident.Some?
            <==> Clash(CountAt(s.seen, Fingerprint(e), now), Or(e.renotifyEvery, 0))
  {
    hide RetryTurn, LateTurn, Verify, SeenOk, CountAt, Clash, Fingerprint, Turned, StandingOf, NextStanding;
    hide NeedsNoToken;
    var read := s.alerts[id];
    Standings(s, cfg, id, check, now);
    NextStandingsDiffer(s.seen, read.event, now);
    NeverKept(s.seen, read.event, now);
    RetryIsLateTurn(s, cfg, id, check, now, true);
    var s1 := RetryTurn(s, cfg, id, check, now, true);
    TurnTurns(s1, cfg, read, check, now, true);
    var s2 := LateTurn(s1, cfg, read, check, now, true);
    SuppressedIff(read, s1.alerts[id], s2.alerts[id], StandingOf(s, cfg, read, check, now, true),
                  StandingOf(s1, cfg, read, check, now, true), s1.incidents, s2.incidents, cfg, now);
  }

  lemma NeverKept(seen: map<string, Seen>, e: Event, now: int)
    requires SeenOk(seen, Fingerprint(e))
    ensures NextStanding(seen, e, now, 1) != Kept && NextStanding(seen, e, now, 2) != Kept
  {
  }

  lemma TurnSees(s: State, cfg: Config, id: string, check: TokenCheck, now: int)
    requires id in s.alerts && s.alerts[id].event.eventId == id
    requires Verify(s.alerts[id].event, s.alerts[id].heldToken, check) == Verified
    ensures RetryTurn(s, cfg, id, check, now, true).seen == DedupCheck(s.seen, s.alerts[id].event, now, true).0
  {
    hide DedupCheck, Verify, FindOpen, Decided, ChainFor, NewIncident, Joined, Retemplated, DeliveriesTo;
  }

  // ----- Sightings along a run ---------------------------------------------------------------

  // No window is open for longer than the hard maximum.
  ghost predicate AllSeenOk(seen: map<string, Seen>) { forall fp :: SeenOk(seen, fp) }

  lemma CheckSeen(seen: map<string, Seen>, e: Event, now: int, dedupUp: bool)
    requires AllSeenOk(seen)
    ensures AllSeenOk(DedupCheck(seen, e, now, dedupUp).0)
  {
    hide Fingerprint;
    var seen' := DedupCheck(seen, e, now, dedupUp).0;
    forall fp ensures SeenOk(seen', fp) { assert SeenOk(seen, fp); }
  }

  lemma ProcessSeen(s: State, cfg: Config, id: string, now: int, dedupUp: bool)
    requires id in s.alerts && s.alerts[id].event.eventId == id && AllSeenOk(s.seen)
    ensures AllSeenOk(ProcessStored(s, cfg, id, now, dedupUp).0.seen)
  {
    CheckSeen(s.seen, s.alerts[id].event, now, dedupUp);
    hide AllSeenOk, DedupCheck, FindOpen, Decided, ChainFor, NewIncident, Joined, Retemplated, DeliveriesTo;
  }

  lemma IngestSeen(s: State, cfg: Config, e: Event, token: Option<string>, lookup: Option<Severity>,
                   check: TokenCheck, now: int, dedupUp: bool)
    requires AllSeenOk(s.seen)
    ensures AllSeenOk(Ingest(s, cfg, e, token, lookup, check, now, dedupUp).0.seen)
  {
    hide AllSeenOk, Verify, IngestAs;
    IngestAsSeen(s, cfg, Enriched(e, lookup), Verify(Enriched(e, lookup), token, check), token, now, dedupUp);
  }

  lemma IngestAsSeen(s: State, cfg: Config, e: Event, verdict: Verdict, token: Option<string>, now: int, dedupUp: bool)
    requires AllSeenOk(s.seen)
    ensures AllSeenOk(IngestAs(s, cfg, e, verdict, token, now, dedupUp).0.seen)
  {
    hide AllSeenOk, ProcessStored, EffectiveSeverity;
    if e.eventId !in s.alerts {
      var authz := if verdict == Verified then Cleared else Unneeded;
      ProcessSeen(Insert(s, Row(e, now, Shown, authz, None)), cfg, e.eventId, now, dedupUp);
    }
  }

  lemma NotifySeen(s: State, cfg: Config, o: Order, eventId: string, lookup: Option<Severity>, check: TokenCheck,
                   now: int, dedupUp: bool)
    requires AllSeenOk(s.seen)
    ensures AllSeenOk(Notify(s, cfg, o, eventId, lookup, check, now, dedupUp).0.seen)
  {
    hide AllSeenOk, Verify, Ingest, NotifyAs, OrderEvent;
    var e := OrderEvent(o, eventId, now);
    IngestSeen(s, cfg, e, o.token, lookup, check, now, dedupUp);
    if o.channelOverride.Some? {
      var e' := Enriched(e, lookup);
      NotifyAsSeen(s, cfg, e', Verify(e', o.token, check), o.channelOverride.value, now);
    }
  }

  lemma NotifyAsSeen(s: State, cfg: Config, e: Event, verdict: Verdict, overrides: seq<string>, now: int)
    ensures NotifyAs(s, cfg, e, verdict, overrides, now).0.seen == s.seen
  {
    hide NotifyAccepted, EffectiveSeverity;
    if e.eventId !in s.alerts {
      var authz := if verdict == Verified then Cleared else Unneeded;
      OverrideSeen(Insert(s, Row(e, now, Shown, authz, None)), cfg, overrides, e.eventId, now);
    }
  }

  lemma OverrideSeen(s: State, cfg: Config, overrides: seq<string>, id: string, now: int)
    requires id in s.alerts && s.alerts[id].event.eventId == id
    ensures NotifyAccepted(s, cfg, overrides, id, now).0.seen == s.seen
  {
    hide Split, OverrideTargets, FindOpen, NewIncident, Joined, DeliveriesTo, EgressFor;
  }

  lemma {:induction false} RetriesSeen(s: State, cfg: Config, due: seq<string>, checks: Checks, now: int, dedupUp: bool)
    requires AllSeenOk(s.seen)
    ensures AllSeenOk(RetryTurns(s, cfg, due, checks, now, dedupUp).seen)
    decreases |due|
  {
    hide AllSeenOk, RetryTurn;
    if due != [] {
      if due[0] in s.alerts && s.alerts[due[0]].event.eventId == due[0] {
        RetrySeen(s, cfg, due[0], checks(due[0]), now, dedupUp);
        RetriesSeen(RetryTurn(s, cfg, due[0], checks(due[0]), now, dedupUp), cfg, due[1..], checks, now, dedupUp);
      } else {
        RetriesSeen(s, cfg, due[1..], checks, now, dedupUp);
      }
    }
  }

  lemma RetrySeen(s: State, cfg: Config, id: string, check: TokenCheck, now: int, dedupUp: bool)
    requires id in s.alerts && s.alerts[id].event.eventId == id && AllSeenOk(s.seen)
    ensures AllSeenOk(RetryTurn(s, cfg, id, check, now, dedupUp).seen)
  {
    hide AllSeenOk, Verify, ProcessStored;
    var row := s.alerts[id];
    ProcessSeen(SetAlert(s, id, row.(authz := Cleared, heldToken := None, retryAt := None)), cfg, id, now, dedupUp);
    ProcessSeen(SetAlert(s, id, row.(authz := Unneeded, heldToken := None, retryAt := None)), cfg, id, now, dedupUp);
  }

  lemma {:induction false} TurnsSeen(s: State, cfg: Config, due: seq<nat>, now: int)
    requires Within(due, |s.incidents|)
    ensures EscalationTurns(s, cfg, due, now).seen == s.seen
    decreases |due|
  {
    hide EscalationTurn;
    if due != [] {
      TurnSeen(s, cfg, due[0], now);
      TurnsSeen(EscalationTurn(s, cfg, due[0], now), cfg, due[1..], now);
    }
  }

  lemma TurnSeen(s: State, cfg: Config, i: nat, now: int)
    requires i < |s.incidents|
    ensures EscalationTurn(s, cfg, i, now).seen == s.seen && |EscalationTurn(s, cfg, i, now).incidents| == |s.incidents|
  {
    hide Escalate.NextEscalationState, Escalate.Written, ChainOf, FireStep, FireExhausted;
    var chain := ChainOf(s, s.incidents[i]);
    if chain.Some? {
      match Escalate.NextEscalationState(s.incidents[i], chain.value, now)
      case Step(step, _) => FiringSeen(s, cfg, i, step);
      case _ => ExhaustionSeen(s, cfg, i);
    }
  }

  lemma FiringSeen(s: State, cfg: Config, i: nat, step: EscalationStep)
    requires i < |s.incidents|
    ensures var s' := FireStep(s, cfg, i, step); s'.seen == s.seen && s'.incidents == s.incidents
  {
  }

  lemma ExhaustionSeen(s: State, cfg: Config, i: nat)
    requires i < |s.incidents|
    ensures var s' := FireExhausted(s, cfg, i); s'.seen == s.seen && s'.incidents == s.incidents
  {
  }

  /** Along every run of the pipeline every fingerprint's window is as the overlaps assume it. */
  lemma {:induction false} RunSeen(cfg: Config, ops: seq<Op>)
    ensures AllSeenOk(Run(cfg, ops).seen)
    decreases |ops|
  {
    if ops != [] {
      RunSeen(cfg, ops[..|ops| - 1]);
      var s := Run(cfg, ops[..|ops| - 1]);
      hide AllSeenOk, Run, Ingest, Notify, RetryTurns, EscalationTurns, DueIncidents, AckIncident, ResolveIncident;
      StepSeen(s, cfg, ops[|ops| - 1]);
    }
  }

  lemma StepSeen(s: State, cfg: Config, op: Op)
    requires AllSeenOk(s.seen)
    ensures AllSeenOk(HeraldGuarantees.After(s, cfg, op).seen)
  {
    hide AllSeenOk, Ingest, Notify, RetryTurns, EscalationTurns, DueIncidents;
    match op
    case IngestOp(event, token, lookup, check, now, up) => IngestSeen(s, cfg, event, token, lookup, check, now, up);
    case NotifyOp(order, id, lookup, check, now, up) => NotifySeen(s, cfg, order, id, lookup, check, now, up);
    case RetryOp(due, checks, now, up) => RetriesSeen(s, cfg, due, checks, now, up);
    case EscalateOp(now) => TurnsSeen(s, cfg, DueIncidents(s.incidents, now, 0), now);
    case _ =>
  }

  // ----- Correlation split at its first await -----------------------------------------------

  function Found(s: State, e: Event): (r: Option<nat>)
    ensures r.Some? ==> r.value < |s.incidents|
  {
    FindOpen(s.incidents, e.orgId, CorrelationKey(e), 0)
  }

  // Joining what was found, or a new incident.
  function JoinFound(s: State, found: Option<nat>, e: Event, severity: Severity, now: int): State
    requires e.eventId in s.alerts && (found.Some? ==> found.value < |s.incidents|)
  {
    var incs := if found.Some? then s.incidents else s.incidents + [NewIncident(e, severity, now)];
    var i := if found.Some? then found.value else |s.incidents|;
    s.(incidents := incs[i := Joined(incs[i], e)],
       alerts := s.alerts[e.eventId := s.alerts[e.eventId].(incident := Some(i))])
  }

  // Both look before either joins.
  function Overlapped(s: State, e1: Event, e2: Event, severity1: Severity, severity2: Severity, now: int): State
    requires e1.eventId in s.alerts && e2.eventId in s.alerts
  {
    JoinFound(JoinFound(s, Found(s, e1), e1, severity1, now), Found(s, e2), e2, severity2, now)
  }

  function OneByOne(s: State, e1: Event, e2: Event, severity1: Severity, severity2: Severity, now: int): State
    requires e1.eventId in s.alerts && e2.eventId in s.alerts
  {
    Correlate(Correlate(s, e1, severity1, now).0, e2, severity2, now).0
  }

  // The same finding, and no incident that takes it yet.
  predicate BothNew(s: State, e1: Event, e2: Event) {
    e1.orgId == e2.orgId && CorrelationKey(e1) == CorrelationKey(e2) && Found(s, e1).None?
  }

  lemma FindOpenIs(incs: seq<Incident>, org: string, key: string, n: nat)
    requires n < |incs| && Takes(incs[n], org, key) && forall j :: 0 <= j < n ==> !Takes(incs[j], org, key)
    ensures FindOpen(incs, org, key, 0) == Some(n)
  {
  }

  lemma FindOpenSame(incs: seq<Incident>, incs': seq<Incident>, org: string, key: string)
    requires |incs| <= |incs'| && forall j :: |incs| <= j < |incs'| ==> !Takes(incs'[j], org, key)
    requires forall j :: 0 <= j < |incs| ==> (Takes(incs'[j], org, key) <==> Takes(incs[j], org, key))
    ensures FindOpen(incs', org, key, 0) == FindOpen(incs, org, key, 0)
  {
    hide Takes;
  }

  // What the second event finds once the first has joined.
  lemma FoundAfter(s: State, e1: Event, e2: Event, severity: Severity, now: int)
    requires e1.eventId in s.alerts
    ensures Found(JoinFound(s, Found(s, e1), e1, severity, now), e2)
         == if BothNew(s, e1, e2) then Some(|s.incidents|) else Found(s, e2)
  {
    hide CorrelationKey, MaxSeverity;
    var incs := JoinFound(s, Found(s, e1), e1, severity, now).incidents;
    if BothNew(s, e1, e2) {
      FindOpenIs(incs, e2.orgId, CorrelationKey(e2), |s.incidents|);
    } else {
      FindOpenSame(s.incidents, incs, e2.orgId, CorrelationKey(e2));
    }
  }

  lemma JoinKeepsOne(s: State, e: Event, severity: Severity, now: int)
    requires e.eventId in s.alerts && OneOpenPerKey(s.incidents)
    ensures OneOpenPerKey(JoinFound(s, Found(s, e), e, severity, now).incidents)
  {
    hide CorrelationKey, MaxSeverity;
    var incs := JoinFound(s, Found(s, e), e, severity, now).incidents;
    forall i, j | 0 <= i < j < |incs| && Unresolved(incs[i]) && Unresolved(incs[j])
      ensures !HeraldRuns.SameKey(incs[i], incs[j])
    {
      if j == |s.incidents| { assert !Takes(s.incidents[i], e.orgId, CorrelationKey(e)); }
    }
  }

  /** Two events that look for an open incident before either has joined one come to the same as
      one after the other, and keep one unresolved incident per key, if and only if they are not
      the same finding with no incident yet. If they are, the key has two, and whatever comes later
      joins the first only. */
  lemma OverlappingCorrelationSplits(s: State, e1: Event, e2: Event, severity1: Severity, severity2: Severity, now: int)
    requires e1.eventId in s.alerts && e2.eventId in s.alerts && OneOpenPerKey(s.incidents)
    ensures var o := Overlapped(s, e1, e2, severity1, severity2, now);
            && (o == OneByOne(s, e1, e2, severity1, severity2, now) <==> !BothNew(s, e1, e2))
            && (OneOpenPerKey(o.incidents) <==> !BothNew(s, e1, e2))
            && (BothNew(s, e1, e2) ==> |o.incidents| == |s.incidents| + 2 && Found(o, e1) == Some(|s.incidents|))
  {
    var s1 := JoinFound(s, Found(s, e1), e1, severity1, now);
    assert s1 == Correlate(s, e1, severity1, now).0;
    FoundAfter(s, e1, e2, severity1, now);
    JoinKeepsOne(s, e1, severity1, now);
    JoinKeepsOne(s1, e2, severity2, now);
    assert OneByOne(s, e1, e2, severity1, severity2, now) == JoinFound(s1, Found(s1, e2), e2, severity2, now);
    if BothNew(s, e1, e2) { TwoForOneKey(s, e1, e2, severity1, severity2, now); }
  }

  lemma TwoForOneKey(s: State, e1: Event, e2: Event, severity1: Severity, severity2: Severity, now: int)
    requires e1.eventId in s.alerts && e2.eventId in s.alerts && BothNew(s, e1, e2)
    ensures var o := Overlapped(s, e1, e2, severity1, severity2, now);
            && |o.incidents| == |s.incidents| + 2 && !OneOpenPerKey(o.incidents) && Found(o, e1) == Some(|s.incidents|)
            && |OneByOne(s, e1, e2, severity1, severity2, now).incidents| == |s.incidents| + 1
  {
    FoundAfter(s, e1, e2, severity1, now);
    hide CorrelationKey, MaxSeverity;
    var n := |s.incidents|;
    var incs := Overlapped(s, e1, e2, severity1, severity2, now).incidents;
    assert Found(s, e2).None? by { FindOpenSame(s.incidents, s.incidents, e1.orgId, CorrelationKey(e1)); }
    assert Unresolved(incs[n]) && Unresolved(incs[n + 1]) && HeraldRuns.SameKey(incs[n], incs[n + 1]);
    FindOpenIs(incs, e1.orgId, CorrelationKey(e1), n);
  }

  /** If an incident is resolved between the two parts, the alert still joins what it had found:
      it ends up in a resolved incident exactly when that is the one. */
  lemma ResolvedBetween(s: State, e: Event, i: nat, severity: Severity, now: int)
    requires e.eventId in s.alerts && Found(s, e).Some? && i < |s.incidents|
    ensures var s' := JoinFound(ResolveIncident(s, i), Found(s, e), e, severity, now);
            Unresolved(s'.incidents[Found(s, e).value]) <==> i != Found(s, e).value
  {
    hide CorrelationKey, MaxSeverity;
  }

  // ----- One-shot orders -----------------------------------------------------------------------

  /** A one-shot order with a channel override that is answered "held" is not stored, so no retry
      will ever send it; without the override the same order is kept and retried. */
  lemma HeldOrderIsLost(s: State, cfg: Config, o: Order, eventId: string, lookup: Option<Severity>, check: TokenCheck,
                        now: int, up: bool)
    requires o.severityFloor.None? && eventId !in s.alerts
    requires Verify(Enriched(OrderEvent(o, eventId, now), lookup), o.token, check) == Unavailable
    ensures var (s', r) := Notify(s, cfg, o, eventId, lookup, check, now, up);
            r == OnHold
            && (if o.channelOverride.Some? && o.channelOverride.value != [] then s' == s
                else
                  eventId in s'.alerts && s'.alerts[eventId].authz == Held
                  && s'.alerts[eventId].retryAt == Some(now + cfg.authzRetryMs))
  {
    hide Verify, EffectiveSeverity;
  }

  /** A dedup window of 0 means the default of 24 hours. Orders set it to 0 so as never to be
      deduplicated, yet a second order under the same id is suppressed exactly within a day of the
      first. */
  lemma RepeatedOrderIsDuplicate(seen: map<string, Seen>, o: Order, id1: string, id2: string, now1: int, now2: int)
    requires o.orderId.Some? && DedupCheck(seen, OrderEvent(o, id1, now1), now1, true).1 == New
    requires SeenOk(seen, Fingerprint(OrderEvent(o, id1, now1)))
    ensures var seen' := DedupCheck(seen, OrderEvent(o, id1, now1), now1, true).0;
            DedupCheck(seen', OrderEvent(o, id2, now2), now2, true).1 == Duplicate
            <==> now2 < now1 + DEFAULT_WINDOW_SECONDS * 1000
  {
    assert Fingerprint(OrderEvent(o, id1, now1)) == Fingerprint(OrderEvent(o, id2, now2));
    hide Fingerprint;
  }

  /** Orders under different ids do not suppress each other, as long as no organization or asset
      has a bar in its name: the verdict on the second is what it would be without the first. */
  lemma DifferentOrdersApart(seen: map<string, Seen>, o1: Order, o2: Order, id1: string, id2: string, now1: int,
                             now2: int)
    requires Or(o1.orderId, id1) != Or(o2.orderId, id2)
    requires BarFree(o1.orgId) && BarFree(o2.orgId) && BarFree(Or(o1.assetId, "")) && BarFree(Or(o2.assetId, ""))
    ensures var (e1, e2) := (OrderEvent(o1, id1, now1), OrderEvent(o2, id2, now2));
            DedupCheck(DedupCheck(seen, e1, now1, true).0, e2, now2, true).1 == DedupCheck(seen, e2, now2, true).1
  {
    FingerprintsTellApart(OrderEvent(o1, id1, now1), OrderEvent(o2, id2, now2));
    hide Fingerprint;
  }

  /** The chain that comes with the bootstrap policies is not among the stored ones, so the first
      due scan parks it: the incident's schedule is cleared and nobody is notified. */
  lemma BootstrapChainIsParked(s: State, cfg: Config, i: nat, now: int)
    requires i < |s.incidents| && s.incidents[i].escalation.policyId == Some(BOOTSTRAP_CHAIN)
    requires (s.incidents[i].orgId, BOOTSTRAP_CHAIN) !in s.chains
    ensures var s' := EscalationTurn(s, cfg, i, now);
            && s'.deliveries == s.deliveries && |s'.incidents| == |s.incidents|
            && s'.incidents[i].escalation.nextFireAt.None?
            && forall policy, ops :: Escalate.Run(s'.incidents[i], policy, ops).1 == []
    ensures ChainFor(s, cfg, s.incidents[i].orgId, BOOTSTRAP_CHAIN).Some?
  {
    var s' := EscalationTurn(s, cfg, i, now);
    forall policy, ops ensures Escalate.Run(s'.incidents[i], policy, ops).1 == [] {
      Escalate.QuietWhenUnscheduled(s'.incidents[i], policy, ops);
    }
  }
}
