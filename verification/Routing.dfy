/**
 The routing engine: which notification targets an incident gets, and which of them the
 organization's egress policy lets through.

 Parsing a destination URL is an input: `hostOf` gives the host of a destination, if any.
 */
module Routing {
  import opened Wrappers
  import opened AlertTypes

  type HostOf = string -> Option<string>

  predicate Matches(p: RoutingPolicy, inc: Incident, now: int) {
    var m := p.match_;
    && !(p.suppressIfAcknowledgedWithin.Some? && inc.ackAt.Some?
         && now - inc.ackAt.value < p.suppressIfAcknowledgedWithin.value * 1000)
    && (m.severityGte.Some? ==> Rank(inc.severity) >= Rank(m.severityGte.value))
    && (m.categories.Some? && |m.categories.value| > 0 ==> inc.category in m.categories.value)
    && (m.criticalityGte.Some? ==>
          inc.criticality.Some? && Rank(inc.criticality.value) >= Rank(m.criticalityGte.value))
    && (m.sourceModules.Some? && |m.sourceModules.value| > 0 ==> inc.sourceModule in m.sourceModules.value)
    && (m.labelsAny.Some? ==> AnyLabel(m.labelsAny.value, inc.labels))
  }

  predicate AnyLabel(wanted: map<string, string>, labels: map<string, string>) {
    exists k :: k in wanted && k in labels && labels[k] == wanted[k]
  }

  /** An incident that only got more severe matches no fewer policies; an empty category list
      matches everything while an empty label map matches nothing. */
  lemma MatchesMoreWhenMoreSevere(p: RoutingPolicy, inc: Incident, s: Severity, now: int)
    requires Rank(inc.severity) <= Rank(s)
    ensures Matches(p, inc, now) ==> Matches(p, inc.(severity := s), now)
    ensures p.match_.labelsAny == Some(map[]) ==> !Matches(p, inc, now)
    ensures p.match_.categories == Some([]) ==>
              Matches(p, inc, now) == Matches(p.(match_ := p.match_.(categories := None)), inc, now)
  {
  }

  // The severities from least to most severe.
  const SCALE: seq<Severity> := [Info, Low, Medium, High, Critical]

  predicate Below(a: Severity, b: Severity) { exists i, j :: 0 <= i < j < |SCALE| && SCALE[i] == a && SCALE[j] == b }

  lemma BelowIsRank(a: Severity, b: Severity)
    ensures Below(a, b) <==> Rank(a) < Rank(b)
  {
    assert SCALE[Rank(a) - 1] == a && SCALE[Rank(b) - 1] == b;
  }

  /** A policy refuses an incident for one of six reasons and for no other: it stands down after a
      recent acknowledgement; the incident is not severe enough, of no listed category, on an asset of
      unknown or lower criticality, or from no listed module; or none of the labels asked for is there
      with its value. */
  lemma RefusesIff(p: RoutingPolicy, inc: Incident, now: int)
    ensures var m := p.match_;
            !Matches(p, inc, now)
            <==> || (exists within, at :: p.suppressIfAcknowledgedWithin == Some(within) && inc.ackAt == Some(at)
                                          && now < at + within * 1000)
                 || (exists s :: m.severityGte == Some(s) && Below(inc.severity, s))
                 || (exists cs :: m.categories == Some(cs) && cs != [] && inc.category !in cs)
                 || (exists s :: m.criticalityGte == Some(s)
                                 && (inc.criticality.None? || Below(inc.criticality.value, s)))
                 || (exists ms :: m.sourceModules == Some(ms) && ms != [] && inc.sourceModule !in ms)
                 || (exists ls :: m.labelsAny == Some(ls) && ls.Items !! inc.labels.Items)
  {
    var m := p.match_;
    if m.severityGte.Some? { BelowIsRank(inc.severity, m.severityGte.value); }
    if m.criticalityGte.Some? && inc.criticality.Some? { BelowIsRank(inc.criticality.value, m.criticalityGte.value); }
    if m.labelsAny.Some? { LabelsMeet(m.labelsAny.value, inc.labels); }
    hide Below, AnyLabel;
  }

  lemma LabelsMeet(wanted: map<string, string>, labels: map<string, string>)
    ensures AnyLabel(wanted, labels) <==> !(wanted.Items !! labels.Items)
  {
    if AnyLabel(wanted, labels) {
      var k :| k in wanted && k in labels && labels[k] == wanted[k];
      assert (k, wanted[k]) in wanted.Items && (k, wanted[k]) in labels.Items;
    }
    if !(wanted.Items !! labels.Items) {
      var item :| item in wanted.Items && item in labels.Items;
      assert item.0 in wanted && labels[item.0] == wanted[item.0];
    }
  }

  method PolicyMatches(p: RoutingPolicy, inc: Incident, now: int) returns (ok: bool)
    ensures ok == Matches(p, inc, now)
  {
    var m := p.match_;
    if p.suppressIfAcknowledgedWithin.Some? && inc.ackAt.Some?
       && now - inc.ackAt.value < p.suppressIfAcknowledgedWithin.value * 1000 { return false; }
    if m.severityGte.Some? && Rank(inc.severity) < Rank(m.severityGte.value) { return false; }
    if m.categories.Some? && |m.categories.value| > 0 && inc.category !in m.categories.value { return false; }
    if m.criticalityGte.Some? {
      if inc.criticality.None? || Rank(inc.criticality.value) < Rank(m.criticalityGte.value) { return false; }
    }
    if m.sourceModules.Some? && |m.sourceModules.value| > 0 && inc.sourceModule !in m.sourceModules.value {
      return false;
    }
    if m.labelsAny.Some? && !AnyLabel(m.labelsAny.value, inc.labels) { return false; }
    return true;
  }

  // ----- Evaluation order ---------------------------------------------------------------

  predicate Before(a: RoutingPolicy, b: RoutingPolicy) {
    a.priority < b.priority || (a.priority == b.priority && a.createdAt < b.createdAt)
  }

  // p goes behind everything it does not come before.
  function Place(s: seq<RoutingPolicy>, p: RoutingPolicy): seq<RoutingPolicy> {
    if s == [] || !Before(p, s[|s| - 1]) then s + [p]
    else Place(s[..|s| - 1], p) + [s[|s| - 1]]
  }

  // The stable sort by priority, then creation time.
  function Ordered(ps: seq<RoutingPolicy>): seq<RoutingPolicy> {
    if ps == [] then [] else Place(Ordered(ps[..|ps| - 1]), ps[|ps| - 1])
  }

  predicate Ascending(s: seq<RoutingPolicy>) {
    forall i, j :: 0 <= i < j < |s| ==> !Before(s[j], s[i])
  }

  predicate Strict(s: seq<RoutingPolicy>) {
    forall i, j :: 0 <= i < j < |s| ==> Before(s[i], s[j])
  }

  predicate SameKey(a: RoutingPolicy, b: RoutingPolicy) { !Before(a, b) && !Before(b, a) }

  predicate DistinctKeys(s: seq<RoutingPolicy>) {
    forall i, j :: 0 <= i < j < |s| ==> !SameKey(s[i], s[j])
  }

  lemma {:induction false} PlacePermutes(s: seq<RoutingPolicy>, p: RoutingPolicy)
    ensures multiset(Place(s, p)) == multiset(s) + multiset{p} && |Place(s, p)| == |s| + 1
  {
    if s == [] || !Before(p, s[|s| - 1]) {
    } else {
      PlacePermutes(s[..|s| - 1], p);
      assert s == s[..|s| - 1] + [s[|s| - 1]];
    }
  }

  lemma SameMembers(a: seq<RoutingPolicy>, b: seq<RoutingPolicy>)
    requires multiset(a) == multiset(b)
    ensures forall p :: p in a <==> p in b
  {
    assert forall p :: p in a <==> p in multiset(a);
    assert forall p :: p in b <==> p in multiset(b);
  }

  lemma {:induction false} PlaceMembers(s: seq<RoutingPolicy>, p: RoutingPolicy)
    ensures forall q :: q in Place(s, p) <==> q in s || q == p
  {
    hide Before;
    if s == [] || !Before(p, s[|s| - 1]) {
    } else {
      PlaceMembers(s[..|s| - 1], p);
      assert s == s[..|s| - 1] + [s[|s| - 1]];
    }
  }

  lemma {:induction false} OrderedPermutes(ps: seq<RoutingPolicy>)
    ensures multiset(Ordered(ps)) == multiset(ps)
    ensures forall p :: p in Ordered(ps) <==> p in ps
  {
    hide Before, Place;
    if ps != [] {
      var n := |ps| - 1;
      OrderedPermutes(ps[..n]);
      PlacePermutes(Ordered(ps[..n]), ps[n]);
      assert ps == ps[..n] + [ps[n]];
    }
    SameMembers(Ordered(ps), ps);
  }

  lemma LastBehind(s: seq<RoutingPolicy>, last: RoutingPolicy)
    requires Ascending(s) && forall q <- s :: !Before(last, q)
    ensures Ascending(s + [last])
  {
    hide Before;
  }

  lemma LastStrictlyBehind(s: seq<RoutingPolicy>, last: RoutingPolicy)
    requires Strict(s) && forall q <- s :: Before(q, last)
    ensures Strict(s + [last])
  {
    hide Before;
  }

  lemma {:induction false} PlaceAscends(s: seq<RoutingPolicy>, p: RoutingPolicy)
    requires Ascending(s)
    ensures Ascending(Place(s, p))
  {
    if s == [] || !Before(p, s[|s| - 1]) {
    } else {
      var n := |s| - 1;
      PlaceAscends(s[..n], p);
      PlaceMembers(s[..n], p);
      LastBehind(Place(s[..n], p), s[n]);
    }
  }

  lemma {:induction false} OrderedAscends(ps: seq<RoutingPolicy>)
    ensures Ascending(Ordered(ps))
  {
    if ps != [] {
      OrderedAscends(ps[..|ps| - 1]);
      PlaceAscends(Ordered(ps[..|ps| - 1]), ps[|ps| - 1]);
    }
  }

  lemma {:induction false} PlaceStrict(s: seq<RoutingPolicy>, p: RoutingPolicy)
    requires Strict(s) && forall q <- s :: !SameKey(q, p)
    ensures Strict(Place(s, p))
  {
    if s == [] {
    } else {
      var n := |s| - 1;
      assert s[n] in s;
      if Before(p, s[n]) {
        assert forall q <- s[..n] :: q in s;
        PlaceStrict(s[..n], p);
        PlaceMembers(s[..n], p);
        LastStrictlyBehind(Place(s[..n], p), s[n]);
      }
    }
  }

  lemma {:induction false} OrderedStrict(ps: seq<RoutingPolicy>)
    requires DistinctKeys(ps)
    ensures Strict(Ordered(ps))
  {
    if ps != [] {
      var n := |ps| - 1;
      OrderedStrict(ps[..n]);
      OrderedPermutes(ps[..n]);
      forall q <- Ordered(ps[..n]) ensures !SameKey(q, ps[n]) {
        assert q in ps[..n];
        var i :| 0 <= i < n && ps[i] == q;
      }
      PlaceStrict(Ordered(ps[..n]), ps[n]);
    }
  }

  lemma {:induction false} StrictUnique(a: seq<RoutingPolicy>, b: seq<RoutingPolicy>)
    requires Strict(a) && Strict(b) && multiset(a) == multiset(b)
    ensures a == b
  {
    assert |a| == |multiset(a)| == |multiset(b)| == |b|;
    if a != [] {
      SameMembers(a, b);
      SameFirst(a, b);
      TailMultiset(a, b);
      StrictUnique(a[1..], b[1..]);
      assert a == [a[0]] + a[1..] && b == [b[0]] + b[1..];
    }
  }

  lemma SameFirst(a: seq<RoutingPolicy>, b: seq<RoutingPolicy>)
    requires Strict(a) && Strict(b) && a != [] && b != [] && a[0] in b && b[0] in a
    ensures a[0] == b[0]
  {
    var i :| 0 <= i < |b| && b[i] == a[0];
    var j :| 0 <= j < |a| && a[j] == b[0];
  }

  lemma TailMultiset(a: seq<RoutingPolicy>, b: seq<RoutingPolicy>)
    requires a != [] && b != [] && a[0] == b[0] && multiset(a) == multiset(b)
    ensures multiset(a[1..]) == multiset(b[1..])
  {
    assert a == [a[0]] + a[1..] && b == [b[0]] + b[1..];
    assert multiset(a[1..]) == multiset(a) - multiset{a[0]};
    assert multiset(b[1..]) == multiset(b) - multiset{b[0]};
  }

  // ----- The decision -------------------------------------------------------------------

  datatype Decision = Decision(
    targets: seq<Target>,
    matchedPolicyIds: seq<string>,
    escalationPolicyId: Option<string>,
    dropped: seq<Target>)

  function OfChannel(ts: seq<Target>, c: Channel): seq<Target> {
    if ts == [] then [] else (if ts[0].channel == c then [ts[0]] else []) + OfChannel(ts[1..], c)
  }

  // Targets on channels not yet satisfied.
  function Unsatisfied(ts: seq<Target>, done: set<Channel>): seq<Target> {
    if ts == [] then [] else (if ts[0].channel in done then [] else [ts[0]]) + Unsatisfied(ts[1..], done)
  }

  function ChannelsOf(ts: seq<Target>): set<Channel> { set i | 0 <= i < |ts| :: ts[i].channel }

  function RouteFrom(ps: seq<RoutingPolicy>, inc: Incident, now: int, done: set<Channel>): (d: Decision)
    ensures d.dropped == []
    decreases |ps|
  {
    if ps == [] then Decision([], [], None, [])
    else
      var added := Unsatisfied(ps[0].targets, done);
      if !Matches(ps[0], inc, now) || added == [] then RouteFrom(ps[1..], inc, now, done)
      else
        var rest := RouteFrom(ps[1..], inc, now, done + ChannelsOf(added));
        Decision(added + rest.targets, [ps[0].policyId] + rest.matchedPolicyIds,
                 if ps[0].escalationPolicyId.Some? then ps[0].escalationPolicyId else rest.escalationPolicyId, [])
  }

  function Route(ps: seq<RoutingPolicy>, inc: Incident, now: int): Decision {
    RouteFrom(Ordered(ps), inc, now, {})
  }

  // One policy's turn, on the accumulated decision.
  function Also(d: Decision, rest: Decision): Decision {
    Decision(d.targets + rest.targets, d.matchedPolicyIds + rest.matchedPolicyIds,
             if d.escalationPolicyId.Some? then d.escalationPolicyId else rest.escalationPolicyId, d.dropped)
  }

  method RouteIncident(policies: seq<RoutingPolicy>, inc: Incident, now: int) returns (d: Decision)
    ensures d == Route(policies, inc, now)
  {
    hide Matches, Ordered, Also;
    var satisfied: set<Channel> := {};
    var targets, matched, escalation := [], [], None;
    var ordered := Ordered(policies);
    ghost var whole := RouteFrom(ordered, inc, now, {});
    var i := 0;
    assert ordered[0..] == ordered;
    AlsoUnit(whole);
    while i < |ordered|
      invariant 0 <= i <= |ordered|
      invariant Also(Decision(targets, matched, escalation, []), RouteFrom(ordered[i..], inc, now, satisfied)) == whole
    {
      var policy := ordered[i];
      assert ordered[i..][0] == policy && ordered[i..][1..] == ordered[i + 1..];
      i := i + 1;
      var ok := PolicyMatches(policy, inc, now);
      if !ok { continue; }
      var contributes := Contributions(policy.targets, satisfied);
      if |contributes| == 0 { continue; }
      AlsoAssoc(targets, matched, escalation, contributes, policy,
                RouteFrom(ordered[i..], inc, now, satisfied + ChannelsOf(contributes)));
      matched := matched + [policy.policyId];
      if escalation.None? { escalation := policy.escalationPolicyId; }
      targets, satisfied := AddAll(targets, satisfied, contributes);
    }
    AlsoUnit(Decision(targets, matched, escalation, []));
    d := Decision(targets, matched, escalation, []);
  }

  // The innermost loop of the routing: push each target and note its channel.
  method AddAll(targets0: seq<Target>, satisfied0: set<Channel>, contributes: seq<Target>)
    returns (targets: seq<Target>, satisfied: set<Channel>)
    ensures targets == targets0 + contributes && satisfied == satisfied0 + ChannelsOf(contributes)
  {
    targets, satisfied := targets0, satisfied0;
    var k := 0;
    while k < |contributes|
      invariant 0 <= k <= |contributes|
      invariant targets == targets0 + contributes[..k]
      invariant satisfied == satisfied0 + ChannelsOf(contributes[..k])
    {
      targets := targets + [contributes[k]];
      satisfied := satisfied + {contributes[k].channel};
      ChannelsOfOneMore(contributes, k);
      k := k + 1;
    }
    assert contributes[..k] == contributes;
  }

  lemma AlsoUnit(d: Decision)
    ensures d.dropped == [] ==> Also(Decision([], [], None, []), d) == d
    ensures Also(d, Decision([], [], None, [])) == d
  {
    assert [] + d.targets == d.targets && [] + d.matchedPolicyIds == d.matchedPolicyIds;
  }

  lemma AlsoAssoc(ts: seq<Target>, ids: seq<string>, esc: Option<string>, added: seq<Target>, p: RoutingPolicy,
                  rest: Decision)
    ensures Also(Decision(ts, ids, esc, []),
                 Decision(added + rest.targets, [p.policyId] + rest.matchedPolicyIds,
                          if p.escalationPolicyId.Some? then p.escalationPolicyId else rest.escalationPolicyId, []))
         == Also(Decision(ts + added, ids + [p.policyId], if esc.Some? then esc else p.escalationPolicyId, []), rest)
  {
    assert (ts + added) + rest.targets == ts + (added + rest.targets);
    assert (ids + [p.policyId]) + rest.matchedPolicyIds == ids + ([p.policyId] + rest.matchedPolicyIds);
  }

  lemma ChannelsOfOneMore(ts: seq<Target>, k: nat)
    requires k < |ts|
    ensures ts[..k + 1] == ts[..k] + [ts[k]]
    ensures ChannelsOf(ts[..k + 1]) == ChannelsOf(ts[..k]) + {ts[k].channel}
  {
    forall c ensures c in ChannelsOf(ts[..k + 1]) <==> c in ChannelsOf(ts[..k]) + {ts[k].channel} {
      if c in ChannelsOf(ts[..k]) {
        var i :| 0 <= i < k && ts[..k][i].channel == c;
        assert ts[..k + 1][i].channel == c;
      }
      if c == ts[k].channel { assert ts[..k + 1][k].channel == c; }
      if c in ChannelsOf(ts[..k + 1]) {
        var i :| 0 <= i < k + 1 && ts[..k + 1][i].channel == c;
        assert i < k ==> ts[..k][i].channel == c;
      }
    }
  }

  method Contributions(ts: seq<Target>, done: set<Channel>) returns (added: seq<Target>)
    ensures added == Unsatisfied(ts, done)
  {
    hide Unsatisfied;
    added := [];
    var i := 0;
    UnsatisfiedEnds(ts, done);
    while i < |ts|
      invariant 0 <= i <= |ts|
      invariant added + Unsatisfied(ts[i..], done) == Unsatisfied(ts, done)
    {
      UnsatisfiedCons(ts, i, done);
      if ts[i].channel !in done { added := added + [ts[i]]; }
      i := i + 1;
    }
  }

  lemma UnsatisfiedEnds(ts: seq<Target>, done: set<Channel>)
    ensures ts[0..] == ts && ts[|ts|..] == [] && Unsatisfied([], done) == []
  {
  }

  lemma UnsatisfiedCons(ts: seq<Target>, i: nat, done: set<Channel>)
    requires i < |ts|
    ensures Unsatisfied(ts[i..], done)
         == (if ts[i].channel in done then [] else [ts[i]]) + Unsatisfied(ts[i + 1..], done)
  {
    assert ts[i..][0] == ts[i] && ts[i..][1..] == ts[i + 1..];
  }

  // ----- What the decision means ----------------------------------------------------------

  // The first matching policy, in evaluation order, that has a target on the channel.
  function FirstFor(ps: seq<RoutingPolicy>, inc: Incident, now: int, c: Channel): Option<RoutingPolicy> {
    if ps == [] then None
    else if Matches(ps[0], inc, now) && OfChannel(ps[0].targets, c) != [] then Some(ps[0])
    else FirstFor(ps[1..], inc, now, c)
  }

  lemma {:induction false} OfChannelConcat(a: seq<Target>, b: seq<Target>, c: Channel)
    ensures OfChannel(a + b, c) == OfChannel(a, c) + OfChannel(b, c)
  {
    if a == [] {
      assert a + b == b;
    } else {
      assert (a + b)[1..] == a[1..] + b && (a + b)[0] == a[0];
      OfChannelConcat(a[1..], b, c);
      var head := if a[0].channel == c then [a[0]] else [];
      assert head + (OfChannel(a[1..], c) + OfChannel(b, c)) == (head + OfChannel(a[1..], c)) + OfChannel(b, c);
    }
  }

  lemma {:induction false} UnsatisfiedOfChannel(ts: seq<Target>, done: set<Channel>, c: Channel)
    ensures OfChannel(Unsatisfied(ts, done), c) == if c in done then [] else OfChannel(ts, c)
    ensures c in ChannelsOf(Unsatisfied(ts, done)) <==> c !in done && OfChannel(ts, c) != []
    decreases |ts|
  {
    if ts != [] {
      UnsatisfiedOfChannel(ts[1..], done, c);
      var tail := Unsatisfied(ts[1..], done);
      if ts[0].channel !in done {
        OfChannelConcat([ts[0]], tail, c);
        ChannelsOfCons(ts[0], tail, c);
        assert OfChannel([ts[0]], c) == if ts[0].channel == c then [ts[0]] else [];
      } else {
        assert [] + tail == tail;
      }
    }
  }

  lemma ChannelsOfCons(t: Target, ts: seq<Target>, c: Channel)
    ensures c in ChannelsOf([t] + ts) <==> c == t.channel || c in ChannelsOf(ts)
  {
    if c in ChannelsOf(ts) {
      var i :| 0 <= i < |ts| && ts[i].channel == c;
      assert ([t] + ts)[i + 1].channel == c;
    }
    if c == t.channel { assert ([t] + ts)[0].channel == c; }
  }

  lemma {:induction false} RouteFromPerChannel(ps: seq<RoutingPolicy>, inc: Incident, now: int, done: set<Channel>,
                                               c: Channel)
    ensures OfChannel(RouteFrom(ps, inc, now, done).targets, c)
         == if c in done || FirstFor(ps, inc, now, c).None? then []
            else OfChannel(FirstFor(ps, inc, now, c).value.targets, c)
    decreases |ps|
  {
    hide Matches, ChannelsOf;
    if ps != [] {
      var added := Unsatisfied(ps[0].targets, done);
      UnsatisfiedOfChannel(ps[0].targets, done, c);
      if !Matches(ps[0], inc, now) || added == [] {
        RouteFromPerChannel(ps[1..], inc, now, done, c);
      } else {
        var done' := done + ChannelsOf(added);
        RouteFromPerChannel(ps[1..], inc, now, done', c);
        OfChannelConcat(added, RouteFrom(ps[1..], inc, now, done').targets, c);
      }
    }
  }

  /** Every channel gets exactly the targets, in order, of the first matching policy that has
      any for it, in the order of priority and then of creation. */
  lemma PerChannel(policies: seq<RoutingPolicy>, inc: Incident, now: int, c: Channel)
    ensures OfChannel(Route(policies, inc, now).targets, c)
         == match FirstFor(Ordered(policies), inc, now, c)
            case None => []
            case Some(p) => OfChannel(p.targets, c)
  {
    RouteFromPerChannel(Ordered(policies), inc, now, {}, c);
  }

  ghost predicate Wins(ps: seq<RoutingPolicy>, inc: Incident, now: int, done: set<Channel>, c: Channel,
                       p: RoutingPolicy)
  {
    c !in done && FirstFor(ps, inc, now, c) == Some(p)
  }

  ghost predicate SomeWinner(ps: seq<RoutingPolicy>, inc: Incident, now: int, done: set<Channel>, id: string) {
    exists c, p :: Wins(ps, inc, now, done, c, p) && p.policyId == id
  }

  lemma NoChannels()
    ensures ChannelsOf([]) == {}
  {
  }

  lemma HasChannel(ts: seq<Target>)
    requires ts != []
    ensures ts[0].channel in ChannelsOf(ts)
  {
  }

  lemma {:induction false} RouteFromMatched(ps: seq<RoutingPolicy>, inc: Incident, now: int, done: set<Channel>,
                                            id: string)
    ensures id in RouteFrom(ps, inc, now, done).matchedPolicyIds
       <==> SomeWinner(ps, inc, now, done, id)
    decreases |ps|
  {
    hide Matches, ChannelsOf, OfChannel, Unsatisfied;
    if ps != [] {
      var added := Unsatisfied(ps[0].targets, done);
      forall c ensures c in ChannelsOf(added) <==> c !in done && OfChannel(ps[0].targets, c) != [] {
        UnsatisfiedOfChannel(ps[0].targets, done, c);
      }
      if !Matches(ps[0], inc, now) || added == [] {
        RouteFromMatched(ps[1..], inc, now, done, id);
        NoChannels();
        assert forall c, p :: Wins(ps, inc, now, done, c, p) <==> Wins(ps[1..], inc, now, done, c, p);
      } else {
        var done' := done + ChannelsOf(added);
        RouteFromMatched(ps[1..], inc, now, done', id);
        HasChannel(added);
        assert Wins(ps, inc, now, done, added[0].channel, ps[0]);
        assert forall c, p :: Wins(ps[1..], inc, now, done', c, p) ==> Wins(ps, inc, now, done, c, p);
        assert forall c, p :: Wins(ps, inc, now, done, c, p) ==> p == ps[0] || Wins(ps[1..], inc, now, done', c, p);
      }
    }
  }

  /** The policies named in the decision are exactly those that won some channel. */
  lemma MatchedWon(policies: seq<RoutingPolicy>, inc: Incident, now: int, id: string)
    ensures id in Route(policies, inc, now).matchedPolicyIds
       <==> SomeWinner(Ordered(policies), inc, now, {}, id)
  {
    RouteFromMatched(Ordered(policies), inc, now, {}, id);
  }

  /** The decision does not depend on the order the store lists the policies in, as long as no
      two share priority and creation time. */
  lemma OrderIndependent(a: seq<RoutingPolicy>, b: seq<RoutingPolicy>, inc: Incident, now: int)
    requires multiset(a) == multiset(b) && DistinctKeys(a) && DistinctKeys(b)
    ensures Route(a, inc, now) == Route(b, inc, now)
  {
    OrderedPermutes(a);
    OrderedPermutes(b);
    OrderedStrict(a);
    OrderedStrict(b);
    StrictUnique(Ordered(a), Ordered(b));
  }

  lemma OrderedTie(p: RoutingPolicy, q: RoutingPolicy)
    requires SameKey(p, q)
    ensures Ordered([p, q]) == [p, q]
  {
    assert [p, q][..1] == [p] && [p][..0] == [];
    assert Ordered([p]) == [p];
  }

  lemma FirstOfTwo(p: RoutingPolicy, q: RoutingPolicy, inc: Incident, now: int, c: Channel)
    ensures FirstFor([p, q], inc, now, c)
         == if Matches(p, inc, now) && OfChannel(p.targets, c) != [] then Some(p)
            else if Matches(q, inc, now) && OfChannel(q.targets, c) != [] then Some(q) else None
  {
    hide Matches, OfChannel;
    assert [p, q][1..] == [q] && [q][1..] == [];
    assert FirstFor([], inc, now, c) == None;
    assert FirstFor([q], inc, now, c)
        == if Matches(q, inc, now) && OfChannel(q.targets, c) != [] then Some(q) else None;
  }

  /** With a tie the listing order, and so the store's own, decides what a channel gets exactly when
      both policies match and have targets on it, and not the same ones. */
  lemma TiesDependOnOrder(p: RoutingPolicy, q: RoutingPolicy, inc: Incident, now: int, c: Channel)
    requires SameKey(p, q)
    ensures OfChannel(Route([p, q], inc, now).targets, c) != OfChannel(Route([q, p], inc, now).targets, c)
       <==> && Matches(p, inc, now) && Matches(q, inc, now)
            && OfChannel(p.targets, c) != [] && OfChannel(q.targets, c) != []
            && OfChannel(p.targets, c) != OfChannel(q.targets, c)
  {
    hide Matches, OfChannel, Ordered, Before, FirstFor, Route;
    OrderedTie(p, q);
    OrderedTie(q, p);
    PerChannel([p, q], inc, now, c);
    PerChannel([q, p], inc, now, c);
    FirstOfTwo(p, q, inc, now, c);
    FirstOfTwo(q, p, inc, now, c);
  }

  // ----- Egress policy --------------------------------------------------------------------

  // What comes before the first colon.
  function SansPort(host: string): string {
    if host == "" || host[0] == ':' then "" else [host[0]] + SansPort(host[1..])
  }

  predicate Admits(e: EgressEntry, t: Target, hostOf: HostOf) {
    && e.channel == t.channel
    && (e.pattern == "*" || e.pattern == t.destination
        || (Truthy(hostOf(t.destination))
            && (e.pattern == hostOf(t.destination).value || e.pattern == SansPort(hostOf(t.destination).value))))
  }

  lemma {:induction false} SansPortIs(host: string, pattern: string)
    ensures pattern == SansPort(host) <==> ':' !in pattern && (pattern == host || pattern + ":" <= host)
    decreases |host|
  {
    if host != "" && host[0] != ':' {
      if pattern != "" {
        assert pattern == [pattern[0]] + pattern[1..] && host == [host[0]] + host[1..];
        SansPortIs(host[1..], pattern[1..]);
        assert pattern + ":" == [pattern[0]] + (pattern[1..] + ":");
        assert ':' in pattern <==> pattern[0] == ':' || ':' in pattern[1..];
        assert pattern + ":" <= host <==> pattern[0] == host[0] && pattern[1..] + ":" <= host[1..];
      }
    }
  }

  /** An organization's egress entries approve a target exactly if one of its channel is the star, the
      destination itself, or the host of its address with or without the port; without entries
      nothing is approved. */
  lemma EgressAllowsIff(entries: Option<seq<EgressEntry>>, t: Target, hostOf: HostOf)
    ensures EgressAllows(entries, t, hostOf)
       <==> entries.Some?
            && exists e <- entries.value ::
                 e.channel == t.channel
                 && (e.pattern == "*" || e.pattern == t.destination
                     || exists host :: hostOf(t.destination) == Some(host) && host != ""
                                       && (e.pattern == host || (':' !in e.pattern && e.pattern + ":" <= host)))
  {
    if entries.Some? && Truthy(hostOf(t.destination)) {
      forall e <- entries.value
        ensures var host := hostOf(t.destination).value;
                e.pattern == SansPort(host) <==> ':' !in e.pattern && (e.pattern == host || e.pattern + ":" <= host)
      {
        SansPortIs(hostOf(t.destination).value, e.pattern);
      }
    }
    hide SansPort;
  }

  // Nothing is approved without an egress policy.
  predicate EgressAllows(entries: Option<seq<EgressEntry>>, t: Target, hostOf: HostOf) {
    entries.Some? && exists e :: e in entries.value && Admits(e, t, hostOf)
  }

  /** The entry lookup finds the first admitting entry, and finds one exactly when the target
      is allowed. */
  method EgressEntryFor(entries: Option<seq<EgressEntry>>, t: Target, hostOf: HostOf) returns (r: Option<EgressEntry>)
    ensures r.Some? <==> EgressAllows(entries, t, hostOf)
    ensures r.Some? ==>
              exists i :: 0 <= i < |entries.value| && entries.value[i] == r.value && Admits(r.value, t, hostOf)
                                    && forall j :: 0 <= j < i ==> !Admits(entries.value[j], t, hostOf)
  {
    if entries.None? { return None; }
    var i := 0;
    while i < |entries.value|
      invariant 0 <= i <= |entries.value|
      invariant forall j :: 0 <= j < i ==> !Admits(entries.value[j], t, hostOf)
    {
      var e := entries.value[i];
      assert e in entries.value;
      i := i + 1;
      if e.channel != t.channel { continue; }
      if e.pattern == "*" || e.pattern == t.destination { return Some(e); }
      var host := hostOf(t.destination);
      if Truthy(host) && (e.pattern == host.value || e.pattern == SansPort(host.value)) { return Some(e); }
    }
    return None;
  }

  function Split(ts: seq<Target>, entries: Option<seq<EgressEntry>>, hostOf: HostOf, allowed: bool): seq<Target> {
    if ts == [] then []
    else (if EgressAllows(entries, ts[0], hostOf) == allowed then [ts[0]] else [])
         + Split(ts[1..], entries, hostOf, allowed)
  }

  function Filtered(d: Decision, entries: Option<seq<EgressEntry>>, hostOf: HostOf): Decision {
    d.(targets := Split(d.targets, entries, hostOf, true), dropped := Split(d.targets, entries, hostOf, false))
  }

  method ApplyEgressPolicy(d: Decision, entries: Option<seq<EgressEntry>>, hostOf: HostOf) returns (r: Decision)
    ensures r == Filtered(d, entries, hostOf)
  {
    hide EgressAllows, Split;
    var allowed, dropped := [], [];
    var i := 0;
    SplitEnds(d.targets, entries, hostOf);
    while i < |d.targets|
      invariant 0 <= i <= |d.targets|
      invariant allowed + Split(d.targets[i..], entries, hostOf, true) == Split(d.targets, entries, hostOf, true)
      invariant dropped + Split(d.targets[i..], entries, hostOf, false) == Split(d.targets, entries, hostOf, false)
    {
      SplitCons(d.targets[i..], entries, hostOf);
      assert d.targets[i..][1..] == d.targets[i + 1..];
      var ok := Allowed(entries, d.targets[i], hostOf);
      if ok { allowed := allowed + [d.targets[i]]; } else { dropped := dropped + [d.targets[i]]; }
      i := i + 1;
    }
    r := d.(targets := allowed, dropped := dropped);
  }

  lemma SplitEnds(ts: seq<Target>, entries: Option<seq<EgressEntry>>, hostOf: HostOf)
    ensures ts[0..] == ts && ts[|ts|..] == []
    ensures forall b :: Split([], entries, hostOf, b) == []
  {
  }

  method Allowed(entries: Option<seq<EgressEntry>>, t: Target, hostOf: HostOf) returns (ok: bool)
    ensures ok == EgressAllows(entries, t, hostOf)
  {
    var e := EgressEntryFor(entries, t, hostOf);
    ok := e.Some?;
  }

  /** The egress policy parts the targets without losing or adding any, keeps what it allows
      and nothing else, and lets nothing through when the organization has none. */
  lemma SplitPartitions(ts: seq<Target>, entries: Option<seq<EgressEntry>>, hostOf: HostOf)
    ensures multiset(Split(ts, entries, hostOf, true)) + multiset(Split(ts, entries, hostOf, false)) == multiset(ts)
    ensures forall t, b :: t in Split(ts, entries, hostOf, b) <==> t in ts && EgressAllows(entries, t, hostOf) == b
    ensures entries.None? ==> Split(ts, entries, hostOf, true) == []
  {
    SplitKeepsAll(ts, entries, hostOf);
    SplitMembers(ts, entries, hostOf);
    NothingWithoutPolicy(ts, hostOf);
    hide Split;
  }

  lemma {:induction false} NothingWithoutPolicy(ts: seq<Target>, hostOf: HostOf)
    ensures Split(ts, None, hostOf, true) == []
  {
    if ts != [] { NothingWithoutPolicy(ts[1..], hostOf); }
  }

  lemma {:induction false} SplitKeepsAll(ts: seq<Target>, entries: Option<seq<EgressEntry>>, hostOf: HostOf)
    ensures multiset(Split(ts, entries, hostOf, true)) + multiset(Split(ts, entries, hostOf, false)) == multiset(ts)
  {
    hide EgressAllows;
    if ts != [] {
      SplitKeepsAll(ts[1..], entries, hostOf);
      assert ts == [ts[0]] + ts[1..];
      SplitCons(ts, entries, hostOf);
    }
  }

  lemma SplitCons(ts: seq<Target>, entries: Option<seq<EgressEntry>>, hostOf: HostOf)
    requires ts != []
    ensures var b := EgressAllows(entries, ts[0], hostOf);
            && Split(ts, entries, hostOf, b) == [ts[0]] + Split(ts[1..], entries, hostOf, b)
            && Split(ts, entries, hostOf, !b) == Split(ts[1..], entries, hostOf, !b)
  {
    hide EgressAllows;
    var b := EgressAllows(entries, ts[0], hostOf);
    assert [] + Split(ts[1..], entries, hostOf, !b) == Split(ts[1..], entries, hostOf, !b);
  }

  lemma {:induction false} SplitMembers(ts: seq<Target>, entries: Option<seq<EgressEntry>>, hostOf: HostOf)
    ensures forall t, b :: t in Split(ts, entries, hostOf, b) <==> t in ts && EgressAllows(entries, t, hostOf) == b
  {
    hide EgressAllows;
    if ts != [] {
      SplitMembers(ts[1..], entries, hostOf);
      assert ts == [ts[0]] + ts[1..];
    }
  }

  // ----- Bootstrap policies, for an organization without any ----------------------------------

  datatype BootstrapChannels = BootstrapChannels(orgSiemWebhook: Option<string>, slackSecAlerts: Option<string>)

  const BOOTSTRAP_CHAIN := "esc_bootstrap_default"

  function AtLeast(s: Severity): RoutingMatch { RoutingMatch(Some(s), None, None, None, None) }

  function BootstrapPolicies(channels: BootstrapChannels, now: int): seq<RoutingPolicy> {
    (if Truthy(channels.orgSiemWebhook) then
       [RoutingPolicy("rp_bootstrap_siem", 900, now, AtLeast(Medium),
                      [Target(Webhook, channels.orgSiemWebhook.value, Some("raw_json"))], None, None)]
     else [])
    + (if Truthy(channels.slackSecAlerts) then
         [RoutingPolicy("rp_bootstrap_slack_high", 500, now, AtLeast(High),
                        [Target(Slack, channels.slackSecAlerts.value, Some("incident_card"))], None, None),
          RoutingPolicy("rp_bootstrap_slack_critical", 100, now, AtLeast(Critical),
                        [Target(Slack, channels.slackSecAlerts.value, Some("incident_card"))],
                        Some(BOOTSTRAP_CHAIN), None)]
       else [])
  }

  lemma OneTarget(t: Target, c: Channel)
    ensures OfChannel([t], c) == if t.channel == c then [t] else []
  {
    assert [t][1..] == [];
  }

  // Placing something that comes before all that is there.
  lemma {:induction false} PlaceFirst(s: seq<RoutingPolicy>, p: RoutingPolicy)
    requires forall q <- s :: Before(p, q)
    ensures Place(s, p) == [p] + s
  {
    hide Before;
    if s != [] {
      var n := |s| - 1;
      assert s[n] in s && forall q <- s[..n] :: q in s;
      PlaceFirst(s[..n], p);
      assert ([p] + s[..n]) + [s[n]] == [p] + s;
    }
  }

  lemma BootstrapOrdered(siem: RoutingPolicy, high: RoutingPolicy, critical: RoutingPolicy)
    requires critical.priority < high.priority < siem.priority
    ensures Ordered([siem, high, critical]) == [critical, high, siem]
  {
    hide Place, Ordered;
    PlaceFirst([], siem);
    PlaceFirst([siem], high);
    PlaceFirst([high, siem], critical);
    OrderedOneMore([], siem);
    OrderedOneMore([siem], high);
    OrderedOneMore([siem, high], critical);
    assert [] + [siem] == [siem] && [siem] + [high] == [siem, high]
           && [siem, high] + [critical] == [siem, high, critical];
    assert [siem] + [] == [siem] && [high] + [siem] == [high, siem]
           && [critical] + [high, siem] == [critical, high, siem];
  }

  lemma OrderedOneMore(s: seq<RoutingPolicy>, p: RoutingPolicy)
    ensures Ordered(s + [p]) == Place(Ordered(s), p) && Ordered([]) == []
  {
    hide Place;
    assert (s + [p])[..|s|] == s;
  }

  /** Out of the box the SIEM webhook hears of everything from medium up, Slack of high and
      critical incidents, and only critical ones come with an escalation chain: the critical
      policy, evaluated first, takes the Slack channel from the other. */
  lemma BootstrapRoutes(siem: string, slack: string, inc: Incident, created: int, now: int)
    requires siem != "" && slack != ""
    ensures var d := Route(BootstrapPolicies(BootstrapChannels(Some(siem), Some(slack)), created), inc, now);
            && OfChannel(d.targets, Webhook)
               == (if Rank(inc.severity) >= 3 then [Target(Webhook, siem, Some("raw_json"))] else [])
            && OfChannel(d.targets, Slack)
               == (if Rank(inc.severity) >= 4 then [Target(Slack, slack, Some("incident_card"))] else [])
            && ("rp_bootstrap_slack_critical" in d.matchedPolicyIds <==> inc.severity == Critical)
  {
    hide Route, OfChannel, BootstrapPolicies, Matches, AtLeast;
    var ps := BootstrapPolicies(BootstrapChannels(Some(siem), Some(slack)), created);
    BootstrapList(siem, slack, created);
    MatchesAtLeast(ps[0], inc, now, Medium);
    MatchesAtLeast(ps[1], inc, now, High);
    MatchesAtLeast(ps[2], inc, now, Critical);
    RouteThree(ps[0], ps[1], ps[2], inc, now);
  }

  lemma BootstrapList(siem: string, slack: string, created: int)
    requires siem != "" && slack != ""
    ensures var ps := BootstrapPolicies(BootstrapChannels(Some(siem), Some(slack)), created);
            && |ps| == 3 && ps == [ps[0], ps[1], ps[2]] && ps[2].policyId == "rp_bootstrap_slack_critical"
            && ps[0].policyId != ps[2].policyId && ps[1].policyId != ps[2].policyId
            && ps[2].priority < ps[1].priority < ps[0].priority
            && ps[0].targets == [Target(Webhook, siem, Some("raw_json"))]
            && ps[1].targets == ps[2].targets == [Target(Slack, slack, Some("incident_card"))]
            && ps[0].match_ == AtLeast(Medium) && ps[1].match_ == AtLeast(High) && ps[2].match_ == AtLeast(Critical)
            && ps[0].suppressIfAcknowledgedWithin.None? && ps[1].suppressIfAcknowledgedWithin.None?
            && ps[2].suppressIfAcknowledgedWithin.None?
  {
    assert |"rp_bootstrap_siem"| == 17 && |"rp_bootstrap_slack_high"| == 23 && |"rp_bootstrap_slack_critical"| == 27;
  }

  lemma MatchesAtLeast(p: RoutingPolicy, inc: Incident, now: int, s: Severity)
    requires p.match_ == AtLeast(s) && p.suppressIfAcknowledgedWithin.None?
    ensures Matches(p, inc, now) <==> Rank(inc.severity) >= Rank(s)
  {
  }

  lemma RouteThree(siem: RoutingPolicy, high: RoutingPolicy, critical: RoutingPolicy, inc: Incident, now: int)
    requires critical.priority < high.priority < siem.priority
    requires |siem.targets| == |high.targets| == |critical.targets| == 1
    requires critical.targets[0].channel == high.targets[0].channel == Slack && siem.targets[0].channel == Webhook
    requires siem.policyId != critical.policyId && high.policyId != critical.policyId
    ensures var d := Route([siem, high, critical], inc, now);
            && OfChannel(d.targets, Webhook) == (if Matches(siem, inc, now) then siem.targets else [])
            && OfChannel(d.targets, Slack)
               == (if Matches(critical, inc, now) then critical.targets
                  else if Matches(high, inc, now) then high.targets else [])
            && (critical.policyId in d.matchedPolicyIds <==> Matches(critical, inc, now))
  {
    hide Matches, OfChannel, Ordered, Before, FirstFor, Route;
    var o := [critical, high, siem];
    BootstrapOrdered(siem, high, critical);
    PerChannel([siem, high, critical], inc, now, Webhook);
    PerChannel([siem, high, critical], inc, now, Slack);
    MatchedWon([siem, high, critical], inc, now, critical.policyId);
    FirstOfThree(critical, high, siem, inc, now);
    OneTarget(siem.targets[0], Webhook);
    OneTarget(high.targets[0], Slack);
    OneTarget(critical.targets[0], Slack);
    assert siem.targets == [siem.targets[0]] && high.targets == [high.targets[0]]
           && critical.targets == [critical.targets[0]];
    forall c, p | Wins(o, inc, now, {}, c, p) && p.policyId == critical.policyId ensures Matches(critical, inc, now) {
      FirstMatches(o, inc, now, c);
    }
    if Matches(critical, inc, now) { assert Wins(o, inc, now, {}, Slack, critical); }
  }

  lemma {:induction false} FirstMatches(ps: seq<RoutingPolicy>, inc: Incident, now: int, c: Channel)
    ensures FirstFor(ps, inc, now, c).Some?
            ==> FirstFor(ps, inc, now, c).value in ps && Matches(FirstFor(ps, inc, now, c).value, inc, now)
  {
    hide Matches, OfChannel;
    if ps != [] { FirstMatches(ps[1..], inc, now, c); }
  }

  lemma FirstOfThree(a: RoutingPolicy, b: RoutingPolicy, d: RoutingPolicy, inc: Incident, now: int)
    requires |a.targets| == |b.targets| == |d.targets| == 1
    requires a.targets[0].channel == b.targets[0].channel == Slack && d.targets[0].channel == Webhook
    ensures FirstFor([a, b, d], inc, now, Slack)
         == if Matches(a, inc, now) then Some(a) else if Matches(b, inc, now) then Some(b) else None
    ensures FirstFor([a, b, d], inc, now, Webhook) == if Matches(d, inc, now) then Some(d) else None
  {
    hide Matches;
    assert a.targets == [a.targets[0]] && b.targets == [b.targets[0]] && d.targets == [d.targets[0]];
    OneTarget(a.targets[0], Slack);
    OneTarget(b.targets[0], Slack);
    OneTarget(d.targets[0], Slack);
    OneTarget(a.targets[0], Webhook);
    OneTarget(b.targets[0], Webhook);
    OneTarget(d.targets[0], Webhook);
    hide OfChannel;
    assert [a, b, d][1..] == [b, d] && [b, d][1..] == [d] && [d][1..] == [];
    forall c
      ensures FirstFor([d], inc, now, c)
           == if Matches(d, inc, now) && OfChannel(d.targets, c) != [] then Some(d) else None
    {
      assert FirstFor([], inc, now, c) == None;
    }
    forall c
      ensures FirstFor([b, d], inc, now, c)
           == if Matches(b, inc, now) && OfChannel(b.targets, c) != [] then Some(b) else FirstFor([d], inc, now, c)
    {
    }
  }
}
