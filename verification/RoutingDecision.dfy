/**
 The whole decision of the routing engine, said without sorting or a set of satisfied channels:
 which policies it names, in which order, with which targets, and whose escalation chain.
 */
module RoutingDecision {
  import opened Wrappers
  import opened AlertTypes
  import opened Routing

  /** Policy i is evaluated before policy j: a lower priority number, then an earlier creation, then
      an earlier place in the list. */
  predicate Sooner(ps: seq<RoutingPolicy>, i: nat, j: nat)
    requires i < |ps| && j < |ps|
  {
    || ps[i].priority < ps[j].priority
    || (ps[i].priority == ps[j].priority
        && (ps[i].createdAt < ps[j].createdAt || (ps[i].createdAt == ps[j].createdAt && i < j)))
  }

  // The policy matches and has a target on the channel.
  predicate Serves(p: RoutingPolicy, inc: Incident, now: int, c: Channel) {
    Matches(p, inc, now) && exists t <- p.targets :: t.channel == c
  }

  // Of all policies that serve the channel this one comes first.
  ghost predicate WinsChannel(ps: seq<RoutingPolicy>, inc: Incident, now: int, c: Channel, i: nat)
    requires i < |ps|
  {
    && Serves(ps[i], inc, now, c)
    && forall j: nat :: j < |ps| && j != i && Serves(ps[j], inc, now, c) ==> Sooner(ps, i, j)
  }

  ghost function Won(ps: seq<RoutingPolicy>, inc: Incident, now: int, i: nat): set<Channel>
    requires i < |ps|
  {
    set c: Channel | WinsChannel(ps, inc, now, c, i)
  }

  function Only(ts: seq<Target>, on: set<Channel>): seq<Target> {
    if ts == [] then [] else (if ts[0].channel in on then [ts[0]] else []) + Only(ts[1..], on)
  }

  ghost predicate Positions(at: seq<nat>, ps: seq<RoutingPolicy>) { forall k :: 0 <= k < |at| ==> at[k] < |ps| }

  // What these policies contribute: their targets on the channels they win.
  ghost function Gathered(ps: seq<RoutingPolicy>, inc: Incident, now: int, at: seq<nat>): seq<Target>
    requires Positions(at, ps)
  {
    if at == [] then []
    else Only(ps[at[0]].targets, Won(ps, inc, now, at[0])) + Gathered(ps, inc, now, at[1..])
  }

  // The first escalation chain that one of these policies names.
  ghost predicate FirstChain(ps: seq<RoutingPolicy>, at: seq<nat>, chain: Option<string>)
    requires Positions(at, ps)
  {
    if chain.None? then forall k :: 0 <= k < |at| ==> ps[at[k]].escalationPolicyId.None?
    else exists k :: 0 <= k < |at| && ps[at[k]].escalationPolicyId == chain
                     && forall l :: 0 <= l < k ==> ps[at[l]].escalationPolicyId.None?
  }

  ghost predicate Rising(ps: seq<RoutingPolicy>, at: seq<nat>)
    requires Positions(at, ps)
  {
    forall k, l :: 0 <= k < l < |at| ==> Sooner(ps, at[k], at[l])
  }

  /** The decision that the policies at these positions make. */
  ghost predicate MadeBy(d: Decision, ps: seq<RoutingPolicy>, inc: Incident, now: int, at: seq<nat>) {
    && Positions(at, ps) && |d.matchedPolicyIds| == |at|
    && (forall k :: 0 <= k < |at| ==> d.matchedPolicyIds[k] == ps[at[k]].policyId)
    && d.targets == Gathered(ps, inc, now, at) && FirstChain(ps, at, d.escalationPolicyId) && d.dropped == []
  }

  // ----- The order of evaluation ---------------------------------------------------------------

  ghost predicate Arranges(p: seq<nat>, ps: seq<RoutingPolicy>, sorted: seq<RoutingPolicy>) {
    && |p| == |ps| == |sorted| && Positions(p, ps) && Rising(ps, p)
    && (forall k :: 0 <= k < |p| ==> sorted[k] == ps[p[k]]) && (forall i: nat :: i < |ps| ==> i in p)
  }

  // The sort puts the policy in at place m.
  ghost predicate PlacedAt(s: seq<RoutingPolicy>, p: RoutingPolicy, m: nat) {
    && m <= |s| && Place(s, p) == s[..m] + [p] + s[m..]
    && (forall k :: m <= k < |s| ==> Before(p, s[k])) && (m > 0 ==> !Before(p, s[m - 1]))
  }

  lemma {:induction false} PlaceAt(s: seq<RoutingPolicy>, p: RoutingPolicy) returns (m: nat)
    ensures PlacedAt(s, p, m)
  {
    hide Before;
    if s == [] || !Before(p, s[|s| - 1]) {
      m := |s|;
    } else {
      var n := |s| - 1;
      m := PlaceAt(s[..n], p);
      assert s[..n][..m] == s[..m] && s[..n][m..] + [s[n]] == s[m..];
    }
  }

  // The positions of the sorted policies, the last policy put in at place m.
  ghost predicate PutInAt(ps: seq<RoutingPolicy>, front: seq<nat>, m: nat, p: seq<nat>) {
    && ps != [] && m <= |front| && p == front[..m] + [|ps| - 1] + front[m..]
    && Arranges(front, ps[..|ps| - 1], Ordered(ps[..|ps| - 1])) && PlacedAt(Ordered(ps[..|ps| - 1]), ps[|ps| - 1], m)
  }

  /** The sort puts the policies in the order of evaluation: it is stable. */
  lemma {:induction false} OrderedArranges(ps: seq<RoutingPolicy>) returns (p: seq<nat>)
    ensures Arranges(p, ps, Ordered(ps))
  {
    hide Ordered, Arranges, PlacedAt;
    if ps == [] {
      p := [];
      NothingArranged();
    } else {
      var n := |ps| - 1;
      var front := OrderedArranges(ps[..n]);
      var m := PlaceAt(Ordered(ps[..n]), ps[n]);
      PlaceFits(ps[..n], ps[n], front, m);
      p := front[..m] + [n] + front[m..];
      Inserted(ps, front, m, p);
    }
  }

  lemma NothingArranged()
    ensures Arranges([], [], Ordered([]))
  {
  }

  lemma PlaceFits(ps: seq<RoutingPolicy>, last: RoutingPolicy, front: seq<nat>, m: nat)
    requires Arranges(front, ps, Ordered(ps)) && PlacedAt(Ordered(ps), last, m)
    ensures m <= |front|
  {
    hide Ordered;
  }

  lemma Inserted(ps: seq<RoutingPolicy>, front: seq<nat>, m: nat, p: seq<nat>)
    requires PutInAt(ps, front, m, p)
    ensures Arranges(p, ps, Ordered(ps))
  {
    InsertedPositions(ps, front, m, p);
    InsertedRises(ps, front, m, p);
    InsertedAll(ps, front, m, p);
    hide PutInAt, Sooner, Ordered;
  }

  lemma InsertedPositions(ps: seq<RoutingPolicy>, front: seq<nat>, m: nat, p: seq<nat>)
    requires PutInAt(ps, front, m, p)
    ensures |p| == |ps| == |Ordered(ps)| && Positions(p, ps)
    ensures forall k :: 0 <= k < |p| ==> Ordered(ps)[k] == ps[p[k]]
  {
    hide Sooner, Before, Place;
    assert forall k :: 0 <= k < |front| ==> ps[..|ps| - 1][front[k]] == ps[front[k]];
  }

  lemma InsertedAll(ps: seq<RoutingPolicy>, front: seq<nat>, m: nat, p: seq<nat>)
    requires PutInAt(ps, front, m, p)
    ensures forall i: nat :: i < |ps| ==> i in p
  {
    hide Sooner, Before, Place, Ordered;
    forall i: nat | i < |ps| ensures i in p {
      if i < |ps| - 1 {
        assert i in front;
        var k :| 0 <= k < |front| && front[k] == i;
        assert p[if k < m then k else k + 1] == i;
      } else {
        assert p[m] == i;
      }
    }
  }

  lemma InsertedRises(ps: seq<RoutingPolicy>, front: seq<nat>, m: nat, p: seq<nat>)
    requires PutInAt(ps, front, m, p) && Positions(p, ps)
    ensures Rising(ps, p)
  {
    hide Place, Ordered;
    var (n, sorted) := (|ps| - 1, Ordered(ps[..|ps| - 1]));
    forall k | 0 <= k < n ensures Sooner(ps, front[k], n) <==> k < m {
      assert sorted[k] == ps[..n][front[k]] == ps[front[k]];
      if k < m - 1 { assert Sooner(ps[..n], front[k], front[m - 1]); }
    }
    forall k, l | 0 <= k < l < n ensures Sooner(ps, front[k], front[l]) {
      assert Sooner(ps[..n], front[k], front[l]);
    }
    forall k | m <= k < n ensures Sooner(ps, n, front[k]) {
      assert Before(ps[n], sorted[k]) && sorted[k] == ps[..n][front[k]] == ps[front[k]];
    }
    hide Sooner, Before;
    assert forall k :: 0 <= k < |p| ==> p[k] == if k < m then front[k] else if k == m then n else front[k - 1];
  }

  // ----- The loop over the ordered policies ------------------------------------------------------

  lemma WinsAt(ps: seq<RoutingPolicy>, p: seq<nat>, sorted: seq<RoutingPolicy>, inc: Incident, now: int, k: nat,
               c: Channel)
    requires Arranges(p, ps, sorted) && k < |p|
    ensures WinsChannel(ps, inc, now, c, p[k])
       <==> Serves(sorted[k], inc, now, c) && forall j :: 0 <= j < k ==> !Serves(sorted[j], inc, now, c)
  {
    hide Serves;
    if WinsChannel(ps, inc, now, c, p[k]) {
      forall j | 0 <= j < k ensures !Serves(sorted[j], inc, now, c) {
        assert Sooner(ps, p[j], p[k]);
      }
    }
    if Serves(sorted[k], inc, now, c) && forall j :: 0 <= j < k ==> !Serves(sorted[j], inc, now, c) {
      forall i: nat | i < |ps| && i != p[k] && Serves(ps[i], inc, now, c) ensures Sooner(ps, p[k], i) {
        assert i in p;
        var l :| 0 <= l < |p| && p[l] == i;
        assert sorted[l] == ps[i];
      }
    }
  }

  lemma {:induction false} OnlyUnsatisfied(ts: seq<Target>, done: set<Channel>, on: set<Channel>)
    requires forall t <- ts :: t.channel in on <==> t.channel !in done
    ensures Unsatisfied(ts, done) == Only(ts, on)
  {
    if ts != [] {
      assert ts[0] in ts && forall t <- ts[1..] :: t in ts;
      OnlyUnsatisfied(ts[1..], done, on);
    }
  }

  lemma {:induction false} OnlyNone(ts: seq<Target>, on: set<Channel>)
    ensures Only(ts, on) == [] <==> forall t <- ts :: t.channel !in on
    ensures ChannelsOf(Only(ts, on)) == set t | t in ts && t.channel in on :: t.channel
  {
    if ts != [] {
      OnlyNone(ts[1..], on);
      assert ts == [ts[0]] + ts[1..];
      var rest := Only(ts[1..], on);
      forall c ensures c in ChannelsOf(Only(ts, on)) <==> c in (set t | t in ts && t.channel in on :: t.channel) {
        if ts[0].channel in on { ChannelsOfCons(ts[0], rest, c); } else { assert [] + rest == rest; }
      }
    } else {
      NoChannels();
    }
  }

  // The channels that the first k policies serve.
  ghost function Served(sorted: seq<RoutingPolicy>, inc: Incident, now: int, k: nat): set<Channel>
    requires k <= |sorted|
  {
    set c: Channel | ServedBefore(sorted, inc, now, k, c)
  }

  ghost predicate ServedBefore(sorted: seq<RoutingPolicy>, inc: Incident, now: int, k: nat, c: Channel)
    requires k <= |sorted|
  {
    exists j :: 0 <= j < k && Serves(sorted[j], inc, now, c)
  }

  // One turn: a policy that does not match wins nothing, one that does contributes what it wins.
  lemma Turn(ps: seq<RoutingPolicy>, p: seq<nat>, sorted: seq<RoutingPolicy>, inc: Incident, now: int, k: nat)
    requires Arranges(p, ps, sorted) && k < |p|
    ensures var (done, won) := (Served(sorted, inc, now, k), Won(ps, inc, now, p[k]));
            && (!Matches(sorted[k], inc, now) ==> won == {} && Served(sorted, inc, now, k + 1) == done)
            && (Matches(sorted[k], inc, now) ==>
                  && Unsatisfied(sorted[k].targets, done) == Only(sorted[k].targets, won)
                  && (Only(sorted[k].targets, won) == [] <==> won == {})
                  && Served(sorted, inc, now, k + 1) == done + ChannelsOf(Only(sorted[k].targets, won)))
  {
    hide Matches, Arranges;
    ArrangedAt(p, ps, sorted, k);
    var (done, won) := (Served(sorted, inc, now, k), Won(ps, inc, now, p[k]));
    forall c ensures c in won <==> Serves(sorted[k], inc, now, c) && c !in done {
      WinsAt(ps, p, sorted, inc, now, k, c);
    }
    hide WinsChannel, Won;
    forall c ensures c in Served(sorted, inc, now, k + 1) <==> c in done || Serves(sorted[k], inc, now, c) {
      if c in Served(sorted, inc, now, k + 1) {
        var j :| 0 <= j < k + 1 && Serves(sorted[j], inc, now, c);
      }
    }
    if Matches(sorted[k], inc, now) {
      var ts := sorted[k].targets;
      forall t <- ts ensures t.channel in won <==> t.channel !in done { assert Serves(sorted[k], inc, now, t.channel); }
      OnlyUnsatisfied(ts, done, won);
      OnlyNone(ts, won);
      if c :| c in won { var t :| t in ts && t.channel == c; }
    }
  }

  lemma ArrangedAt(p: seq<nat>, ps: seq<RoutingPolicy>, sorted: seq<RoutingPolicy>, k: nat)
    requires Arranges(p, ps, sorted) && k < |p|
    ensures |p| == |ps| == |sorted| && Positions(p, ps) && sorted[k] == ps[p[k]]
  {
  }

  // Of the policies from the k-th on, those that win a channel.
  ghost predicate WinnersFrom(at: seq<nat>, ps: seq<RoutingPolicy>, p: seq<nat>, inc: Incident, now: int, k: nat)
    requires Positions(p, ps) && k <= |p|
  {
    && Positions(at, ps) && Rising(ps, at)
    && (forall i: nat :: i in at <==> i in p[k..] && Won(ps, inc, now, i) != {})
  }

  lemma {:induction false} RouteFromIs(ps: seq<RoutingPolicy>, p: seq<nat>, sorted: seq<RoutingPolicy>, inc: Incident,
                                       now: int, k: nat) returns (at: seq<nat>)
    requires Arranges(p, ps, sorted) && k <= |p|
    ensures WinnersFrom(at, ps, p, inc, now, k)
    ensures MadeBy(RouteFrom(sorted[k..], inc, now, Served(sorted, inc, now, k)), ps, inc, now, at)
    decreases |p| - k
  {
    hide Matches, Served, Won, Sooner, RouteFrom;
    hide MadeBy;
    RouteStep(sorted, k, inc, now, Served(sorted, inc, now, k));
    if k == |p| {
      at := [];
      NothingMade(ps, inc, now);
    } else {
      Turn(ps, p, sorted, inc, now, k);
      NoChannels();
      var rest := RouteFromIs(ps, p, sorted, inc, now, k + 1);
      assert p[k..] == [p[k]] + p[k + 1..];
      ArrangedAt(p, ps, sorted, k);
      var tail := RouteFrom(sorted[k + 1..], inc, now, Served(sorted, inc, now, k + 1));
      if Won(ps, inc, now, p[k]) == {} {
        at := rest;
        assert Served(sorted, inc, now, k + 1) == Served(sorted, inc, now, k);
      } else {
        at := [p[k]] + rest;
        Ahead(ps, p, sorted, k, rest);
        Joined(tail, ps, inc, now, p[k], rest);
      }
    }
  }

  lemma RouteStep(sorted: seq<RoutingPolicy>, k: nat, inc: Incident, now: int, done: set<Channel>)
    requires k <= |sorted|
    ensures var d := RouteFrom(sorted[k..], inc, now, done);
            if k == |sorted| then d == Decision([], [], None, [])
            else
              var (first, added) := (sorted[k], Unsatisfied(sorted[k].targets, done));
              if !Matches(first, inc, now) || added == [] then d == RouteFrom(sorted[k + 1..], inc, now, done)
              else
                var rest := RouteFrom(sorted[k + 1..], inc, now, done + ChannelsOf(added));
                d == Decision(added + rest.targets, [first.policyId] + rest.matchedPolicyIds,
                              if first.escalationPolicyId.Some? then first.escalationPolicyId
                              else rest.escalationPolicyId, [])
  {
    if k < |sorted| { assert sorted[k..][0] == sorted[k] && sorted[k..][1..] == sorted[k + 1..]; }
    hide Matches, Unsatisfied;
  }

  lemma Ahead(ps: seq<RoutingPolicy>, p: seq<nat>, sorted: seq<RoutingPolicy>, k: nat, rest: seq<nat>)
    requires Arranges(p, ps, sorted) && k < |p| && Positions(rest, ps) && Rising(ps, rest)
    requires forall i <- rest :: i in p[k + 1..]
    ensures Rising(ps, [p[k]] + rest)
  {
    hide Sooner;
    forall l | 0 <= l < |rest| ensures Sooner(ps, p[k], rest[l]) {
      assert rest[l] in rest && rest[l] in p[k + 1..];
      var m :| 0 <= m < |p[k + 1..]| && p[k + 1..][m] == rest[l];
      assert p[k + 1 + m] == rest[l];
    }
  }

  lemma NothingMade(ps: seq<RoutingPolicy>, inc: Incident, now: int)
    ensures MadeBy(Decision([], [], None, []), ps, inc, now, [])
  {
  }

  lemma Joined(d: Decision, ps: seq<RoutingPolicy>, inc: Incident, now: int, i: nat, rest: seq<nat>)
    requires i < |ps| && MadeBy(d, ps, inc, now, rest)
    ensures var p := ps[i];
            MadeBy(Decision(Only(p.targets, Won(ps, inc, now, i)) + d.targets, [p.policyId] + d.matchedPolicyIds,
                            if p.escalationPolicyId.Some? then p.escalationPolicyId else d.escalationPolicyId, []),
                   ps, inc, now, [i] + rest)
  {
    hide Won;
    var at := [i] + rest;
    assert at[1..] == rest && forall k :: 0 < k < |at| ==> at[k] == rest[k - 1];
    if ps[i].escalationPolicyId.Some? {
      assert ps[at[0]].escalationPolicyId == ps[i].escalationPolicyId;
    } else if d.escalationPolicyId.Some? {
      var k :| 0 <= k < |rest| && ps[rest[k]].escalationPolicyId == d.escalationPolicyId
               && forall l :: 0 <= l < k ==> ps[rest[l]].escalationPolicyId.None?;
      assert ps[at[k + 1]].escalationPolicyId == d.escalationPolicyId;
    }
  }

  /** The decision, in full: it names the policies that win a channel, in the order of evaluation; each
      contributes its targets on the channels it wins, in their order; and the escalation chain is the
      first that one of them names. */
  lemma RouteDecides(ps: seq<RoutingPolicy>, inc: Incident, now: int) returns (at: seq<nat>)
    ensures Positions(at, ps) && Rising(ps, at)
    ensures forall i: nat :: i < |ps| ==> (i in at <==> exists c :: WinsChannel(ps, inc, now, c, i))
    ensures MadeBy(Route(ps, inc, now), ps, inc, now, at)
  {
    var p := OrderedArranges(ps);
    hide Arranges, MadeBy, Rising, WinsChannel;
    assert Served(Ordered(ps), inc, now, 0) == {};
    assert Ordered(ps)[0..] == Ordered(ps);
    at := RouteFromIs(ps, p, Ordered(ps), inc, now, 0);
    AllArranged(p, ps, Ordered(ps));
    assert p[0..] == p;
    forall i: nat | i < |ps| ensures i in at <==> exists c :: WinsChannel(ps, inc, now, c, i) {
      assert i in p;
      assert i in at <==> Won(ps, inc, now, i) != {};
      if Won(ps, inc, now, i) != {} { var c :| c in Won(ps, inc, now, i); }
      if c :| WinsChannel(ps, inc, now, c, i) { assert c in Won(ps, inc, now, i); }
    }
  }

  lemma AllArranged(p: seq<nat>, ps: seq<RoutingPolicy>, sorted: seq<RoutingPolicy>)
    requires Arranges(p, ps, sorted)
    ensures |p| == |ps| == |sorted| && Positions(p, ps) && forall i: nat :: i < |ps| ==> i in p
  {
  }
}
