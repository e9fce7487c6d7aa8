/**
 The authorization gate for batch scans: mode, token, scope allowlist and, per scope, a rate
 cap that each request may tighten but none can lift above the compiled-in ceiling.

 Verifying the token is injected in the source; its outcome is an input here.
 */
module ScanGate {
  import opened Wrappers
  import opened Buckets

  const DEFAULT_RATE_CAP_PER_MIN := 600.0
  const HARD_CEILING_PER_MIN := 5000.0
  const MINUTE := 60000.0

  datatype Mode = NodeBatch | BrowserExtension | BrowserEmbed

  datatype Claims = Claims(maxRps: Option<real>)

  datatype ScanRequest = ScanRequest(scopeToken: string, scopeId: string, inputs: nat, rateCapPerMin: Option<real>)

  datatype RejectReason = UnsupportedInMode | RoeInvalid | ScopeDenied | RateCapped

  datatype Decision = Accepted(cap: real) | Rejected(reason: RejectReason)

  // The caps that apply to a request, beside the ceiling.
  function Applicable(defaultCap: Option<real>, req: ScanRequest, claims: Claims): seq<real> {
    [if defaultCap.Some? then defaultCap.value else DEFAULT_RATE_CAP_PER_MIN]
    + (if req.rateCapPerMin.Some? && req.rateCapPerMin.value > 0.0 then [req.rateCapPerMin.value] else [])
    + (if claims.maxRps.Some? && claims.maxRps.value >= 0.0 then [claims.maxRps.value * 60.0] else [])
  }

  // The smallest of the caps and the ceiling.
  function Tightest(caps: seq<real>): (cap: real)
    ensures cap <= HARD_CEILING_PER_MIN && forall c <- caps :: cap <= c
    ensures cap == HARD_CEILING_PER_MIN || cap in caps
  {
    if caps == [] then HARD_CEILING_PER_MIN
    else
      assert caps == [caps[0]] + caps[1..];
      Min(caps[0], Tightest(caps[1..]))
  }

  method EffectiveCap(defaultCap: Option<real>, req: ScanRequest, claims: Claims) returns (cap: real)
    ensures cap == Tightest(Applicable(defaultCap, req, claims))
    ensures cap <= 5000.0 && cap <= (if defaultCap.Some? then defaultCap.value else 600.0)
    ensures req.rateCapPerMin.Some? && req.rateCapPerMin.value > 0.0 ==> cap <= req.rateCapPerMin.value
    ensures claims.maxRps.Some? && claims.maxRps.value >= 0.0 ==> cap <= claims.maxRps.value * 60.0
    ensures || cap == 5000.0 || cap == (if defaultCap.Some? then defaultCap.value else 600.0)
            || (req.rateCapPerMin == Some(cap) && cap > 0.0)
            || (claims.maxRps.Some? && claims.maxRps.value >= 0.0 && cap == claims.maxRps.value * 60.0)
  {
    cap := if defaultCap.Some? then defaultCap.value else DEFAULT_RATE_CAP_PER_MIN;
    if req.rateCapPerMin.Some? && req.rateCapPerMin.value > 0.0 {
      cap := Min(cap, req.rateCapPerMin.value);
    }
    if claims.maxRps.Some? && claims.maxRps.value >= 0.0 {
      cap := Min(cap, claims.maxRps.value * 60.0);
    }
    cap := Min(cap, HARD_CEILING_PER_MIN);
    ghost var caps := Applicable(defaultCap, req, claims);
    assert forall c <- caps :: cap <= c;
    assert cap == HARD_CEILING_PER_MIN || cap in caps by {
      assert caps[0] in caps && (|caps| > 1 ==> caps[1] in caps) && (|caps| > 2 ==> caps[2] in caps);
    }
  }

  // One spending of a scope's bucket, which a first request creates full.
  function Spend(buckets: map<string, Bucket>, scope: string, items: nat, cap: real, now: real)
    : (map<string, Bucket>, bool)
  {
    var b := if scope in buckets then buckets[scope] else Bucket(cap, now);
    var (b', ok) := Take(b, cap, cap / MINUTE, now, items as real);
    (buckets[scope := b'], ok)
  }

  lemma PerMinute(ms: real, cap: real)
    ensures (ms / MINUTE) * cap == ms * (cap / MINUTE)
  {
  }

  class ScanRequestGate {
    const mode: Mode
    const scopeAllowlist: seq<string>
    const defaultCap: Option<real>
    var buckets: map<string, Bucket>

    constructor (mode: Mode, scopeAllowlist: seq<string>, defaultCap: Option<real>)
      ensures this.mode == mode && this.scopeAllowlist == scopeAllowlist && this.defaultCap == defaultCap
      ensures buckets == map[]
    {
      this.mode, this.scopeAllowlist, this.defaultCap := mode, scopeAllowlist, defaultCap;
      buckets := map[];
    }

    method Consume(scope: string, items: nat, cap: real, now: real) returns (ok: bool)
      modifies this
      ensures (buckets, ok) == Spend(old(buckets), scope, items, cap, now)
    {
      var tokens, last := cap, now;
      if scope in buckets { tokens, last := buckets[scope].tokens, buckets[scope].last; }
      var elapsedMin := (now - last) / MINUTE;
      if elapsedMin > 0.0 {
        PerMinute(now - last, cap);
        tokens := Min(cap, tokens + elapsedMin * cap);
        last := now;
      }
      ok := !(tokens < items as real);
      if ok { tokens := tokens - items as real; }
      buckets := buckets[scope := Bucket(tokens, last)];
    }

    // `verified` is what the injected verifier makes of the token.
    method Evaluate(req: ScanRequest, verified: Option<Claims>, now: real) returns (d: Decision)
      modifies this
      ensures d.Accepted? ==>
        && mode == NodeBatch && req.scopeToken != "" && verified.Some? && req.scopeId in scopeAllowlist
        && d.cap == Tightest(Applicable(defaultCap, req, verified.value))
        && (buckets, true) == Spend(old(buckets), req.scopeId, if req.inputs > 1 then req.inputs else 1, d.cap, now)
      ensures d.Rejected? ==>
        match d.reason
        case UnsupportedInMode => mode != NodeBatch && buckets == old(buckets)
        case RoeInvalid => mode == NodeBatch && (req.scopeToken == "" || verified.None?) && buckets == old(buckets)
        case ScopeDenied => mode == NodeBatch && verified.Some? && req.scopeId !in scopeAllowlist
          && buckets == old(buckets)
        case RateCapped =>
          mode == NodeBatch && verified.Some? && req.scopeId in scopeAllowlist
          && (buckets, false) == Spend(old(buckets), req.scopeId, if req.inputs > 1 then req.inputs else 1,
                                       Tightest(Applicable(defaultCap, req, verified.value)), now)
    {
      if mode != NodeBatch { return Rejected(UnsupportedInMode); }
      if req.scopeToken == "" { return Rejected(RoeInvalid); }
      if verified.None? { return Rejected(RoeInvalid); }
      if req.scopeId !in scopeAllowlist { return Rejected(ScopeDenied); }
      var cap := EffectiveCap(defaultCap, req, verified.value);
      var items := if req.inputs > 1 then req.inputs else 1;
      var ok := Consume(req.scopeId, items, cap, now);
      return if ok then Accepted(cap) else Rejected(RateCapped);
    }
  }

  // ---------------------------------------------------------------- runs of the gate

  // A request that reached the rate cap, with the cap that applied to it.
  datatype Arrival = Arrival(now: real, scope: string, items: nat, cap: real)

  function Arrive(m: map<string, Bucket>, a: Arrival): (map<string, Bucket>, bool) {
    Spend(m, a.scope, a.items, a.cap, a.now)
  }

  function GateRun(m: map<string, Bucket>, arrivals: seq<Arrival>): map<string, Bucket>
    decreases |arrivals|
  {
    if arrivals == [] then m else GateRun(Arrive(m, arrivals[0]).0, arrivals[1..])
  }

  // The items a run lets through for one scope.
  function Scanned(m: map<string, Bucket>, arrivals: seq<Arrival>, scope: string): real
    decreases |arrivals|
  {
    if arrivals == [] then 0.0
    else
      var a := arrivals[0];
      (if a.scope == scope && Arrive(m, a).1 then a.items as real else 0.0)
        + Scanned(Arrive(m, a).0, arrivals[1..], scope)
  }

  // The requests one scope's bucket sees.
  function Of(arrivals: seq<Arrival>, scope: string): seq<Request> {
    if arrivals == [] then []
    else
      var a := arrivals[0];
      (if a.scope == scope then [Request(a.now, a.items as real, a.cap, a.cap / MINUTE)] else [])
        + Of(arrivals[1..], scope)
  }

  // The bucket of a scope before these requests reach it.
  function BucketOf(m: map<string, Bucket>, scope: string, qs: seq<Request>): Bucket {
    if scope in m then m[scope] else if qs != [] then Bucket(qs[0].capacity, qs[0].now) else Bucket(0.0, 0.0)
  }

  // Scopes do not disturb each other: a scope's share of a run is a run of its own bucket.
  lemma {:induction false} ScopeAlone(m: map<string, Bucket>, arrivals: seq<Arrival>, scope: string)
    ensures Scanned(m, arrivals, scope) == Granted(BucketOf(m, scope, Of(arrivals, scope)), Of(arrivals, scope))
    ensures scope in m || Of(arrivals, scope) != [] ==>
      scope in GateRun(m, arrivals)
      && GateRun(m, arrivals)[scope] == Run(BucketOf(m, scope, Of(arrivals, scope)), Of(arrivals, scope))
    ensures scope !in m && Of(arrivals, scope) == [] ==> scope !in GateRun(m, arrivals)
    decreases |arrivals|
  {
    if arrivals != [] {
      var a := arrivals[0];
      var m' := Arrive(m, a).0;
      ScopeAlone(m', arrivals[1..], scope);
      if a.scope == scope {
        var qs := Of(arrivals, scope);
        assert qs[1..] == Of(arrivals[1..], scope);
        var q := Request(a.now, a.items as real, a.cap, a.cap / MINUTE);
        assert qs == [q] + qs[1..];
        assert Serve(BucketOf(m, scope, qs), q) == (m'[scope], Arrive(m, a).1);
        assert BucketOf(m', scope, qs[1..]) == m'[scope];
      } else {
        assert Of(arrivals, scope) == Of(arrivals[1..], scope);
        assert BucketOf(m', scope, Of(arrivals, scope)) == BucketOf(m, scope, Of(arrivals, scope));
      }
    }
  }

  ghost predicate Ticking(arrivals: seq<Arrival>, t: real) {
    arrivals == [] || (arrivals[0].now >= t && Ticking(arrivals[1..], arrivals[0].now))
  }

  function End(arrivals: seq<Arrival>, t: real): real {
    if arrivals == [] then t else End(arrivals[1..], arrivals[0].now)
  }

  lemma {:induction false} OfForward(arrivals: seq<Arrival>, scope: string, t: real, t': real)
    requires Ticking(arrivals, t') && t <= t'
    ensures var qs := Of(arrivals, scope);
            Forward(qs, t) && LastTime(qs, t) <= End(arrivals, t') && (qs != [] ==> qs[0].now >= t')
            && End(arrivals, t') >= t'
  {
    if arrivals != [] {
      var a := arrivals[0];
      if a.scope == scope {
        OfForward(arrivals[1..], scope, a.now, a.now);
        assert Of(arrivals, scope)[1..] == Of(arrivals[1..], scope);
      } else {
        OfForward(arrivals[1..], scope, t, a.now);
        assert Of(arrivals, scope) == Of(arrivals[1..], scope);
      }
    }
  }

  lemma {:induction false} OfWithin(arrivals: seq<Arrival>, scope: string)
    requires forall a <- arrivals :: a.cap <= HARD_CEILING_PER_MIN
    ensures Within(Of(arrivals, scope), HARD_CEILING_PER_MIN, HARD_CEILING_PER_MIN / MINUTE)
  {
    if arrivals != [] {
      assert arrivals[0] in arrivals && forall a <- arrivals[1..] :: a in arrivals;
      OfWithin(arrivals[1..], scope);
    }
  }

  lemma OfCons(a: Arrival, rest: seq<Arrival>, scope: string)
    ensures Of([a] + rest, scope)
         == (if a.scope == scope then [Request(a.now, a.items as real, a.cap, a.cap / MINUTE)] else [])
            + Of(rest, scope)
  {
    assert ([a] + rest)[1..] == rest;
  }

  lemma {:induction false} OfConcat(a: seq<Arrival>, b: seq<Arrival>, scope: string)
    ensures Of(a + b, scope) == Of(a, scope) + Of(b, scope)
  {
    if a == [] {
      assert a + b == b;
    } else {
      assert (a + b)[0] == a[0] && (a + b)[1..] == a[1..] + b;
      OfConcat(a[1..], b, scope);
      OfCons(a[0], a[1..], scope);
      OfCons(a[0], a[1..] + b, scope);
      assert a == [a[0]] + a[1..] && a + b == [a[0]] + (a[1..] + b);
      hide Of;
    }
  }

  // A bucket that had not been created yet may start at any earlier time.
  lemma LateStart(qs: seq<Request>, t: real)
    requires qs != [] && Forward(qs, t)
    ensures Forward(qs, qs[0].now)
  {
  }

  lemma {:induction false} LastTimeStart(qs: seq<Request>, t: real, u: real)
    requires qs != []
    ensures LastTime(qs, t) == LastTime(qs, u)
  {
  }

  /** In every window of every run of the gate, whatever mix of per-request caps arrives, the
      items let through for a scope come to at most 5000 plus 5000 for each minute. */
  lemma ScansInWindow(before: seq<Arrival>, window: seq<Arrival>, scope: string, t: real)
    requires Ticking(before + window, t) && window != []
    requires forall a <- before + window :: a.cap <= 5000.0
    ensures Scanned(GateRun(map[], before), window, scope)
         <= 5000.0 + (End(window, 0.0) - window[0].now) / 60000.0 * 5000.0
  {
    hide Run, Granted, Scanned, GateRun, Of, Forward, Within, Ticking, LastTime, End, BucketOf, Earned;
    var m, qw := GateRun(map[], before), Of(window, scope);
    ScopeAlone(m, window, scope);
    TickingSplit(before, window, t);
    OfForward(window, scope, window[0].now, window[0].now);
    EndStart(window, 0.0, window[0].now);
    if qw == [] {
      GrantedNothing(BucketOf(m, scope, qw));
      EarnedWithin(window[0].now, window[0].now, window[0].now, End(window, 0.0));
    } else {
      ScopeWindow(before, window, scope, t);
      LastTimeStart(qw, 0.0, window[0].now);
      EarnedWithin(window[0].now, qw[0].now, LastTime(qw, 0.0), End(window, 0.0));
    }
  }

  // The bucket of a scope that the window asks something of.
  lemma ScopeWindow(before: seq<Arrival>, window: seq<Arrival>, scope: string, t: real)
    requires Ticking(before + window, t) && Of(window, scope) != []
    requires forall a <- before + window :: a.cap <= HARD_CEILING_PER_MIN
    ensures var qw := Of(window, scope);
            Granted(BucketOf(GateRun(map[], before), scope, qw), qw)
            <= HARD_CEILING_PER_MIN + Earned(HARD_CEILING_PER_MIN / MINUTE, qw[0].now, LastTime(qw, 0.0))
  {
    hide Run, Granted, GateRun, Of, Ticking, LastTime, Earned;
    var m, qb, qw := GateRun(map[], before), Of(before, scope), Of(window, scope);
    ScopeAlone(map[], before, scope);
    OfConcat(before, window, scope);
    OfWithin(before + window, scope);
    OfForward(before + window, scope, t, t);
    var qs := qb + qw;
    assert qs[0] in qs;
    LateStart(qs, t);
    var start := Bucket(qs[0].capacity, qs[0].now);
    assert BucketOf(map[], scope, qs) == start;
    if qb != [] {
      assert qb[0] == qs[0] && m[scope] == Run(start, qb);
    } else {
      RunNothing(start);
      assert qs == qw && BucketOf(m, scope, qw) == start;
    }
    hide Within, Forward;
    WindowBound(start, qb, qw, HARD_CEILING_PER_MIN, HARD_CEILING_PER_MIN / MINUTE);
  }

  lemma {:induction false} OfUniform(arrivals: seq<Arrival>, scope: string, cap: real)
    requires forall a <- arrivals :: a.scope == scope ==> a.cap == cap
    ensures Uniform(Of(arrivals, scope), cap, cap / 60000.0)
  {
    if arrivals != [] {
      assert arrivals[0] in arrivals && forall a <- arrivals[1..] :: a in arrivals;
      OfUniform(arrivals[1..], scope, cap);
    }
  }

  /** The gate holds nothing back that the cap allows: while a scope's cap stays the same, a request
      passes if and only if, in every window of the scope's run that ends with it, its items and those
      let through before come to no more than the cap plus the cap for each minute. */
  lemma PassesIffEveryWindowAllows(before: seq<Arrival>, a: Arrival, t: real)
    requires Ticking(before + [a], t) && a.cap >= 0.0
    requires forall b <- before :: b.scope == a.scope ==> b.cap == a.cap
    ensures var qs := Of(before, a.scope);
            var q := Request(a.now, a.items as real, a.cap, a.cap / 60000.0);
            Arrive(GateRun(map[], before), a).1
            <==> EveryWindowAllows(a.cap, a.cap / 60000.0, TimeOf(qs, 0, a.now), qs, q)
  {
    hide Run, Granted, GateRun, Of, Ticking, EveryWindowAllows, Uniform;
    var (m, qs) := (GateRun(map[], before), Of(before, a.scope));
    var q := Request(a.now, a.items as real, a.cap, a.cap / 60000.0);
    OnlyArrival(a);
    OfConcat(before, [a], a.scope);
    OfUniform(before + [a], a.scope, a.cap);
    OfForward(before + [a], a.scope, t, t);
    ScopeAlone(map[], before, a.scope);
    assert (qs + [q])[0] == if qs == [] then q else qs[0];
    LateStart(qs + [q], t);
    var start := TimeOf(qs, 0, a.now);
    if qs == [] {
      RunNothing(Bucket(a.cap, a.now));
    } else {
      FirstCap(qs, q, a.cap);
    }
    hide Forward, LastTime, End;
    assert Arrive(m, a).1 == Serve(Run(Bucket(a.cap, start), qs), q).1;
    GrantedIffEveryWindowAllows(a.cap, a.cap / 60000.0, start, qs, q);
  }

  lemma OnlyArrival(a: Arrival)
    ensures Of([a], a.scope) == [Request(a.now, a.items as real, a.cap, a.cap / 60000.0)]
  {
    assert [a][1..] == [];
  }

  lemma FirstCap(qs: seq<Request>, q: Request, cap: real)
    requires qs != [] && Uniform(qs + [q], cap, cap / 60000.0)
    ensures qs[0].capacity == cap
  {
    assert (qs + [q])[0] in qs + [q];
  }

  // What is earned between two times within a window, in minutes of the window.
  lemma EarnedWithin(from: real, x: real, y: real, to: real)
    requires from <= x && y <= to
    ensures Earned(HARD_CEILING_PER_MIN / MINUTE, x, y) <= (to - from) / MINUTE * HARD_CEILING_PER_MIN
  {
  }

  lemma EndStart(arrivals: seq<Arrival>, t: real, u: real)
    requires arrivals != []
    ensures End(arrivals, t) == End(arrivals, u)
  {
  }

  lemma {:induction false} TickingSplit(a: seq<Arrival>, b: seq<Arrival>, t: real)
    requires Ticking(a + b, t) && b != []
    ensures Ticking(b, b[0].now)
  {
    if a == [] {
      assert a + b == b;
    } else {
      assert (a + b)[1..] == a[1..] + b;
      TickingSplit(a[1..], b, a[0].now);
    }
  }

  /** Within one millisecond a tighter cap is not applied: tokens left over from a wider cap
      are spent regardless (compare Buckets.CapacityHoldsIfTimePassed). */
  lemma TighterCapIgnored()
    ensures var m := Spend(map[], "s", 1, 600.0, 0.0).0;
            Spend(m, "s", 500, 1.0, 0.0).1
  {
  }
}
