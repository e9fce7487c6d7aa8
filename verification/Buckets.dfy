/**
 Token buckets. Three limiters of the platform refill and spend in the same way; what they
 promise over whole runs is stated and proved here once, for requests that may each bring
 their own capacity and rate.

 Times are in milliseconds and rates per millisecond, as exact reals.
 */
module Buckets {

  datatype Bucket = Bucket(tokens: real, last: real)

  function Min(a: real, b: real): real { if a <= b then a else b }

  function Max(a: real, b: real): real { if a >= b then a else b }

  // Continuous refill, only when the clock has advanced.
  function Refill(b: Bucket, capacity: real, rate: real, now: real): Bucket {
    if now > b.last then Bucket(Min(capacity, b.tokens + (now - b.last) * rate), now) else b
  }

  // Refill, then spend n if there are n.
  function Take(b: Bucket, capacity: real, rate: real, now: real, n: real): (Bucket, bool) {
    var r := Refill(b, capacity, rate, now);
    if r.tokens >= n then (r.(tokens := r.tokens - n), true) else (r, false)
  }

  datatype Request = Request(now: real, n: real, capacity: real, rate: real)

  function Serve(b: Bucket, q: Request): (Bucket, bool) { Take(b, q.capacity, q.rate, q.now, q.n) }

  function Run(b: Bucket, qs: seq<Request>): Bucket
    decreases |qs|
  {
    if qs == [] then b else Run(Serve(b, qs[0]).0, qs[1..])
  }

  // What a run grants in all.
  function Granted(b: Bucket, qs: seq<Request>): real
    decreases |qs|
  {
    if qs == [] then 0.0
    else (if Serve(b, qs[0]).1 then qs[0].n else 0.0) + Granted(Serve(b, qs[0]).0, qs[1..])
  }

  // Capacities and rates within c and r, nothing negative asked for.
  ghost predicate Within(qs: seq<Request>, c: real, r: real) {
    forall q <- qs :: q.capacity <= c && q.rate <= r && q.n >= 0.0
  }

  // The clock does not go back, and starts no earlier than t.
  ghost predicate Forward(qs: seq<Request>, t: real) {
    qs == [] || (qs[0].now >= t && Forward(qs[1..], qs[0].now))
  }

  function LastTime(qs: seq<Request>, t: real): real { if qs == [] then t else LastTime(qs[1..], qs[0].now) }

  lemma MulLess(a: real, x: real, y: real)
    requires a >= 0.0 && x <= y
    ensures a * x <= a * y
  {
  }

  // What rate r brings in between two times.
  function Earned(r: real, from: real, to: real): real { (to - from) * r }

  lemma EarnedAdds(r: real, x: real, y: real, z: real)
    ensures Earned(r, x, y) + Earned(r, y, z) == Earned(r, x, z) && Earned(r, x, x) == 0.0
  {
  }

  // Refilling brings in no more than rate r earns in the time that passed.
  lemma RefillPays(b: Bucket, capacity: real, rate: real, now: real, c: real, r: real)
    requires b.tokens <= c && capacity <= c && rate <= r && now >= b.last && r >= 0.0
    ensures var b' := Refill(b, capacity, rate, now);
            && b'.last == now && b'.tokens <= c
            && b'.tokens <= b.tokens + Earned(r, b.last, now) && Earned(r, b.last, now) >= 0.0
  {
    MulLess(now - b.last, rate, r);
    MulLess(now - b.last, 0.0, r);
  }

  // One request: what it grants is paid from the tokens and the time that passed.
  lemma ServePays(b: Bucket, q: Request, c: real, r: real)
    requires b.tokens <= c && q.capacity <= c && q.rate <= r && q.n >= 0.0 && q.now >= b.last && r >= 0.0
    ensures var (b', ok) := Serve(b, q);
            && b'.last == q.now && b'.tokens <= c
            && (if ok then q.n else 0.0) + Max(b'.tokens, 0.0) <= Max(b.tokens, 0.0) + Earned(r, b.last, q.now)
  {
    hide Refill, Earned;
    RefillPays(b, q.capacity, q.rate, q.now, c, r);
  }

  lemma {:induction false} RunPays(b: Bucket, qs: seq<Request>, c: real, r: real)
    requires b.tokens <= c && Within(qs, c, r) && Forward(qs, b.last) && r >= 0.0
    ensures Run(b, qs).tokens <= c && Run(b, qs).last == LastTime(qs, b.last) >= b.last
    ensures Granted(b, qs) <= Max(b.tokens, 0.0) + Earned(r, b.last, LastTime(qs, b.last))
    decreases |qs|
  {
    hide Serve, Earned;
    EarnedAdds(r, b.last, b.last, b.last);
    if qs != [] {
      assert qs[0] in qs && forall q <- qs[1..] :: q in qs;
      ServePays(b, qs[0], c, r);
      RunPays(Serve(b, qs[0]).0, qs[1..], c, r);
      EarnedAdds(r, b.last, qs[0].now, LastTime(qs, b.last));
    }
  }

  lemma {:induction false} RunKeepsCap(b: Bucket, qs: seq<Request>, c: real, r: real)
    requires b.tokens <= c && Within(qs, c, r)
    ensures Run(b, qs).tokens <= c
    decreases |qs|
  {
    if qs != [] {
      assert qs[0] in qs && forall q <- qs[1..] :: q in qs;
      RunKeepsCap(Serve(b, qs[0]).0, qs[1..], c, r);
    }
  }

  // Serving a request right after the refill it causes anyway comes to the same.
  lemma RefillFirst(b: Bucket, q: Request, rest: seq<Request>)
    requires q.now >= b.last
    ensures var f := Refill(b, q.capacity, q.rate, q.now);
            Granted(b, [q] + rest) == Granted(f, [q] + rest) && f.last == q.now
  {
    assert ([q] + rest)[1..] == rest;
  }

  /** In every window of every run the grants come to at most c + r * (length of the window),
      whatever capacities up to c and rates up to r the requests bring. */
  lemma WindowBound(b: Bucket, before: seq<Request>, window: seq<Request>, c: real, r: real)
    requires 0.0 <= c && 0.0 <= r && b.tokens <= c && window != []
    requires Within(before + window, c, r) && Forward(before + window, b.last)
    ensures Granted(Run(b, before), window) <= c + Earned(r, window[0].now, LastTime(window, 0.0))
  {
    assert Within(before, c, r) && Within(window, c, r) by {
      assert forall q <- before :: q in before + window;
      assert forall q <- window :: q in before + window;
    }
    hide Run, Granted, Earned, Serve;
    ForwardSplit(before, window, b.last);
    RunPays(b, before, c, r);
    var m := Run(b, before);
    var f := Refill(m, window[0].capacity, window[0].rate, window[0].now);
    assert window == [window[0]] + window[1..];
    RefillFirst(m, window[0], window[1..]);
    assert f.tokens <= c;
    RunPays(f, window, c, r);
  }

  lemma {:induction false} ForwardSplit(a: seq<Request>, b: seq<Request>, t: real)
    requires Forward(a + b, t)
    ensures Forward(a, t) && Forward(b, LastTime(a, t))
  {
    if a == [] {
      assert a + b == b;
    } else {
      assert (a + b)[1..] == a[1..] + b;
      ForwardSplit(a[1..], b, a[0].now);
    }
  }

  // ----- No stricter than it has to be -------------------------------------------------------

  // All requests bring this capacity and rate.
  ghost predicate Uniform(qs: seq<Request>, c: real, r: real) {
    forall q <- qs :: q.capacity == c && q.rate == r && q.n >= 0.0
  }

  // When the window that begins with request k does, or the next request.
  function TimeOf(qs: seq<Request>, k: nat, now: real): real { if k < |qs| then qs[k].now else now }

  // What the window from request k up to now leaves of c + r * (its length).
  function Slack(b: Bucket, qs: seq<Request>, k: nat, c: real, r: real, now: real): real
    requires k <= |qs|
  {
    c + Earned(r, TimeOf(qs, k, now), now) - Granted(Run(b, qs[..k]), qs[k..])
  }

  // The tokens at hand for a request at this time.
  function AtHand(b: Bucket, qs: seq<Request>, c: real, r: real, now: real): real {
    Refill(Run(b, qs), c, r, now).tokens
  }

  lemma RefillCases(b: Bucket, c: real, r: real, now: real)
    requires b.tokens <= c && now >= b.last && r >= 0.0
    ensures var f := Refill(b, c, r, now);
            && f.last == now && f.tokens <= c && f.tokens >= b.tokens
            && (f.tokens == c || f.tokens == b.tokens + Earned(r, b.last, now))
            && f.tokens <= b.tokens + Earned(r, b.last, now)
  {
    MulLess(now - b.last, 0.0, r);
    assert (now - b.last) * r >= 0.0;
  }

  lemma ServeCases(b: Bucket, q: Request, c: real, r: real)
    requires b.tokens <= c && q.capacity == c && q.rate == r && q.n >= 0.0 && q.now >= b.last && r >= 0.0
             && b.tokens >= 0.0
    ensures var ((b', ok), f) := (Serve(b, q), Refill(b, c, r, q.now));
            && b'.last == q.now && 0.0 <= b'.tokens <= c && (ok <==> f.tokens >= q.n)
            && b'.tokens == f.tokens - (if ok then q.n else 0.0)
  {
    RefillCases(b, c, r, q.now);
  }

  lemma Split(b: Bucket, qs: seq<Request>, k: nat)
    requires qs != [] && 0 < k <= |qs|
    ensures Run(b, qs[..k]) == Run(Serve(b, qs[0]).0, qs[1..][..k - 1]) && qs[k..] == qs[1..][k - 1..]
  {
    hide Serve;
    assert qs[..k][0] == qs[0] && qs[..k][1..] == qs[1..][..k - 1];
  }

  lemma WholeRun(b: Bucket, qs: seq<Request>)
    ensures Run(b, qs[..0]) == b && qs[0..] == qs
  {
    assert qs[..0] == [];
  }

  // Tokens and grants from some request on never come to more than the window allows, ...
  lemma {:induction false} NeverMore(b: Bucket, qs: seq<Request>, c: real, r: real, now: real)
    requires 0.0 <= b.tokens <= c && Uniform(qs, c, r) && r >= 0.0 && Forward(qs, b.last)
    requires now >= LastTime(qs, b.last)
    ensures 0.0 <= Run(b, qs).tokens <= c && Run(b, qs).last == LastTime(qs, b.last)
    ensures Granted(b, qs) + AtHand(b, qs, c, r, now) <= b.tokens + Earned(r, b.last, now)
    decreases |qs|
  {
    hide Serve, Refill, Earned;
    if qs == [] {
      RefillCases(b, c, r, now);
    } else {
      assert qs[0] in qs && forall q <- qs[1..] :: q in qs;
      ServeCases(b, qs[0], c, r);
      RefillCases(b, c, r, qs[0].now);
      NeverMore(Serve(b, qs[0]).0, qs[1..], c, r, now);
      EarnedAdds(r, b.last, qs[0].now, now);
    }
  }

  // ... and from the last time the bucket was full on they come to exactly that.
  lemma {:induction false} SinceFull(b: Bucket, qs: seq<Request>, c: real, r: real, now: real) returns (k: int)
    requires 0.0 <= b.tokens <= c && Uniform(qs, c, r) && r >= 0.0 && Forward(qs, b.last)
    requires now >= LastTime(qs, b.last)
    ensures -1 <= k <= |qs|
    ensures k < 0 ==> AtHand(b, qs, c, r, now) == b.tokens + Earned(r, b.last, now) - Granted(b, qs)
    ensures k >= 0 ==> AtHand(b, qs, c, r, now) == Slack(b, qs, k, c, r, now)
    decreases |qs|
  {
    hide Serve, Refill, Earned;
    WholeRun(b, qs);
    EarnedAdds(r, now, now, now);
    if qs == [] {
      RefillCases(b, c, r, now);
      k := if Refill(b, c, r, now).tokens == c then 0 else -1;
    } else {
      var (q, rest, b') := (qs[0], qs[1..], Serve(b, qs[0]).0);
      assert q in qs && forall x <- rest :: x in qs;
      ServeCases(b, q, c, r);
      RefillCases(b, c, r, q.now);
      k := SinceFull(b', rest, c, r, now);
      EarnedAdds(r, b.last, q.now, now);
      if k >= 0 {
        Split(b, qs, k + 1);
        k := k + 1;
      } else if Refill(b, c, r, q.now).tokens == c {
        k := 0;
      }
    }
  }

  lemma {:induction false} ForwardAt(qs: seq<Request>, k: nat, t: real)
    requires Forward(qs, t) && k <= |qs|
    ensures Forward(qs[..k], t) && Forward(qs[k..], LastTime(qs[..k], t))
    ensures LastTime(qs[k..], LastTime(qs[..k], t)) == LastTime(qs, t) >= t
    ensures k < |qs| ==> LastTime(qs[..k], t) <= qs[k].now && LastTime(qs[k..], qs[k].now) == LastTime(qs, t)
                         && Forward(qs[k..], qs[k].now)
    decreases |qs|
  {
    if k == 0 {
      assert qs[..0] == [] && qs[0..] == qs;
      if qs != [] { ForwardAt(qs[1..], 0, qs[0].now); assert qs[1..][0..] == qs[1..] && qs[1..][..0] == []; }
    } else {
      ForwardAt(qs[1..], k - 1, qs[0].now);
      assert qs[..k][1..] == qs[1..][..k - 1] && qs[k..] == qs[1..][k - 1..];
    }
  }

  lemma SlackBounds(b: Bucket, qs: seq<Request>, k: nat, c: real, r: real, now: real)
    requires 0.0 <= b.tokens <= c && Uniform(qs, c, r) && r >= 0.0 && Forward(qs, b.last)
    requires now >= LastTime(qs, b.last) && k <= |qs|
    ensures AtHand(b, qs, c, r, now) <= Slack(b, qs, k, c, r, now)
  {
    hide *;
    var (front, back) := (qs[..k], qs[k..]);
    assert qs == front + back;
    UniformParts(qs, k, c, r);
    ForwardAt(qs, k, b.last);
    ForwardAt(back, 0, LastTime(front, b.last));
    NeverMore(b, front, c, r, LastTime(front, b.last));
    RunConcat(b, front, back);
    SlackAfter(b, qs, k, c, r, now);
  }

  lemma UniformParts(qs: seq<Request>, k: nat, c: real, r: real)
    requires Uniform(qs, c, r) && k <= |qs|
    ensures Uniform(qs[..k], c, r) && Uniform(qs[k..], c, r)
  {
    assert forall q <- qs[..k] :: q in qs;
    assert forall q <- qs[k..] :: q in qs;
  }

  lemma SlackAfter(b: Bucket, qs: seq<Request>, k: nat, c: real, r: real, now: real)
    requires k <= |qs| && Uniform(qs[k..], c, r) && r >= 0.0
    requires var m := Run(b, qs[..k]);
             && 0.0 <= m.tokens <= c && Run(m, qs[k..]) == Run(b, qs) && Forward(qs[k..], m.last)
             && now >= LastTime(qs[k..], m.last) >= m.last
             && (k < |qs| ==> m.last <= qs[k].now && LastTime(qs[k..], qs[k].now) <= now && Forward(qs[k..], qs[k].now))
    ensures AtHand(b, qs, c, r, now) <= Slack(b, qs, k, c, r, now)
  {
    var (m, back) := (Run(b, qs[..k]), qs[k..]);
    assert k < |qs| ==> qs[k] == back[0] && back[0] in back;
    hide Run, Granted, Earned, Refill, Serve, Forward, LastTime;
    if back == [] {
      RefillCases(m, c, r, now);
      EarnedAdds(r, now, now, now);
      GrantedNothing(m);
      RunNothing(m);
    } else {
      var f := Refill(m, c, r, qs[k].now);
      RefillCases(m, c, r, qs[k].now);
      assert back == [qs[k]] + back[1..];
      SameFromRefill(m, qs[k], back[1..], c, r);
      NeverMore(f, back, c, r, now);
    }
  }

  lemma {:induction false} RunConcat(b: Bucket, x: seq<Request>, y: seq<Request>)
    ensures Run(b, x + y) == Run(Run(b, x), y)
    decreases |x|
  {
    hide Serve;
    if x == [] {
      assert x + y == y;
    } else {
      assert (x + y)[0] == x[0] && (x + y)[1..] == x[1..] + y;
      RunConcat(Serve(b, x[0]).0, x[1..], y);
    }
  }

  lemma SameFromRefill(b: Bucket, q: Request, rest: seq<Request>, c: real, r: real)
    requires q.now >= b.last && q.capacity == c && q.rate == r
    ensures var f := Refill(b, c, r, q.now);
            Granted(b, [q] + rest) == Granted(f, [q] + rest) && Run(b, [q] + rest) == Run(f, [q] + rest)
  {
    assert ([q] + rest)[1..] == rest;
  }

  // A bucket that starts full has at hand at least what the whole run's window leaves.
  lemma FromStart(b: Bucket, qs: seq<Request>, c: real, r: real, now: real)
    requires b.tokens == c && r >= 0.0 && Forward(qs, b.last) && now >= LastTime(qs, b.last)
    requires AtHand(b, qs, c, r, now) == c + Earned(r, b.last, now) - Granted(b, qs)
    ensures AtHand(b, qs, c, r, now) >= Slack(b, qs, 0, c, r, now)
  {
    hide Granted, Run, AtHand;
    WholeRun(b, qs);
    var first := TimeOf(qs, 0, now);
    assert first >= b.last;
    EarnedAdds(r, b.last, first, now);
    MulLess(first - b.last, 0.0, r);
  }

  // A request is granted if its tokens are at hand.
  lemma AtHandDecides(c: real, r: real, t: real, qs: seq<Request>, q: Request)
    requires c >= 0.0 && r >= 0.0 && Uniform(qs + [q], c, r) && Forward(qs + [q], t)
    ensures Uniform(qs, c, r) && Forward(qs, t) && q.now >= LastTime(qs, t)
    ensures Serve(Run(Bucket(c, t), qs), q).1 <==> AtHand(Bucket(c, t), qs, c, r, q.now) >= q.n
  {
    var b := Bucket(c, t);
    assert Uniform(qs, c, r) && q in qs + [q] by { assert forall x <- qs :: x in qs + [q]; }
    ForwardAt(qs + [q], |qs|, t);
    assert (qs + [q])[..|qs|] == qs && (qs + [q])[|qs|..] == [q];
    NeverMore(b, qs, c, r, q.now);
    hide Serve, Forward, Uniform;
    ServeCases(Run(b, qs), q, c, r);
  }

  // The tokens at hand are the smallest of what the windows leave.
  lemma AtHandIsLeast(c: real, r: real, t: real, qs: seq<Request>, now: real) returns (k: nat)
    requires c >= 0.0 && r >= 0.0 && Uniform(qs, c, r) && Forward(qs, t) && now >= LastTime(qs, t)
    ensures k <= |qs| && AtHand(Bucket(c, t), qs, c, r, now) >= Slack(Bucket(c, t), qs, k, c, r, now)
    ensures forall i: nat :: i <= |qs| ==>
              AtHand(Bucket(c, t), qs, c, r, now) <= Slack(Bucket(c, t), qs, i, c, r, now)
  {
    hide AtHand, Slack, Run, Granted, Earned;
    var b := Bucket(c, t);
    forall i: nat | i <= |qs| ensures AtHand(b, qs, c, r, now) <= Slack(b, qs, i, c, r, now) {
      SlackBounds(b, qs, i, c, r, now);
    }
    var full := SinceFull(b, qs, c, r, now);
    if full < 0 {
      FromStart(b, qs, c, r, now);
      k := 0;
    } else {
      k := full;
    }
  }

  // With the request, the window that begins with request k stays within c + r * (its length).
  ghost predicate WindowAllows(c: real, r: real, t: real, qs: seq<Request>, k: nat, q: Request)
    requires k <= |qs|
  {
    Granted(Run(Bucket(c, t), qs[..k]), qs[k..]) + q.n <= c + Earned(r, TimeOf(qs, k, q.now), q.now)
  }

  ghost predicate EveryWindowAllows(c: real, r: real, t: real, qs: seq<Request>, q: Request) {
    forall k: nat :: k <= |qs| ==> WindowAllows(c, r, t, qs, k, q)
  }

  /** The bucket grants whatever the window bound allows: a request is granted if and only if, for
      every window of the run that ends with it, what was granted in the window and the request come
      to no more than c + r * (length of the window). It is the most permissive limiter there can be. */
  lemma GrantedIffEveryWindowAllows(c: real, r: real, t: real, qs: seq<Request>, q: Request)
    requires c >= 0.0 && r >= 0.0 && Uniform(qs + [q], c, r) && Forward(qs + [q], t)
    ensures Serve(Run(Bucket(c, t), qs), q).1 <==> EveryWindowAllows(c, r, t, qs, q)
  {
    hide AtHand, Run, Granted, Earned, Serve, Uniform, Forward, LastTime, TimeOf;
    AtHandDecides(c, r, t, qs, q);
    var least := AtHandIsLeast(c, r, t, qs, q.now);
    forall k: nat | k <= |qs|
      ensures WindowAllows(c, r, t, qs, k, q) <==> q.n <= Slack(Bucket(c, t), qs, k, c, r, q.now) {
    }
  }

  /** A grant is within the capacity its own request brought whenever time has passed since
      the last refill; when none has, the capacity is not looked at. */
  lemma CapacityHoldsIfTimePassed(b: Bucket, q: Request)
    ensures q.now > b.last && Serve(b, q).1 ==> q.n <= q.capacity
    ensures q.now <= b.last ==> (Serve(b, q).1 <==> q.n <= b.tokens)
  {
  }

  lemma GrantedNothing(b: Bucket)
    ensures Granted(b, []) == 0.0
  {
  }

  lemma RunNothing(b: Bucket)
    ensures Run(b, []) == b
  {
  }
}
