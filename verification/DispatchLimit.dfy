/** Per-destination token buckets of the alert dispatcher, with pauses after a 429. */
module DispatchLimit {
  import opened Buckets

  // A bucket and the time until which it is paused.
  datatype Paced = Paced(bucket: Bucket, pausedUntil: real)

  // tryTake reads the clock twice: for the refill and for the pause.
  function TakeOne(p: Paced, capacity: real, perSecond: real, refillAt: real, askAt: real): (Paced, bool) {
    var r := Refill(p.bucket, capacity, perSecond / 1000.0, refillAt);
    if askAt >= p.pausedUntil && r.tokens >= 1.0 then (Paced(r.(tokens := r.tokens - 1.0), p.pausedUntil), true)
    else (Paced(r, p.pausedUntil), false)
  }

  function Pause(p: Paced, now: real, ms: real): Paced { p.(pausedUntil := Max(p.pausedUntil, now + ms)) }

  class TokenBucket {
    const capacity: real
    const refillPerSecond: real
    var tokens: real
    var lastRefill: real
    var pausedUntil: real

    ghost function View(): Paced
      reads this
    {
      Paced(Bucket(tokens, lastRefill), pausedUntil)
    }

    constructor (capacity: real, refillPerSecond: real, now: real)
      ensures this.capacity == capacity && this.refillPerSecond == refillPerSecond
      ensures View() == Paced(Bucket(capacity, now), 0.0)
    {
      this.capacity, this.refillPerSecond := capacity, refillPerSecond;
      tokens, lastRefill, pausedUntil := capacity, now, 0.0;
    }

    method TryTake(refillAt: real, askAt: real) returns (ok: bool)
      modifies this
      ensures (View(), ok) == TakeOne(old(View()), capacity, refillPerSecond, refillAt, askAt)
    {
      var elapsed := (refillAt - lastRefill) / 1000.0;
      if elapsed > 0.0 {
        assert elapsed * refillPerSecond == (refillAt - lastRefill) * (refillPerSecond / 1000.0);
        tokens := Min(capacity, tokens + elapsed * refillPerSecond);
        lastRefill := refillAt;
      }
      if askAt < pausedUntil { return false; }
      if tokens >= 1.0 {
        tokens := tokens - 1.0;
        return true;
      }
      return false;
    }

    method PauseFor(ms: real, now: real)
      modifies this
      ensures View() == Pause(old(View()), now, ms)
    {
      pausedUntil := Max(pausedUntil, now + ms);
    }

    method PausedRemainingMs(now: real) returns (ms: real)
      ensures ms >= 0.0 && (ms == 0.0 <==> now >= pausedUntil)
      ensures ms > 0.0 ==> now + ms == pausedUntil
    {
      ms := Max(0.0, pausedUntil - now);
    }
  }

  // One bucket per destination, created on first use.
  class BucketRegistry {
    const perSecond: real
    const burst: real
    var buckets: map<string, TokenBucket>

    ghost predicate Valid()
      reads this, buckets.Values
    {
      && (forall k <- buckets :: buckets[k].capacity == burst && buckets[k].refillPerSecond == perSecond)
      && (forall k, l | k in buckets && l in buckets && buckets[k] == buckets[l] :: k == l)
    }

    constructor (perSecond: real, burst: real)
      ensures Valid() && buckets == map[] && this.perSecond == perSecond && this.burst == burst
    {
      this.perSecond, this.burst := perSecond, burst;
      buckets := map[];
    }

    method ForKey(key: string, now: real) returns (b: TokenBucket)
      requires Valid()
      modifies this
      ensures Valid() && buckets == old(buckets)[key := b]
      ensures key in old(buckets) ==> b == old(buckets)[key]
      ensures key !in old(buckets) ==> fresh(b) && b.View() == Paced(Bucket(burst, now), 0.0)
    {
      if key in buckets {
        b := buckets[key];
        assert buckets == buckets[key := b];
        return;
      }
      b := new TokenBucket(burst, perSecond, now);
      assert b !in buckets.Values;
      buckets := buckets[key := b];
    }
  }

  // ---------------------------------------------------------------- runs with pauses

  datatype Op = Ask(refillAt: real, askAt: real) | PauseAt(now: real, ms: real)

  function Apply(p: Paced, capacity: real, perSecond: real, op: Op): (Paced, bool) {
    match op
    case Ask(refillAt, askAt) => TakeOne(p, capacity, perSecond, refillAt, askAt)
    case PauseAt(now, ms) => (Pause(p, now, ms), false)
  }

  function RunOps(p: Paced, capacity: real, perSecond: real, ops: seq<Op>): Paced
    decreases |ops|
  {
    if ops == [] then p else RunOps(Apply(p, capacity, perSecond, ops[0]).0, capacity, perSecond, ops[1..])
  }

  // Messages a run lets through.
  function Sent(p: Paced, capacity: real, perSecond: real, ops: seq<Op>): real
    decreases |ops|
  {
    if ops == [] then 0.0
    else
      var (p', ok) := Apply(p, capacity, perSecond, ops[0]);
      (if ok then 1.0 else 0.0) + Sent(p', capacity, perSecond, ops[1..])
  }

  /** Once paused, a destination gets nothing before the pause is over, whatever happens in
      between: further pauses never shorten it. */
  lemma {:induction false} NothingWhilePaused(p: Paced, capacity: real, perSecond: real, ops: seq<Op>, refillAt: real,
                                              askAt: real)
    requires askAt < p.pausedUntil
    ensures !TakeOne(RunOps(p, capacity, perSecond, ops), capacity, perSecond, refillAt, askAt).1
    ensures RunOps(p, capacity, perSecond, ops).pausedUntil >= p.pausedUntil
    decreases |ops|
  {
    if ops != [] {
      NothingWhilePaused(Apply(p, capacity, perSecond, ops[0]).0, capacity, perSecond, ops[1..], refillAt, askAt);
    }
  }

  // What the asks of a run are to the plain bucket: one that meets a pause still refills, as
  // a request for nothing would.
  function Asks(p: Paced, capacity: real, perSecond: real, ops: seq<Op>): seq<Request>
    decreases |ops|
  {
    if ops == [] then []
    else
      (match ops[0]
       case PauseAt(_, _) => []
       case Ask(refillAt, askAt) =>
         [Request(refillAt, if askAt < p.pausedUntil then 0.0 else 1.0, capacity, perSecond / 1000.0)])
      + Asks(Apply(p, capacity, perSecond, ops[0]).0, capacity, perSecond, ops[1..])
  }

  lemma {:induction false} SentIsGranted(p: Paced, capacity: real, perSecond: real, ops: seq<Op>)
    ensures var qs := Asks(p, capacity, perSecond, ops);
            Sent(p, capacity, perSecond, ops) == Granted(p.bucket, qs)
            && RunOps(p, capacity, perSecond, ops).bucket == Run(p.bucket, qs)
    decreases |ops|
  {
    if ops != [] {
      var (p', ok) := Apply(p, capacity, perSecond, ops[0]);
      SentIsGranted(p', capacity, perSecond, ops[1..]);
      var qs, rest := Asks(p, capacity, perSecond, ops), Asks(p', capacity, perSecond, ops[1..]);
      if ops[0].PauseAt? {
        assert qs == rest;
      } else {
        assert qs[1..] == rest;
        assert Serve(p.bucket, qs[0]).0 == p'.bucket;
      }
    }
  }

  lemma {:induction false} AsksConcat(p: Paced, capacity: real, perSecond: real, a: seq<Op>, b: seq<Op>)
    ensures Asks(p, capacity, perSecond, a + b)
         == Asks(p, capacity, perSecond, a) + Asks(RunOps(p, capacity, perSecond, a), capacity, perSecond, b)
    decreases |a|
  {
    if a == [] {
      assert a + b == b;
    } else {
      assert (a + b)[1..] == a[1..] + b;
      AsksConcat(Apply(p, capacity, perSecond, a[0]).0, capacity, perSecond, a[1..], b);
    }
  }

  lemma {:induction false} AsksWithin(p: Paced, capacity: real, perSecond: real, ops: seq<Op>)
    ensures Within(Asks(p, capacity, perSecond, ops), capacity, perSecond / 1000.0)
    decreases |ops|
  {
    if ops != [] { AsksWithin(Apply(p, capacity, perSecond, ops[0]).0, capacity, perSecond, ops[1..]); }
  }

  /** In every window of every run, pauses included, the messages let through come to at most
      the burst plus the refill over the window. */
  lemma MessagesInWindow(capacity: real, perSecond: real, t: real, before: seq<Op>, window: seq<Op>)
    requires capacity >= 0.0 && perSecond >= 0.0
    requires Forward(Asks(Paced(Bucket(capacity, t), 0.0), capacity, perSecond, before + window), t)
    ensures var m := RunOps(Paced(Bucket(capacity, t), 0.0), capacity, perSecond, before);
            var qs := Asks(m, capacity, perSecond, window);
            Sent(m, capacity, perSecond, window)
              <= capacity + (if qs == [] then 0.0 else Earned(perSecond / 1000.0, qs[0].now, LastTime(qs, 0.0)))
  {
    hide Run, Granted, RunOps, Sent, Earned, Asks;
    var p := Paced(Bucket(capacity, t), 0.0);
    var m := RunOps(p, capacity, perSecond, before);
    var qb, qw := Asks(p, capacity, perSecond, before), Asks(m, capacity, perSecond, window);
    SentIsGranted(p, capacity, perSecond, before);
    SentIsGranted(m, capacity, perSecond, window);
    AsksConcat(p, capacity, perSecond, before, window);
    AsksWithin(p, capacity, perSecond, before + window);
    if qw == [] {
      GrantedNothing(m.bucket);
    } else {
      WindowBound(p.bucket, qb, qw, capacity, perSecond / 1000.0);
    }
  }

  // Every pause of the run is over.
  ghost predicate PausesOver(ops: seq<Op>, now: real) { forall op <- ops :: op.PauseAt? ==> now >= op.now + op.ms }

  lemma {:induction false} PausedUntil(p: Paced, capacity: real, perSecond: real, ops: seq<Op>, now: real)
    ensures now >= RunOps(p, capacity, perSecond, ops).pausedUntil <==> now >= p.pausedUntil && PausesOver(ops, now)
    decreases |ops|
  {
    if ops != [] {
      assert ops == [ops[0]] + ops[1..];
      PausedUntil(Apply(p, capacity, perSecond, ops[0]).0, capacity, perSecond, ops[1..], now);
    }
  }

  /** Exactly when a message is let through, after any run of a fresh limiter: when every pause so far is
      over, and in every window that ends with it messages come to no more than burst plus refill. */
  lemma SentIffUnpausedAndAllowed(capacity: real, perSecond: real, t: real, ops: seq<Op>, refillAt: real, askAt: real)
    requires capacity >= 0.0 && perSecond >= 0.0 && askAt >= 0.0
    requires Forward(Asks(Paced(Bucket(capacity, t), 0.0), capacity, perSecond, ops + [Ask(refillAt, askAt)]), t)
    ensures var start := Paced(Bucket(capacity, t), 0.0);
            TakeOne(RunOps(start, capacity, perSecond, ops), capacity, perSecond, refillAt, askAt).1
            <==> PausesOver(ops, askAt)
                 && EveryWindowAllows(capacity, perSecond / 1000.0, t, Asks(start, capacity, perSecond, ops),
                                      Request(refillAt, 1.0, capacity, perSecond / 1000.0))
  {
    var p := Paced(Bucket(capacity, t), 0.0);
    var (m, qs) := (RunOps(p, capacity, perSecond, ops), Asks(p, capacity, perSecond, ops));
    var q := Request(refillAt, 1.0, capacity, perSecond / 1000.0);
    hide RunOps, Asks, EveryWindowAllows, Sent, Granted, Run;
    PausedUntil(p, capacity, perSecond, ops, askAt);
    hide PausesOver;
    if askAt >= m.pausedUntil {
      SentIsGranted(p, capacity, perSecond, ops);
      LastAsk(p, capacity, perSecond, ops, refillAt, askAt);
      AsksUniform(p, capacity, perSecond, ops);
      hide Forward, Within;
      GrantedIffEveryWindowAllows(capacity, perSecond / 1000.0, t, qs, q);
    }
  }

  lemma LastAsk(p: Paced, capacity: real, perSecond: real, ops: seq<Op>, refillAt: real, askAt: real)
    requires askAt >= RunOps(p, capacity, perSecond, ops).pausedUntil
    ensures Asks(p, capacity, perSecond, ops + [Ask(refillAt, askAt)])
         == Asks(p, capacity, perSecond, ops) + [Request(refillAt, 1.0, capacity, perSecond / 1000.0)]
  {
    AsksConcat(p, capacity, perSecond, ops, [Ask(refillAt, askAt)]);
    assert [Ask(refillAt, askAt)][1..] == [];
  }

  lemma {:induction false} AsksUniform(p: Paced, capacity: real, perSecond: real, ops: seq<Op>)
    ensures Uniform(Asks(p, capacity, perSecond, ops), capacity, perSecond / 1000.0)
    decreases |ops|
  {
    if ops != [] { AsksUniform(Apply(p, capacity, perSecond, ops[0]).0, capacity, perSecond, ops[1..]); }
  }
}
