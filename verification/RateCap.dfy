/** The per-token rate caps of the agent SDK: requests per second and concurrent actions. */
module RateCap {
  import opened Wrappers
  import opened Buckets

  // ---------------------------------------------------------------- requests per second

  // elapsed seconds times maxRps, as Buckets counts it: milliseconds times the rate per millisecond.
  lemma PerMillisecond(ms: real, maxRps: real)
    ensures (ms / 1000.0) * maxRps == ms * (maxRps / 1000.0)
  {
  }

  datatype Permit = Killed | Permitted | Wait(ms: real)

  class TokenBucketRateLimiter {
    const maxRps: real
    var tokens: real
    var lastRefillMs: real

    ghost function Bucket(): Bucket
      reads this
    {
      Buckets.Bucket(tokens, lastRefillMs)
    }

    constructor (maxRps: real, now: real)
      requires maxRps > 0.0
      ensures this.maxRps == maxRps && Bucket() == Buckets.Bucket(maxRps, now)
    {
      this.maxRps := maxRps;
      tokens := maxRps;
      lastRefillMs := now;
    }

    // The constructor throws on a cap that is not positive.
    static method Create(maxRps: real, now: real) returns (l: TokenBucketRateLimiter?)
      ensures l == null <==> maxRps <= 0.0
      ensures l != null ==> fresh(l) && l.maxRps == maxRps && l.Bucket() == Buckets.Bucket(maxRps, now)
    {
      if maxRps <= 0.0 { return null; }
      l := new TokenBucketRateLimiter(maxRps, now);
    }

    method Refill(now: real)
      modifies this
      ensures Bucket() == Buckets.Refill(old(Bucket()), maxRps, maxRps / 1000.0, now)
    {
      var elapsed := (now - lastRefillMs) / 1000.0;
      if elapsed > 0.0 {
        PerMillisecond(now - lastRefillMs, maxRps);
        tokens := Min(maxRps, tokens + elapsed * maxRps);
        lastRefillMs := now;
      }
    }

    method TryAcquire(n: real, now: real) returns (ok: bool)
      modifies this
      ensures (Bucket(), ok) == Take(old(Bucket()), maxRps, maxRps / 1000.0, now, n)
    {
      Refill(now);
      if tokens >= n {
        tokens := tokens - n;
        return true;
      }
      return false;
    }

    // One turn of the acquire loop: refused, granted, or how long to sleep.
    method AcquireTurn(aborted: bool, now: real) returns (p: Permit)
      requires maxRps > 0.0
      modifies this
      ensures aborted ==> p == Killed && Bucket() == old(Bucket())
      ensures !aborted ==> (Bucket(), p == Permitted) == Take(old(Bucket()), maxRps, maxRps / 1000.0, now, 1.0)
      ensures !aborted && p != Permitted ==> p == Wait(Min(Max((1.0 - tokens) / maxRps * 1000.0, 1.0), 1000.0))
    {
      if aborted { return Killed; }
      var ok := TryAcquire(1.0, now);
      if ok { return Permitted; }
      var deficitMs := (1.0 - tokens) / maxRps * 1000.0;
      return Wait(Min(Max(deficitMs, 1.0), 1000.0));
    }
  }

  predicate PermitAt(b: Bucket, maxRps: real, now: real) { Take(b, maxRps, maxRps / 1000.0, now, 1.0).1 }

  /** A permit can ever be had exactly when the cap is at least one per second: the bucket
      holds one second's worth, so a fractional cap below 1 starves every caller. */
  lemma PermitEverIffCapAtLeastOne(b: Bucket, maxRps: real)
    requires b.tokens <= maxRps && maxRps > 0.0
    ensures (exists now :: PermitAt(b, maxRps, now)) <==> maxRps >= 1.0
  {
    if maxRps >= 1.0 {
      // Late enough for a full bucket.
      var missing := maxRps - b.tokens;
      var wait := 1.0 + missing * 1000.0 / maxRps;
      FullAfter(missing, maxRps);
      assert b.tokens + wait * (maxRps / 1000.0) >= maxRps;
      assert PermitAt(b, maxRps, b.last + wait);
    }
  }

  lemma FullAfter(missing: real, maxRps: real)
    requires missing >= 0.0 && maxRps > 0.0
    ensures missing * 1000.0 / maxRps >= 0.0
    ensures (1.0 + missing * 1000.0 / maxRps) * (maxRps / 1000.0) >= missing
  {
    var x := missing * 1000.0 / maxRps;
    assert x * maxRps == missing * 1000.0;
    assert x * (maxRps / 1000.0) == missing;
  }

  lemma EarnedPerSecond(maxRps: real, from: real, to: real)
    ensures Earned(maxRps / 1000.0, from, to) == (to - from) / 1000.0 * maxRps
  {
    PerMillisecond(to - from, maxRps);
  }

  lemma RateBounds(maxRps: real, qs: seq<Request>)
    requires maxRps > 0.0
    requires forall q <- qs :: q.n >= 0.0 && q.capacity == maxRps && q.rate == maxRps / 1000.0
    ensures maxRps / 1000.0 >= 0.0 && Within(qs, maxRps, maxRps / 1000.0)
  {
  }

  /** In every window of every run the permits come to at most one second's burst plus maxRps
      for each second of the window. */
  lemma PermitsInWindow(maxRps: real, start: real, before: seq<Request>, window: seq<Request>)
    requires maxRps > 0.0 && window != [] && Forward(before + window, start)
    requires forall q <- before + window :: q.n >= 0.0 && q.capacity == maxRps && q.rate == maxRps / 1000.0
    ensures Granted(Run(Bucket(maxRps, start), before), window)
         <= maxRps + (LastTime(window, 0.0) - window[0].now) / 1000.0 * maxRps
  {
    hide *;
    RateBounds(maxRps, before + window);
    WindowBound(Bucket(maxRps, start), before, window, maxRps, maxRps / 1000.0);
    EarnedPerSecond(maxRps, window[0].now, LastTime(window, 0.0));
  }

  // ---------------------------------------------------------------- concurrent actions

  // The fields of the semaphore; requests are named by numbers.
  datatype Slots = Slots(inFlight: int, waiters: seq<nat>)

  function MaxInt(a: int, b: int): int { if a >= b then a else b }

  // waiters.indexOf and splice: the first occurrence is removed.
  function Without(ws: seq<nat>, w: nat): seq<nat> {
    if ws == [] then [] else if ws[0] == w then ws[1..] else [ws[0]] + Without(ws[1..], w)
  }

  lemma {:induction false} WithoutAt(ws: seq<nat>, i: nat, w: nat)
    requires i <= |ws| && w !in ws[..i] && (i < |ws| ==> ws[i] == w)
    ensures Without(ws, w) == if i < |ws| then ws[..i] + ws[i + 1..] else ws
    decreases i
  {
    if i > 0 {
      assert ws[..i][0] == ws[0] && ws[1..][..i - 1] == ws[..i][1..];
      WithoutAt(ws[1..], i - 1, w);
      assert Without(ws, w) == [ws[0]] + Without(ws[1..], w);
      if i < |ws| {
        assert [ws[0]] + (ws[1..][..i - 1] + ws[1..][i..]) == ws[..i] + ws[i + 1..];
      } else {
        assert ws == [ws[0]] + ws[1..];
      }
    } else if ws != [] {
      assert ws[..0] + ws[1..] == ws[1..];
    }
  }

  function TryAcquired(sl: Slots, max: int): Slots {
    if sl.inFlight < max then Slots(sl.inFlight + 1, sl.waiters) else sl
  }

  function Acquired(sl: Slots, max: int, w: nat): Slots {
    if sl.inFlight < max then TryAcquired(sl, max) else Slots(sl.inFlight, sl.waiters + [w])
  }

  function Aborted(sl: Slots, w: nat): Slots { Slots(sl.inFlight, Without(sl.waiters, w)) }

  // The next waiter is granted, counting once more; without one the count goes down.
  function Released(sl: Slots): Slots {
    if sl.waiters != [] then Slots(sl.inFlight + 1, sl.waiters[1..]) else Slots(MaxInt(0, sl.inFlight - 1), [])
  }

  class ConcurrencyLimiter {
    const maxConcurrent: int
    var inFlight: int
    var waiters: seq<nat>

    ghost function View(): Slots
      reads this
    {
      Slots(inFlight, waiters)
    }

    constructor (maxConcurrent: int)
      requires maxConcurrent > 0
      ensures this.maxConcurrent == maxConcurrent && View() == Start.slots
    {
      this.maxConcurrent := maxConcurrent;
      inFlight := 0;
      waiters := [];
    }

    method TryAcquireSlot() returns (ok: bool)
      modifies this
      ensures ok <==> old(inFlight) < maxConcurrent
      ensures View() == TryAcquired(old(View()), maxConcurrent)
    {
      if inFlight >= maxConcurrent { return false; }
      inFlight := inFlight + 1;
      return true;
    }

    // True: a slot at once. False: the request waits at the end of the queue.
    method AcquireSlot(w: nat) returns (immediate: bool)
      modifies this
      ensures immediate <==> old(inFlight) < maxConcurrent
      ensures View() == Acquired(old(View()), maxConcurrent, w)
    {
      immediate := TryAcquireSlot();
      if !immediate { waiters := waiters + [w]; }
    }

    method Abort(w: nat)
      modifies this
      ensures View() == Aborted(old(View()), w)
    {
      var i := 0;
      while i < |waiters| && waiters[i] != w
        invariant 0 <= i <= |waiters| && waiters == old(waiters) && inFlight == old(inFlight)
        invariant w !in waiters[..i]
      {
        i := i + 1;
      }
      WithoutAt(waiters, i, w);
      if i < |waiters| { waiters := waiters[..i] + waiters[i + 1..]; }
    }

    // What every call of a release closure does, the first as well as any further one.
    method Release() returns (granted: Option<nat>)
      modifies this
      ensures granted == if old(waiters) != [] then Some(old(waiters)[0]) else None
      ensures View() == Released(old(View()))
    {
      if waiters != [] {
        granted := Some(waiters[0]);
        waiters := waiters[1..];
        inFlight := inFlight + 1;
      } else {
        granted := None;
        inFlight := MaxInt(0, inFlight - 1);
      }
    }
  }

  // ---------------------------------------------------------------- runs of the semaphore

  // Everyone around the semaphore: who holds a slot, whose release closures exist, how often a
  // slot was handed on, and how often a closure was called that had been called before.
  datatype World = World(slots: Slots, held: set<nat>, closures: set<nat>, handoffs: nat, again: nat)

  datatype Op = TryAcquire(w: nat) | Acquire(w: nat) | Abort(w: nat) | Release(w: nat)

  const Start := World(Slots(0, []), {}, {}, 0, 0)

  // Every request has a name of its own, and its closure goes by that name.
  predicate Used(s: World, w: nat) { w in s.closures || w in s.slots.waiters }

  function Grant(s: World, w: nat): World { s.(held := s.held + {w}, closures := s.closures + {w}) }

  function Step(s: World, max: int, op: Op): World {
    match op
    case TryAcquire(w) =>
      if Used(s, w) then s
      else
        var s' := s.(slots := TryAcquired(s.slots, max));
        if s.slots.inFlight < max then Grant(s', w) else s'
    case Acquire(w) =>
      if Used(s, w) then s
      else
        var s' := s.(slots := Acquired(s.slots, max, w));
        if s.slots.inFlight < max then Grant(s', w) else s'
    case Abort(w) => s.(slots := Aborted(s.slots, w))
    case Release(w) =>
      if w !in s.closures then s
      else
        var s' := s.(slots := Released(s.slots), held := s.held - {w}, again := s.again + if w in s.held then 0 else 1);
        if s.slots.waiters == [] then s'
        else Grant(s', s.slots.waiters[0]).(handoffs := s.handoffs + 1)
  }

  function Steps(s: World, max: int, ops: seq<Op>): World
    decreases |ops|
  {
    if ops == [] then s else Steps(Step(s, max, ops[0]), max, ops[1..])
  }

  predicate NoRepeats(ws: seq<nat>) { forall i, j | 0 <= i < j < |ws| :: ws[i] != ws[j] }

  /** What holds at every moment: no more slots are held than the maximum and the repeated calls
      together; nobody waits while a slot is free; and without repeated calls the count exceeds
      the slots held by exactly the hand-offs so far. */
  ghost predicate Sane(s: World, max: int) {
    && |s.held| <= max + s.again
    && |s.held| + s.handoffs <= s.slots.inFlight + s.again
    && (s.again == 0 ==> s.slots.inFlight == |s.held| + s.handoffs)
    && (s.slots.waiters != [] ==> s.slots.inFlight >= max)
    && s.held <= s.closures && NoRepeats(s.slots.waiters)
    && forall w <- s.slots.waiters :: w !in s.closures
  }

  lemma {:induction false} WithoutKeeps(ws: seq<nat>, w: nat)
    requires NoRepeats(ws)
    ensures NoRepeats(Without(ws, w))
    ensures forall x :: x in Without(ws, w) <==> x in ws && x != w
  {
    if ws != [] {
      assert ws == [ws[0]] + ws[1..];
      assert ws[0] !in ws[1..];
      WithoutKeeps(ws[1..], w);
    }
  }

  lemma Sizes(held: set<nat>, w: nat, g: nat)
    ensures |held - {w}| == if w in held then |held| - 1 else |held|
    ensures g !in held ==> |held - {w} + {g}| == |held - {w}| + 1
  {
    if w !in held { assert held - {w} == held; }
  }

  lemma ReleaseSane(s: World, max: int, w: nat)
    requires Sane(s, max) && max > 0 && w in s.closures
    ensures Sane(Step(s, max, Release(w)), max)
  {
    var ws := s.slots.waiters;
    if ws == [] {
      Sizes(s.held, w, w);
    } else {
      assert ws[0] in ws;
      Sizes(s.held, w, ws[0]);
      forall x | x in ws[1..] ensures x in ws && x != ws[0] {
        var k :| 0 <= k < |ws[1..]| && ws[1..][k] == x;
        assert ws[k + 1] == x;
      }
    }
  }

  lemma AcquireSane(s: World, max: int, op: Op)
    requires Sane(s, max) && max > 0 && (op.TryAcquire? || op.Acquire?)
    ensures Sane(Step(s, max, op), max)
  {
    if !Used(s, op.w) { assert |s.held + {op.w}| == |s.held| + 1; }
  }

  lemma StepSane(s: World, max: int, op: Op)
    requires Sane(s, max) && max > 0
    ensures Sane(Step(s, max, op), max) && Step(s, max, op).again >= s.again
  {
    match op
    case Abort(w) => WithoutKeeps(s.slots.waiters, w);
    case Release(w) => if w in s.closures { ReleaseSane(s, max, w); }
    case _ => AcquireSane(s, max, op);
  }

  lemma {:induction false} RunSane(s: World, max: int, ops: seq<Op>)
    requires Sane(s, max) && max > 0
    ensures Sane(Steps(s, max, ops), max) && Steps(s, max, ops).again >= s.again
    decreases |ops|
  {
    if ops != [] {
      StepSane(s, max, ops[0]);
      RunSane(Step(s, max, ops[0]), max, ops[1..]);
    }
  }

  // No release closure is called twice.
  predicate OnceEach(ops: seq<Op>) { forall i, j | 0 <= i < j < |ops| :: ops[i].Release? ==> ops[i] != ops[j] }

  // Closures that have been called are not among those still to be called.
  ghost predicate CalledAreDone(s: World, ops: seq<Op>) {
    forall w :: w in s.closures && w !in s.held ==> Release(w) !in ops
  }

  lemma {:induction false} OnceEachRepeatsNothing(s: World, max: int, ops: seq<Op>)
    requires OnceEach(ops) && CalledAreDone(s, ops)
    ensures Steps(s, max, ops).again == s.again
    decreases |ops|
  {
    if ops != [] {
      var s' := Step(s, max, ops[0]);
      assert ops[0] in ops;
      forall w | w in s'.closures && w !in s'.held ensures Release(w) !in ops[1..] {
        if ops[0] == Release(w) {
          assert forall j | 0 <= j < |ops[1..]| :: ops[1..][j] == ops[j + 1];
        } else {
          assert forall op :: op in ops[1..] ==> op in ops;
        }
      }
      OnceEachRepeatsNothing(s', max, ops[1..]);
    }
  }

  /** As long as each release closure is called at most once, at most max slots are held, on every
      run, and the count is the slots held plus the number of hand-offs: it equals the slots held
      only if none was ever handed on. */
  lemma OnceEachBounds(ops: seq<Op>, max: int)
    requires max > 0 && OnceEach(ops)
    ensures var s := Steps(Start, max, ops);
            |s.held| <= max && s.slots.inFlight == |s.held| + s.handoffs
  {
    RunSane(Start, max, ops);
    OnceEachRepeatsNothing(Start, max, ops);
  }

  /** Each further call of a closure can let in one more than allowed, and no more than that. */
  lemma RepeatsBound(ops: seq<Op>, max: int)
    requires max > 0
    ensures |Steps(Start, max, ops).held| <= max + Steps(Start, max, ops).again
  {
    RunSane(Start, max, ops);
  }

  /** Two slots, one closure called twice: three hold a slot. */
  lemma DoubleReleaseOverAdmits()
    ensures var ops := [Acquire(0), Acquire(1), Release(0), Release(0), Acquire(2), Acquire(3)];
            Steps(Start, 2, ops).held == {1, 2, 3} && Steps(Start, 2, ops).again == 1
  {
    var ops := [Acquire(0), Acquire(1), Release(0), Release(0), Acquire(2), Acquire(3)];
    var s2 := World(Slots(2, []), {0, 1}, {0, 1}, 0, 0);
    var s4 := World(Slots(0, []), {1}, {0, 1}, 0, 1);
    var s6 := World(Slots(2, []), {1, 2, 3}, {0, 1, 2, 3}, 0, 1);
    assert Step(Step(Start, 2, ops[0]), 2, ops[1]) == s2;
    assert Step(Step(s2, 2, ops[2]), 2, ops[3]) == s4;
    assert Step(Step(s4, 2, ops[4]), 2, ops[5]) == s6;
    hide Step;
    TwoSteps(Start, 2, ops);
    TwoSteps(s2, 2, ops[2..]);
    TwoSteps(s4, 2, ops[4..]);
    assert ops[2..][2..] == ops[4..] && ops[4..][2..] == [];
  }

  lemma TwoSteps(s: World, max: int, ops: seq<Op>)
    requires |ops| >= 2
    ensures Steps(s, max, ops) == Steps(Step(Step(s, max, ops[0]), max, ops[1]), max, ops[2..])
  {
    hide Step;
    assert ops[1..][1..] == ops[2..];
  }

  /** Each hand-off costs a slot for good: in a state reached with closures called at most once, a
      free request is granted if and only if the slots held and the hand-offs together stay below
      max. */
  lemma GrantedIff(ops: seq<Op>, max: int, w: nat)
    requires max > 0 && OnceEach(ops)
    ensures var s := Steps(Start, max, ops);
            !Used(s, w) ==> (w in Step(s, max, Acquire(w)).held <==> |s.held| + s.handoffs < max)
  {
    RunSane(Start, max, ops);
    OnceEachBounds(ops, max);
  }

  // Nobody holds a slot, and the count says that none is free.
  ghost predicate Dead(s: World, max: int) { s.held == {} && s.slots.waiters == [] && s.slots.inFlight >= max }

  /** A dead semaphore stays as good as dead: no run grants a slot again, unless a closure that was
      called before is called once more. */
  lemma {:induction false} DeadForever(s: World, max: int, ops: seq<Op>)
    requires s.held == {} && s.slots.inFlight >= max && Steps(s, max, ops).again == s.again
    ensures Steps(s, max, ops).held == {} && Steps(s, max, ops).slots.inFlight >= max
    decreases |ops|
  {
    if ops != [] {
      var s' := Step(s, max, ops[0]);
      AgainGrows(s', max, ops[1..]);
      DeadForever(s', max, ops[1..]);
    }
  }

  lemma {:induction false} AgainGrows(s: World, max: int, ops: seq<Op>)
    ensures Steps(s, max, ops).again >= s.again
    decreases |ops|
  {
    if ops != [] { AgainGrows(Step(s, max, ops[0]), max, ops[1..]); }
  }

  /** Two callers suffice to kill a semaphore of one slot, each releasing once what it was given. */
  lemma DeadAfterOneHandoff()
    ensures var ops := [Acquire(0), Acquire(1), Release(0), Release(1)];
            OnceEach(ops) && Dead(Steps(Start, 1, ops), 1)
  {
    var ops := [Acquire(0), Acquire(1), Release(0), Release(1)];
    var s2 := World(Slots(1, [1]), {0}, {0}, 0, 0);
    var s4 := World(Slots(1, []), {}, {0, 1}, 1, 0);
    assert Step(Step(Start, 1, ops[0]), 1, ops[1]) == s2;
    assert Step(Step(s2, 1, ops[2]), 1, ops[3]) == s4;
    hide Step;
    TwoSteps(Start, 1, ops);
    TwoSteps(s2, 1, ops[2..]);
    assert ops[2..][2..] == [];
  }

  // u waits, v holds no slot, and v is not ahead of u.
  ghost predicate Behind(s: World, u: nat, v: nat) {
    && u in s.slots.waiters && v !in s.held && u != v
    && Ahead(s.slots.waiters, u, v)
  }

  // Up to the first u there is no v.
  ghost predicate Ahead(ws: seq<nat>, u: nat, v: nat) {
    ws != [] && ws[0] != v && (ws[0] == u || Ahead(ws[1..], u, v))
  }

  lemma {:induction false} AheadKept(ws: seq<nat>, w: nat, u: nat, v: nat)
    requires Ahead(ws, u, v) && w != u
    ensures Ahead(Without(ws, w), u, v) && Ahead(ws + [w], u, v)
    ensures u in ws && u in Without(ws, w)
  {
    assert (ws + [w])[1..] == ws[1..] + [w];
    if ws[0] != u { AheadKept(ws[1..], w, u, v); }
  }

  lemma {:induction false} AheadIn(ws: seq<nat>, u: nat, v: nat)
    requires Ahead(ws, u, v)
    ensures u in ws
  {
    if ws[0] != u { AheadIn(ws[1..], u, v); }
  }

  lemma StepBehind(s: World, max: int, op: Op, u: nat, v: nat)
    requires Sane(s, max) && Behind(s, u, v) && op != Abort(u)
    ensures u in Step(s, max, op).held || Behind(Step(s, max, op), u, v)
  {
    var ws := s.slots.waiters;
    match op
    case TryAcquire(w) =>
    case Acquire(w) => if w !in ws { AheadKept(ws, w, u, v); }
    case Abort(w) => AheadKept(ws, w, u, v);
    case Release(w) =>
      if w in s.closures && ws[0] != u { AheadIn(ws[1..], u, v); }
  }

  // The moment u is granted, if the run gets there; until then u keeps its place.
  ghost predicate GrantedAlong(s: World, max: int, ops: seq<Op>, u: nat)
    decreases |ops|
  {
    u in s.held || (ops != [] && GrantedAlong(Step(s, max, ops[0]), max, ops[1..], u))
  }

  /** First in, first out: whoever does not give up is granted before anyone who was not ahead
      of it in the queue, whatever else acquires, aborts and releases in between, and however often. */
  lemma {:induction false} FirstInFirstOut(s: World, max: int, ops: seq<Op>, u: nat, v: nat)
    requires Sane(s, max) && max > 0 && Behind(s, u, v) && Abort(u) !in ops
    ensures v in Steps(s, max, ops).held ==> GrantedAlong(s, max, ops, u)
    decreases |ops|
  {
    if ops != [] {
      var s' := Step(s, max, ops[0]);
      StepSane(s, max, ops[0]);
      StepBehind(s, max, ops[0], u, v);
      if u !in s'.held { FirstInFirstOut(s', max, ops[1..], u, v); }
    }
  }

  // ---------------------------------------------------------------- who waits and who holds

  /** After a step exactly these wait: who waited, did not give up and was not handed the slot released,
      and who asked for a slot when none was free. Exactly these hold one: who held it and did not
      release it, who was handed it as first of the queue, and who asked while one was free. */
  lemma StepMoves(s: World, max: int, op: Op, w: nat)
    requires Sane(s, max)
    ensures var (s', ws) := (Step(s, max, op), s.slots.waiters);
            var asks := (op == Acquire(w) || op == TryAcquire(w)) && w !in s.closures && w !in ws;
            var handed := op.Release? && op.w in s.closures && ws != [] && ws[0] == w;
            && (w in s'.slots.waiters
                <==> (w in ws && op != Abort(w) && !handed) || (asks && op.Acquire? && s.slots.inFlight >= max))
            && (w in s'.held
                <==> (w in s.held && op != Release(w)) || handed || (asks && s.slots.inFlight < max))
            && (w in s'.closures <==> w in s.closures || w in s'.held)
  {
    var ws := s.slots.waiters;
    match op
    case Abort(x) => WithoutKeeps(ws, x);
    case Release(x) => if ws != [] { FirstGone(ws, w); assert ws[0] in ws; }
    case _ =>
  }

  lemma FirstGone(ws: seq<nat>, w: nat)
    requires ws != [] && NoRepeats(ws)
    ensures w in ws[1..] <==> w in ws && w != ws[0]
  {
    assert ws == [ws[0]] + ws[1..];
  }

  lemma {:induction false} StaysAway(s: World, max: int, ops: seq<Op>, w: nat)
    requires Sane(s, max) && max > 0 && w !in s.slots.waiters && w !in s.closures
    requires Acquire(w) !in ops && TryAcquire(w) !in ops
    ensures w !in Steps(s, max, ops).slots.waiters && w !in Steps(s, max, ops).held
    decreases |ops|
  {
    if ops != [] {
      assert ops[0] in ops;
      StepMoves(s, max, ops[0], w);
      StepSane(s, max, ops[0]);
      HeldNot(s, max, w);
      StaysAway(Step(s, max, ops[0]), max, ops[1..], w);
    } else {
      HeldNot(s, max, w);
    }
  }

  /** Who gives up is out of the queue for good: it is never handed a slot, unless it asks again. */
  lemma GivenUpForGood(s: World, max: int, ops: seq<Op>, w: nat)
    requires Sane(s, max) && max > 0 && w in s.slots.waiters
    requires Acquire(w) !in ops && TryAcquire(w) !in ops
    ensures var end := Steps(Step(s, max, Abort(w)), max, ops); w !in end.slots.waiters && w !in end.held
  {
    StepMoves(s, max, Abort(w), w);
    StepSane(s, max, Abort(w));
    NotYetGranted(s, max, w);
    HeldNot(s, max, w);
    StaysAway(Step(s, max, Abort(w)), max, ops, w);
  }

  lemma NotYetGranted(s: World, max: int, w: nat)
    requires Sane(s, max) && w in s.slots.waiters
    ensures w !in s.closures
  {
  }

  lemma HeldNot(s: World, max: int, w: nat)
    requires Sane(s, max) && w !in s.closures
    ensures w !in s.held
  {
  }
}
