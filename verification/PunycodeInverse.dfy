/**
 The theorems that tie the decoder to the encoder of RFC 3492: for which sequences decoding
 inverts encoding, and for which labels encoding inverts decoding. Both answers are exact.
 */
module PunycodeInverse {
  import opened Wrappers
  import opened Arith
  import opened Punycode
  import opened Rfc3492

  // ---------------------------------------------------------------- the decoder's parts and the standard's

  // A lowercase digit is read as what it is written for, and nothing else is.
  lemma DigitRead(d: nat)
    requires d < 36
    ensures DecodeDigit(Rfc3492.Digit(d)) == Some(d)
  {
  }

  lemma ReadDigit(c: nat)
    requires DecodeDigit(c).Some? && !IsUpper(c)
    ensures DecodeDigit(c).value < 36 && Rfc3492.Digit(DecodeDigit(c).value) == c
  {
  }

  lemma SameThreshold(k: nat, bias: int)
    ensures Punycode.Threshold(k, bias) == Rfc3492.Threshold(k, bias)
  {
  }

  lemma {:induction false} SettlesScaled(d: nat, k: nat)
    ensures Settle(d, k) == Rfc3492.Scaled(d, k)
    decreases d
  {
    if d > 455 { SettlesScaled(d / 35, k + 36); }
  }

  /** Below 2^31 the decoder's adaptation is the one of section 6.1. */
  lemma SameAdaptation(delta: nat, numPoints: nat, firstTime: bool)
    requires numPoints > 0 && delta < 0x8000_0000
    ensures Punycode.Adapt(delta, numPoints, firstTime) == Rfc3492.Adapt(delta, numPoints, firstTime)
  {
    hide Settle, Rfc3492.Scaled, ShiftRight1;
    ShiftIsHalving(delta);
    var d := if firstTime then delta / 700 else delta / 2;
    DivBounds(d, numPoints);
    SettlesScaled(d + d / numPoints, 0);
  }

  lemma {:induction false} ReadWritten(q: nat, k: nat, bias: int, rest: seq<nat>)
    ensures ReadDelta(Rfc3492.Integer(q, k, bias) + rest, k, bias) == Delta(q, rest)
    decreases q
  {
    SameThreshold(k, bias);
    var t := Rfc3492.Threshold(k, bias);
    var w := Rfc3492.Integer(q, k, bias);
    assert (w + rest)[1..] == w[1..] + rest;
    if q < t {
      DigitRead(q);
    } else {
      DivModFact(q - t, 36 - t);
      DivBounds(q - t, 36 - t);
      DigitRead(t + (q - t) % (36 - t));
      var q' := (q - t) / (36 - t);
      ReadWritten(q', k + 36, bias, rest);
      assert w[1..] == Rfc3492.Integer(q', k + 36, bias);
    }
  }

  // One digit of an integer that reads, and what is left of it.
  lemma FirstDigitRead(s: seq<nat>, k: nat, bias: int)
    requires ReadDelta(s, k, bias).Delta? && Lowercase(s)
    ensures s != [] && DecodeDigit(s[0]).Some?
    ensures var (t, r) := (Rfc3492.Threshold(k, bias), ReadDelta(s, k, bias));
            var d := DecodeDigit(s[0]).value;
            && d < 36 && s[0] == Rfc3492.Digit(d)
            && (d < t ==> r == Delta(d, s[1..]))
            && (d >= t ==> var r' := ReadDelta(s[1..], k + 36, bias);
                           r'.Delta? && r == Delta(d + (36 - t) * r'.value, r'.rest))
  {
    SameThreshold(k, bias);
    assert s[0] in s;
    ReadDigit(s[0]);
  }

  lemma IntegerWritten(d: nat, v: nat, k: nat, bias: int)
    requires d < 36
    ensures var t := Rfc3492.Threshold(k, bias);
            if d < t then Rfc3492.Integer(d, k, bias) == [Rfc3492.Digit(d)]
            else d + (36 - t) * v >= 0
                 && Rfc3492.Integer(d + (36 - t) * v, k, bias)
                    == [Rfc3492.Digit(d)] + Rfc3492.Integer(v, k + 36, bias)
  {
    var t := Rfc3492.Threshold(k, bias);
    if d >= t {
      MulNonneg(36 - t, v);
      DivModIs(d - t + (36 - t) * v, 36 - t, v, d - t);
    }
  }

  lemma {:induction false} WrittenRead(s: seq<nat>, k: nat, bias: int)
    requires ReadDelta(s, k, bias).Delta? && Lowercase(s)
    ensures var Delta(q, rest) := ReadDelta(s, k, bias);
            s == Rfc3492.Integer(q, k, bias) + rest
  {
    hide ReadDelta, DecodeDigit, Rfc3492.Threshold, Rfc3492.Integer, Rfc3492.Digit;
    FirstDigitRead(s, k, bias);
    var d := DecodeDigit(s[0]).value;
    assert s == [s[0]] + s[1..];
    if d >= Rfc3492.Threshold(k, bias) {
      assert forall c <- s[1..] :: c in s;
      WrittenRead(s[1..], k + 36, bias);
      IntegerWritten(d, ReadDelta(s[1..], k + 36, bias).value, k, bias);
    } else {
      IntegerWritten(d, 0, k, bias);
    }
  }

  // ---------------------------------------------------------------- insertion plans

  // A code point and the index at which the decoder inserts it.
  datatype Insertion = Insertion(n: nat, cursor: nat)

  // The insertions the encoder describes from (n, p) on.
  ghost function PlanFrom(s: seq<nat>, n: nat): seq<Insertion>
    decreases |s| - |Below(s, n)|, |s| + 1
  {
    BelowAll(s, n);
    if AllBelow(s, n) then []
    else
      var m := NextPoint(s, n);
      BelowGrows(s, n, m);
      PlanScan(s, m, 0)
  }

  ghost function PlanScan(s: seq<nat>, n: nat, p: nat): seq<Insertion>
    requires p <= |s| && n in s
    decreases |s| - |Below(s, n)|, |s| - p
  {
    if p == |s| then
      BelowGrows(s, n, n + 1);
      PlanFrom(s, n + 1)
    else (if s[p] == n then [Insertion(n, Cursor(s, n, p))] else []) + PlanScan(s, n, p + 1)
  }

  // Insertions move the odometer forward, from (n, i) and an output of length h.
  ghost predicate Legal(plan: seq<Insertion>, n: nat, i: nat, h: nat) {
    plan == []
    || (var e := plan[0];
        (e.n > n || (e.n == n && e.cursor >= i)) && e.cursor <= h
        && Legal(plan[1..], e.n, e.cursor + 1, h + 1))
  }

  ghost function Replay(out: seq<nat>, plan: seq<Insertion>): seq<nat>
    decreases |plan|
  {
    if plan == [] || plan[0].cursor > |out| then out
    else Replay(Insert(out, plan[0].cursor, plan[0].n), plan[1..])
  }

  // How far the odometer moves from (n, i) to an insertion.
  ghost function Gap(e: Insertion, n: nat, i: nat, h: nat): (d: nat)
    requires i <= h
  {
    if e.n > n then Turns(e.n - n - 1, h + 1) + (h + 1) + e.cursor - i
    else if e.cursor >= i then e.cursor - i else 0
  }

  ghost function Gaps(plan: seq<Insertion>, n: nat, i: nat, h: nat): seq<nat>
    requires i <= h && Legal(plan, n, i, h)
  {
    if plan == [] then []
    else [Gap(plan[0], n, i, h)] + Gaps(plan[1..], plan[0].n, plan[0].cursor + 1, h + 1)
  }

  predicate Fits(s: seq<nat>) { |s| <= MAX_POINTS && AllBelow(s, MAX_CODE_POINT + 1) }

  lemma GapFits(e: Insertion, n: nat, i: nat, h: nat)
    requires i <= h < MAX_POINTS && e.n <= MAX_CODE_POINT && e.cursor <= h
    ensures Gap(e, n, i, h) < 0x8000_0000
  {
    if e.n > n {
      TurnsIs(e.n - n - 1, h + 1);
      MulMono(h + 1, e.n - n - 1, MAX_CODE_POINT);
      assert (h + 1) * (e.n - n - 1) == (e.n - n - 1) * (h + 1);
    }
  }

  // The gap, divided by the number of places, is the rise of the code point and the new cursor.
  lemma GapDivides(e: Insertion, n: nat, i: nat, h: nat)
    requires i <= h && Legal([e], n, i, h)
    ensures (i + Gap(e, n, i, h)) / (h + 1) == e.n - n && (i + Gap(e, n, i, h)) % (h + 1) == e.cursor
  {
    var len := h + 1;
    if e.n > n {
      TurnsIs(e.n - n - 1, len);
      assert (e.n - n - 1) * len + len == len * (e.n - n);
    }
    DivModIs(i + Gap(e, n, i, h), len, e.n - n, e.cursor);
  }

  lemma GapStep(st: State, e: Insertion)
    requires st.i <= |st.out| && Legal([e], st.n, st.i, |st.out|)
    requires Gap(e, st.n, st.i, |st.out|) < 0x8000_0000
    ensures var d := Gap(e, st.n, st.i, |st.out|);
            Step(st, d)
            == State(Insert(st.out, e.cursor, e.n), e.n, e.cursor + 1, Rfc3492.Adapt(d, |st.out| + 1, st.i == 0))
  {
    hide Gap, Punycode.Adapt, Rfc3492.Adapt;
    var d := Gap(e, st.n, st.i, |st.out|);
    GapDivides(e, st.n, st.i, |st.out|);
    SameAdaptation(d, |st.out| + 1, st.i == 0);
  }

  // The first delta's digits are read, and its step taken.
  lemma FirstDigits(d: nat, deltas: seq<nat>, st: State)
    ensures DecodeFrom(Digits([d] + deltas, st.bias, |st.out|, st.i == 0), st)
         == DecodeFrom(Digits(deltas, Rfc3492.Adapt(d, |st.out| + 1, st.i == 0), |st.out| + 1, false), Step(st, d))
  {
    hide Rfc3492.Integer, ReadDelta, Step, Rfc3492.Adapt;
    var h := |st.out|;
    var rest := Digits(deltas, Rfc3492.Adapt(d, h + 1, st.i == 0), h + 1, false);
    assert ([d] + deltas)[1..] == deltas;
    assert Digits([d] + deltas, st.bias, h, st.i == 0) == Rfc3492.Integer(d, BASE, st.bias) + rest;
    ReadWritten(d, BASE, st.bias, rest);
  }

  lemma GapsStep(plan: seq<Insertion>, n: nat, i: nat, h: nat)
    requires plan != [] && i <= h && Legal(plan, n, i, h)
    ensures Legal([plan[0]], n, i, h) && plan[0].cursor <= h && Legal(plan[1..], plan[0].n, plan[0].cursor + 1, h + 1)
    ensures Gaps(plan, n, i, h)
         == [Gap(plan[0], n, i, h)] + Gaps(plan[1..], plan[0].n, plan[0].cursor + 1, h + 1)
  {
    hide Gap;
    var one := [plan[0]];
    assert one[1..] == [];
    assert Legal([], plan[0].n, plan[0].cursor + 1, h + 1);
  }

  // What the decoder makes of the digits of a plan.
  ghost function Decoded(plan: seq<Insertion>, st: State): Result<seq<nat>, Error>
    requires st.i <= |st.out| && Legal(plan, st.n, st.i, |st.out|)
  {
    DecodeFrom(Digits(Gaps(plan, st.n, st.i, |st.out|), st.bias, |st.out|, st.i == 0), st)
  }

  lemma DecodedStep(plan: seq<Insertion>, st: State)
    requires plan != [] && st.i <= |st.out| && Legal(plan, st.n, st.i, |st.out|)
    requires |st.out| < MAX_POINTS && plan[0].n <= MAX_CODE_POINT
    ensures var e, d := plan[0], Gap(plan[0], st.n, st.i, |st.out|);
            var bias := Rfc3492.Adapt(d, |st.out| + 1, st.i == 0);
            var st' := State(Insert(st.out, e.cursor, e.n), e.n, e.cursor + 1, bias);
            |st'.out| == |st.out| + 1 && Legal(plan[1..], st'.n, st'.i, |st'.out|)
            && Decoded(plan, st) == Decoded(plan[1..], st')
  {
    hide DecodeFrom, Digits, Step, Gap, Gaps, Legal, Rfc3492.Adapt;
    var e, h := plan[0], |st.out|;
    GapsStep(plan, st.n, st.i, h);
    GapFits(e, st.n, st.i, h);
    GapStep(st, e);
    FirstDigits(Gap(e, st.n, st.i, h), Gaps(plan[1..], e.n, e.cursor + 1, h + 1), st);
  }

  // Reading the digits of a plan replays it.
  lemma {:induction false} DecodeDigits(plan: seq<Insertion>, st: State)
    requires st.i <= |st.out| && Legal(plan, st.n, st.i, |st.out|)
    requires |st.out| + |plan| <= MAX_POINTS && forall e <- plan :: e.n <= MAX_CODE_POINT
    ensures Decoded(plan, st) == Ok(Replay(st.out, plan))
    decreases |plan|
  {
    if plan != [] {
      hide Decoded, Gap, Legal, Rfc3492.Adapt;
      var e, d := plan[0], Gap(plan[0], st.n, st.i, |st.out|);
      assert plan[0] in plan;
      LegalCursor(plan, st.n, st.i, |st.out|);
      DecodedStep(plan, st);
      var st' := State(Insert(st.out, e.cursor, e.n), e.n, e.cursor + 1, Rfc3492.Adapt(d, |st.out| + 1, st.i == 0));
      DecodeDigits(plan[1..], st');
    }
  }

  lemma LegalCursor(plan: seq<Insertion>, n: nat, i: nat, h: nat)
    requires plan != [] && Legal(plan, n, i, h)
    ensures plan[0].cursor <= h
  {
  }

  // ---------------------------------------------------------------- the encoder writes its plan

  // (n0, i0) is not past (n, cursor).
  ghost predicate Reached(n0: nat, i0: nat, n: nat, cursor: nat) {
    n0 < n || (n0 == n && i0 <= cursor)
  }

  // The plan leads from this output to s, from (n0, i0) on, and inserts only elements of s.
  ghost predicate Completes(plan: seq<Insertion>, out: seq<nat>, s: seq<nat>, n0: nat, i0: nat) {
    && Legal(plan, n0, i0, |out|)
    && Replay(out, plan) == s
    && |out| + |plan| == |s|
    && forall e <- plan :: e.n in s
  }

  lemma CompletesCons(plan: seq<Insertion>, out: seq<nat>, s: seq<nat>, n0: nat, i0: nat)
    requires plan != [] && plan[0].cursor <= |out| && plan[0].n in s && Reached(n0, i0, plan[0].n, plan[0].cursor)
    requires Completes(plan[1..], Insert(out, plan[0].cursor, plan[0].n), s, plan[0].n, plan[0].cursor + 1)
    ensures Completes(plan, out, s, n0, i0)
  {
    assert forall e <- plan :: e == plan[0] || e in plan[1..];
  }

  lemma CursorWithin(s: seq<nat>, n: nat, p: nat)
    requires p <= |s|
    ensures Cursor(s, n, p) <= |Out(s, n, p)|
  {
  }

  lemma PlanScanCases(s: seq<nat>, n: nat, p: nat)
    requires p <= |s| && n in s
    ensures p == |s| ==> PlanScan(s, n, p) == PlanFrom(s, n + 1)
    ensures p < |s| && s[p] == n ==> PlanScan(s, n, p) == [Insertion(n, Cursor(s, n, p))] + PlanScan(s, n, p + 1)
    ensures p < |s| && s[p] != n ==> PlanScan(s, n, p) == PlanScan(s, n, p + 1)
  {
    hide Cursor, PlanFrom;
  }

  lemma {:induction false} PlanScanCompletes(s: seq<nat>, n: nat, p: nat, n0: nat, i0: nat)
    requires p <= |s| && n in s && Reached(n0, i0, n, Cursor(s, n, p))
    ensures Completes(PlanScan(s, n, p), Out(s, n, p), s, n0, i0)
    decreases |s| - |Below(s, n)|, |s| - p
  {
    hide PlanScan, PlanFrom, Completes, Below, Out, Cursor;
    PlanScanCases(s, n, p);
    var plan, out := PlanScan(s, n, p), Out(s, n, p);
    if p == |s| {
      OutEnds(s, n);
      BelowGrows(s, n, n + 1);
      PlanFromCompletes(s, n + 1, n0, i0);
    } else {
      OutStep(s, n, p);
      if s[p] == n {
        var c := Cursor(s, n, p);
        PlanScanCompletes(s, n, p + 1, n, c + 1);
        assert plan[0] == Insertion(n, c) && plan[1..] == PlanScan(s, n, p + 1);
        CursorWithin(s, n, p);
        CompletesCons(plan, out, s, n0, i0);
      } else {
        PlanScanCompletes(s, n, p + 1, n0, i0);
      }
    }
  }

  lemma {:induction false} PlanFromCompletes(s: seq<nat>, n: nat, n0: nat, i0: nat)
    requires Reached(n0, i0, n, 0)
    ensures Completes(PlanFrom(s, n), Below(s, n), s, n0, i0)
    decreases |s| - |Below(s, n)|, |s| + 1
  {
    BelowAll(s, n);
    if !AllBelow(s, n) {
      var m := NextPoint(s, n);
      BelowGrows(s, n, m);
      OutEnds(s, m);
      PlanScanCompletes(s, m, 0, n0, i0);
    }
  }

  lemma GapSteps(n: nat, cursor: nat, n0: nat, i0: nat, h: nat)
    requires i0 <= h && cursor <= h && Reached(n0, i0, n, cursor)
    ensures Gap(Insertion(n, cursor + 1), n0, i0, h) == Gap(Insertion(n, cursor), n0, i0, h) + 1
    ensures cursor == h ==> Gap(Insertion(n + 1, 0), n0, i0, h) == Gap(Insertion(n, cursor), n0, i0, h) + 1
  {
  }

  lemma GapRaise(n: nat, m: nat, n0: nat, i0: nat, h: nat)
    requires i0 <= h && n <= m && Reached(n0, i0, n, 0)
    ensures Gap(Insertion(m, 0), n0, i0, h) == Gap(Insertion(n, 0), n0, i0, h) + Turns(m - n, h + 1)
  {
    if n0 < n {
      TurnsAdd(n - n0 - 1, m - n, h + 1);
    }
  }

  lemma ScanHit(s: seq<nat>, n: nat, p: nat, delta: nat, h: nat)
    requires p < |s| && s[p] == n && h == |Out(s, n, p)|
    ensures h + 1 == |Out(s, n, p + 1)| && Cursor(s, n, p + 1) == Cursor(s, n, p) + 1
    ensures DeltasScan(s, n, p, delta, h) == [delta] + DeltasScan(s, n, p + 1, 0, h + 1)
    ensures PlanScan(s, n, p) == [Insertion(n, Cursor(s, n, p))] + PlanScan(s, n, p + 1)
  {
    OutStep(s, n, p);
  }

  lemma ScanMiss(s: seq<nat>, n: nat, p: nat, delta: nat, h: nat)
    requires p < |s| && s[p] != n && n in s && h == |Out(s, n, p)|
    ensures h == |Out(s, n, p + 1)|
    ensures Cursor(s, n, p + 1) == Cursor(s, n, p) + if s[p] < n then 1 else 0
    ensures DeltasScan(s, n, p, delta, h) == DeltasScan(s, n, p + 1, if s[p] < n then delta + 1 else delta, h)
    ensures PlanScan(s, n, p) == PlanScan(s, n, p + 1)
  {
    OutStep(s, n, p);
  }

  // The deltas from (n, p) on are the gaps of the plan from there.
  ghost predicate ScanMatches(s: seq<nat>, n: nat, p: nat, n0: nat, i0: nat)
    requires p <= |s| && n in s
  {
    var h, e := |Out(s, n, p)|, Insertion(n, Cursor(s, n, p));
    i0 <= h && Legal(PlanScan(s, n, p), n0, i0, h)
    && DeltasScan(s, n, p, Gap(e, n0, i0, h), h) == Gaps(PlanScan(s, n, p), n0, i0, h)
  }

  ghost predicate FromMatches(s: seq<nat>, n: nat, n0: nat, i0: nat) {
    var h := |Below(s, n)|;
    i0 <= h && Legal(PlanFrom(s, n), n0, i0, h)
    && DeltasFrom(s, n, Gap(Insertion(n, 0), n0, i0, h), h) == Gaps(PlanFrom(s, n), n0, i0, h)
  }

  lemma MatchHit(s: seq<nat>, n: nat, p: nat, n0: nat, i0: nat)
    requires p < |s| && s[p] == n && i0 <= |Out(s, n, p)| && Reached(n0, i0, n, Cursor(s, n, p))
    requires ScanMatches(s, n, p + 1, n, Cursor(s, n, p) + 1)
    ensures ScanMatches(s, n, p, n0, i0)
  {
    var h, e := |Out(s, n, p)|, Insertion(n, Cursor(s, n, p));
    var rest := PlanScan(s, n, p + 1);
    ScanHit(s, n, p, Gap(e, n0, i0, h), h);
    assert ([e] + rest)[1..] == rest;
  }

  lemma MatchMiss(s: seq<nat>, n: nat, p: nat, n0: nat, i0: nat)
    requires p < |s| && s[p] != n && n in s && Reached(n0, i0, n, Cursor(s, n, p))
    requires ScanMatches(s, n, p + 1, n0, i0)
    ensures ScanMatches(s, n, p, n0, i0)
  {
    var h, c := |Out(s, n, p + 1)|, Cursor(s, n, p);
    OutStep(s, n, p);
    GapSteps(n, c, n0, i0, h);
    ScanMiss(s, n, p, Gap(Insertion(n, c), n0, i0, h), h);
  }

  lemma MatchEnd(s: seq<nat>, n: nat, n0: nat, i0: nat)
    requires n in s && Reached(n0, i0, n, Cursor(s, n, |s|))
    requires FromMatches(s, n + 1, n0, i0)
    ensures ScanMatches(s, n, |s|, n0, i0)
  {
    OutEnds(s, n);
    BelowGrows(s, n, n + 1);
    GapSteps(n, Cursor(s, n, |s|), n0, i0, |Below(s, n + 1)|);
  }

  lemma MatchRaise(s: seq<nat>, n: nat, m: nat, n0: nat, i0: nat)
    requires !AllBelow(s, n) && m == NextPoint(s, n) && Reached(n0, i0, n, 0) && i0 <= |Below(s, n)|
    requires ScanMatches(s, m, 0, n0, i0)
    ensures FromMatches(s, n, n0, i0)
  {
    hide DeltasFrom, DeltasScan, PlanFrom, PlanScan, Gap, Gaps, Legal, Below, Out, Cursor, NextPoint, Turns;
    BelowGrows(s, n, m);
    FromRaise(s, n, m, Gap(Insertion(n, 0), n0, i0, |Below(s, n)|));
    GapRaise(n, m, n0, i0, |Below(s, n)|);
  }

  lemma FromRaise(s: seq<nat>, n: nat, m: nat, delta: nat)
    requires !AllBelow(s, n) && m == NextPoint(s, n)
    ensures m in s && m >= n && Out(s, m, 0) == Below(s, n) && Cursor(s, m, 0) == 0
    ensures var h := |Below(s, n)|;
            DeltasFrom(s, n, delta, h) == DeltasScan(s, m, 0, delta + Turns(m - n, h + 1), h)
    ensures PlanFrom(s, n) == PlanScan(s, m, 0)
  {
    hide DeltasScan, PlanScan, Turns;
    BelowAll(s, n);
    BelowGrows(s, n, m);
    OutEnds(s, m);
  }

  lemma {:induction false} ScanGaps(s: seq<nat>, n: nat, p: nat, n0: nat, i0: nat)
    requires p <= |s| && n in s && Reached(n0, i0, n, Cursor(s, n, p)) && i0 <= |Out(s, n, p)|
    ensures ScanMatches(s, n, p, n0, i0)
    decreases |s| - |Below(s, n)|, |s| - p
  {
    hide ScanMatches, FromMatches, Below, Out, Cursor;
    if p == |s| {
      OutEnds(s, n);
      BelowGrows(s, n, n + 1);
      FromGaps(s, n + 1, n0, i0);
      MatchEnd(s, n, n0, i0);
    } else {
      OutStep(s, n, p);
      if s[p] == n {
        CursorWithin(s, n, p + 1);
        ScanGaps(s, n, p + 1, n, Cursor(s, n, p) + 1);
        MatchHit(s, n, p, n0, i0);
      } else {
        ScanGaps(s, n, p + 1, n0, i0);
        MatchMiss(s, n, p, n0, i0);
      }
    }
  }

  lemma {:induction false} FromGaps(s: seq<nat>, n: nat, n0: nat, i0: nat)
    requires Reached(n0, i0, n, 0) && i0 <= |Below(s, n)|
    ensures FromMatches(s, n, n0, i0)
    decreases |s| - |Below(s, n)|, |s| + 1
  {
    BelowAll(s, n);
    if !AllBelow(s, n) {
      var m := NextPoint(s, n);
      BelowGrows(s, n, m);
      OutEnds(s, m);
      ScanGaps(s, m, 0, n0, i0);
      MatchRaise(s, n, m, n0, i0);
    }
  }

  // ---------------------------------------------------------------- a plan is determined by its result

  ghost predicate Sound(plan: seq<Insertion>, out: seq<nat>, n0: nat, i0: nat) {
    i0 <= |out| && Legal(plan, n0, i0, |out|)
  }

  lemma ReplayCons(plan: seq<Insertion>, out: seq<nat>, n0: nat, i0: nat)
    requires plan != [] && Sound(plan, out, n0, i0)
    ensures var e := plan[0]; var out' := Insert(out, e.cursor, e.n);
            Sound(plan[1..], out', e.n, e.cursor + 1) && Replay(out, plan) == Replay(out', plan[1..])
  {
  }

  lemma {:induction false} ReplayLength(plan: seq<Insertion>, out: seq<nat>, n0: nat, i0: nat)
    requires Sound(plan, out, n0, i0)
    ensures |Replay(out, plan)| == |out| + |plan|
    decreases |plan|
  {
    if plan != [] {
      ReplayCons(plan, out, n0, i0);
      ReplayLength(plan[1..], Insert(out, plan[0].cursor, plan[0].n), plan[0].n, plan[0].cursor + 1);
    }
  }

  lemma BelowInsert(out: seq<nat>, c: nat, n: nat, v: nat)
    requires c <= |out|
    ensures Below(Insert(out, c, n), v) == Below(out[..c], v) + (if n < v then [n] else []) + Below(out[c..], v)
    ensures v <= n ==> Below(Insert(out, c, n), v) == Below(out, v)
  {
    assert Insert(out, c, n) == out[..c] + ([n] + out[c..]);
    BelowConcat(out[..c], [n] + out[c..], v);
    BelowConcat([n], out[c..], v);
    assert out == out[..c] + out[c..];
    BelowConcat(out[..c], out[c..], v);
  }

  lemma InsertBelow(out: seq<nat>, c: nat, n: nat, v: nat)
    requires c <= |out| && AllBelow(out, v) && n < v
    ensures AllBelow(Insert(out, c, n), v)
  {
    forall x | x in Insert(out, c, n) ensures x < v { assert x in out || x == n; }
  }

  // Code points smaller than every insertion are not touched.
  lemma {:induction false} ReplayKeepsBelow(plan: seq<Insertion>, out: seq<nat>, n0: nat, i0: nat, v: nat)
    requires Sound(plan, out, n0, i0) && (plan == [] || v <= plan[0].n)
    ensures Below(Replay(out, plan), v) == Below(out, v)
    decreases |plan|
  {
    if plan != [] {
      var e := plan[0];
      ReplayCons(plan, out, n0, i0);
      BelowInsert(out, e.cursor, e.n, v);
      ReplayKeepsBelow(plan[1..], Insert(out, e.cursor, e.n), e.n, e.cursor + 1, v);
    }
  }

  // Left of the cursor nothing of the current size is ever inserted again.
  lemma {:induction false} ReplayFreezesPrefix(plan: seq<Insertion>, out: seq<nat>, n0: nat, i0: nat)
    requires Sound(plan, out, n0, i0) && AllBelow(out, n0 + 1)
    ensures |Below(Replay(out, plan), n0 + 1)| >= i0 && Below(Replay(out, plan), n0 + 1)[..i0] == out[..i0]
    decreases |plan|
  {
    BelowAll(out, n0 + 1);
    if plan != [] && plan[0].n == n0 {
      var e := plan[0];
      var out' := Insert(out, e.cursor, e.n);
      ReplayCons(plan, out, n0, i0);
      InsertBelow(out, e.cursor, n0, n0 + 1);
      ReplayFreezesPrefix(plan[1..], out', n0, e.cursor + 1);
      assert out'[..e.cursor + 1][..i0] == out[..i0];
      var r := Below(Replay(out, plan), n0 + 1);
      assert r[..i0] == r[..e.cursor + 1][..i0];
    } else {
      ReplayKeepsBelow(plan, out, n0, i0, n0 + 1);
    }
  }

  // The first insertion can be read off the result.
  lemma FirstInsertionShows(plan: seq<Insertion>, out: seq<nat>, n0: nat, i0: nat)
    requires plan != [] && Sound(plan, out, n0, i0) && AllBelow(out, plan[0].n + 1)
    ensures var e, r := plan[0], Below(Replay(out, plan), plan[0].n + 1);
            |r| > e.cursor && r[e.cursor] == e.n && r[..e.cursor] == out[..e.cursor]
  {
    var e := plan[0];
    var out' := Insert(out, e.cursor, e.n);
    ReplayCons(plan, out, n0, i0);
    InsertBelow(out, e.cursor, e.n, e.n + 1);
    ReplayFreezesPrefix(plan[1..], out', e.n, e.cursor + 1);
    var r := Below(Replay(out, plan), e.n + 1);
    assert r[..e.cursor + 1] == out'[..e.cursor + 1];
    assert r[..e.cursor + 1][e.cursor] == e.n;
    assert r[..e.cursor + 1][..e.cursor] == out[..e.cursor];
  }

  lemma {:induction false} BelowIn(s: seq<nat>, n: nat, c: nat)
    ensures c in Below(s, n) ==> c in s && c < n
  {
    if s != [] {
      Uncons(s);
      BelowIn(s[1..], n, c);
    }
  }

  lemma OutIsBelow(s: seq<nat>, n: nat, p: nat)
    requires p <= |s|
    ensures AllBelow(Out(s, n, p), n + 1)
  {
    BelowAll(s[..p], n + 1);
    BelowAll(s[p..], n);
  }

  // What stands around position p among the elements of at most n.
  lemma BelowAround(s: seq<nat>, n: nat, p: nat)
    requires p < |s| && s[p] <= n
    ensures Below(s, n + 1) == Below(s[..p], n + 1) + [s[p]] + Below(s[p + 1..], n + 1)
    ensures |Below(s[p + 1..], n)| <= |Below(s[p + 1..], n + 1)|
  {
    assert s == s[..p] + ([s[p]] + s[p + 1..]);
    BelowConcat(s[..p], [s[p]] + s[p + 1..], n + 1);
    BelowConcat([s[p]], s[p + 1..], n + 1);
    BelowGrows(s[p + 1..], n, n + 1);
  }

  lemma AtCursor(s: seq<nat>, n: nat, p: nat)
    requires p < |s| && s[p] == n && Cursor(s, n, p) < |Out(s, n, p)|
    ensures Out(s, n, p)[Cursor(s, n, p)] < n
  {
    OutAround(s, n, p);
    BelowAll(s[p + 1..], n);
    var rest := Below(s[p + 1..], n);
    assert Out(s, n, p)[Cursor(s, n, p)] == rest[0] && rest[0] in rest;
  }

  // The plan leads from the output at (n, p) to s and starts there or later.
  ghost predicate Candidate(s: seq<nat>, n: nat, p: nat, plan: seq<Insertion>, n0: nat, i0: nat)
    requires p <= |s|
  {
    && Sound(plan, Out(s, n, p), n0, i0)
    && Replay(Out(s, n, p), plan) == s
    && (plan == [] || Reached(n, Cursor(s, n, p), plan[0].n, plan[0].cursor))
  }

  // The first insertion is not at (n, p) unless the element there is n.
  lemma NotHere(s: seq<nat>, n: nat, p: nat, plan: seq<Insertion>, n0: nat, i0: nat)
    requires p <= |s| && Candidate(s, n, p, plan, n0, i0)
    requires p < |s| ==> s[p] < n
    ensures plan == [] || plan[0] != Insertion(n, Cursor(s, n, p))
  {
    if plan != [] && plan[0] == Insertion(n, Cursor(s, n, p)) {
      OutIsBelow(s, n, p);
      FirstInsertionShows(plan, Out(s, n, p), n0, i0);
      if p < |s| { BelowAround(s, n, p); } else { OutEnds(s, n); }
      assert false;
    }
  }

  // The first insertion is at (n, p) when the element there is n: it is of size n ...
  lemma HereSize(s: seq<nat>, n: nat, p: nat, plan: seq<Insertion>, n0: nat, i0: nat)
    requires p < |s| && s[p] == n && Candidate(s, n, p, plan, n0, i0)
    ensures plan != [] && plan[0].n == n
  {
    var out := Out(s, n, p);
    OutIsBelow(s, n, p);
    BelowAll(out, n + 1);
    BelowAround(s, n, p);
    OutAround(s, n, p);
    if plan == [] || plan[0].n > n {
      ReplayKeepsBelow(plan, out, n0, i0, n + 1);
      assert false;
    }
  }

  // ... and goes exactly there.
  lemma Here(s: seq<nat>, n: nat, p: nat, plan: seq<Insertion>, n0: nat, i0: nat)
    requires p < |s| && s[p] == n && Candidate(s, n, p, plan, n0, i0)
    ensures plan != [] && plan[0] == Insertion(n, Cursor(s, n, p))
  {
    HereSize(s, n, p, plan, n0, i0);
    var out, c := Out(s, n, p), Cursor(s, n, p);
    if plan[0].cursor > c {
      OutIsBelow(s, n, p);
      FirstInsertionShows(plan, out, n0, i0);
      BelowAround(s, n, p);
      assert Below(s, n + 1)[..plan[0].cursor][c] == out[c];
      AtCursor(s, n, p);
      assert false;
    }
  }

  lemma CandidateHit(s: seq<nat>, n: nat, p: nat, plan: seq<Insertion>, n0: nat, i0: nat)
    requires p < |s| && s[p] == n && Candidate(s, n, p, plan, n0, i0)
    ensures plan != [] && Candidate(s, n, p + 1, plan[1..], n, Cursor(s, n, p) + 1)
    ensures plan[1..] == PlanScan(s, n, p + 1) ==> plan == PlanScan(s, n, p)
  {
    Here(s, n, p, plan, n0, i0);
    OutStep(s, n, p);
    ReplayCons(plan, Out(s, n, p), n0, i0);
    assert plan == [plan[0]] + plan[1..];
  }

  lemma CandidateMiss(s: seq<nat>, n: nat, p: nat, plan: seq<Insertion>, n0: nat, i0: nat)
    requires p < |s| && s[p] != n && n in s && Candidate(s, n, p, plan, n0, i0)
    ensures Candidate(s, n, p + 1, plan, n0, i0) && PlanScan(s, n, p) == PlanScan(s, n, p + 1)
  {
    OutStep(s, n, p);
    if s[p] < n { NotHere(s, n, p, plan, n0, i0); }
  }

  lemma CandidateEnd(s: seq<nat>, n: nat, plan: seq<Insertion>, n0: nat, i0: nat)
    requires n in s && Candidate(s, n, |s|, plan, n0, i0)
    ensures Sound(plan, Below(s, n + 1), n0, i0) && Replay(Below(s, n + 1), plan) == s
    ensures (plan == [] || plan[0].n >= n + 1) && PlanScan(s, n, |s|) == PlanFrom(s, n + 1)
  {
    NotHere(s, n, |s|, plan, n0, i0);
    OutEnds(s, n);
    PlanScanCases(s, n, |s|);
    hide PlanScan, PlanFrom, Replay, Below;
  }

  lemma {:induction false} ScanUnique(s: seq<nat>, n: nat, p: nat, plan: seq<Insertion>, n0: nat, i0: nat)
    requires p <= |s| && n in s && Candidate(s, n, p, plan, n0, i0)
    ensures plan == PlanScan(s, n, p)
    decreases |s| - |Below(s, n)|, |s| - p
  {
    hide Candidate, PlanScan, PlanFrom, Sound, Replay, Below, Out, Cursor;
    if p == |s| {
      CandidateEnd(s, n, plan, n0, i0);
      BelowGrows(s, n, n + 1);
      FromUnique(s, n + 1, plan, n0, i0);
    } else if s[p] == n {
      CandidateHit(s, n, p, plan, n0, i0);
      ScanUnique(s, n, p + 1, plan[1..], n, Cursor(s, n, p) + 1);
    } else {
      CandidateMiss(s, n, p, plan, n0, i0);
      ScanUnique(s, n, p + 1, plan, n0, i0);
    }
  }

  lemma {:induction false} FromUnique(s: seq<nat>, n: nat, plan: seq<Insertion>, n0: nat, i0: nat)
    requires Sound(plan, Below(s, n), n0, i0) && Replay(Below(s, n), plan) == s
    requires plan == [] || plan[0].n >= n
    ensures plan == PlanFrom(s, n)
    decreases |s| - |Below(s, n)|, |s| + 1
  {
    BelowAll(s, n);
    ReplayLength(plan, Below(s, n), n0, i0);
    if !AllBelow(s, n) {
      var m := NextPoint(s, n);
      BelowGrows(s, n, m);
      OutEnds(s, m);
      FirstInsertionShows(plan, Below(s, n), n0, i0);
      BelowIn(s, plan[0].n + 1, plan[0].n);
      ScanUnique(s, m, 0, plan, n0, i0);
    }
  }

  // ---------------------------------------------------------------- reading a plan off a label

  // The insertions a run of the decoder performs.
  ghost function PlanOf(s: seq<nat>, st: State): seq<Insertion>
    decreases |s|
  {
    if s == [] then []
    else match ReadDelta(s, BASE, st.bias)
      case NoDelta(_) => []
      case Delta(d, rest) =>
        var st' := Step(st, d);
        [Insertion(st'.n, st'.i - 1)] + PlanOf(rest, st')
  }

  lemma TurnsOf(i: nat, d: nat, len: nat)
    requires i < len
    ensures var turns, r := (i + d) / len, (i + d) % len;
            && 0 <= r < len && 0 <= turns
            && (if turns > 0 then Turns(turns - 1, len) + len + r - i == d else r - i == d)
  {
    hide Turns;
    DivModFact(i + d, len);
    DivBounds(i + d, len);
    var turns := (i + d) / len;
    if turns > 0 {
      TurnsIs(turns - 1, len);
      assert (turns - 1) * len + len == len * turns;
    }
  }

  lemma StepGap(st: State, d: nat)
    requires st.i <= |st.out|
    ensures var st' := Step(st, d);
            var e := Insertion(st'.n, st'.i - 1);
            && e.n >= st.n && e.cursor <= |st.out| && (e.n == st.n ==> e.cursor >= st.i)
            && st'.out == Insert(st.out, e.cursor, e.n)
            && Gap(e, st.n, st.i, |st.out|) == d
  {
    TurnsOf(st.i, d, |st.out| + 1);
  }

  lemma {:induction false} PlanOfReplays(s: seq<nat>, st: State)
    requires st.i <= |st.out| && DecodeFrom(s, st).Ok?
    ensures var plan := PlanOf(s, st);
            Sound(plan, st.out, st.n, st.i) && Replay(st.out, plan) == DecodeFrom(s, st).value
    ensures s != [] ==> PlanOf(s, st) != []
    decreases |s|
  {
    if s != [] {
      var Delta(d, rest) := ReadDelta(s, BASE, st.bias);
      var st' := Step(st, d);
      StepGap(st, d);
      PlanOfReplays(rest, st');
      var plan := PlanOf(s, st);
      assert plan[1..] == PlanOf(rest, st');
    }
  }

  lemma {:induction false} ReplayContains(plan: seq<Insertion>, out: seq<nat>, n0: nat, i0: nat, c: nat)
    requires Sound(plan, out, n0, i0)
    ensures c in out || (exists e <- plan :: e.n == c) ==> c in Replay(out, plan)
    decreases |plan|
  {
    if plan != [] {
      var e := plan[0];
      var out' := Insert(out, e.cursor, e.n);
      ReplayCons(plan, out, n0, i0);
      ReplayContains(plan[1..], out', e.n, e.cursor + 1, c);
      assert out' == out[..e.cursor] + [e.n] + out[e.cursor..] && out == out[..e.cursor] + out[e.cursor..];
      assert plan == [e] + plan[1..];
    }
  }

  lemma DigitsCons(plan: seq<Insertion>, n: nat, i: nat, bias: int, h: nat, firstTime: bool)
    requires plan != [] && i <= h && Legal(plan, n, i, h)
    ensures var e := plan[0]; var d := Gap(e, n, i, h);
            (Digits(Gaps(plan, n, i, h), bias, h, firstTime)
             == Rfc3492.Integer(d, BASE, bias)
                + Digits(Gaps(plan[1..], e.n, e.cursor + 1, h + 1), Rfc3492.Adapt(d, h + 1, firstTime), h + 1, false))
  {
    assert Gaps(plan, n, i, h)[1..] == Gaps(plan[1..], plan[0].n, plan[0].cursor + 1, h + 1);
  }

  lemma StepBias(st: State, d: nat)
    requires d < 0x8000_0000
    ensures Step(st, d).bias == Rfc3492.Adapt(d, |st.out| + 1, st.i == 0)
  {
    hide Punycode.Adapt, Rfc3492.Adapt;
    SameAdaptation(d, |st.out| + 1, st.i == 0);
  }

  // Every delta of an accepted run is small enough for the 32-bit shift.
  lemma FirstDeltaFits(s: seq<nat>, st: State)
    requires s != [] && st.i <= |st.out| && DecodeFrom(s, st).Ok? && Fits(DecodeFrom(s, st).value)
    ensures ReadDelta(s, BASE, st.bias).Delta? && ReadDelta(s, BASE, st.bias).value < 0x8000_0000
  {
    PlanOfReplays(s, st);
    var d, e := ReadDelta(s, BASE, st.bias).value, PlanOf(s, st)[0];
    ReplayLength(PlanOf(s, st), st.out, st.n, st.i);
    ReplayContains(PlanOf(s, st), st.out, st.n, st.i, e.n);
    StepGap(st, d);
    GapFits(e, st.n, st.i, |st.out|);
  }

  // The digits are those of the run's plan.
  ghost predicate Written(s: seq<nat>, st: State) {
    var plan, h := PlanOf(s, st), |st.out|;
    st.i <= h && Legal(plan, st.n, st.i, h) && s == Digits(Gaps(plan, st.n, st.i, h), st.bias, h, st.i == 0)
  }

  lemma PlanStarts(s: seq<nat>, st: State)
    requires s != [] && st.i <= |st.out| && ReadDelta(s, BASE, st.bias).Delta?
    ensures var (d, rest) := (ReadDelta(s, BASE, st.bias).value, ReadDelta(s, BASE, st.bias).rest);
            var (plan, st') := (PlanOf(s, st), Step(st, d));
            plan != [] && plan[1..] == PlanOf(rest, st') && plan[0] == Insertion(st'.n, st'.i - 1)
  {
    hide ReadDelta, Step;
  }

  lemma WrittenCons(s: seq<nat>, st: State)
    requires s != [] && st.i <= |st.out| && ReadDelta(s, BASE, st.bias).Delta?
    requires ReadDelta(s, BASE, st.bias).value < 0x8000_0000
    requires Lowercase(s)
    requires Written(ReadDelta(s, BASE, st.bias).rest, Step(st, ReadDelta(s, BASE, st.bias).value))
    ensures Written(s, st)
  {
    PlanStarts(s, st);
    hide Gap, ReadDelta, Rfc3492.Integer, PlanOf, Rfc3492.Adapt, Gaps, Digits, Legal;
    var Delta(d, rest) := ReadDelta(s, BASE, st.bias);
    var plan, st' := PlanOf(s, st), Step(st, d);
    WrittenRead(s, BASE, st.bias);
    StepGap(st, d);
    StepBias(st, d);
    OneMoreWritten(plan, rest, d, st, st');
  }

  lemma OneMoreWritten(plan: seq<Insertion>, rest: seq<nat>, d: nat, st: State, st': State)
    requires plan != [] && st.i <= |st.out| && |st'.out| == |st.out| + 1 && st'.i > 0
    requires var e := plan[0];
             e == Insertion(st'.n, st'.i - 1) && e.cursor <= |st.out|
             && (e.n > st.n || (e.n == st.n && e.cursor >= st.i))
             && Gap(e, st.n, st.i, |st.out|) == d
    requires st'.bias == Rfc3492.Adapt(d, |st.out| + 1, st.i == 0)
    requires st'.i <= |st'.out| && Legal(plan[1..], st'.n, st'.i, |st'.out|)
    requires rest == Digits(Gaps(plan[1..], st'.n, st'.i, |st'.out|), st'.bias, |st'.out|, false)
    ensures Legal(plan, st.n, st.i, |st.out|)
    ensures Digits(Gaps(plan, st.n, st.i, |st.out|), st.bias, |st.out|, st.i == 0)
         == Rfc3492.Integer(d, BASE, st.bias) + rest
  {
    hide Gap, Rfc3492.Integer, Rfc3492.Adapt;
    DigitsCons(plan, st.n, st.i, st.bias, |st.out|, st.i == 0);
    hide Digits, Gaps;
  }

  // The digits that were read are the digits of the plan, when they are lowercase.
  lemma {:induction false} PlanOfWrites(s: seq<nat>, st: State)
    requires st.i <= |st.out| && DecodeFrom(s, st).Ok? && Fits(DecodeFrom(s, st).value)
    requires Lowercase(s)
    ensures Written(s, st)
    decreases |s|
  {
    if s != [] {
      var Delta(d, rest) := ReadDelta(s, BASE, st.bias);
      WrittenRead(s, BASE, st.bias);
      assert forall c <- rest :: c in s;
      FirstDeltaFits(s, st);
      PlanOfWrites(rest, Step(st, d));
      WrittenCons(s, st);
    }
  }

  // ---------------------------------------------------------------- the theorems

  lemma SplitAtDelimiter(a: seq<nat>, b: seq<nat>)
    requires HYPHEN !in b
    ensures var x := a + [HYPHEN] + b;
            LastIndexOf(x, HYPHEN) == |a| && Basic(x) == a && Extended(x) == b
  {
    var x := a + [HYPHEN] + b;
    var r := LastIndexOf(x, HYPHEN);
    assert x[|a|] == HYPHEN && x[|a|] in x;
    forall k | |a| < k < |x| ensures x[k] != HYPHEN { assert x[k] == b[k - |a| - 1]; }
  }

  // The deltas of a whole sequence are the gaps of its plan.
  lemma EncodedDigits(s: seq<nat>)
    ensures var basic, plan := Below(s, INITIAL_N), PlanFrom(s, INITIAL_N);
            && Legal(plan, INITIAL_N, 0, |basic|)
            && DeltasFrom(s, INITIAL_N, 0, |basic|) == Gaps(plan, INITIAL_N, 0, |basic|)
            && Completes(plan, basic, s, INITIAL_N, 0)
  {
    PlanFromCompletes(s, INITIAL_N, INITIAL_N, 0);
    FromGaps(s, INITIAL_N, INITIAL_N, 0);
  }

  lemma {:induction false} GapsLength(plan: seq<Insertion>, n: nat, i: nat, h: nat)
    requires i <= h && Legal(plan, n, i, h)
    ensures |Gaps(plan, n, i, h)| == |plan|
  {
    if plan != [] {
      GapsLength(plan[1..], plan[0].n, plan[0].cursor + 1, h + 1);
    }
  }

  // The encoding of s: its basic code points, then digits that decode to s from there.
  lemma Encoded(s: seq<nat>) returns (digits: seq<nat>)
    requires Fits(s)
    ensures var basic := Below(s, INITIAL_N);
            && EncodeLabel(s) == (if basic == [] then [] else basic + [HYPHEN]) + digits
            && HYPHEN !in digits && |digits| >= |s| - |basic|
            && DecodeFrom(digits, State(basic, INITIAL_N, 0, INITIAL_BIAS)) == Ok(s)
  {
    var basic, plan := Below(s, INITIAL_N), PlanFrom(s, INITIAL_N);
    EncodedDigits(s);
    digits := Digits(Gaps(plan, INITIAL_N, 0, |basic|), INITIAL_BIAS, |basic|, true);
    GapsLength(plan, INITIAL_N, 0, |basic|);
    assert forall e <- plan :: e.n in s;
    DecodeDigits(plan, State(basic, INITIAL_N, 0, INITIAL_BIAS));
  }

  // A label without a delimiter decodes, if at all, to something longer.
  lemma NoDelimiterGrows(x: seq<nat>)
    requires x != [] && HYPHEN !in x && DecodeLabel(x).Ok?
    ensures |DecodeLabel(x).value| > |x|
  {
    var st := State(x, INITIAL_N, 0, INITIAL_BIAS);
    PlanOfReplays(x, st);
    ReplayLength(PlanOf(x, st), x, INITIAL_N, 0);
  }

  /** Decoding the encoding of s gives back s if and only if s is empty or has a basic code
      point: without a delimiter the decoder also outputs the digits themselves. */
  lemma DecodeEncode(s: seq<nat>)
    requires Fits(s)
    ensures DecodeLabel(EncodeLabel(s)) == Ok(s) <==> (s == [] || exists c <- s :: c < INITIAL_N)
  {
    var x, basic := EncodeLabel(s), Below(s, INITIAL_N);
    var digits := Encoded(s);
    BelowAll(s, INITIAL_N);
    if basic != [] {
      BelowIn(s, INITIAL_N, basic[0]);
      assert x == basic + [HYPHEN] + digits;
      SplitAtDelimiter(basic, digits);
    } else {
      BelowGrows(s, 0, INITIAL_N);
      BelowIsEmpty(s);
      assert x == digits;
      if s != [] && DecodeLabel(x).Ok? { NoDelimiterGrows(x); }
    }
  }

  lemma {:induction false} BelowIsEmpty(s: seq<nat>)
    ensures Below(s, 0) == []
  {
    if s != [] { BelowIsEmpty(s[1..]); }
  }

  lemma {:induction false} PlanOfLength(s: seq<nat>, st: State)
    ensures |PlanOf(s, st)| <= |s|
    decreases |s|
  {
    if s != [] {
      match ReadDelta(s, BASE, st.bias) {
        case NoDelta(_) =>
        case Delta(d, rest) => PlanOfLength(rest, Step(st, d));
      }
    }
  }

  lemma LabelParts(x: seq<nat>)
    requires LastIndexOf(x, HYPHEN) >= 0
    ensures x == Basic(x) + [HYPHEN] + Extended(x)
  {
    var d := LastIndexOf(x, HYPHEN);
    assert x == x[..d] + [x[d]] + x[d + 1..];
  }

  // The plan of an accepted run is the plan of its result.
  lemma RunPlan(basic: seq<nat>, digits: seq<nat>, s: seq<nat>)
    requires AllBelow(basic, INITIAL_N) && DecodeFrom(digits, State(basic, INITIAL_N, 0, INITIAL_BIAS)) == Ok(s)
    ensures |s| <= |basic| + |digits| && Below(s, INITIAL_N) == basic
    ensures PlanOf(digits, State(basic, INITIAL_N, 0, INITIAL_BIAS)) == PlanFrom(s, INITIAL_N)
  {
    var st := State(basic, INITIAL_N, 0, INITIAL_BIAS);
    var plan := PlanOf(digits, st);
    PlanOfReplays(digits, st);
    PlanOfLength(digits, st);
    ReplayLength(plan, basic, INITIAL_N, 0);
    ReplayKeepsBelow(plan, basic, INITIAL_N, 0, INITIAL_N);
    BelowAll(basic, INITIAL_N);
    FromUnique(s, INITIAL_N, plan, INITIAL_N, 0);
  }

  // The encoder's output, without a bound on its input.
  lemma EncodedParts(s: seq<nat>) returns (digits: seq<nat>)
    ensures var basic := Below(s, INITIAL_N);
            && EncodeLabel(s) == (if basic == [] then [] else basic + [HYPHEN]) + digits
            && HYPHEN !in digits && |digits| >= |s| - |basic|
  {
    var basic, plan := Below(s, INITIAL_N), PlanFrom(s, INITIAL_N);
    EncodedDigits(s);
    digits := Digits(Gaps(plan, INITIAL_N, 0, |basic|), INITIAL_BIAS, |basic|, true);
    GapsLength(plan, INITIAL_N, 0, |basic|);
  }

  // The encoding of an accepted label's decoding has the same basic part, and the same
  // digits unless some are uppercase.
  lemma Reencoded(x: seq<nat>) returns (digits: seq<nat>)
    requires DecodeLabel(x).Ok?
    ensures EncodeLabel(DecodeLabel(x).value) == (if Basic(x) == [] then [] else Basic(x) + [HYPHEN]) + digits
    ensures HYPHEN !in digits && Lowercase(digits)
    ensures |Basic(x)| + |Extended(x)| <= MAX_POINTS && (Lowercase(Extended(x))) ==> digits == Extended(x)
  {
    var s, basic := DecodeLabel(x).value, Basic(x);
    var st := State(basic, INITIAL_N, 0, INITIAL_BIAS);
    RunPlan(basic, Extended(x), s);
    EncodedDigits(s);
    digits := Digits(Gaps(PlanFrom(s, INITIAL_N), INITIAL_N, 0, |basic|), INITIAL_BIAS, |basic|, true);
    if |basic| + |Extended(x)| <= MAX_POINTS && Lowercase(Extended(x)) {
      PlanOfWrites(Extended(x), st);
    }
  }

  // Which labels a re-encoding can be, as facts about sequences.
  lemma SameInside(x: seq<nat>, y: seq<nat>, basic: seq<nat>, extended: seq<nat>, digits: seq<nat>)
    requires x == basic + [HYPHEN] + extended && y == basic + [HYPHEN] + digits
    requires Lowercase(digits) && (Lowercase(extended) ==> digits == extended)
    ensures y == x <==> Lowercase(extended)
  {
    assert x[|basic| + 1..] == extended && y[|basic| + 1..] == digits;
  }

  /** An accepted label is the encoding of its decoding if and only if it is empty, or its
      delimiter is not its first character and its digits are lowercase. */
  lemma EncodeDecode(x: seq<nat>)
    requires DecodeLabel(x).Ok? && |x| <= MAX_POINTS
    ensures EncodeLabel(DecodeLabel(x).value) == x
       <==> x == [] || (LastIndexOf(x, HYPHEN) >= 1 && Lowercase(Extended(x)))
  {
    var digits := Reencoded(x);
    ghost var y := EncodeLabel(DecodeLabel(x).value);
    if LastIndexOf(x, HYPHEN) >= 1 {
      LabelParts(x);
      SameInside(x, y, Basic(x), Extended(x), digits);
    } else if LastIndexOf(x, HYPHEN) == 0 {
      assert HYPHEN in x && HYPHEN !in y;
    } else if x != [] {
      assert y[|x|] == HYPHEN;
      assert HYPHEN !in x && HYPHEN in y;
    }
  }

  /** The shortest case of the failure: the label of a single u-umlaut, and with it every label
      without a basic code point. */
  lemma NoBasicPointFails(s: seq<nat>)
    requires Fits(s) && s != [] && forall i :: 0 <= i < |s| ==> s[i] >= INITIAL_N
    ensures DecodeLabel(EncodeLabel(s)) != Ok(s)
    ensures DecodeLabel(EncodeLabel([0xFC])) != Ok([0xFC])
  {
    hide DecodeLabel, EncodeLabel;
    DecodeEncode(s);
    DecodeEncode([0xFC]);
  }

  // ---------------------------------------------------------------- what is accepted, and as what

  // Digits in lower case.
  function Lowered(s: seq<nat>): (r: seq<nat>)
    ensures |r| == |s| && Lowercase(r)
  {
    seq(|s|, i requires 0 <= i < |s| => if IsUpper(s[i]) then s[i] + 32 else s[i])
  }

  lemma LoweredTail(s: seq<nat>, i: nat)
    requires i <= |s|
    ensures Lowered(s[i..]) == Lowered(s)[i..]
  {
  }

  lemma SameDigit(s: seq<nat>)
    requires s != []
    ensures DecodeDigit(Lowered(s)[0]) == DecodeDigit(s[0]) && Lowered(s[1..]) == Lowered(s)[1..]
  {
  }

  lemma {:induction false} LoweredReads(s: seq<nat>, k: nat, bias: int)
    ensures match ReadDelta(s, k, bias)
            case NoDelta(e) => ReadDelta(Lowered(s), k, bias) == NoDelta(e)
            case Delta(v, rest) =>
              |rest| <= |s| && rest == s[|s| - |rest|..] && ReadDelta(Lowered(s), k, bias) == Delta(v, Lowered(rest))
    decreases |s|
  {
    hide Lowered, DecodeDigit, Punycode.Threshold;
    if s != [] {
      SameDigit(s);
      LoweredReads(s[1..], k + BASE, bias);
      match ReadDelta(s[1..], k + BASE, bias) {
        case NoDelta(_) =>
        case Delta(v, rest) => assert s[1..][|s| - 1 - |rest|..] == s[|s| - |rest|..];
      }
    }
  }

  /** Digits may be written in either case. */
  lemma {:induction false} CaseIrrelevant(s: seq<nat>, st: State)
    ensures DecodeFrom(Lowered(s), st) == DecodeFrom(s, st)
    decreases |s|
  {
    hide Lowered, ReadDelta, Step;
    if s != [] {
      LoweredReads(s, BASE, st.bias);
      match ReadDelta(s, BASE, st.bias) {
        case NoDelta(_) =>
        case Delta(d, rest) => CaseIrrelevant(rest, Step(st, d));
      }
    }
  }

  // The label with its digits in lower case and no delimiter in front of nothing.
  function Normal(x: seq<nat>): seq<nat> {
    (if Basic(x) == [] then [] else Basic(x) + [HYPHEN]) + Lowered(Extended(x))
  }

  lemma NoHyphenInDigits(x: seq<nat>)
    ensures HYPHEN !in Extended(x) && HYPHEN !in Lowered(Extended(x))
  {
    var (e, l) := (Extended(x), Lowered(Extended(x)));
    forall i | 0 <= i < |l| ensures l[i] != HYPHEN { assert e[i] in e; }
  }

  // Two ways of putting a basic part before digits are the same only if both parts are.
  lemma SameParts(b: seq<nat>, d: seq<nat>, b': seq<nat>, d': seq<nat>)
    requires HYPHEN !in d && HYPHEN !in d'
    requires (if b == [] then [] else b + [HYPHEN]) + d == (if b' == [] then [] else b' + [HYPHEN]) + d'
    ensures b == b' && d == d'
  {
    var x := (if b == [] then [] else b + [HYPHEN]) + d;
    if b != [] { assert x == b + [HYPHEN] + d; SplitAtDelimiter(b, d); }
    if b' != [] { assert x == b' + [HYPHEN] + d'; SplitAtDelimiter(b', d'); }
    assert [] + d == d && [] + d' == d';
    assert HYPHEN in x <==> b != [];
    assert HYPHEN in x <==> b' != [];
  }

  // The digits of an accepted run are those of the encoding, up to case.
  lemma DigitsOfRun(basic: seq<nat>, digits: seq<nat>, s: seq<nat>)
    requires AllBelow(basic, INITIAL_N) && |basic| + |digits| <= MAX_POINTS && Lowercase(digits)
    requires DecodeFrom(digits, State(basic, INITIAL_N, 0, INITIAL_BIAS)) == Ok(s) && AllBelow(s, MAX_CODE_POINT + 1)
    ensures EncodeLabel(s) == (if basic == [] then [] else basic + [HYPHEN]) + digits
  {
    var st := State(basic, INITIAL_N, 0, INITIAL_BIAS);
    RunPlan(basic, digits, s);
    EncodedDigits(s);
    PlanOfWrites(digits, st);
  }

  /** Exactly what the decoder accepts, and as what: a label decodes to s if and only if s has code
      points within range and the encoder of RFC 3492 writes it as the label's basic part, a
      delimiter and its digits in lower case. Everything else fails. */
  lemma AcceptsIff(x: seq<nat>, s: seq<nat>)
    requires |Basic(x)| + |Extended(x)| <= MAX_POINTS
    ensures DecodeLabel(x) == Ok(s) <==> AllBelow(s, 0x110000) && EncodeLabel(s) == Normal(x)
  {
    var (basic, digits) := (Basic(x), Lowered(Extended(x)));
    var st := State(basic, INITIAL_N, 0, INITIAL_BIAS);
    CaseIrrelevant(Extended(x), st);
    NoHyphenInDigits(x);
    if DecodeLabel(x) == Ok(s) {
      DigitsOfRun(basic, digits, s);
    }
    if AllBelow(s, 0x110000) && EncodeLabel(s) == Normal(x) {
      var own := EncodedParts(s);
      SameParts(Below(s, INITIAL_N), own, basic, digits);
      BelowAll(s, INITIAL_N);
      var again := Encoded(s);
      SameParts(Below(s, INITIAL_N), own, Below(s, INITIAL_N), again);
    }
  }
}
