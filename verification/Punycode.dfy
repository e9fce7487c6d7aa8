/**
 The Bootstring decoder of the phishing library. What it decodes is stated in PunycodeInverse,
 against the encoder of Rfc3492.

 Labels are sequences of UTF-16 code units, decoded labels sequences of code points.
 Numbers are mathematical integers except where the source shifts: `delta >> 1` is a
 32-bit operation and is written as one.
 */
module Punycode {
  import opened Wrappers
  import opened Arith

  const BASE := 36
  const TMIN := 1
  const TMAX := 26
  const SKEW := 38
  const DAMP := 700
  const INITIAL_BIAS := 72
  const INITIAL_N := 128
  const HYPHEN := 45
  const MAX_CODE_POINT := 0x10FFFF

  // The longest label for which no accepted delta can reach 2^31.
  const MAX_POINTS := 1927

  datatype Error = NonBasic | Truncated | BadDigit | OutOfRange

  // ---------------------------------------------------------------- bias adaptation

  // ECMAScript `x >> 1` on a non-negative number.
  function ShiftRight1(x: nat): int {
    var u := x % 0x1_0000_0000;
    (if u < 0x8000_0000 then u else u - 0x1_0000_0000) / 2
  }

  // Math.floor(num / den). The only zero denominator the source can meet gives minus
  // infinity; every bias of at most 10 selects the same thresholds, so 0 stands for it.
  function FloorQuotient(num: int, den: int): int {
    if den > 0 then num / den else if den < 0 then (-num) / (-den) else 0
  }

  // The loop at the end of the adaptation and its result.
  function Settle(d: int, k: nat): int
    decreases if d > 455 then d else 0
  {
    if d > ((BASE - TMIN) * TMAX) / 2 then Settle(d / (BASE - TMIN), k + BASE)
    else k + FloorQuotient((BASE - TMIN + 1) * d, d + SKEW)
  }

  // `adapt` of the source: the halving is a 32-bit shift.
  function Adapt(delta: nat, numPoints: nat, firstTime: bool): int
    requires numPoints > 0
  {
    var d := if firstTime then delta / DAMP else ShiftRight1(delta);
    Settle(d + d / numPoints, 0)
  }

  lemma ShiftIsHalving(delta: nat)
    requires delta < 0x8000_0000
    ensures ShiftRight1(delta) == delta / 2
  {
    assert delta % 0x1_0000_0000 == delta;
  }

  /** The shift works on the signed number that the lowest 32 bits stand for, and rounds down. */
  lemma ShiftIsSigned(x: nat) returns (y: int, wraps: nat)
    ensures x == y + 0x1_0000_0000 * wraps && -0x8000_0000 <= y < 0x8000_0000
    ensures 2 * ShiftRight1(x) <= y < 2 * ShiftRight1(x) + 2
  {
    var (u, k) := (x % 0x1_0000_0000, x / 0x1_0000_0000);
    y := if u < 0x8000_0000 then u else u - 0x1_0000_0000;
    wraps := if u < 0x8000_0000 then k else k + 1;
  }

  // Rounding down, for denominators of either sign.
  lemma FloorQuotientIs(num: int, den: int)
    requires den != 0
    ensures var q := FloorQuotient(num, den);
            if den > 0 then den * q <= num < den * (q + 1) else den * (q + 1) < num <= den * q
  {
    var q := FloorQuotient(num, den);
    if den > 0 {
      assert num == den * (num / den) + num % den;
      assert den * (q + 1) == den * q + den;
    } else {
      var (n, d) := (-num, -den);
      assert n == d * (n / d) + n % d;
      assert den * q == -(d * q) && den * (q + 1) == den * q + den;
    }
  }

  method ComputeAdapt(delta: nat, numPoints: nat, firstTime: bool) returns (bias: int)
    requires numPoints > 0
    ensures bias == Adapt(delta, numPoints, firstTime)
  {
    var d := if firstTime then delta / DAMP else ShiftRight1(delta);
    d := d + d / numPoints;
    var k := 0;
    while d > ((BASE - TMIN) * TMAX) / 2
      invariant k >= 0
      invariant Settle(d, k) == Adapt(delta, numPoints, firstTime)
      decreases d
    {
      d := d / (BASE - TMIN);
      k := k + BASE;
    }
    bias := k + FloorQuotient((BASE - TMIN + 1) * d, d + SKEW);
  }

  // ---------------------------------------------------------------- digits and deltas

  function DecodeDigit(cp: nat): (r: Option<nat>)
    ensures r.Some? ==> r.value < BASE
  {
    if 48 <= cp <= 57 then Some(cp - 48 + 26)
    else if 97 <= cp <= 122 then Some(cp - 97)
    else if 65 <= cp <= 90 then Some(cp - 65)
    else None
  }

  function Threshold(k: nat, bias: int): (t: nat)
    ensures TMIN <= t <= TMAX
  {
    if k <= bias then TMIN else if k >= bias + TMAX then TMAX else k - bias
  }

  datatype Delta = NoDelta(error: Error) | Delta(value: nat, rest: seq<nat>)

  // A generalized variable-length integer and what follows it (section 3.3 of RFC 3492).
  function ReadDelta(s: seq<nat>, k: nat, bias: int): (r: Delta)
    ensures r.Delta? ==> |r.rest| < |s|
  {
    if s == [] then NoDelta(Truncated)
    else match DecodeDigit(s[0])
      case None => NoDelta(BadDigit)
      case Some(d) =>
        var t := Threshold(k, bias);
        if d < t then Delta(d, s[1..])
        else match ReadDelta(s[1..], k + BASE, bias)
          case NoDelta(e) => NoDelta(e)
          case Delta(v, rest) =>
            MulNonneg(BASE - t, v);
            Delta(d + (BASE - t) * v, rest)
  }

  // ---------------------------------------------------------------- the decoder

  // The state of section 6.2 of RFC 3492.
  datatype State = State(out: seq<nat>, n: nat, i: nat, bias: int)

  // One insertion: the delta d moves the odometer (n, i) and a code point goes in there.
  function Step(st: State, d: nat): State {
    var len := |st.out| + 1;
    DivModFact(st.i + d, len);
    DivBounds(st.i + d, len);
    var i := (st.i + d) % len;
    var n := st.n + (st.i + d) / len;
    State(Insert(st.out, i, n), n, i + 1, Adapt(d, len, st.i == 0))
  }

  // The loop of the source as a recursion over the digits still to be read.
  function DecodeFrom(s: seq<nat>, st: State): Result<seq<nat>, Error>
    decreases |s|
  {
    if s == [] then Ok(st.out)
    else match ReadDelta(s, BASE, st.bias)
      case NoDelta(e) => Err(e)
      case Delta(d, rest) => DecodeFrom(rest, Step(st, d))
  }

  function Insert(s: seq<nat>, i: nat, c: nat): (r: seq<nat>)
    requires i <= |s|
  {
    s[..i] + [c] + s[i..]
  }

  // The index of the last occurrence, or -1.
  function LastIndexOf(s: seq<nat>, c: nat): (r: int)
    ensures -1 <= r < |s|
    ensures r < 0 <==> c !in s
    ensures r >= 0 ==> s[r] == c && c !in s[r + 1..]
  {
    if s == [] then -1
    else if s[|s| - 1] == c then |s| - 1
    else
      var r := LastIndexOf(s[..|s| - 1], c);
      assert s == s[..|s| - 1] + [s[|s| - 1]];
      assert r >= 0 ==> s[r + 1..] == s[..|s| - 1][r + 1..] + [s[|s| - 1]];
      r
  }

  // Without a delimiter the whole label is pushed as basic code points and is then
  // decoded from index 0 as well: the source keeps `basic` equal to the input.
  function Basic(input: seq<nat>): seq<nat> {
    var delim := LastIndexOf(input, HYPHEN);
    if delim < 0 then input else input[..delim]
  }

  function Extended(input: seq<nat>): seq<nat> {
    var delim := LastIndexOf(input, HYPHEN);
    if delim < 0 then input else input[delim + 1..]
  }

  function DecodeLabel(input: seq<nat>): Result<seq<nat>, Error> {
    if !AllBelow(Basic(input), INITIAL_N) then Err(NonBasic)
    else match DecodeFrom(Extended(input), State(Basic(input), INITIAL_N, 0, INITIAL_BIAS))
      case Err(e) => Err(e)
      case Ok(out) => if AllBelow(out, MAX_CODE_POINT + 1) then Ok(out) else Err(OutOfRange)
  }

  // The inner loop of the source: reads one delta at `index` into i.
  method ScanDelta(input: seq<nat>, start: nat, oldi: nat, bias: int) returns (r: Result<(nat, nat), Error>)
    requires start <= |input|
    ensures match ReadDelta(input[start..], BASE, bias)
            case NoDelta(e) => r == Err(e)
            case Delta(d, rest) =>
              r.Ok? && r.value.0 == oldi + d && start < r.value.1 <= |input| && input[r.value.1..] == rest
  {
    hide DecodeDigit, Threshold, Shift;
    ghost var whole := ReadDelta(input[start..], BASE, bias);
    ShiftNone(whole);
    var index, i, w, k := start, oldi, 1, BASE;
    while true
      invariant w >= 1 && k >= 0 && start <= index <= |input| && i >= oldi
      invariant whole == Shift(ReadDelta(input[index..], k, bias), i - oldi, w)
      decreases |input| - index
    {
      ShiftError(ReadDelta(input[index..], k, bias), i - oldi, w);
      if index >= |input| { return Err(Truncated); }
      assert input[index..][1..] == input[index + 1..];
      var digit := DecodeDigit(input[index]);
      if digit.None? { return Err(BadDigit); }
      MulNonneg(digit.value, w);
      var t := Threshold(k, bias);
      ghost var here, next := ReadDelta(input[index..], k, bias), ReadDelta(input[index + 1..], k + BASE, bias);
      ShiftStep(here, next, i - oldi, w, digit.value, BASE - t);
      index := index + 1;
      i := i + digit.value * w;
      if digit.value < t { return Ok((i, index)); }
      MulStep(w, 0, BASE - t);
      w := w * (BASE - t);
      k := k + BASE;
    }
  }

  // A delta read after digits worth `sum` have been seen and the weight has reached w.
  ghost function Shift(r: Delta, sum: nat, w: nat): Delta {
    match r
    case NoDelta(e) => NoDelta(e)
    case Delta(v, rest) =>
      MulNonneg(w, v);
      Delta(sum + w * v, rest)
  }

  lemma ShiftNone(r: Delta)
    ensures Shift(r, 0, 1) == r
  {
  }

  lemma ShiftError(r: Delta, sum: nat, w: nat)
    ensures r.NoDelta? ==> Shift(r, sum, w) == r
  {
  }

  lemma ShiftStep(here: Delta, next: Delta, sum: nat, w: nat, d: nat, m: nat)
    ensures w * m >= 0 && d * w >= 0
    ensures here.Delta? && here.value == d ==> Shift(here, sum, w) == Delta(sum + d * w, here.rest)
    ensures here.NoDelta? && next == here ==> Shift(here, sum, w) == Shift(next, sum + d * w, w * m)
    ensures here.Delta? && next.Delta? && here.rest == next.rest && here.value == d + m * next.value
            ==> Shift(here, sum, w) == Shift(next, sum + d * w, w * m)
  {
    MulNonneg(w, m);
    MulNonneg(d, w);
    if here.Delta? && next.Delta? && here.value == d + m * next.value {
      assert w * (d + m * next.value) == d * w + (w * m) * next.value;
    }
  }

  method CopyBasic(basic: seq<nat>) returns (r: Result<seq<nat>, Error>)
    ensures r == if AllBelow(basic, INITIAL_N) then Ok(basic) else Err(NonBasic)
  {
    var output := [];
    for p := 0 to |basic|
      invariant output == basic[..p] && AllBelow(basic[..p], INITIAL_N)
    {
      if basic[p] >= 0x80 {
        assert basic[p] in basic;
        return Err(NonBasic);
      }
      output := output + [basic[p]];
    }
    assert basic[..|basic|] == basic;
    return Ok(output);
  }

  // The tail of the outer loop: adapt, divide, splice, advance.
  method InsertNext(out0: seq<nat>, n0: nat, oldi: nat, i0: nat)
    returns (output: seq<nat>, n: nat, i: nat, bias: int)
    requires oldi <= i0
    ensures forall b :: State(output, n, i, bias) == Step(State(out0, n0, oldi, b), i0 - oldi)
  {
    var outLen := |out0| + 1;
    DivModFact(i0, outLen);
    DivBounds(i0, outLen);
    bias := ComputeAdapt(i0 - oldi, outLen, oldi == 0);
    n := n0 + i0 / outLen;
    i := i0 % outLen;
    output := out0[..i] + [n] + out0[i..];
    i := i + 1;
  }

  method DecodePunycodeLabel(input: seq<nat>) returns (r: Result<seq<nat>, Error>)
    ensures r == DecodeLabel(input)
  {
    hide Step, ReadDelta, AllBelow;
    var delim := LastIndexOf(input, HYPHEN);
    var copied := CopyBasic(if delim < 0 then input else input[..delim]);
    if copied.Err? { return copied; }
    var output: seq<nat>, n: nat, i: nat, bias := copied.value, INITIAL_N, 0, INITIAL_BIAS;
    var index: nat := if delim < 0 then 0 else delim + 1;
    ghost var whole := DecodeFrom(Extended(input), State(Basic(input), INITIAL_N, 0, INITIAL_BIAS));
    while index < |input|
      invariant index <= |input|
      invariant DecodeFrom(input[index..], State(output, n, i, bias)) == whole
      decreases |input| - index
    {
      var scanned := ScanDelta(input, index, i, bias);
      if scanned.Err? { return Err(scanned.error); }
      output, n, i, bias := InsertNext(output, n, i, scanned.value.0);
      index := scanned.value.1;
      assert DecodeFrom(input[index..], State(output, n, i, bias)) == whole;
    }
    assert input[index..] == [];
    if !AllBelow(output, MAX_CODE_POINT + 1) { return Err(OutOfRange); }
    return Ok(output);
  }
}
