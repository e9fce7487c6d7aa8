/**
 The encoder of section 6.3 of RFC 3492, with the parameters that section 5 gives Punycode:
 base 36, tmin 1, tmax 26, skew 38, damp 700, initial bias 72, initial n 128, and the delimiter
 '-'. It shares nothing with the decoder that is proved against it.
 */
module Rfc3492 {
  import opened Arith

  // Section 5: a-z are the digits 0 to 25, 0-9 the digits 26 to 35; lowercase is written.
  function Digit(d: nat): (c: nat)
    requires d < 36
    ensures 97 <= c <= 122 || 48 <= c <= 57
  {
    if d < 26 then 97 + d else 48 + (d - 26)
  }

  // Section 6.1: bias adaptation.
  function Adapt(delta: nat, numPoints: nat, firstTime: bool): nat
    requires numPoints > 0
  {
    var d := if firstTime then delta / 700 else delta / 2;
    DivBounds(d, numPoints);
    Scaled(d + d / numPoints, 0)
  }

  // ((36 - 1) * 26) div 2 is 455.
  function Scaled(delta: nat, k: nat): nat {
    if delta > 455 then Scaled(delta / 35, k + 36) else k + 36 * delta / (delta + 38)
  }

  // The threshold for the digit at k, clamped between tmin and tmax.
  function Threshold(k: nat, bias: int): (t: nat)
    ensures 1 <= t <= 26
  {
    if k <= bias + 1 then 1 else if k >= bias + 26 then 26 else k - bias
  }

  // A generalized variable-length integer, from the digit position k on.
  function Integer(q: nat, k: nat, bias: int): (s: seq<nat>)
    ensures |s| > 0 && 45 !in s && Lowercase(s)
    decreases q
  {
    var t := Threshold(k, bias);
    if q < t then [Digit(q)]
    else
      DivModFact(q - t, 36 - t);
      DivBounds(q - t, 36 - t);
      [Digit(t + (q - t) % (36 - t))] + Integer((q - t) / (36 - t), k + 36, bias)
  }

  predicate IsUpper(c: nat) { 65 <= c <= 90 }

  predicate Lowercase(s: seq<nat>) { forall c <- s :: !IsUpper(c) }

  // ---------------------------------------------------------------- code points by size

  lemma Uncons(s: seq<nat>)
    requires s != []
    ensures s == [s[0]] + s[1..] && s[0] in s
    ensures forall c :: c in s <==> c == s[0] || c in s[1..]
  {
    assert s == [s[0]] + s[1..];
  }

  // The elements smaller than n, in order.
  function Below(s: seq<nat>, n: nat): (r: seq<nat>)
    ensures |r| <= |s|
  {
    if s == [] then [] else (if s[0] < n then [s[0]] else []) + Below(s[1..], n)
  }

  lemma {:induction false} BelowAll(s: seq<nat>, n: nat)
    ensures AllBelow(Below(s, n), n)
    ensures AllBelow(s, n) ==> Below(s, n) == s
    ensures !AllBelow(s, n) ==> |Below(s, n)| < |s|
  {
    if s != [] {
      Uncons(s);
      BelowAll(s[1..], n);
    }
  }

  lemma {:induction false} BelowConcat(a: seq<nat>, b: seq<nat>, n: nat)
    ensures Below(a + b, n) == Below(a, n) + Below(b, n)
  {
    if a == [] {
      assert a + b == b;
    } else {
      assert (a + b)[1..] == a[1..] + b;
      BelowConcat(a[1..], b, n);
    }
  }

  lemma {:induction false} BelowGrows(s: seq<nat>, n: nat, m: nat)
    requires n <= m
    ensures |Below(s, n)| <= |Below(s, m)|
    ensures (exists c <- s :: n <= c < m) ==> |Below(s, n)| < |Below(s, m)|
    ensures (forall c <- s :: !(n <= c < m)) ==> Below(s, n) == Below(s, m)
  {
    if s != [] {
      Uncons(s);
      BelowGrows(s[1..], n, m);
    }
  }

  // The smallest code point of s that is at least n.
  function NextPoint(s: seq<nat>, n: nat): (m: nat)
    requires !AllBelow(s, n)
    ensures m in s && m >= n && forall c <- s :: c >= n ==> m <= c
  {
    assert s == [s[0]] + s[1..];
    if AllBelow(s[1..], n) then s[0]
    else
      var m := NextPoint(s[1..], n);
      if n <= s[0] < m then s[0] else m
  }

  // What the decoder has produced when the encoder, handling n, stands at p.
  function Out(s: seq<nat>, n: nat, p: nat): seq<nat>
    requires p <= |s|
  {
    Below(s[..p], n + 1) + Below(s[p..], n)
  }

  // The decoder's cursor at that point.
  function Cursor(s: seq<nat>, n: nat, p: nat): nat
    requires p <= |s|
  {
    |Below(s[..p], n + 1)|
  }

  lemma OutAround(s: seq<nat>, n: nat, p: nat)
    requires p < |s|
    ensures Out(s, n, p) == Below(s[..p], n + 1) + (if s[p] < n then [s[p]] else []) + Below(s[p + 1..], n)
    ensures Out(s, n, p + 1) == Below(s[..p], n + 1) + (if s[p] <= n then [s[p]] else []) + Below(s[p + 1..], n)
    ensures Cursor(s, n, p + 1) == Cursor(s, n, p) + if s[p] <= n then 1 else 0
  {
    assert s[..p + 1] == s[..p] + [s[p]];
    BelowConcat(s[..p], [s[p]], n + 1);
    assert s[p..] == [s[p]] + s[p + 1..];
    BelowConcat([s[p]], s[p + 1..], n);
    assert Below([s[p]], n) == if s[p] < n then [s[p]] else [];
    assert Below([s[p]], n + 1) == if s[p] <= n then [s[p]] else [];
  }

  lemma OutStep(s: seq<nat>, n: nat, p: nat)
    requires p < |s|
    ensures s[p] < n ==> Out(s, n, p + 1) == Out(s, n, p) && Cursor(s, n, p + 1) == Cursor(s, n, p) + 1
    ensures s[p] < n ==> Cursor(s, n, p) < |Out(s, n, p)| && Out(s, n, p)[Cursor(s, n, p)] == s[p]
    ensures Cursor(s, n, p) <= |Out(s, n, p)|
    ensures s[p] == n ==>
              Out(s, n, p + 1) == Out(s, n, p)[..Cursor(s, n, p)] + [n] + Out(s, n, p)[Cursor(s, n, p)..]
    ensures s[p] == n ==> Cursor(s, n, p + 1) == Cursor(s, n, p) + 1 && |Out(s, n, p)| < |s|
    ensures s[p] > n ==> Out(s, n, p + 1) == Out(s, n, p) && Cursor(s, n, p + 1) == Cursor(s, n, p)
  {
    OutAround(s, n, p);
  }

  lemma OutEnds(s: seq<nat>, n: nat)
    ensures Out(s, n, 0) == Below(s, n) && Cursor(s, n, 0) == 0
    ensures Out(s, n, |s|) == Below(s, n + 1) && Cursor(s, n, |s|) == |Below(s, n + 1)|
  {
    assert s[..0] == [] && s[0..] == s && s[..|s|] == s && s[|s|..] == [];
  }

  // ---------------------------------------------------------------- the encoder

  // turns * len, counted in turns of the odometer.
  function Turns(turns: nat, len: nat): nat {
    if turns == 0 then 0 else len + Turns(turns - 1, len)
  }

  lemma {:induction false} TurnsIs(turns: nat, len: nat)
    ensures Turns(turns, len) == turns * len
  {
    if turns > 0 {
      TurnsIs(turns - 1, len);
      assert (turns - 1) * len == turns * len - len;
    }
  }

  lemma {:induction false} TurnsAdd(a: nat, b: nat, len: nat)
    ensures Turns(a + b, len) == Turns(a, len) + Turns(b, len)
  {
    if a > 0 {
      TurnsAdd(a - 1, b, len);
    }
  }

  // Section 6.3 in two stages. First the deltas: the `while` loop raises n to the next
  // code point to insert; h code points are handled already.
  function DeltasFrom(s: seq<nat>, n: nat, delta: nat, h: nat): seq<nat>
    requires h == |Below(s, n)|
    decreases |s| - |Below(s, n)|, |s| + 1
  {
    if h >= |s| then []
    else
      BelowAll(s, n);
      var m := NextPoint(s, n);
      BelowGrows(s, n, m);
      OutEnds(s, m);
      DeltasScan(s, m, 0, delta + Turns(m - n, h + 1), h)
  }

  // Its inner `for` loop, at position p of the input.
  function DeltasScan(s: seq<nat>, n: nat, p: nat, delta: nat, h: nat): seq<nat>
    requires p <= |s| && n in s && h == |Out(s, n, p)|
    decreases |s| - |Below(s, n)|, |s| - p
  {
    if p == |s| then
      OutEnds(s, n);
      BelowGrows(s, n, n + 1);
      DeltasFrom(s, n + 1, delta + 1, h)
    else
      OutStep(s, n, p);
      if s[p] < n then DeltasScan(s, n, p + 1, delta + 1, h)
      else if s[p] == n then [delta] + DeltasScan(s, n, p + 1, 0, h + 1)
      else DeltasScan(s, n, p + 1, delta, h)
  }

  // Then each delta as digits, the bias adapting after every one.
  function Digits(deltas: seq<nat>, bias: int, h: nat, firstTime: bool): (s: seq<nat>)
    ensures 45 !in s && Lowercase(s)
    ensures |s| >= |deltas|
  {
    if deltas == [] then []
    else Integer(deltas[0], 36, bias)
         + Digits(deltas[1..], Adapt(deltas[0], h + 1, firstTime), h + 1, false)
  }

  function EncodeLabel(s: seq<nat>): seq<nat> {
    var basic := Below(s, 128);
    (if basic == [] then [] else basic + [45]) + Digits(DeltasFrom(s, 128, 0, |basic|), 72, |basic|, true)
  }
}
