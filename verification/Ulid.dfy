/**
 Identifier generation in TypeScript: 48 bits of time and 80 of randomness as base-32 text,
 counted up within a millisecond.

 Fresh randomness and the clock are inputs. The bit buffer is a signed 32-bit number that a
 left shift wraps around.
 */
module Ulid {
  import opened Arith
  import opened Lex
  import opened Radix


  method EncodeTime(time: nat, length: nat) returns (str: string)
    ensures str == Base32(time, length)
  {
    str := "";
    var now := time;
    var i := length;
    while i > 0
      invariant 0 <= i <= length
      invariant Base32(now, i) + str == Base32(time, length)
    {
      hide Digit;
      i := i - 1;
      Base32Snoc(now, i + 1);
      assert (Base32(now / 32, i) + [Digit(now % 32)]) + str == Base32(now / 32, i) + ([Digit(now % 32)] + str);
      str := [Digit(now % 32)] + str;
      now := now / 32;
    }
    assert Base32(now, 0) + str == str;
  }

  // ----- The bit stream --------------------------------------------------------------------------

  lemma ToInt32Congruent(x: int)
    ensures ToInt32(x) == x + TWO32 * (-(x / TWO32)) || ToInt32(x) == x + TWO32 * (-(x / TWO32) - 1)
  {
  }

  // How many whole digits the first i bytes give, and how many bits are then left over.
  function Bits(i: nat): nat { 8 * i }

  // What the encoder yields: the digits of the number, padded with zero bits to a whole digit.
  function Encoded(bytes: seq<Byte>): string {
    var left := Bits(|bytes|) % 5;
    if left == 0 then Base32(Value(bytes), Bits(|bytes|) / 5)
    else Base32(ShiftLeft(Value(bytes), 5 - left), Bits(|bytes|) / 5 + 1)
  }

  // The buffer agrees with the number so far in its low 32 bits.
  ghost predicate Tracks(buffer: int, v: nat) { exists k: int :: buffer == v + TWO32 * k }

  lemma Offset(buffer: int, v: nat) returns (k: int)
    requires Tracks(buffer, v)
    ensures buffer == v + TWO32 * k
  {
    k :| buffer == v + TWO32 * k;
  }

  lemma TracksNext(buffer: int, v: nat, byte: Byte)
    requires Tracks(buffer, v)
    ensures Tracks(ToInt32(buffer * 256) + byte, 256 * v + byte)
  {
    var k := Offset(buffer, v);
    ToInt32Congruent(buffer * 256);
    var m :| ToInt32(buffer * 256) == buffer * 256 + TWO32 * m;
    assert ToInt32(buffer * 256) + byte == 256 * v + byte + TWO32 * (256 * k + m);
  }

  // Masking out five bits of the wrapped buffer gives five bits of the number.
  lemma TracksDigit(buffer: int, v: nat, c: nat)
    requires Tracks(buffer, v) && c <= 12
    ensures Low5(ShiftRight(buffer, c)) == Low5(ShiftRight(v, c))
  {
    var k := Offset(buffer, v);
    hide Pow2, Tracks;
    Pow2Adds(c, 5);
    Pow2Of5();
    Pow2Adds(c + 5, 27 - c);
    TwoTo32();
    Window(buffer, v, k, Pow2(c), Pow2(27 - c));
  }

  lemma Window(buffer: int, v: int, k: int, p: nat, e: nat)
    requires p > 0 && e > 0 && TWO32 == (p * 32) * e && buffer == v + TWO32 * k
    ensures (buffer / p) % 32 == (v / p) % 32
  {
    assert (p * 32) * e == p * (32 * e);
    SameWindow(buffer, v, k, p, e);
  }

  lemma TwoTo32()
    ensures Pow2(32) == TWO32
  {
    Pow2Adds(5, 5);
    Pow2Of5();
    Pow2Adds(10, 10);
    Pow2Adds(20, 10);
    assert Pow2(2) == 4 by { assert Pow2(1) == 2; }
    Pow2Adds(30, 2);
  }

  // One more digit off the number, c bits from its end.
  lemma NextDigit(v: nat, c: nat, digits: nat)
    ensures Base32(ShiftRight(v, c + 5), digits) + [Digit(Low5(ShiftRight(v, c)))]
         == Base32(ShiftRight(v, c), digits + 1)
  {
    hide Base32, Pow2, Digit;
    Pow2Adds(c, 5);
    Pow2Of5();
    DivDiv(v, Pow2(c), 32);
    Base32Snoc(ShiftRight(v, c), digits + 1);
  }

  lemma OneMoreByte(v: nat, byte: Byte, c: nat)
    ensures ShiftRight(256 * v + byte, c + 8) == ShiftRight(v, c)
  {
    Pow2Adds(8, c);
    Pow2Of8();
    DivDiv(256 * v + byte, 256, Pow2(c));
    DivModIs(256 * v + byte, 256, v, byte);
  }

  method EncodeRandom(bytes: seq<Byte>) returns (str: string)
    ensures str == Encoded(bytes)
  {
    hide Base32, Pow2, Tracks, ToInt32, Value, Digit, ShiftRight, ShiftLeft, Low5;
    str := "";
    var bitBuffer, bitCount := 0, 0;
    Starts(bytes);
    var i := 0;
    ghost var digits := 0;
    while i < |bytes|
      invariant 0 <= i <= |bytes| && 0 <= bitCount < 5 && 5 * digits + bitCount == Bits(i)
      invariant Tracks(bitBuffer, Value(bytes[..i]))
      invariant str == Base32(ShiftRight(Value(bytes[..i]), bitCount), digits)
    {
      TracksNext(bitBuffer, Value(bytes[..i]), bytes[i]);
      OneMoreByte(Value(bytes[..i]), bytes[i], bitCount);
      Snoc(bytes, i);
      ghost var v := Value(bytes[..i + 1]);
      bitBuffer := ToInt32(bitBuffer * 256) + bytes[i];
      bitCount := bitCount + 8;
      while bitCount >= 5
        invariant 0 <= bitCount <= 12 && 5 * digits + bitCount == Bits(i + 1)
        invariant str == Base32(ShiftRight(v, bitCount), digits)
        decreases bitCount
      {
        bitCount := bitCount - 5;
        TracksDigit(bitBuffer, v, bitCount);
        NextDigit(v, bitCount, digits);
        str := str + [Digit(Low5(ShiftRight(bitBuffer, bitCount)))];
        digits := digits + 1;
      }
      i := i + 1;
    }
    assert bytes[..i] == bytes;
    if bitCount > 0 {
      LastDigit(bitBuffer, Value(bytes), bitCount, digits);
      str := str + [Digit(Low5(ShiftLeft(bitBuffer, 5 - bitCount)))];
    } else {
      DivByOne(Value(bytes));
    }
  }

  lemma Starts(bytes: seq<Byte>)
    ensures Tracks(0, Value(bytes[..0])) && Base32(ShiftRight(Value(bytes[..0]), 0), 0) == ""
  {
    assert 0 == Value(bytes[..0]) + TWO32 * 0;
  }

  lemma DivByOne(v: nat)
    ensures ShiftRight(v, 0) == v
  {
  }

  // The digit that is padded with zero bits; the source's shift wraps, but not the low five bits.
  lemma LastDigit(buffer: int, v: nat, left: nat, digits: nat)
    requires Tracks(buffer, v) && 0 < left < 5
    ensures Base32(ShiftRight(v, left), digits) + [Digit(Low5(ShiftLeft(buffer, 5 - left)))]
         == Base32(ShiftLeft(v, 5 - left), digits + 1)
  {
    var k := Offset(buffer, v);
    hide Pow2, Tracks, Base32, Digit;
    var p := Pow2(5 - left);
    Pow2Adds(left, 5 - left);
    Pow2Of5();
    WrapKeepsLow(buffer, v, k, p);
    Cancels(v, Pow2(left), p);
    Base32Snoc(ShiftLeft(v, 5 - left), digits + 1);
  }

  lemma WrapKeepsLow(buffer: int, v: nat, k: int, p: nat)
    requires buffer == v + TWO32 * k
    ensures (buffer * p) % 32 == (v * p) % 32
  {
    var m := 0x800_0000 * k * p;
    assert (v + TWO32 * k) * p == v * p + (TWO32 * k) * p;
    assert (TWO32 * k) * p == TWO32 * (k * p) && m == 0x800_0000 * (k * p);
    DivModFact(v * p, 32);
    DivModIs(buffer * p, 32, v * p / 32 + m, (v * p) % 32);
  }

  lemma Cancels(v: nat, a: nat, p: nat)
    requires a > 0 && p > 0 && a * p == 32
    ensures (v * p) / 32 == v / a
  {
    DivDiv(v * p, p, a);
    DivModIs(v * p, p, v, 0);
    assert p * a == 32;
  }

  // ----- Counting up -------------------------------------------------------------------------------

  predicate AllOnes(bytes: seq<Byte>) { forall i :: 0 <= i < |bytes| ==> bytes[i] == 255 }

  lemma {:induction false} OnesAndZeros(ones: seq<Byte>, zeros: seq<Byte>)
    requires AllOnes(ones) && |zeros| == |ones| && forall i :: 0 <= i < |zeros| ==> zeros[i] == 0
    ensures Value(zeros) == 0 && Value(ones) + 1 == Pow2(8 * |ones|)
    decreases |ones|
  {
    if ones != [] {
      var n := |ones| - 1;
      OnesAndZeros(ones[..n], zeros[..n]);
      Pow2Byte(n);
    }
  }

  // Carrying over k trailing 0xff bytes into the byte before them.
  lemma Carries(bytes: seq<Byte>, next: seq<Byte>, i: nat)
    requires i < |bytes| == |next| && bytes[i] < 255 && next[..i] == bytes[..i] && next[i] == bytes[i] + 1
    requires AllOnes(bytes[i + 1..]) && forall j :: i < j < |next| ==> next[j] == 0
    ensures Value(next) == Value(bytes) + 1
  {
    hide Value, Pow2;
    var (t, t') := (bytes[i + 1..], next[i + 1..]);
    OnesAndZeros(t, t');
    Snoc(bytes, i);
    Snoc(next, i);
    assert bytes == bytes[..i + 1] + t && next == next[..i + 1] + t';
    ValueSplit(bytes[..i + 1], t);
    ValueSplit(next[..i + 1], t');
    OneMoreTimes(Value(bytes[..i + 1]), Pow2(8 * |t|));
  }

  lemma OneMoreTimes(x: int, p: int)
    ensures (x + 1) * p == x * p + p
  {
  }

  // `spare` is the fresh randomness it falls back to when all 80 bits are ones.
  method IncrementRandom(bytes: seq<Byte>, spare: seq<Byte>) returns (next: seq<Byte>)
    ensures AllOnes(bytes) ==> next == spare
    ensures !AllOnes(bytes) ==> |next| == |bytes| && Value(next) == Value(bytes) + 1
  {
    next := bytes;
    var i := |bytes|;
    while i > 0
      invariant 0 <= i <= |bytes| == |next|
      invariant next[..i] == bytes[..i] && (forall j :: i <= j < |next| ==> next[j] == 0) && AllOnes(bytes[i..])
    {
      i := i - 1;
      assert next[..i + 1][i] == bytes[..i + 1][i];
      if next[i] == 255 {
        next := next[i := 0];
        assert bytes[i..] == [bytes[i]] + bytes[i + 1..];
        assert next[..i] == bytes[..i] by { assert bytes[..i + 1][..i] == bytes[..i]; }
      } else {
        next := next[i := next[i] + 1];
        assert next[..i] == bytes[..i] by { assert bytes[..i + 1][..i] == bytes[..i]; }
        Carries(bytes, next, i);
        assert !AllOnes(bytes);
        return;
      }
    }
    assert bytes[0..] == bytes;
    return spare;
  }

  // ----- The generator -------------------------------------------------------------------------------

  datatype Gen = Gen(lastTime: int, lastRandom: seq<Byte>)

  // Ten bytes, as the generator draws them.
  predicate Drawn(bytes: seq<Byte>) { |bytes| == 10 }

  class Generator {
    var lastTime: int
    var lastRandom: seq<Byte>

    constructor ()
      ensures lastTime == -1 && lastRandom == seq(10, i => 0)
    {
      lastTime, lastRandom := -1, seq(10, i => 0);
    }

    method Next(now: nat, entropy: seq<Byte>) returns (id: string)
      requires Drawn(entropy) && Drawn(lastRandom)
      modifies this
      ensures lastTime == now && Drawn(lastRandom)
      ensures now != old(lastTime) || AllOnes(old(lastRandom)) ==> lastRandom == entropy
      ensures now == old(lastTime) && !AllOnes(old(lastRandom)) ==> Value(lastRandom) == Value(old(lastRandom)) + 1
      ensures id == Text(now, lastRandom)
    {
      if now == lastTime {
        lastRandom := IncrementRandom(lastRandom, entropy);
      } else {
        lastTime := now;
        lastRandom := entropy;
      }
      var time := EncodeTime(now, 10);
      var random := EncodeRandom(lastRandom);
      id := time + random;
    }
  }

  function Text(time: nat, random: seq<Byte>): string { Base32(time, 10) + Encoded(random) }

  // The number an identifier stands for.
  function Number(time: nat, random: seq<Byte>): nat { Shifted(time, 16) + Value(random) }

  /** An identifier is the 26 base-32 digits of time and randomness as one number. */
  lemma TextIsNumber(time: nat, random: seq<Byte>)
    requires Drawn(random) && time < Pow2(50)
    ensures Text(time, random) == Base32(Number(time, random), 26) && Number(time, random) < Pow2(5 * 26)
  {
    ValueBound(random);
    hide Pow2, Base32, Value;
    Base32Joins(time, Value(random), 10, 16);
    Pow2Adds(50, 80);
    var (p, q) := (Pow2(50), Pow2(80));
    assert Shifted(time, 16) == time * q;
    MulMono(q, time, p - 1);
    assert q * time == time * q && q * (p - 1) == p * q - q;
  }

  /** Identifiers in text order are in order of time and, within a millisecond, of randomness. */
  lemma TextOrder(t1: nat, r1: seq<Byte>, t2: nat, r2: seq<Byte>)
    requires Drawn(r1) && Drawn(r2) && t1 < Pow2(50) && t2 < Pow2(50)
    ensures Less(Codes(Text(t1, r1)), Codes(Text(t2, r2))) <==> t1 < t2 || (t1 == t2 && Value(r1) < Value(r2))
  {
    ValueBound(r1);
    ValueBound(r2);
    hide Pow2, Base32, Value, Less, Codes, Encoded;
    TextIsNumber(t1, r1);
    TextIsNumber(t2, r2);
    Base32Order(Number(t1, r1), Number(t2, r2), 26);
    var q := Pow2(80);
    assert Shifted(t1, 16) == t1 * q && Shifted(t2, 16) == t2 * q;
    if t1 < t2 { MulStep(q, t1, t2); assert q * t1 == t1 * q && q * t2 == t2 * q; }
    if t2 < t1 { MulStep(q, t2, t1); assert q * t1 == t1 * q && q * t2 == t2 * q; }
  }

  // ----- Runs ----------------------------------------------------------------------------------------

  datatype Call = Call(now: nat, entropy: seq<Byte>)

  // What the generator holds after a call, as its contract leaves it.
  ghost predicate Moves(g: Gen, c: Call, g': Gen) {
    && g'.lastTime == c.now && Drawn(g'.lastRandom)
    && (c.now != g.lastTime || AllOnes(g.lastRandom) ==> g'.lastRandom == c.entropy)
    && (c.now == g.lastTime && !AllOnes(g.lastRandom) ==> Value(g'.lastRandom) == Value(g.lastRandom) + 1)
  }

  // The states gs[0], gs[1], ... that calls cs[0], cs[1], ... lead through.
  ghost predicate IsRun(gs: seq<Gen>, cs: seq<Call>) {
    && |gs| == |cs| + 1 && (forall i :: 0 <= i < |gs| ==> Drawn(gs[i].lastRandom))
    && forall i :: 0 <= i < |cs| ==> Moves(gs[i], cs[i], gs[i + 1])
  }

  // The clock does not go back and stays below 2^50 ms; the randomness never wraps.
  predicate Steady(gs: seq<Gen>, cs: seq<Call>)
    requires |gs| == |cs| + 1
  {
    && (forall i :: 0 <= i < |cs| ==> cs[i].now < Pow2(50) && gs[i].lastTime <= cs[i].now)
    && (forall i :: 0 <= i < |cs| && cs[i].now == gs[i].lastTime ==> !AllOnes(gs[i].lastRandom))
  }

  function Out(gs: seq<Gen>, cs: seq<Call>, i: nat): string
    requires |gs| == |cs| + 1 && i < |cs|
  {
    Text(cs[i].now, gs[i + 1].lastRandom)
  }

  /** On a steady run the identifiers strictly increase as text, every one over all before it. */
  lemma {:induction false} Increasing(gs: seq<Gen>, cs: seq<Call>, i: nat, j: nat)
    requires IsRun(gs, cs) && Steady(gs, cs) && i < j < |cs|
    ensures Less(Codes(Out(gs, cs, i)), Codes(Out(gs, cs, j)))
    decreases j
  {
    hide Text, AllOnes, Pow2, Value, Less, Codes;
    assert Moves(gs[j - 1], cs[j - 1], gs[j]) && Moves(gs[j], cs[j], gs[j + 1]);
    TextOrder(cs[j - 1].now, gs[j].lastRandom, cs[j].now, gs[j + 1].lastRandom);
    if i < j - 1 {
      Increasing(gs, cs, i, j - 1);
      LessTransitive(Codes(Out(gs, cs, i)), Codes(Out(gs, cs, j - 1)), Codes(Out(gs, cs, j)));
    }
  }

  /** When all 80 bits are ones within a millisecond the next identifier is drawn afresh and comes
      after the last exactly if the draw does, which it cannot. */
  lemma WrapNeverIncreases(time: nat, ones: seq<Byte>, drawn: seq<Byte>)
    requires Drawn(ones) && AllOnes(ones) && Drawn(drawn) && time < Pow2(50)
    ensures !Less(Codes(Text(time, ones)), Codes(Text(time, drawn)))
  {
    hide Text, Value, Less, Codes;
    TextOrder(time, ones, time, drawn);
    ValueBound(drawn);
    OnesAndZeros(ones, seq(10, i => 0));
    hide Pow2;
  }
}
