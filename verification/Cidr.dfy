/**
 CIDR membership in TypeScript: a 32-bit mask for IPv4, a loop over the bytes for IPv6. Both are
 compared with what a prefix means, that the first bits of two numbers agree.

 Bitwise operations are written on binary digits, shift counts are taken modulo 32.
 */
module Cidr {
  import opened Arith
  import opened Radix

  // x & y, on w bits
  function And(x: nat, y: nat, w: nat): (r: nat) {
    if w == 0 then 0 else 2 * And(x / 2, y / 2, w - 1) + (x % 2) * (y % 2)
  }

  // The number whose upper w - k bits are ones.
  function HighOnes(w: nat, k: nat): nat
    requires k <= w
  {
    PowMono(k, w);
    Pow2(w) - Pow2(k)
  }

  lemma {:induction false} PowMono(k: nat, w: nat)
    requires k <= w
    ensures Pow2(k) <= Pow2(w)
  {
    if k < w { PowMono(k, w - 1); }
  }

  lemma HighOnesHalf(w: nat, k: nat)
    requires k <= w && w > 0
    ensures HighOnes(w, k) / 2 == (if k == 0 then HighOnes(w - 1, 0) else HighOnes(w - 1, k - 1))
    ensures HighOnes(w, k) % 2 == (if k == 0 then 1 else 0)
  {
    assert Pow2(w) == 2 * Pow2(w - 1);
    if k > 0 { assert Pow2(k) == 2 * Pow2(k - 1); } else { assert Pow2(0) == 1; PowMono(0, w - 1); }
  }

  // Masking with the upper ones clears the lower k bits.
  lemma {:induction false} AndHighOnes(x: nat, w: nat, k: nat)
    requires k <= w && x < Pow2(w)
    ensures And(x, HighOnes(w, k), w) == x - x % Pow2(k)
  {
    if w == 0 {
    } else {
      HighOnesHalf(w, k);
      assert Pow2(w) == 2 * Pow2(w - 1);
      if k == 0 {
        AndHighOnes(x / 2, w - 1, 0);
        ModOne(x);
      } else {
        AndHighOnes(x / 2, w - 1, k - 1);
        ModHalf(x, Pow2(k - 1));
      }
      hide Pow2;
    }
  }

  lemma ModOne(x: nat)
    ensures x % Pow2(0) == 0 && (x / 2) % Pow2(0) == 0
  {
  }

  lemma ModHalf(x: nat, p: nat)
    requires p > 0
    ensures x % (2 * p) == 2 * ((x / 2) % p) + x % 2
  {
    var q := x / 2;
    DivModFact(q, p);
    assert 2 * (p * (q / p)) == (2 * p) * (q / p);
    DivModIs(x, 2 * p, q / p, 2 * (q % p) + x % 2);
  }

  // Clearing the lower bits of two numbers makes them equal just when their upper bits are.
  lemma ClearedEqual(x: nat, y: nat, k: nat)
    ensures x - x % Pow2(k) == y - y % Pow2(k) <==> ShiftRight(x, k) == ShiftRight(y, k)
  {
    var p := Pow2(k);
    DivModFact(x, p);
    DivModFact(y, p);
    if x - x % p == y - y % p { SameQuotient(x / p, y / p, p); }
  }

  lemma SameQuotient(a: int, b: int, p: nat)
    requires p > 0 && p * a == p * b
    ensures a == b
  {
    if a < b { MulStep(p, a, b); } else if b < a { MulStep(p, b, a); }
  }

  // ----- IPv4 --------------------------------------------------------------------------------------


  // (~0 << n) >>> 0, for a count that the shift reduces modulo 32
  function Mask(n: nat): nat { HighOnes(32, n % 32) }

  predicate Ipv4InCidr(ip: nat, base: nat, bits: nat)
    requires bits <= 32
  {
    if bits == 0 then true else And(ip, Mask(32 - bits), 32) == And(base, Mask(32 - bits), 32)
  }

  /** The mask test is prefix equality, for every prefix length. */
  lemma Ipv4InCidrIsPrefix(ip: nat, base: nat, bits: nat)
    requires ip < Pow2(32) && base < Pow2(32) && bits <= 32
    ensures Ipv4InCidr(ip, base, bits) <==> ShiftRight(ip, 32 - bits) == ShiftRight(base, 32 - bits)
  {
    hide Pow2, And, ShiftRight, HighOnes;
    if bits == 0 {
      ShiftedOut(ip, 32);
      ShiftedOut(base, 32);
    } else {
      AndHighOnes(ip, 32, 32 - bits);
      AndHighOnes(base, 32, 32 - bits);
      ClearedEqual(ip, base, 32 - bits);
    }
  }

  lemma ShiftedOut(x: nat, n: nat)
    requires x < Pow2(n)
    ensures ShiftRight(x, n) == 0
  {
    DivModIs(x, Pow2(n), 0, x);
  }

  /** Without its special case for length 0 the mask would be all ones, as a shift by 32 is none, and
      0.0.0.0/0 would admit a single address. */
  lemma ZeroBitsNeedTheirCase(ip: nat, base: nat)
    requires ip < Pow2(32) && base < Pow2(32)
    ensures And(ip, Mask(32), 32) == And(base, Mask(32), 32) <==> ip == base
  {
    hide Pow2, And;
    AndHighOnes(ip, 32, 0);
    AndHighOnes(base, 32, 0);
    ModOne(ip);
    ModOne(base);
  }

  // ----- IPv6 --------------------------------------------------------------------------------------

  // The first `bits` bits of sixteen bytes.
  function Prefix6(b: seq<Byte>, bits: nat): int
    requires |b| == 16 && bits <= 128
  {
    ShiftRight(Value(b), 128 - bits)
  }

  // i whole bytes and r more bits.
  lemma PrefixOfBytes(a: seq<Byte>, b: seq<Byte>, i: nat, r: nat)
    requires |a| == |b| == 16 && i < 16 && 0 < r <= 8
    ensures Prefix6(a, 8 * i + r) == Prefix6(b, 8 * i + r)
       <==> Value(a[..i]) == Value(b[..i]) && ShiftRight(a[i], 8 - r) == ShiftRight(b[i], 8 - r)
  {
    hide Value, Pow2;
    PrefixSplits(a, i, r);
    PrefixSplits(b, i, r);
    ByteShiftBound(a[i], r);
    ByteShiftBound(b[i], r);
    hide ShiftRight;
    var p := Pow2(r);
    var (x, y, u, v) := (Value(a[..i]), Value(b[..i]), ShiftRight(a[i], 8 - r), ShiftRight(b[i], 8 - r));
    if p * x + u == p * y + v {
      DivModIs(p * x + u, p, x, u);
      DivModIs(p * y + v, p, y, v);
    }
  }

  lemma PrefixSplits(a: seq<Byte>, i: nat, r: nat)
    requires |a| == 16 && i < 16 && 0 < r <= 8
    ensures Prefix6(a, 8 * i + r) == Pow2(r) * Value(a[..i]) + ShiftRight(a[i], 8 - r)
  {
    hide Value, Pow2;
    PrefixIsShift(a, i + 1);
    Snoc(a, i);
    ShiftTwice(Value(a), 8 * (16 - (i + 1)), 8 - r);
    assert 8 * (16 - (i + 1)) + (8 - r) == 128 - (8 * i + r);
    ByteTail(Value(a[..i]), a[i], r);
  }

  lemma ByteTail(x: nat, byte: Byte, r: nat)
    requires 0 < r <= 8
    ensures ShiftRight(256 * x + byte, 8 - r) == Pow2(r) * x + ShiftRight(byte, 8 - r)
  {
    Pow2Adds(r, 8 - r);
    Pow2Of8();
    TailInts(x, byte, Pow2(r), Pow2(8 - r));
    hide Pow2;
  }

  lemma TailInts(x: int, byte: int, p: int, q: int)
    requires q > 0 && p * q == 256
    ensures (256 * x + byte) / q == p * x + byte / q
  {
    DivModFact(byte, q);
    assert (p * q) * x == q * (p * x);
    assert q * (p * x + byte / q) == q * (p * x) + q * (byte / q);
    DivModIs(256 * x + byte, q, p * x + byte / q, byte % q);
  }

  lemma ByteShiftBound(byte: Byte, r: nat)
    requires 0 < r <= 8
    ensures 0 <= ShiftRight(byte, 8 - r) < Pow2(r)
  {
    Pow2Adds(r, 8 - r);
    Pow2Of8();
    var (p, q) := (Pow2(r), Pow2(8 - r));
    hide Pow2;
    DivModFact(byte, q);
    assert q * p == p * q;
    if byte / q >= p { MulMono(q, p, byte / q); }
  }

  // (0xff << (8 - r)) & 0xff
  function ByteMask(r: nat): nat
    requires 0 < r < 8
  {
    HighOnes(8, 8 - r)
  }

  /** The byte loop with its last masked byte is prefix equality on the 128-bit numbers, for every
      prefix length. */
  method Ipv6InCidr(ip: seq<Byte>, base: seq<Byte>, bits: nat) returns (r: bool)
    requires |ip| == |base| == 16 && bits <= 128
    ensures r <==> Prefix6(ip, bits) == Prefix6(base, bits)
  {
    hide Value, Pow2, And, ShiftRight;
    var i := 0;
    while i < 16
      invariant 0 <= i <= 16 && 8 * i <= bits && ip[..i] == base[..i]
    {
      var remaining := bits as int - 8 * i;
      if remaining <= 0 {
        WholeBytes(ip, base, i);
        return true;
      }
      if remaining >= 8 {
        if ip[i] != base[i] {
          WholeBytesDiffer(ip, base, i, bits);
          return false;
        }
        assert ip[..i + 1] == ip[..i] + [ip[i]] && base[..i + 1] == base[..i] + [base[i]];
      } else {
        PrefixOfBytes(ip, base, i, remaining);
        MaskedByte(ip[i], base[i], remaining);
        return And(ip[i], ByteMask(remaining), 8) == And(base[i], ByteMask(remaining), 8);
      }
      i := i + 1;
    }
    WholeBytes(ip, base, 16);
    return true;
  }

  lemma MaskedByte(a: Byte, b: Byte, r: nat)
    requires 0 < r < 8
    ensures And(a, ByteMask(r), 8) == And(b, ByteMask(r), 8) <==> ShiftRight(a, 8 - r) == ShiftRight(b, 8 - r)
  {
    Pow2Of8();
    hide Pow2, And, ShiftRight;
    AndHighOnes(a, 8, 8 - r);
    AndHighOnes(b, 8, 8 - r);
    ClearedEqual(a, b, 8 - r);
  }

  lemma WholeBytes(a: seq<Byte>, b: seq<Byte>, i: nat)
    requires |a| == |b| == 16 && i <= 16 && a[..i] == b[..i]
    ensures Prefix6(a, 8 * i) == Prefix6(b, 8 * i)
  {
    hide Value;
    PrefixIsShift(a, i);
    PrefixIsShift(b, i);
  }

  // A byte that differs within the prefix makes the prefixes differ.
  lemma WholeBytesDiffer(a: seq<Byte>, b: seq<Byte>, i: nat, bits: nat)
    requires |a| == |b| == 16 && i < 16 && a[i] != b[i] && 8 * i + 8 <= bits <= 128
    ensures Prefix6(a, bits) != Prefix6(b, bits)
  {
    PrefixOfBytes(a, b, i, 8);
    assert ShiftRight(a[i], 0) == a[i] && ShiftRight(b[i], 0) == b[i] by { assert Pow2(0) == 1; }
    hide Value, Pow2;
    ShiftTwice(Value(a), 128 - bits, bits - (8 * i + 8));
    ShiftTwice(Value(b), 128 - bits, bits - (8 * i + 8));
    hide ShiftRight;
  }
}
