/**
 Blocklist membership: a Bloom filter over a byte array, and the sorted table of digests that
 removes its false positives.

 The 64-bit hash of an entry is an input. A bitwise operation with a one-bit mask is written on
 the binary digits of the number; the 32-bit conversion that `>>` makes of a position is
 written out.
 */
module Bloom {
  import opened Wrappers
  import opened Radix


  // ----- Bits ------------------------------------------------------------------------------------

  // (x & (1 << n)) !== 0
  predicate BitOf(x: nat, n: nat) { if n == 0 then x % 2 == 1 else BitOf(x / 2, n - 1) }

  // x | (1 << n)
  function WithBit(x: nat, n: nat): nat {
    if n == 0 then (if x % 2 == 1 then x else x + 1) else 2 * WithBit(x / 2, n - 1) + x % 2
  }

  lemma Unfolded(x: nat, n: nat, width: nat)
    requires width > 0
    ensures Pow2(width) == 2 * Pow2(width - 1)
    ensures n == 0 ==> WithBit(x, n) == if x % 2 == 1 then x else x + 1
    ensures n > 0 ==> WithBit(x, n) == 2 * WithBit(x / 2, n - 1) + x % 2
  {
  }

  lemma {:induction false} WithBitBound(x: nat, n: nat, width: nat)
    requires n < width && x < Pow2(width)
    ensures WithBit(x, n) < Pow2(width)
  {
    hide Pow2, WithBit;
    Unfolded(x, n, width);
    if n > 0 { WithBitBound(x / 2, n - 1, width - 1); }
  }

  lemma {:induction false} WithBitBits(x: nat, n: nat, m: nat)
    ensures BitOf(WithBit(x, n), m) <==> m == n || BitOf(x, m)
  {
    if n > 0 {
      assert WithBit(x, n) / 2 == WithBit(x / 2, n - 1) && WithBit(x, n) % 2 == x % 2;
      if m > 0 { WithBitBits(x / 2, n - 1, m - 1); }
    } else if m > 0 {
      assert WithBit(x, 0) / 2 == x / 2;
    }
  }

  function SetInByte(x: Byte, n: nat): (y: Byte)
    requires n < 8
    ensures forall m :: BitOf(y, m) <==> m == n || BitOf(x, m)
  {
    assert Pow2(8) == 256;
    WithBitBound(x, n, 8);
    assert forall m :: BitOf(WithBit(x, n), m) <==> m == n || BitOf(x, m) by {
      forall m ensures BitOf(WithBit(x, n), m) <==> m == n || BitOf(x, m) { WithBitBits(x, n, m); }
    }
    WithBit(x, n)
  }

  // ----- Slots -----------------------------------------------------------------------------------

  // pos >> 3, negative for positions from 2^31 on
  function ByteIndex(pos: nat): int { ToInt32(pos) / 8 }

  // Reading outside the array gives no bit, writing outside it does nothing.
  predicate TestBit(bits: seq<Byte>, pos: nat) {
    0 <= ByteIndex(pos) < |bits| && BitOf(bits[ByteIndex(pos)], pos % 8)
  }

  function SetBit(bits: seq<Byte>, pos: nat): seq<Byte> {
    if 0 <= ByteIndex(pos) < |bits| then bits[ByteIndex(pos) := SetInByte(bits[ByteIndex(pos)], pos % 8)] else bits
  }

  predicate SameSlot(p: nat, q: nat) { ByteIndex(p) == ByteIndex(q) && p % 8 == q % 8 }

  lemma SetBitTest(bits: seq<Byte>, p: nat, q: nat)
    ensures TestBit(SetBit(bits, p), q) <==> TestBit(bits, q) || (SameSlot(p, q) && 0 <= ByteIndex(p) < |bits|)
  {
    hide ByteIndex, BitOf;
  }

  lemma SetBitLength(bits: seq<Byte>, p: nat)
    ensures |SetBit(bits, p)| == |bits|
  {
  }

  lemma Unreachable(bits: seq<Byte>, p: nat)
    requires ByteIndex(p) < 0 || bits == []
    ensures !TestBit(bits, p)
  {
  }

  lemma SlotsBelowTwo31(p: nat, q: nat)
    requires p < TWO31 && q < TWO31
    ensures SameSlot(p, q) <==> p == q
    ensures ByteIndex(p) == p / 8
  {
  }

  lemma SlotAboveTwo31(p: nat)
    requires TWO31 <= p < TWO32
    ensures ByteIndex(p) < 0
  {
  }

  // ----- Positions of an entry ---------------------------------------------------------------------

  type HashOf = string -> nat

  const GOLDEN_RATIO := 0x9e3779b9

  // Double hashing with the two halves of a 64-bit hash. Without bits the remainder is not a
  // number, which the shift and the mask that follow turn into 0.
  function Position(h: nat, mBits: nat, i: nat): nat {
    var h2 := (h / TWO32) % TWO32;
    if mBits == 0 then 0 else (h % TWO32 + i * (if h2 == 0 then GOLDEN_RATIO else h2)) % mBits
  }

  function PositionsFrom(h: nat, mBits: nat, k: nat, i: nat): (ps: seq<nat>)
    requires i <= k
    ensures |ps| == k - i && (mBits > 0 ==> forall j :: 0 <= j < |ps| ==> ps[j] < mBits)
    decreases k - i
  {
    if i == k then [] else [Position(h, mBits, i)] + PositionsFrom(h, mBits, k, i + 1)
  }

  function Positions(h: nat, mBits: nat, k: nat): (ps: seq<nat>)
    ensures |ps| == k && (mBits > 0 ==> forall j :: 0 <= j < |ps| ==> ps[j] < mBits)
  {
    PositionsFrom(h, mBits, k, 0)
  }

  lemma {:induction false} PositionsFromAre(h: nat, mBits: nat, k: nat, i: nat, j: nat)
    requires i <= j < k
    ensures PositionsFrom(h, mBits, k, i)[j - i] == Position(h, mBits, j)
    decreases k - i
  {
    if i < j { PositionsFromAre(h, mBits, k, i + 1, j); }
  }

  /** The positions start at the low half of the hash and go on in strides of the high half, or of the
      golden ratio if that is zero, round the filter's bits. */
  lemma PositionsStride(low: nat, high: nat, mBits: nat, k: nat, j: nat) returns (turns: int)
    requires low < TWO32 && high < TWO32 && 0 < mBits && j < k
    ensures var (h, stride) := (high * TWO32 + low, if high == 0 then 0x9e3779b9 else high);
            && 0 <= Positions(h, mBits, k)[j] < mBits
            && low + j * stride == turns * mBits + Positions(h, mBits, k)[j]
  {
    var h := high * TWO32 + low;
    var x := low + j * (if high == 0 then 0x9e3779b9 else high);
    Halves(low, high);
    PositionsFromAre(h, mBits, k, 0, j);
    assert Position(h, mBits, j) == x % mBits;
    hide Position, PositionsFrom;
    turns := x / mBits;
    Quotient(x, mBits);
  }

  lemma Halves(low: nat, high: nat)
    requires low < TWO32 && high < TWO32
    ensures var h := high * TWO32 + low; (h / TWO32) % TWO32 == high && h % TWO32 == low
  {
  }

  lemma Quotient(x: int, m: nat)
    requires m > 0
    ensures x == (x / m) * m + x % m && 0 <= x % m < m
  {
  }

  function SetAll(bits: seq<Byte>, ps: seq<nat>): seq<Byte>
    decreases |ps|
  {
    if ps == [] then bits else SetAll(SetBit(bits, ps[0]), ps[1..])
  }

  predicate TestAll(bits: seq<Byte>, ps: seq<nat>) { forall j :: 0 <= j < |ps| ==> TestBit(bits, ps[j]) }

  // ----- The filter as an object ---------------------------------------------------------------------

  class BloomFilter {
    const mBits: nat
    const k: nat
    const bits: array<Byte>
    const hashOf: HashOf

    constructor (mBits: nat, k: nat, bits: array<Byte>, hashOf: HashOf)
      ensures this.mBits == mBits && this.k == k && this.bits == bits && this.hashOf == hashOf
    {
      this.mBits, this.k, this.bits, this.hashOf := mBits, k, bits, hashOf;
    }

    method PositionsOf(item: string) returns (out: seq<nat>)
      ensures out == Positions(hashOf(item), mBits, k)
    {
      out := [];
      var i := 0;
      while i < k
        invariant 0 <= i <= k
        invariant out + PositionsFrom(hashOf(item), mBits, k, i) == PositionsFrom(hashOf(item), mBits, k, 0)
      {
        out := out + [Position(hashOf(item), mBits, i)];
        i := i + 1;
      }
    }

    method Add(item: string)
      modifies bits
      ensures bits[..] == SetAll(old(bits[..]), Positions(hashOf(item), mBits, k))
    {
      var ps := PositionsOf(item);
      ghost var before := bits[..];
      var j := 0;
      assert ps[0..] == ps;
      while j < |ps|
        invariant 0 <= j <= |ps|
        invariant SetAll(bits[..], ps[j..]) == SetAll(before, ps)
      {
        ghost var now := bits[..];
        assert ps[j..][0] == ps[j] && ps[j..][1..] == ps[j + 1..];
        var byte := ByteIndex(ps[j]);
        if 0 <= byte < bits.Length { bits[byte] := SetInByte(bits[byte], ps[j] % 8); }
        assert bits[..] == SetBit(now, ps[j]);
        j := j + 1;
      }
    }

    method Has(item: string) returns (r: bool)
      ensures r == TestAll(bits[..], Positions(hashOf(item), mBits, k))
    {
      var ps := PositionsOf(item);
      var j := 0;
      while j < |ps|
        invariant 0 <= j <= |ps|
        invariant forall l :: 0 <= l < j ==> TestBit(bits[..], ps[l])
      {
        var byte := ByteIndex(ps[j]);
        if !(0 <= byte < bits.Length) || !BitOf(bits[byte], ps[j] % 8) {
          assert !TestBit(bits[..], ps[j]);
          return false;
        }
        j := j + 1;
      }
      return true;
    }
  }

  // ----- What the filter answers -----------------------------------------------------------------------

  lemma {:induction false} SetAllLength(bits: seq<Byte>, ps: seq<nat>)
    ensures |SetAll(bits, ps)| == |bits|
    decreases |ps|
  {
    hide ByteIndex;
    if ps != [] { SetAllLength(SetBit(bits, ps[0]), ps[1..]); }
  }

  predicate Hits(ps: seq<nat>, n: nat, q: nat) {
    exists j :: 0 <= j < |ps| && SameSlot(ps[j], q) && 0 <= ByteIndex(ps[j]) < n
  }

  lemma {:induction false} SetAllTest(bits: seq<Byte>, ps: seq<nat>, q: nat)
    ensures TestBit(SetAll(bits, ps), q) <==> TestBit(bits, q) || Hits(ps, |bits|, q)
    decreases |ps|
  {
    hide ByteIndex, TestBit, SameSlot, SetBit;
    if ps != [] {
      SetBitTest(bits, ps[0], q);
      SetBitLength(bits, ps[0]);
      SetAllTest(SetBit(bits, ps[0]), ps[1..], q);
      if Hits(ps[1..], |bits|, q) {
        var j :| 0 <= j < |ps[1..]| && SameSlot(ps[1..][j], q) && 0 <= ByteIndex(ps[1..][j]) < |bits|;
        assert ps[j + 1] == ps[1..][j];
      }
      if Hits(ps, |bits|, q) {
        var j :| 0 <= j < |ps| && SameSlot(ps[j], q) && 0 <= ByteIndex(ps[j]) < |bits|;
        if j > 0 { assert ps[1..][j - 1] == ps[j]; }
      }
    }
  }

  // Entries added one after the other to a filter of n zero bytes.
  function Built(n: nat, mBits: nat, k: nat, entries: seq<string>, hashOf: HashOf): (bits: seq<Byte>)
  {
    if entries == [] then seq(n, i => 0)
    else SetAll(Built(n, mBits, k, entries[..|entries| - 1], hashOf),
                Positions(hashOf(entries[|entries| - 1]), mBits, k))
  }

  predicate SomeEntryHits(n: nat, mBits: nat, k: nat, entries: seq<string>, hashOf: HashOf, q: nat)
  {
    exists e :: 0 <= e < |entries| && Hits(Positions(hashOf(entries[e]), mBits, k), n, q)
  }

  lemma {:induction false} NoBits(m: nat)
    ensures !BitOf(0, m)
  {
    if m > 0 { NoBits(m - 1); }
  }

  lemma {:induction false} BuiltTest(n: nat, mBits: nat, k: nat, entries: seq<string>, hashOf: HashOf, q: nat)
    ensures |Built(n, mBits, k, entries, hashOf)| == n
    ensures TestBit(Built(n, mBits, k, entries, hashOf), q) <==> SomeEntryHits(n, mBits, k, entries, hashOf, q)
  {
    hide ByteIndex, Hits, Positions, SetAll, BitOf;
    if entries == [] {
      NoBits(q % 8);
    } else {
      var (front, last) := (entries[..|entries| - 1], entries[|entries| - 1]);
      BuiltTest(n, mBits, k, front, hashOf, q);
      var bits := Built(n, mBits, k, front, hashOf);
      hide TestBit;
      SetAllTest(bits, Positions(hashOf(last), mBits, k), q);
      SetAllLength(bits, Positions(hashOf(last), mBits, k));
      if SomeEntryHits(n, mBits, k, front, hashOf, q) {
        var e :| 0 <= e < |front| && Hits(Positions(hashOf(front[e]), mBits, k), n, q);
        assert entries[e] == front[e];
      }
      if SomeEntryHits(n, mBits, k, entries, hashOf, q) {
        var e :| 0 <= e < |entries| && Hits(Positions(hashOf(entries[e]), mBits, k), n, q);
        assert e < |front| ==> front[e] == entries[e];
      }
    }
  }

  // The bytes that mBits bits take up.
  function Bytes(mBits: nat): nat { (mBits + 7) / 8 }

  lemma HitsBelowTwo31(ps: seq<nat>, mBits: nat, q: nat)
    requires mBits <= TWO31 && q < mBits && forall j :: 0 <= j < |ps| ==> ps[j] < mBits
    ensures Hits(ps, Bytes(mBits), q) <==> q in ps
  {
    hide SameSlot, ByteIndex;
    forall j | 0 <= j < |ps| ensures (SameSlot(ps[j], q) <==> ps[j] == q) && 0 <= ByteIndex(ps[j]) < Bytes(mBits) {
      SlotsBelowTwo31(ps[j], q);
    }
  }

  /** Up to 2^31 bits the filter is exactly what a Bloom filter should be: an entry is reported
      present just when each of its positions is a position of some added entry. */
  lemma FilterIsPositionSet(mBits: nat, k: nat, entries: seq<string>, hashOf: HashOf, item: string)
    requires 0 < mBits <= TWO31
    ensures TestAll(Built(Bytes(mBits), mBits, k, entries, hashOf), Positions(hashOf(item), mBits, k))
       <==> forall j :: 0 <= j < k ==> Taken(Positions(hashOf(item), mBits, k)[j], mBits, k, entries, hashOf)
  {
    hide Positions, TestBit, Built, Taken;
    var ps := Positions(hashOf(item), mBits, k);
    forall j | 0 <= j < k
      ensures TestBit(Built(Bytes(mBits), mBits, k, entries, hashOf), ps[j])
              <==> Taken(ps[j], mBits, k, entries, hashOf)
    {
      TestIsTaken(mBits, k, entries, hashOf, ps[j]);
    }
  }

  // The position belongs to some entry.
  predicate Taken(q: nat, mBits: nat, k: nat, entries: seq<string>, hashOf: HashOf) {
    exists e :: 0 <= e < |entries| && q in Positions(hashOf(entries[e]), mBits, k)
  }

  lemma TestIsTaken(mBits: nat, k: nat, entries: seq<string>, hashOf: HashOf, q: nat)
    requires 0 < mBits <= TWO31 && q < mBits
    ensures TestBit(Built(Bytes(mBits), mBits, k, entries, hashOf), q) <==> Taken(q, mBits, k, entries, hashOf)
  {
    hide Positions, TestBit, Hits, Built, Bytes;
    BuiltTest(Bytes(mBits), mBits, k, entries, hashOf, q);
    forall e | 0 <= e < |entries|
      ensures Hits(Positions(hashOf(entries[e]), mBits, k), Bytes(mBits), q)
              <==> q in Positions(hashOf(entries[e]), mBits, k)
    {
      HitsBelowTwo31(Positions(hashOf(entries[e]), mBits, k), mBits, q);
    }
  }

  /** No false negatives up to 2^31 bits: whatever was added before and after. */
  lemma NoFalseNegatives(mBits: nat, k: nat, entries: seq<string>, hashOf: HashOf, e: nat)
    requires 0 < mBits <= TWO31 && e < |entries|
    ensures TestAll(Built(Bytes(mBits), mBits, k, entries, hashOf), Positions(hashOf(entries[e]), mBits, k))
  {
    hide Positions, TestAll, Built;
    FilterIsPositionSet(mBits, k, entries, hashOf, entries[e]);
    var ps := Positions(hashOf(entries[e]), mBits, k);
    forall j | 0 <= j < k ensures Taken(ps[j], mBits, k, entries, hashOf) {
      assert ps[j] in Positions(hashOf(entries[e]), mBits, k);
    }
  }

  /** Beyond that the shift makes positions from 2^31 on negative and their bits are neither
      written nor read: an entry is found after being added exactly when there are bits at all
      and none of its positions lies there. */
  lemma AddedIsFoundIff(bits: seq<Byte>, mBits: nat, k: nat, h: nat)
    requires mBits <= TWO32 && |bits| == Bytes(mBits)
    ensures var ps := Positions(h, mBits, k);
            TestAll(SetAll(bits, ps), ps) <==> k == 0 || (mBits > 0 && forall j :: 0 <= j < |ps| ==> ps[j] < TWO31)
  {
    hide Positions, SetAll, TestBit, Hits;
    var ps := Positions(h, mBits, k);
    forall j | 0 <= j < |ps| ensures TestBit(SetAll(bits, ps), ps[j]) <==> mBits > 0 && ps[j] < TWO31 {
      SetAllTest(bits, ps, ps[j]);
      SetAllLength(bits, ps);
      if mBits == 0 {
        Unreachable(SetAll(bits, ps), ps[j]);
      } else if ps[j] < TWO31 {
        OwnSlotHit(ps, mBits, j);
      } else {
        SlotAboveTwo31(ps[j]);
        Unreachable(SetAll(bits, ps), ps[j]);
      }
    }
    if k > 0 {
      var first := ps[0];
      assert TestBit(SetAll(bits, ps), first) <==> mBits > 0 && first < TWO31;
    }
  }

  lemma OwnSlotHit(ps: seq<nat>, mBits: nat, j: nat)
    requires j < |ps| && ps[j] < mBits && ps[j] < TWO31
    ensures Hits(ps, Bytes(mBits), ps[j])
  {
    SlotsBelowTwo31(ps[j], ps[j]);
    hide ByteIndex;
    assert SameSlot(ps[j], ps[j]) && 0 <= ByteIndex(ps[j]) < Bytes(mBits);
  }

  // ----- Wire form -----------------------------------------------------------------------------------

  datatype Filter = Filter(mBits: nat, k: nat, bits: seq<Byte>)

  const MAGIC: seq<Byte> := [0x50, 0x43, 0x42, 0x31]

  function Byte0(n: nat): Byte { n % 256 }

  // A 32-bit number, low byte first; larger ones lose their upper part.
  function Le32(n: nat): seq<Byte> {
    var (b, c, d) := (n / 0x100, n / 0x100 / 0x100, n / 0x100 / 0x100 / 0x100);
    [Byte0(n), Byte0(b), Byte0(c), Byte0(d)]
  }

  function FromLe32(a: Byte, b: Byte, c: Byte, d: Byte): nat { a + 0x100 * (b + 0x100 * (c + 0x100 * d)) }

  function ToWire(f: Filter): seq<Byte> {
    MAGIC + Le32(f.mBits) + [Byte0(f.k), 0, 0, 0] + f.bits
  }

  datatype WireError = TooShort | BadMagic | LengthMismatch | KOutOfRange

  function FromWire(raw: seq<Byte>): Result<Filter, WireError> {
    if |raw| < 12 then Err(TooShort)
    else if raw[..4] != MAGIC then Err(BadMagic)
    else
      var mBits := FromLe32(raw[4], raw[5], raw[6], raw[7]);
      if |raw| - 12 != Bytes(mBits) then Err(LengthMismatch)
      else if raw[8] < 1 || raw[8] > 64 then Err(KOutOfRange)
      else Ok(Filter(mBits, raw[8], raw[12..]))
  }

  lemma Le32Reads(n: nat)
    requires n < TWO32
    ensures FromLe32(Le32(n)[0], Le32(n)[1], Le32(n)[2], Le32(n)[3]) == n
  {
    var (b, c, d) := (n / 0x100, n / 0x100 / 0x100, n / 0x100 / 0x100 / 0x100);
    assert n == 0x100 * b + n % 0x100 && b == 0x100 * c + b % 0x100 && c == 0x100 * d + c % 0x100;
    assert d < 0x100;
  }

  lemma OneByte(a: Byte, rest: nat)
    ensures (a + 0x100 * rest) % 0x100 == a && (a + 0x100 * rest) / 0x100 == rest
  {
  }

  lemma Le32Writes(a: Byte, b: Byte, c: Byte, d: Byte)
    ensures Le32(FromLe32(a, b, c, d)) == [a, b, c, d] && FromLe32(a, b, c, d) < TWO32
  {
    OneByte(a, b + 0x100 * (c + 0x100 * d));
    OneByte(b, c + 0x100 * d);
    OneByte(c, d);
    OneByte(d, 0);
  }

  lemma Le32Length(n: nat)
    ensures |Le32(n)| == 4
  {
  }

  lemma WireParts(f: Filter)
    ensures var raw := ToWire(f);
            && |raw| == 12 + |f.bits| && raw[..4] == MAGIC && raw[4..8] == Le32(f.mBits)
            && raw[8] == Byte0(f.k) && raw[9] == raw[10] == raw[11] == 0 && raw[12..] == f.bits
  {
    hide Le32;
    Le32Length(f.mBits);
  }

  /** The wire form, byte by byte: "PCB1", the number of bits with its low byte first, the number of
      hashes, three zero bytes, the bits. */
  lemma WireLayout(f: Filter)
    requires f.mBits < TWO32 && f.k < 256
    ensures var raw := ToWire(f);
            && |raw| == 12 + |f.bits|
            && raw[0] == 'P' as int && raw[1] == 'C' as int && raw[2] == 'B' as int && raw[3] == '1' as int
            && f.mBits == raw[4] as int + 256 * (raw[5] as int) + 65536 * (raw[6] as int) + 16777216 * (raw[7] as int)
            && raw[8] == f.k && raw[9] == raw[10] == raw[11] == 0
            && forall i :: 0 <= i < |f.bits| ==> raw[12 + i] == f.bits[i]
  {
    WireParts(f);
    Le32Reads(f.mBits);
    var raw := ToWire(f);
    hide ToWire, Le32;
    Le32Length(f.mBits);
    assert raw[4] == raw[4..8][0] && raw[5] == raw[4..8][1] && raw[6] == raw[4..8][2] && raw[7] == raw[4..8][3];
    assert raw[0] == raw[..4][0] && raw[1] == raw[..4][1] && raw[2] == raw[..4][2] && raw[3] == raw[..4][3];
    forall i | 0 <= i < |f.bits| ensures raw[12 + i] == f.bits[i] { assert raw[12..][i] == f.bits[i]; }
  }

  /** A filter goes through its wire form unharmed exactly when it is one the reader can accept:
      fewer than 2^32 bits, 1 to 64 hashes, and as many bytes as the bits need. */
  lemma WireRoundTrip(f: Filter)
    ensures FromWire(ToWire(f)) == Ok(f) <==> f.mBits < TWO32 && 1 <= f.k <= 64 && |f.bits| == Bytes(f.mBits)
  {
    hide ToWire, Le32, FromLe32, Bytes;
    var raw := ToWire(f);
    WireParts(f);
    Le32Writes(raw[4], raw[5], raw[6], raw[7]);
    assert raw[4..8] == [raw[4], raw[5], raw[6], raw[7]];
    if f.mBits < TWO32 { Le32Reads(f.mBits); }
  }

  /** What the reader accepts it writes back unchanged, but for the flags and reserved bytes. */
  lemma WireRewrites(raw: seq<Byte>)
    requires FromWire(raw).Ok?
    ensures ToWire(FromWire(raw).value) == raw <==> raw[9] == raw[10] == raw[11] == 0
  {
    var f := FromWire(raw).value;
    Le32Writes(raw[4], raw[5], raw[6], raw[7]);
    WireParts(f);
    var out := ToWire(f);
    assert raw[4..8] == [raw[4], raw[5], raw[6], raw[7]];
    assert out[8] == raw[8];
    hide *;
    SameParts(out, raw);
  }

  lemma SameParts(a: seq<Byte>, b: seq<Byte>)
    requires |a| >= 12 && |b| >= 12 && a[..4] == b[..4] && a[4..8] == b[4..8] && a[8] == b[8] && a[12..] == b[12..]
    ensures a == b <==> a[9] == b[9] && a[10] == b[10] && a[11] == b[11]
  {
    assert a == a[..4] + a[4..8] + [a[8], a[9], a[10], a[11]] + a[12..];
    assert b == b[..4] + b[4..8] + [b[8], b[9], b[10], b[11]] + b[12..];
  }
}
