/**
 Identifier minting in Go: 16 bytes as 26 characters of 5 bits each, taken from a window of two
 bytes. The clock and the entropy are inputs.
 */
module Ids {
  import opened Arith
  import opened Lex
  import opened Radix

  function ByteOr0(b: seq<Byte>, i: nat): Byte { if i < |b| then b[i] else 0 }

  function Pair(hi: Byte, lo: Byte): nat { hi as int * 256 + lo as int }

  // The character for bits 5 i to 5 i + 4, counted from the front.
  function CharAt(b: seq<Byte>, i: nat): char {
    var (bytePos, shift) := (5 * i / 8, 5 * i % 8);
    Digit(Low5(ShiftRight(Pair(ByteOr0(b, bytePos), ByteOr0(b, bytePos + 1)), 11 - shift)))
  }

  method EncodeBase32(b: seq<Byte>) returns (out: string)
    ensures |out| == 26 && forall i :: 0 <= i < 26 ==> out[i] == CharAt(b, i)
    ensures |b| == 16 ==> out == Base32(4 * Value(b), 26)
  {
    out := "";
    var bitPos := 0;
    for i := 0 to 26
      invariant |out| == i && bitPos == 5 * i
      invariant forall j :: 0 <= j < i ==> out[j] == CharAt(b, j)
    {
      var bytePos, shift := bitPos / 8, bitPos % 8;
      var v: nat := 0;
      if bytePos < |b| { v := b[bytePos] as int * 256; }
      if bytePos + 1 < |b| { v := v + b[bytePos + 1]; }
      out := out + [Digit(Low5(ShiftRight(v, 11 - shift)))];
      bitPos := bitPos + 5;
    }
    if |b| == 16 {
      forall i | 0 <= i < 26 ensures out[i] == Base32(4 * Value(b), 26)[i] { CharIsDigit(b, i); }
    }
  }

  // Two bytes at position p of the padded input, within the number they end.
  lemma TwoBytes(ext: seq<Byte>, p: nat, c: nat)
    requires p + 2 <= |ext| && 4 <= c <= 11
    ensures Low5(ShiftRight(Pair(ext[p], ext[p + 1]), c)) == Low5(ShiftRight(Value(ext[..p + 2]), c))
  {
    hide Value, Pow2;
    Snoc(ext, p);
    Snoc(ext, p + 1);
    var (x, y, k) := (Value(ext[..p + 2]), Pair(ext[p], ext[p + 1]), Value(ext[..p]));
    assert x == y + 65536 * k;
    Pow2Adds(c, 5);
    Pow2Of5();
    Pow2Adds(c + 5, 11 - c);
    Pow2Of16();
    WindowOf(x, y, k, Pow2(c), Pow2(11 - c));
  }

  lemma Pow2Of16()
    ensures Pow2(16) == 65536 && Pow2(14) == 16384
  {
    Pow2Of8();
    Pow2Adds(8, 8);
    Pow2Adds(8, 6);
    Pow2Of5();
    Pow2Adds(5, 1);
    assert Pow2(1) == 2;
  }

  lemma WindowOf(x: int, y: int, k: int, c: nat, e: nat)
    requires c > 0 && e > 0 && (c * 32) * e == 65536 && x == y + 65536 * k
    ensures (x / c) % 32 == (y / c) % 32
  {
    assert (c * 32) * e == c * (32 * e);
    SameWindow(x, y, k, c, e);
  }

  /** Each window of two bytes gives one digit of four times the 128-bit number: the text is left
      aligned, with two zero bits at its end. */
  lemma CharIsDigit(b: seq<Byte>, i: nat)
    requires |b| == 16 && i < 26
    ensures CharAt(b, i) == Base32(4 * Value(b), 26)[i]
  {
    hide Value, Pow2, Base32, Digit, Low5;
    var ext := b + [0, 0];
    var (p, s) := (5 * i / 8, 5 * i % 8);
    assert 5 * i == 8 * p + s && p <= 15;
    assert ByteOr0(b, p) == ext[p] && ByteOr0(b, p + 1) == ext[p + 1];
    TwoBytes(ext, p, 11 - s);
    PrefixIsShift(ext, p + 2);
    Padded(b);
    var n := Value(b);
    ShiftTwice(Value(ext), 8 * (16 - p), 11 - s);
    assert 8 * (16 - p) + (11 - s) == 14 + (125 - 5 * i);
    hide ShiftRight;
    assert Value(ext) == (4 * n) * Pow2(14);
    ShiftBack(4 * n, 14, 125 - 5 * i);
    Base32At(4 * n, 26, i);
  }

  lemma Padded(b: seq<Byte>)
    ensures Value(b + [0, 0]) == (4 * Value(b)) * Pow2(14)
  {
    ValueSplit(b, [0, 0]);
    assert [0, 0][..1] == [0] && [0][..0] == [];
    assert Value([0]) == 0 && Value([0, 0]) == 0;
    Pow2Of16();
    hide Pow2, Value;
    assert Value(b) * 65536 == (4 * Value(b)) * 16384;
  }

  lemma Pow2Of130()
    ensures Pow2(5 * 26) == 4 * Pow2(128)
  {
    Pow2Adds(2, 128);
    assert Pow2(1) == 2 && Pow2(2) == 4;
  }

  /** The encoding keeps order and loses nothing: of two 16-byte inputs, the lesser has the lesser
      text. */
  lemma EncodingOrder(a: seq<Byte>, b: seq<Byte>)
    requires |a| == |b| == 16
    ensures Less(Codes(Base32(4 * Value(a), 26)), Codes(Base32(4 * Value(b), 26))) <==> Value(a) < Value(b)
    ensures Base32(4 * Value(a), 26) == Base32(4 * Value(b), 26) <==> a == b
  {
    hide Pow2, Base32, Value, Less, Codes;
    ValueBound(a);
    ValueBound(b);
    Pow2Of130();
    Base32Order(4 * Value(a), 4 * Value(b), 26);
    if Value(a) == Value(b) { ValueInjective(a, b); }
  }

  lemma {:induction false} ValueInjective(a: seq<Byte>, b: seq<Byte>)
    requires |a| == |b| && Value(a) == Value(b)
    ensures a == b
  {
    if a != [] {
      var n := |a| - 1;
      ValueInjective(a[..n], b[..n]);
      assert a == a[..n] + [a[n]] && b == b[..n] + [b[n]];
    }
  }

  /** It is not the layout of a standard ULID, whose 26 digits are right aligned: the two agree for
      zero only. */
  lemma NotTheUlidLayout(b: seq<Byte>)
    requires |b| == 16
    ensures Base32(4 * Value(b), 26) == Base32(Value(b), 26) <==> Value(b) == 0
  {
    hide Pow2, Base32, Value, Less, Codes;
    ValueBound(b);
    Pow2Of130();
    Base32Order(4 * Value(b), Value(b), 26);
  }

  // ----- NewULID ---------------------------------------------------------------------------------

  // The six low bytes of a number, high byte first.
  function SixBytes(ms: nat): (b: seq<Byte>)
    ensures |b| == 6
  {
    var a := ms / 256;
    var b := a / 256;
    var c := b / 256;
    var d := c / 256;
    [d / 256 % 256, d % 256, c % 256, b % 256, a % 256, ms % 256]
  }

  // ms << 16 fills the first eight bytes, and the entropy overwrites the last two of them.
  function Raw(ms: nat, entropy: seq<Byte>): seq<Byte> { SixBytes(ms) + entropy }

  method NewULID(prefix: string, ms: nat, entropy: seq<Byte>) returns (id: string)
    requires |entropy| == 10
    ensures id == (if prefix == "" then "" else prefix + "_") + Base32(4 * Value(Raw(ms, entropy)), 26)
  {
    var text := EncodeBase32(Raw(ms, entropy));
    if prefix == "" { return text; }
    assert prefix + "_" + text == (prefix + "_") + text;
    return prefix + "_" + text;
  }

  lemma SixBytesValue(ms: nat)
    ensures Value(SixBytes(ms)) == ms % 0x1_0000_0000_0000
  {
    var s := SixBytes(ms);
    Snoc(s, 5); Snoc(s, 4); Snoc(s, 3); Snoc(s, 2); Snoc(s, 1); Snoc(s, 0);
    assert s[..0] == [] && s[..6] == s && Value(s[..0]) == 0;
    hide Value;
    var a := ms / 256;
    var b := a / 256;
    var c := b / 256;
    var d := c / 256;
    var e := d / 256;
    Below(e, 256, 1);
    Below(d, 65536, 256);
    Below(c, 0x100_0000, 65536);
    Below(b, 0x1_0000_0000, 0x100_0000);
    Below(a, 0x100_0000_0000, 0x1_0000_0000);
    Below(ms, 0x1_0000_0000_0000, 0x100_0000_0000);
  }

  // One more byte of a remainder.
  lemma Below(x: nat, m: nat, rest: nat)
    requires m == 256 * rest && rest > 0
    ensures x % m == 256 * ((x / 256) % rest) + x % 256
  {
    var (q, r) := (x / 256, x % 256);
    DivModFact(q, rest);
    assert 256 * (rest * (q / rest)) == m * (q / rest);
    DivModIs(x, m, q / rest, 256 * (q % rest) + r);
  }

  /** Identifiers with one prefix sort by their millisecond, up to 2^48, and then by entropy. */
  lemma NewULIDOrder(ms1: nat, e1: seq<Byte>, ms2: nat, e2: seq<Byte>)
    requires |e1| == |e2| == 10 && ms1 < 0x1_0000_0000_0000 && ms2 < 0x1_0000_0000_0000
    ensures Less(Codes(Base32(4 * Value(Raw(ms1, e1)), 26)), Codes(Base32(4 * Value(Raw(ms2, e2)), 26)))
       <==> ms1 < ms2 || (ms1 == ms2 && Value(e1) < Value(e2))
  {
    hide Pow2, Base32, Value, Less, Codes, SixBytes;
    EncodingOrder(Raw(ms1, e1), Raw(ms2, e2));
    ValueSplit(SixBytes(ms1), e1);
    ValueSplit(SixBytes(ms2), e2);
    SixBytesValue(ms1);
    SixBytesValue(ms2);
    ValueBound(e1);
    ValueBound(e2);
    var q := Pow2(80);
    if ms1 < ms2 { MulStep(q, ms1, ms2); assert q * ms1 == ms1 * q && q * ms2 == ms2 * q; }
    if ms2 < ms1 { MulStep(q, ms2, ms1); assert q * ms1 == ms1 * q && q * ms2 == ms2 * q; }
  }
}
