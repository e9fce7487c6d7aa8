/** Numbers as bytes and as base-32 digits, most significant first. */
module Radix {
  import opened Arith
  import opened Lex

  type Byte = x: int | 0 <= x < 256

  const TWO31 := 0x8000_0000
  const TWO32 := 0x1_0000_0000

  // What a bitwise operator makes of a number: 32 bits, the highest of them the sign.
  function ToInt32(x: int): int { if x % TWO32 < TWO31 then x % TWO32 else x % TWO32 - TWO32 }

  function Pow2(n: nat): (p: nat)
    ensures p >= 1
  {
    if n == 0 then 1 else 2 * Pow2(n - 1)
  }

  lemma {:induction false} Pow2Adds(a: nat, b: nat)
    ensures Pow2(a + b) == Pow2(a) * Pow2(b)
  {
    if a > 0 {
      Pow2Adds(a - 1, b);
      var (p, q) := (Pow2(a - 1), Pow2(b));
      assert Pow2(a) == 2 * p && Pow2(a + b) == 2 * Pow2(a - 1 + b);
      hide Pow2;
      MulAssoc(2, p, q);
    } else {
      assert Pow2(0) == 1 && a + b == b;
    }
  }

  function Value(bytes: seq<Byte>): nat {
    if bytes == [] then 0 else 256 * Value(bytes[..|bytes| - 1]) + bytes[|bytes| - 1]
  }

  const ENCODING := "0123456789ABCDEFGHJKMNPQRSTVWXYZ"

  function Digit(d: int): char
    requires 0 <= d < 32
  {
    ENCODING[d]
  }

  /** The alphabet is Crockford's: the digits, then the capital letters without I, L, O and U. */
  lemma CrockfordAlphabet(d: int)
    requires 0 <= d < 32
    ensures Digit(d) as int == if d < 10 then '0' as int + d else if d < 18 then 'A' as int + d - 10
                               else if d < 20 then 'J' as int + d - 18 else if d < 22 then 'M' as int + d - 20
                               else if d < 27 then 'P' as int + d - 22 else 'V' as int + d - 27
  {
  }

  lemma DigitsAscend(c: int, d: int)
    requires 0 <= c < 32 && 0 <= d < 32
    ensures Digit(c) as int < Digit(d) as int <==> c < d
    ensures Digit(c) == Digit(d) <==> c == d
  {
    assert forall i :: 0 <= i < 31 ==> ENCODING[i] as int < ENCODING[i + 1] as int;
    if c < d { Climbs(c, d); } else if d < c { Climbs(d, c); }
  }

  lemma {:induction false} Climbs(c: int, d: int)
    requires 0 <= c < d < 32
    ensures Digit(c) as int < Digit(d) as int
    decreases d
  {
    assert ENCODING[d - 1] as int < ENCODING[d] as int;
    if c < d - 1 { Climbs(c, d - 1); }
  }

  // The last len base-32 digits of n.
  function Base32(n: nat, len: nat): (s: string)
    ensures |s| == len
  {
    if len == 0 then "" else Base32(n / 32, len - 1) + [Digit(n % 32)]
  }

  /** Of two numbers with enough digits, the greater has the greater text. */
  lemma {:induction false} Base32Order(n: nat, m: nat, len: nat)
    requires n < Pow2(5 * len) && m < Pow2(5 * len)
    ensures Less(Codes(Base32(n, len)), Codes(Base32(m, len))) <==> n < m
    ensures Base32(n, len) == Base32(m, len) <==> n == m
    decreases len
  {
    if len > 0 {
      Fits(n, len);
      Fits(m, len);
      Base32Order(n / 32, m / 32, len - 1);
      DigitsAscend(n % 32, m % 32);
      var (a, b) := (Base32(n / 32, len - 1), Base32(m / 32, len - 1));
      var (x, y) := (Digit(n % 32), Digit(m % 32));
      CodesSnoc(a, x);
      CodesSnoc(b, y);
      LessSnoc(Codes(a), Codes(b), x as int, y as int);
      SnocEqual(a, b, x, y);
      CodesEqual(a, b);
      hide Less, Digit, Codes, Pow2;
    }
  }

  lemma Fits(n: nat, len: nat)
    requires len > 0 && n < Pow2(5 * len)
    ensures n / 32 < Pow2(5 * (len - 1))
  {
    var k := 5 * (len - 1);
    assert 5 * len == k + 5 && Pow2(k + 5) == 2 * Pow2(k + 4) && Pow2(k + 4) == 2 * Pow2(k + 3);
    assert Pow2(k + 3) == 2 * Pow2(k + 2) && Pow2(k + 2) == 2 * Pow2(k + 1) && Pow2(k + 1) == 2 * Pow2(k);
  }

  lemma CodesSnoc(s: string, c: char)
    ensures Codes(s + [c]) == Codes(s) + [c as int]
  {
  }

  lemma CodesEqual(a: string, b: string)
    requires |a| == |b|
    ensures Codes(a) == Codes(b) <==> a == b
  {
    if Codes(a) == Codes(b) {
      forall i | 0 <= i < |a| ensures a[i] == b[i] { assert Codes(a)[i] == Codes(b)[i]; }
    }
  }

  lemma SnocEqual<T>(a: seq<T>, b: seq<T>, x: T, y: T)
    ensures a + [x] == b + [y] <==> a == b && x == y
  {
    if a + [x] == b + [y] {
      assert (a + [x])[..|a|] == a && (b + [y])[..|b|] == b;
      assert (a + [x])[|a|] == x && (b + [y])[|b|] == y;
    }
  }

  lemma Base32Snoc(n: nat, len: nat)
    requires len > 0
    ensures Base32(n, len) == Base32(n / 32, len - 1) + [Digit(n % 32)]
  {
  }

  // n followed by b digits
  function Shifted(n: nat, b: nat): nat { n * Pow2(5 * b) }

  /** Digits of a high and of a low part, one behind the other, are the digits of the whole. */
  lemma {:induction false} Base32Joins(n: nat, m: nat, a: nat, b: nat)
    requires m < Pow2(5 * b)
    ensures Base32(n, a) + Base32(m, b) == Base32(Shifted(n, b) + m, a + b)
    decreases b
  {
    hide Base32, Pow2, Shifted, Digit;
    Split32(n, m, b);
    if b == 0 {
      assert Base32(m, 0) == "" && Base32(n, a) + "" == Base32(n, a);
    } else {
      Fits(m, b);
      Base32Joins(n, m / 32, a, b - 1);
      Base32Snoc(Shifted(n, b) + m, a + b);
      Base32Snoc(m, b);
      assert Base32(n, a) + (Base32(m / 32, b - 1) + [Digit(m % 32)])
          == (Base32(n, a) + Base32(m / 32, b - 1)) + [Digit(m % 32)];
    }
  }

  lemma Split32(n: nat, m: nat, b: nat)
    requires b == 0 ==> m < Pow2(0)
    ensures b == 0 ==> Shifted(n, b) + m == n
    ensures b > 0 ==>
      (Shifted(n, b) + m) % 32 == m % 32 && (Shifted(n, b) + m) / 32 == Shifted(n, b - 1) + m / 32
  {
    if b == 0 {
      assert Pow2(5 * b) == 1;
    } else {
      Pow2Adds(5, 5 * (b - 1));
      Pow2Of5();
      SplitInts(n, m, Pow2(5 * (b - 1)));
      hide Pow2;
    }
  }

  lemma SplitInts(n: nat, m: nat, p: nat)
    ensures (n * (32 * p) + m) % 32 == m % 32 && (n * (32 * p) + m) / 32 == n * p + m / 32
  {
    assert n * (32 * p) == 32 * (n * p);
    DivModIs(32 * (n * p) + m, 32, n * p + m / 32, m % 32);
  }

  lemma Pow2Of5()
    ensures Pow2(5) == 32
  {
    assert Pow2(1) == 2 && Pow2(2) == 4 && Pow2(3) == 8 && Pow2(4) == 16;
  }

  // ----- Windows of bits -----------------------------------------------------------------------------

  lemma DivDiv(x: int, a: nat, b: nat)
    requires a > 0 && b > 0
    ensures a * b > 0 && (x / a) / b == x / (a * b)
  {
    MulStep(a, 0, b);
    DivModFact(x, a);
    DivModFact(x / a, b);
    var (q, r) := (x / a, x % a);
    var (q', r') := (q / b, q % b);
    assert x == a * (b * q' + r') + r;
    assert a * (b * q' + r') == (a * b) * q' + a * r' by { assert a * (b * q') == (a * b) * q'; }
    MulNonneg(a, r');
    MulStep(a, r', b);
    DivModIs(x, a * b, q', a * r' + r);
  }

  // Five bits from bit c on do not depend on bits from c + 5 on.
  lemma SameWindow(x: int, y: int, k: int, c: nat, e: nat)
    requires c > 0 && e > 0 && x == y + (c * (32 * e)) * k
    ensures (x / c) % 32 == (y / c) % 32
  {
    DivModFact(y, c);
    var q := y / c;
    assert (c * (32 * e)) * k == c * (32 * e * k);
    assert x == c * (q + 32 * e * k) + y % c by { assert c * (q + 32 * e * k) == c * q + c * (32 * e * k); }
    DivModIs(x, c, q + 32 * e * k, y % c);
    DivModFact(q, 32);
    assert 32 * e * k == 32 * (e * k);
    assert q + 32 * (e * k) == 32 * (q / 32 + e * k) + q % 32;
    DivModIs(q + 32 * (e * k), 32, q / 32 + e * k, q % 32);
  }

  // ----- Shifts and bytes -----------------------------------------------------------------------------

  // x >> c, x << c, x & 31
  function ShiftRight(x: int, c: nat): (y: int)
    ensures x >= 0 ==> y >= 0
  {
    if x >= 0 then DivBounds(x, Pow2(c)); x / Pow2(c) else x / Pow2(c)
  }

  function ShiftLeft(x: int, c: nat): (y: int)
    ensures x >= 0 ==> y >= 0
  {
    if x >= 0 then MulNonneg(x, Pow2(c)); x * Pow2(c) else x * Pow2(c)
  }

  function Low5(x: int): (d: int)
    ensures 0 <= d < 32
  {
    x % 32
  }

  lemma Snoc(bytes: seq<Byte>, i: nat)
    requires i < |bytes|
    ensures Value(bytes[..i + 1]) == 256 * Value(bytes[..i]) + bytes[i]
  {
    assert bytes[..i + 1][..i] == bytes[..i];
  }

  lemma {:induction false} ValueSplit(a: seq<Byte>, b: seq<Byte>)
    ensures Value(a + b) == Value(a) * Pow2(8 * |b|) + Value(b)
    decreases |b|
  {
    if b == [] {
      assert a + b == a && Pow2(8 * |b|) == 1;
    } else {
      hide Pow2, Value;
      var n := |b| - 1;
      assert (a + b)[..|a + b| - 1] == a + b[..n];
      ValueSplit(a, b[..n]);
      Pow2Byte(n);
      LastByte(a + b);
      LastByte(b);
      Times256(Value(a), Pow2(8 * n), Value(b[..n]), b[n]);
    }
  }

  lemma LastByte(b: seq<Byte>)
    requires b != []
    ensures Value(b) == 256 * Value(b[..|b| - 1]) + b[|b| - 1]
  {
  }

  lemma Times256(x: int, p: int, y: int, c: int)
    ensures 256 * (x * p + y) + c == x * (256 * p) + (256 * y + c)
  {
    assert 256 * (x * p) == x * (256 * p);
  }

  lemma Pow2Byte(n: nat)
    ensures Pow2(8 * (n + 1)) == 256 * Pow2(8 * n)
  {
    Pow2Adds(8, 8 * n);
    Pow2Of8();
    assert 8 * (n + 1) == 8 + 8 * n;
  }

  lemma Pow2Of8()
    ensures Pow2(8) == 256
  {
    Pow2Of5();
    Pow2Adds(5, 3);
    assert Pow2(1) == 2 && Pow2(2) == 4 && Pow2(3) == 8;
  }

  lemma {:induction false} ValueBound(bytes: seq<Byte>)
    ensures Value(bytes) < Pow2(8 * |bytes|)
  {
    if bytes == [] {
      assert Pow2(8 * |bytes|) == 1;
    } else {
      var n := |bytes| - 1;
      ValueBound(bytes[..n]);
      Pow2Byte(n);
    }
  }

  lemma ShiftTwice(x: nat, a: nat, b: nat)
    ensures ShiftRight(ShiftRight(x, a), b) == ShiftRight(x, a + b)
  {
    Pow2Adds(a, b);
    DivDiv(x, Pow2(a), Pow2(b));
    hide Pow2;
  }

  // Bits shifted in are shifted out again first.
  lemma ShiftBack(x: nat, a: nat, b: nat)
    ensures ShiftRight(x * Pow2(a), a + b) == ShiftRight(x, b)
  {
    hide Pow2;
    MulNonneg(x, Pow2(a));
    ShiftTwice(x * Pow2(a), a, b);
    assert x * Pow2(a) == Pow2(a) * x + 0;
    DivModIs(x * Pow2(a), Pow2(a), x, 0);
  }

  // The first j bytes are the upper bits.
  lemma PrefixIsShift(b: seq<Byte>, j: nat)
    requires j <= |b|
    ensures Value(b[..j]) == ShiftRight(Value(b), 8 * (|b| - j))
  {
    hide Value, Pow2;
    assert b == b[..j] + b[j..];
    ValueSplit(b[..j], b[j..]);
    ValueBound(b[j..]);
    var p := Pow2(8 * (|b| - j));
    assert Value(b[..j]) * p == p * Value(b[..j]);
    DivModIs(Value(b), p, Value(b[..j]), Value(b[j..]));
  }

  lemma LowestDigit(n: nat)
    ensures Low5(ShiftRight(n, 0)) == n % 32
  {
  }

  /** The i-th of len digits is five bits of the number. */
  lemma {:induction false} Base32At(n: nat, len: nat, i: nat)
    requires i < len
    ensures Base32(n, len)[i] == Digit(Low5(ShiftRight(n, 5 * (len - 1 - i))))
    decreases len
  {
    hide Digit, Pow2, Low5;
    if i == len - 1 {
      LowestDigit(n);
    } else {
      Base32At(n / 32, len - 1, i);
      Pow2Of5();
      assert ShiftRight(n, 5) == n / 32;
      ShiftTwice(n, 5, 5 * (len - 2 - i));
      assert 5 + 5 * (len - 2 - i) == 5 * (len - 1 - i);
    }
  }
}
