/**
 Numbers of the JSON canonicaliser: integer literals, shortest decimals of doubles and the
 four layouts of section 3.2.2.3 of RFC 8785.

 Binary floating point is outside the model: a double is its shortest decimal digits and
 exponent, as strconv.FormatFloat delivers them, and a literal carries its parsed double.
 */
module JcsNumber {
  import opened Wrappers
  import opened Decimals

  // ---------------------------------------------------------------- decimal texts

  // strconv.FormatInt(i, 10).
  function IntText(i: int): string {
    if i < 0 then "-" + NatText(-i) else NatText(i)
  }

  function SignText(neg: bool): string { if neg then "-" else "" }

  function Zeros(n: nat): (s: string)
    ensures |s| == n && forall i | 0 <= i < n :: s[i] == '0'
  {
    if n == 0 then "" else Zeros(n - 1) + "0"
  }

  function Pow10(n: nat): (p: nat)
    ensures p >= 1
  {
    if n == 0 then 1 else 10 * Pow10(n - 1)
  }

  lemma {:induction false} NatTextLength(n: nat, k: nat)
    requires n < Pow10(k) && k > 0
    ensures |NatText(n)| <= k
  {
    if n >= 10 {
      NatTextLength(n / 10, k - 1);
    }
  }

  // ---------------------------------------------------------------- doubles and decimals

  // No leading and no trailing zero.
  predicate Normal(digits: string) {
    AllDigits(digits) && digits != "" && digits[0] != '0' && digits[|digits| - 1] != '0'
  }

  // d1.d2...dk * 10^exp with the shortest digits that round-trip.
  datatype Double = NonFinite | ZeroDouble(negative: bool) | Finite(neg: bool, digits: string, exp: int) {
    predicate Valid() { Finite? ==> Normal(digits) }
  }

  // The number 0.d1d2...dk * 10^point; zero has no digits.
  datatype Decimal = Decimal(neg: bool, digits: string, point: int) {
    predicate Valid() { Normal(digits) || this == Zero }
  }

  const Zero := Decimal(false, "", 0)

  function ExponentText(e: int): string {
    if e >= 0 then "e+" + NatText(e) else "e-" + NatText(-e)
  }

  // The four cases of es6Number for k digits and n digits before the point.
  function Layout(digits: string, n: int): string
    requires digits != ""
  {
    var k := |digits|;
    if k <= n <= 21 then digits + Zeros(n - k)
    else if 0 < n <= 21 then digits[..n] + ("." + digits[n..])
    else if -6 < n <= 0 then "0." + (Zeros(-n) + digits)
    else (if k > 1 then digits[..1] + ("." + digits[1..]) else digits) + ExponentText(n - 1)
  }

  function DecimalText(d: Decimal): string
    requires d.Valid()
  {
    if d == Zero then "0" else SignText(d.neg) + Layout(d.digits, d.point)
  }

  datatype NumberError = NotFinite | InvalidNumber

  // es6Number: zero of either sign is "0", everything else is laid out.
  function Es6Number(f: Double): Result<string, NumberError>
    requires f.Valid()
  {
    match f
    case NonFinite => Err(NotFinite)
    case ZeroDouble(_) => Ok("0")
    case Finite(neg, digits, exp) => Ok(SignText(neg) + Layout(digits, exp + 1))
  }

  const MIN_INT64 := -0x8000_0000_0000_0000
  const MAX_INT64 := 0x7FFF_FFFF_FFFF_FFFF

  // strconv.ParseInt(lit, 10, 64).
  function ParseInt64(lit: string): (r: Option<int>)
    ensures r.Some? ==> MIN_INT64 <= r.value <= MAX_INT64
  {
    var signed := lit != "" && (lit[0] == '-' || lit[0] == '+');
    var body := if signed then lit[1..] else lit;
    if body == "" || !AllDigits(body) then None
    else
      var n: int := NatValue(body);
      var i := if signed && lit[0] == '-' then -n else n;
      if MIN_INT64 <= i <= MAX_INT64 then Some(i) else None
  }

  // strconv.ParseUint(lit, 10, 64): no sign is accepted.
  function ParseUint64(lit: string): Option<nat> {
    if lit == "" || !AllDigits(lit) then None
    else if NatValue(lit) <= 2 * MAX_INT64 + 1 then Some(NatValue(lit)) else None
  }

  predicate IsIntegerLiteral(lit: string) { forall c <- lit :: c !in ".eE" }

  // canonicalNumber; `parsed` is what strconv.ParseFloat makes of the literal.
  function CanonicalNumber(lit: string, parsed: Option<Double>): Result<string, NumberError>
    requires parsed.Some? ==> parsed.value.Valid()
  {
    if IsIntegerLiteral(lit) && lit == "-0" then Ok("0")
    else if IsIntegerLiteral(lit) && ParseInt64(lit).Some? then Ok(IntText(ParseInt64(lit).value))
    else if IsIntegerLiteral(lit) && ParseUint64(lit).Some? && ParseUint64(lit).value < 0x20_0000_0000_0000 then
      Ok(NatText(ParseUint64(lit).value))
    else match parsed
      case None => Err(InvalidNumber)
      case Some(f) => Es6Number(f)
  }

  /** The third branch is dead: what ParseUint accepts below 2^53, ParseInt accepts. */
  lemma UnsignedBranchIsDead(lit: string)
    requires ParseUint64(lit).Some? && ParseUint64(lit).value < 0x20_0000_0000_0000
    ensures ParseInt64(lit) == Some(ParseUint64(lit).value)
  {
    assert IsDigit(lit[0]);
  }

  // ---------------------------------------------------------------- reading a number back

  // The longest run of digits and what follows it.
  function TakeDigits(s: string): (r: (string, string))
    ensures s == r.0 + r.1 && AllDigits(r.0)
  {
    if s == "" || !IsDigit(s[0]) then ("", s)
    else var (ds, rest) := TakeDigits(s[1..]); ([s[0]] + ds, rest)
  }

  lemma {:induction false} TakeAll(ds: string, rest: string)
    requires AllDigits(ds) && (rest != "" ==> !IsDigit(rest[0]))
    ensures TakeDigits(ds + rest) == (ds, rest)
  {
    if ds == "" {
      assert ds + rest == rest;
    } else {
      assert (ds + rest)[1..] == ds[1..] + rest && ds[0] in ds;
      assert ds == [ds[0]] + ds[1..];
      TakeAll(ds[1..], rest);
    }
  }

  // A number token as it is written: whole.frac * 10^exp.
  datatype Raw = Raw(neg: bool, whole: string, frac: string, exp: int) {
    predicate Valid() { AllDigits(whole) && AllDigits(frac) }
  }

  function ReadFraction(s: string): (r: (string, string))
    ensures |r.1| <= |s| && AllDigits(r.0)
  {
    if s != "" && s[0] == '.' then TakeDigits(s[1..]) else ("", s)
  }

  function ReadExponent(s: string): (r: (int, string))
    ensures |r.1| <= |s|
  {
    if |s| > 1 && s[0] == 'e' && (s[1] == '+' || s[1] == '-') then
      var (x, rest) := TakeDigits(s[2..]);
      var e: int := NatValue(x);
      (if s[1] == '-' then -e else e, rest)
    else (0, s)
  }

  function ReadRaw(s: string): (r: Option<(Raw, string)>)
    ensures r.Some? ==> r.value.0.Valid() && |r.value.1| < |s|
  {
    var neg := s != "" && s[0] == '-';
    var (whole, s1) := TakeDigits(if neg then s[1..] else s);
    if whole == "" then None
    else
      var (frac, s2) := ReadFraction(s1);
      var (exp, s3) := ReadExponent(s2);
      Some((Raw(neg, whole, frac, exp), s3))
  }

  function StripLeading(ds: string, point: int): (r: (string, int))
    ensures AllDigits(ds) ==> AllDigits(r.0)
    ensures r.0 != "" ==> r.0[0] != '0'
  {
    if ds != "" && ds[0] == '0' then StripLeading(ds[1..], point - 1) else (ds, point)
  }

  function StripTrailing(ds: string): (r: string)
    ensures r <= ds && (r != "" ==> r[|r| - 1] != '0')
  {
    if ds != "" && ds[|ds| - 1] == '0' then StripTrailing(ds[..|ds| - 1]) else ds
  }

  // The number without its superfluous zeros.
  function Normalize(neg: bool, ds: string, point: int): (d: Decimal)
    requires AllDigits(ds)
    ensures d.Valid()
  {
    var (lead, p) := StripLeading(ds, point);
    var digits := StripTrailing(lead);
    if digits == "" then Zero else Decimal(neg, digits, p)
  }

  function ReadNumber(s: string): (r: Option<(Decimal, string)>)
    ensures r.Some? ==> r.value.0.Valid() && |r.value.1| < |s|
  {
    match ReadRaw(s)
    case None => None
    case Some((raw, rest)) =>
      Some((Normalize(raw.neg, raw.whole + raw.frac, |raw.whole| + raw.exp), rest))
  }

  // What may follow a number in a document.
  predicate Stops(rest: string) {
    rest == "" || rest[0] == ',' || rest[0] == ']' || rest[0] == '}'
  }

  // ---------------------------------------------------------------- every layout reads back

  function FractionText(frac: string): string { if frac == "" then "" else "." + frac }

  function RawText(raw: Raw, exponential: bool): string {
    SignText(raw.neg) + (raw.whole + (FractionText(raw.frac) + (if exponential then ExponentText(raw.exp) else "")))
  }

  lemma Assoc(a: string, b: string, c: string)
    ensures (a + b) + c == a + (b + c)
  {
  }

  lemma ReadExponentText(e: int, rest: string)
    requires Stops(rest)
    ensures ReadExponent(ExponentText(e) + rest) == (e, rest)
  {
    var n, head := if e >= 0 then e else -e, if e >= 0 then "e+" else "e-";
    Assoc(head, NatText(n), rest);
    var s := head + (NatText(n) + rest);
    assert s[2..] == NatText(n) + rest;
    TakeAll(NatText(n), rest);
    NatTextValue(n);
    assert ReadExponent(s) == (e, rest);
  }

  lemma ReadFractionText(frac: string, tail: string)
    requires AllDigits(frac) && (tail != "" ==> tail[0] != '.' && !IsDigit(tail[0]))
    ensures ReadFraction(FractionText(frac) + tail) == (frac, tail)
  {
    var s := FractionText(frac) + tail;
    if frac == "" {
      assert s == tail;
    } else {
      assert s[1..] == frac + tail;
      TakeAll(frac, tail);
    }
  }

  lemma ReadRawText(raw: Raw, exponential: bool, rest: string)
    requires raw.Valid() && raw.whole != "" && Stops(rest) && (!exponential ==> raw.exp == 0)
    ensures ReadRaw(RawText(raw, exponential) + rest) == Some((raw, rest))
  {
    var end := if exponential then ExponentText(raw.exp) else "";
    var tail := end + rest;
    var middle := FractionText(raw.frac) + tail;
    Assoc(FractionText(raw.frac), end, rest);
    Assoc(raw.whole, FractionText(raw.frac) + end, rest);
    Assoc(SignText(raw.neg), raw.whole + (FractionText(raw.frac) + end), rest);
    var s := SignText(raw.neg) + (raw.whole + middle);
    assert s == RawText(raw, exponential) + rest;
    ReadTail(raw.exp, exponential, rest);
    ReadFractionText(raw.frac, tail);
    TakeAll(raw.whole, middle);
    ReadSign(raw.neg, raw.whole + middle);
  }

  lemma ReadTail(e: int, exponential: bool, rest: string)
    requires Stops(rest) && (!exponential ==> e == 0)
    ensures var tail := (if exponential then ExponentText(e) else "") + rest;
            ReadExponent(tail) == (e, rest) && (tail != "" ==> tail[0] != '.' && !IsDigit(tail[0]))
  {
    if exponential {
      assert (ExponentText(e) + rest)[0] == 'e';
      ReadExponentText(e, rest);
    } else {
      assert "" + rest == rest;
    }
  }

  lemma ReadSign(neg: bool, body: string)
    requires body != "" && IsDigit(body[0])
    ensures var s := SignText(neg) + body;
            (s != "" && s[0] == '-' <==> neg) && (if neg then s[1..] else s) == body
  {
  }

  // The token each of the four layouts is.
  function LayoutRaw(neg: bool, digits: string, n: int): Raw
    requires digits != ""
  {
    var k := |digits|;
    if k <= n <= 21 then Raw(neg, digits + Zeros(n - k), "", 0)
    else if 0 < n <= 21 then Raw(neg, digits[..n], digits[n..], 0)
    else if -6 < n <= 0 then Raw(neg, "0", Zeros(-n) + digits, 0)
    else if k > 1 then Raw(neg, digits[..1], digits[1..], n - 1)
    else Raw(neg, digits, "", n - 1)
  }

  predicate Exponential(n: int) { n > 21 || n <= -6 }

  lemma AllDigitsConcat(a: string, b: string)
    ensures AllDigits(a + b) <==> AllDigits(a) && AllDigits(b)
  {
    assert forall i | 0 <= i < |a| :: (a + b)[i] == a[i];
    assert forall i | 0 <= i < |b| :: (a + b)[|a| + i] == b[i];
  }

  lemma LayoutRawValid(neg: bool, digits: string, n: int)
    requires Normal(digits)
    ensures LayoutRaw(neg, digits, n).Valid() && LayoutRaw(neg, digits, n).whole != ""
    ensures !Exponential(n) ==> LayoutRaw(neg, digits, n).exp == 0
  {
    var k := |digits|;
    if k <= n <= 21 {
      AllDigitsConcat(digits, Zeros(n - k));
    } else if 0 < n <= 21 {
      assert digits == digits[..n] + digits[n..];
      AllDigitsConcat(digits[..n], digits[n..]);
    } else if -6 < n <= 0 {
      AllDigitsConcat(Zeros(-n), digits);
    } else {
      assert digits == digits[..1] + digits[1..];
      AllDigitsConcat(digits[..1], digits[1..]);
    }
  }

  lemma LayoutIsRaw(neg: bool, digits: string, n: int)
    requires digits != ""
    ensures RawText(LayoutRaw(neg, digits, n), Exponential(n)) == SignText(neg) + Layout(digits, n)
  {
    hide Zeros, ExponentText, IntText;
    var k, raw, text := |digits|, LayoutRaw(neg, digits, n), Layout(digits, n);
    if k <= n <= 21 {
      assert text == raw.whole + ("" + "");
    } else if 0 < n <= 21 {
      assert text == raw.whole + (FractionText(raw.frac) + "");
    } else if -6 < n <= 0 {
      assert text == "0" + ("." + raw.frac + "");
    } else if k > 1 {
      Assoc(digits[..1], "." + digits[1..], ExponentText(n - 1));
      assert text == raw.whole + (FractionText(raw.frac) + ExponentText(n - 1));
    } else {
      assert text == raw.whole + ("" + ExponentText(n - 1));
    }
  }

  lemma {:induction false} StripLeadingZeros(a: nat, ds: string, p: int)
    requires ds != "" && ds[0] != '0'
    ensures StripLeading(Zeros(a) + ds, p) == (ds, p - a)
  {
    var s := Zeros(a) + ds;
    if a > 0 {
      assert Zeros(a)[0] in Zeros(a);
      assert s[1..] == Zeros(a - 1) + ds by { ZerosFront(a); }
      StripLeadingZeros(a - 1, ds, p - 1);
    } else {
      assert s == ds;
    }
  }

  lemma {:induction false} ZerosFront(a: nat)
    requires a > 0
    ensures Zeros(a) == "0" + Zeros(a - 1)
  {
    if a > 1 { ZerosFront(a - 1); }
  }

  lemma {:induction false} StripTrailingZeros(ds: string, b: nat)
    requires ds != "" && ds[|ds| - 1] != '0'
    ensures StripTrailing(ds + Zeros(b)) == ds
  {
    var s := ds + Zeros(b);
    if b > 0 {
      assert s[..|s| - 1] == ds + Zeros(b - 1);
      StripTrailingZeros(ds, b - 1);
    } else {
      assert s == ds;
    }
  }

  lemma NormalizeZeros(neg: bool, a: nat, digits: string, b: nat, p: int)
    requires Normal(digits)
    ensures AllDigits(Zeros(a) + digits + Zeros(b))
    ensures Normalize(neg, Zeros(a) + digits + Zeros(b), p) == Decimal(neg, digits, p - a)
  {
    hide Zeros, AllDigits, StripLeading, StripTrailing;
    AllZeros(a);
    AllZeros(b);
    AllDigitsConcat(Zeros(a) + digits, Zeros(b));
    AllDigitsConcat(Zeros(a), digits);
    Assoc(Zeros(a), digits, Zeros(b));
    StripLeadingZeros(a, digits + Zeros(b), p);
    StripTrailingZeros(digits, b);
  }

  lemma AllZeros(n: nat)
    ensures AllDigits(Zeros(n))
  {
  }

  // The digits of a layout with the zeros it adds before and after them.
  lemma LayoutDigits(neg: bool, digits: string, n: int) returns (a: nat, b: nat)
    requires digits != ""
    ensures var raw := LayoutRaw(neg, digits, n);
            && raw.whole + raw.frac == Zeros(a) + digits + Zeros(b)
            && |raw.whole| + raw.exp - a == n && raw.neg == neg
  {
    a, b := 0, 0;
    NoZeros(digits);
    hide Zeros;
    if |digits| <= n <= 21 {
      b := n - |digits|;
      NoZeros(digits + Zeros(b));
      Assoc("", digits, Zeros(b));
    } else if 0 < n <= 21 {
      assert digits[..n] + digits[n..] == digits;
    } else if -6 < n <= 0 {
      a := 1 - n;
      ZerosFront(a);
      Assoc("0", Zeros(-n), digits);
      NoZeros("0" + (Zeros(-n) + digits));
    } else if |digits| > 1 {
      assert digits[..1] + digits[1..] == digits;
    }
  }

  lemma NoZeros(s: string)
    ensures Zeros(0) == "" && "" + s == s && s + "" == s
  {
  }

  lemma LayoutNormalizes(neg: bool, digits: string, n: int)
    requires Normal(digits)
    ensures var raw := LayoutRaw(neg, digits, n);
            && AllDigits(raw.whole + raw.frac)
            && Normalize(neg, raw.whole + raw.frac, |raw.whole| + raw.exp) == Decimal(neg, digits, n)
  {
    var a, b := LayoutDigits(neg, digits, n);
    NormalizeZeros(neg, a, digits, b, a + n);
  }

  /** Digits and exponent can be recovered from the layout, whichever of the four it is. */
  lemma LayoutReads(neg: bool, digits: string, n: int, rest: string)
    requires Normal(digits) && Stops(rest)
    ensures ReadNumber(SignText(neg) + Layout(digits, n) + rest) == Some((Decimal(neg, digits, n), rest))
  {
    var raw := LayoutToken(neg, digits, n, rest);
    NumberFromRaw(SignText(neg) + Layout(digits, n) + rest, raw, rest);
  }

  // The token a layout is read as.
  lemma LayoutToken(neg: bool, digits: string, n: int, rest: string) returns (raw: Raw)
    requires Normal(digits) && Stops(rest)
    ensures raw == LayoutRaw(neg, digits, n)
    ensures ReadRaw(SignText(neg) + Layout(digits, n) + rest) == Some((raw, rest))
    ensures raw.neg == neg && AllDigits(raw.whole + raw.frac)
    ensures Normalize(neg, raw.whole + raw.frac, |raw.whole| + raw.exp) == Decimal(neg, digits, n)
  {
    hide ReadRaw, Normalize, Layout, SignText;
    raw := LayoutRaw(neg, digits, n);
    LayoutNormalizes(neg, digits, n);
    LayoutReadsRaw(neg, digits, n, rest);
  }

  lemma LayoutReadsRaw(neg: bool, digits: string, n: int, rest: string)
    requires Normal(digits) && Stops(rest)
    ensures ReadRaw(SignText(neg) + Layout(digits, n) + rest) == Some((LayoutRaw(neg, digits, n), rest))
  {
    hide ReadRaw, Layout, LayoutRaw, RawText, SignText;
    LayoutRawValid(neg, digits, n);
    LayoutIsRaw(neg, digits, n);
    ReadRawText(LayoutRaw(neg, digits, n), Exponential(n), rest);
  }

  lemma NumberFromRaw(s: string, raw: Raw, rest: string)
    requires ReadRaw(s) == Some((raw, rest))
    ensures AllDigits(raw.whole + raw.frac)
    ensures ReadNumber(s) == Some((Normalize(raw.neg, raw.whole + raw.frac, |raw.whole| + raw.exp), rest))
  {
    hide ReadRaw, Normalize;
    AllDigitsConcat(raw.whole, raw.frac);
  }

  // ---------------------------------------------------------------- what the layouts denote

  // m * 10^b.
  function Shift10(m: nat, b: nat): nat { if b == 0 then m else 10 * Shift10(m, b - 1) }

  // m1 * 10^e1 == m2 * 10^e2, brought to the smaller exponent.
  ghost predicate SameNumber(m1: nat, e1: int, m2: nat, e2: int) {
    if e1 <= e2 then m1 == Shift10(m2, e2 - e1) else Shift10(m1, e1 - e2) == m2
  }

  // The token whole.frac with exponent exp, read by position, is m * 10^e with this sign.
  ghost predicate Denotes(raw: Raw, neg: bool, m: nat, e: int) {
    && AllDigits(raw.whole + raw.frac) && raw.neg == neg
    && SameNumber(NatValue(raw.whole + raw.frac), raw.exp - |raw.frac|, m, e)
  }

  lemma {:induction false} LeadingZerosValue(a: nat, ds: string)
    requires AllDigits(ds) && AllDigits(Zeros(a) + ds)
    ensures NatValue(Zeros(a) + ds) == NatValue(ds)
    decreases |ds|, a
  {
    var s := Zeros(a) + ds;
    if ds != "" {
      assert s[..|s| - 1] == Zeros(a) + ds[..|ds| - 1];
      LeadingZerosValue(a, ds[..|ds| - 1]);
    } else if a > 0 {
      assert s[..|s| - 1] == Zeros(a - 1) + "";
      LeadingZerosValue(a - 1, "");
    }
  }

  lemma {:induction false} TrailingZerosValue(ds: string, b: nat)
    requires AllDigits(ds) && AllDigits(ds + Zeros(b))
    ensures NatValue(ds + Zeros(b)) == Shift10(NatValue(ds), b)
  {
    var s := ds + Zeros(b);
    if b > 0 {
      assert s[..|s| - 1] == ds + Zeros(b - 1);
      TrailingZerosValue(ds, b - 1);
    } else {
      assert s == ds;
    }
  }

  lemma ZerosAroundValue(a: nat, digits: string, b: nat)
    requires AllDigits(digits)
    ensures AllDigits(Zeros(a) + digits + Zeros(b))
    ensures NatValue(Zeros(a) + digits + Zeros(b)) == Shift10(NatValue(digits), b)
  {
    AllDigitsConcat(Zeros(a), digits);
    AllDigitsConcat(Zeros(a) + digits, Zeros(b));
    TrailingZerosValue(Zeros(a) + digits, b);
    LeadingZerosValue(a, digits);
  }

  lemma LayoutScale(neg: bool, digits: string, n: int)
    requires Normal(digits)
    ensures Denotes(LayoutRaw(neg, digits, n), neg, NatValue(digits), n - |digits|)
  {
    var raw := LayoutRaw(neg, digits, n);
    var a, b := LayoutDigits(neg, digits, n);
    ZerosAroundValue(a, digits, b);
    assert |raw.whole + raw.frac| == a + |digits| + b;
  }

  /** Each of the four layouts is a token that denotes exactly digits * 10^(n-k). */
  lemma LayoutDenotes(neg: bool, digits: string, n: int, rest: string) returns (raw: Raw)
    requires Normal(digits) && Stops(rest)
    ensures ReadRaw(SignText(neg) + Layout(digits, n) + rest) == Some((raw, rest))
    ensures Denotes(raw, neg, NatValue(digits), n - |digits|)
  {
    raw := LayoutToken(neg, digits, n, rest);
    LayoutScale(neg, digits, n);
  }

  // ---------------------------------------------------------------- integers and literals

  function Abs(i: int): nat { if i < 0 then -i else i }

  // An integer as a decimal.
  function DecimalOfInt(i: int): (d: Decimal)
    ensures d.Valid()
  {
    Normalize(i < 0, NatText(Abs(i)), |NatText(Abs(i))|)
  }

  lemma {:induction false} StripTrailingSplit(ds: string)
    ensures ds == StripTrailing(ds) + Zeros(|ds| - |StripTrailing(ds)|)
  {
    if ds != "" && ds[|ds| - 1] == '0' {
      StripTrailingSplit(ds[..|ds| - 1]);
    }
  }

  lemma Pow10Of21()
    ensures Pow10(21) == 1_000_000_000_000_000_000_000
  {
    assert Pow10(3) == 1000;
    assert Pow10(6) == 1000_000;
    assert Pow10(9) == 1000_000_000;
    assert Pow10(12) == 1000_000_000_000;
    assert Pow10(15) == 1000_000_000_000_000;
    assert Pow10(18) == 1000_000_000_000_000_000;
  }

  // The integers Go's 64-bit types hold.
  predicate Is64Bit(i: int) { MIN_INT64 <= i <= 2 * MAX_INT64 + 1 }

  /** Integers written directly come out as the layout of their exact decimal would. */
  lemma IntTextIsLayout(i: int)
    requires Is64Bit(i)
    ensures IntText(i) == DecimalText(DecimalOfInt(i))
  {
    var n, ds := Abs(i), NatText(Abs(i));
    if n > 0 {
      Pow10Of21();
      NatTextLength(n, 21);
      StripTrailingSplit(ds);
      assert StripLeading(ds, |ds|) == (ds, |ds|);
      var digits := StripTrailing(ds);
      assert digits != "" by { assert "" + Zeros(|ds|) == Zeros(|ds|); }
      assert DecimalOfInt(i) == Decimal(i < 0, digits, |ds|);
    } else {
      assert ds == "0" && StripLeading(ds, 1) == ("", 0);
    }
  }

  function DoubleMeaning(f: Double): (d: Option<Decimal>)
    requires f.Valid()
    ensures d.Some? ==> d.value.Valid()
  {
    match f
    case NonFinite => None
    case ZeroDouble(_) => Some(Zero)
    case Finite(neg, digits, exp) => Some(Decimal(neg, digits, exp + 1))
  }

  // The number a literal stands for in the canonical form.
  function LiteralMeaning(lit: string, parsed: Option<Double>): (d: Option<Decimal>)
    requires parsed.Some? ==> parsed.value.Valid()
    ensures d.Some? ==> d.value.Valid()
  {
    if IsIntegerLiteral(lit) && ParseInt64(lit).Some? then Some(DecimalOfInt(ParseInt64(lit).value))
    else if parsed.Some? then DoubleMeaning(parsed.value)
    else None
  }

  /** What canonicalNumber writes: the layout of an int64 literal's own value, of the parsed
      double otherwise; it fails exactly when there is no such number. */
  lemma CanonicalNumberMeaning(lit: string, parsed: Option<Double>)
    requires parsed.Some? ==> parsed.value.Valid()
    ensures match LiteralMeaning(lit, parsed)
            case Some(d) => CanonicalNumber(lit, parsed) == Ok(DecimalText(d))
            case None => CanonicalNumber(lit, parsed).Err?
  {
    if IsIntegerLiteral(lit) && ParseInt64(lit).Some? {
      IntTextIsLayout(ParseInt64(lit).value);
      if lit == "-0" { assert lit[1..] == "0" && NatValue("0") == 0; }
    } else if IsIntegerLiteral(lit) && ParseUint64(lit).Some? && ParseUint64(lit).value < 0x20_0000_0000_0000 {
      UnsignedBranchIsDead(lit);
    }
  }

  lemma DecimalReads(d: Decimal, rest: string)
    requires d.Valid() && Stops(rest)
    ensures ReadNumber(DecimalText(d) + rest) == Some((d, rest))
  {
    if d == Zero {
      ReadRawText(Raw(false, "0", "", 0), false, rest);
      assert RawText(Raw(false, "0", "", 0), false) == "0";
      NumberFromRaw("0" + rest, Raw(false, "0", "", 0), rest);
      assert StripLeading("0", 1) == ("", 0);
    } else {
      LayoutReads(d.neg, d.digits, d.point, rest);
    }
  }

  lemma DecimalTextInjective(d: Decimal, e: Decimal)
    requires d.Valid() && e.Valid() && DecimalText(d) == DecimalText(e)
    ensures d == e
  {
    DecimalReads(d, "");
    DecimalReads(e, "");
  }

  /** An int64 literal is written as section 3.2.2.3 of RFC 8785 demands if and only if the
      shortest decimal of its double is the integer itself. That the double is exactly the
      integer is not enough. */
  lemma IntegerLiteralRounds(lit: string, f: Double)
    requires f.Valid() && IsIntegerLiteral(lit) && ParseInt64(lit).Some?
    ensures CanonicalNumber(lit, Some(f)) == Es6Number(f)
       <==> DoubleMeaning(f) == Some(DecimalOfInt(ParseInt64(lit).value))
  {
    var d, m := DecimalOfInt(ParseInt64(lit).value), DoubleMeaning(f);
    CanonicalNumberMeaning(lit, Some(f));
    if m.Some? {
      assert Es6Number(f) == Ok(DecimalText(m.value));
      if DecimalText(m.value) == DecimalText(d) { DecimalTextInjective(m.value, d); }
    }
  }

  // An integer literal of up to 19 digits in its shortest form passes through.
  lemma PassesThrough(lit: string, n: nat, f: Double)
    requires lit == NatText(n) && n <= MAX_INT64 && f.Valid()
    ensures IsIntegerLiteral(lit) && ParseInt64(lit) == Some(n) && CanonicalNumber(lit, Some(f)) == Ok(lit)
  {
    NatTextValue(n);
    assert forall c <- lit :: IsDigit(c);
    assert IsDigit(lit[0]);
  }

  lemma TwoTo53Plus1()
    ensures NatText(9007199254740993) == "9007199254740993"
  {
    assert NatText(9) == "9";
    hide NatText;
    ThreeMoreDigits(9, 0, 0, 7);
    ThreeMoreDigits(9007, 1, 9, 9);
    ThreeMoreDigits(9007199, 2, 5, 4);
    ThreeMoreDigits(9007199254, 7, 4, 0);
    ThreeMoreDigits(9007199254740, 9, 9, 3);
  }

  lemma TwoTo62()
    ensures NatText(4611686018427387904) == "4611686018427387904"
  {
    assert NatText(4) == "4";
    hide NatText;
    ThreeMoreDigits(4, 6, 1, 1);
    ThreeMoreDigits(4611, 6, 8, 6);
    ThreeMoreDigits(4611686, 0, 1, 8);
    ThreeMoreDigits(4611686018, 4, 2, 7);
    ThreeMoreDigits(4611686018427, 3, 8, 7);
    ThreeMoreDigits(4611686018427387, 9, 0, 4);
  }

  // A double whose digits are those of a whole number, with b zeros behind them.
  lemma WholeDouble(digits: string, b: nat, exp: nat)
    requires Normal(digits) && exp + 1 == |digits| + b <= 21
    ensures Es6Number(Finite(false, digits, exp)) == Ok(digits + Zeros(b))
  {
    assert "" + (digits + Zeros(b)) == digits + Zeros(b);
  }

  /** 2^53 + 1 is written as it stands, though its double is 2^53. */
  lemma UnroundedLiteral()
    ensures var (lit, f) := ("9007199254740993", Finite(false, "9007199254740992", 15));
            f.Valid() && CanonicalNumber(lit, Some(f)) == Ok(lit) && Es6Number(f) == Ok("9007199254740992")
  {
    hide NatText, CanonicalNumber, Es6Number, ParseInt64, IsIntegerLiteral;
    TwoTo53Plus1();
    PassesThrough("9007199254740993", 9007199254740993, Finite(false, "9007199254740992", 15));
    WholeDouble("9007199254740992", 0, 15);
    assert "9007199254740992" + Zeros(0) == "9007199254740992";
  }

  /** So is 2^62, whose double is exactly 2^62: the shortest digits of the double end in zeros. */
  lemma ExactDoubleYetUnrounded()
    ensures var (lit, f) := ("4611686018427387904", Finite(false, "4611686018427388", 18));
            f.Valid() && CanonicalNumber(lit, Some(f)) == Ok(lit) && Es6Number(f) == Ok("4611686018427388000")
  {
    hide NatText, CanonicalNumber, Es6Number, ParseInt64, IsIntegerLiteral;
    TwoTo62();
    PassesThrough("4611686018427387904", 4611686018427387904, Finite(false, "4611686018427388", 18));
    WholeDouble("4611686018427388", 3, 18);
    assert "4611686018427388" + Zeros(3) == "4611686018427388000";
  }
}
