/**
 The one text that RFC 8785 allows for each string, number and order of keys, said without the
 writer: the shortest escapes in lower case, the notation of section 7.1.12.1 of ECMA-262 that
 section 3.2.2.3 refers to, and the order of UTF-16 code units by characters.
 */
module JcsForm {
  import opened Hex
  import opened Wrappers
  import opened Decimals
  import opened JcsNumber
  import opened Jcs
  import opened JcsText

  // ---------------------------------------------------------------- characters in strings

  // The text stands for this one character.
  predicate StandsFor(e: string, c: char) { ReadString(e + "\"") == Some(([c], "")) }

  predicate UpperHex(c: char) { 'A' <= c <= 'F' }

  lemma EscapeStands(c: char)
    ensures StandsFor(EscapeChar(c), c)
  {
    assert "\""[1..] == "";
    QuotedStep(c, "\"");
    assert [c] + "" == [c];
  }

  // What a text that stands for one character can be.
  lemma ThreeShapes(e: string, c: char)
    requires StandsFor(e, c)
    ensures || (e == [c] && c >= ' ' && c != '"' && c != '\\')
            || (|e| == 2 && e[0] == '\\' && e[1] in "\"\\btnfr" && ReadEscape(e[1..]) == Some((c, "")))
            || (|e| == 6 && e[..4] == "\\u00" && ReadHex(e[4]).Some? && ReadHex(e[5]).Some?
                && c as nat == 16 * ReadHex(e[4]).value + ReadHex(e[5]).value)
  {
    var s := e + "\"";
    if e == "" {
    } else if s[0] == '\\' {
      EscapeShape(s[1..]);
      var (d, rest) := ReadEscape(s[1..]).value;
      RestOfOne(rest);
      assert [d] + "" == [d];
      var used := |s| - 1 - |rest|;
      if used == 1 {
        assert e == ['\\', s[1]];
        OneLetter(s[1], s[1..]);
        assert e[1..] == [s[1]];
      } else {
        var u := s[1..];
        assert |e| == 6 && u[..3] == "u00";
        assert e[1] == u[0] == u[..3][0] && e[2] == u[1] == u[..3][1] && e[3] == u[2] == u[..3][2];
        assert e[..4] == "\\u00";
        assert e[4] == u[3] && e[5] == u[4];
      }
    } else {
      assert ReadString(s[1..]).Some?;
      RestOfOne(s[1..]);
      assert [s[0]] + "" == [s[0]] && e == [s[0]];
      assert c == [c][0] == s[0];
    }
  }

  lemma OneLetter(x: char, s: string)
    requires x in "\"\\btnfr" && s != "" && s[0] == x
    ensures ReadEscape(s).Some? && ReadEscape([x]) == Some((ReadEscape(s).value.0, ""))
  {
  }

  // What is read to the end as the empty string is a quote.
  lemma RestOfOne(rest: string)
    requires ReadString(rest) == Some(("", ""))
    ensures rest == "\""
  {
  }

  lemma EscapeShape(s: string)
    ensures ReadEscape(s).Some? ==>
              var rest := ReadEscape(s).value.1;
              (|s| - |rest| == 1 && s[0] in "\"\\btnfr" && rest == s[1..])
              || (|s| - |rest| == 5 && s[..3] == "u00" && rest == s[5..] && ReadHex(s[3]).Some? && ReadHex(s[4]).Some?
                  && ReadEscape(s).value.0 as nat == 16 * ReadHex(s[3]).value + ReadHex(s[4]).value)
  {
  }

  // The shortest of all texts for the character, with hexadecimal digits in lower case.
  ghost predicate Shortest(e: string, c: char) {
    && StandsFor(e, c) && (forall f :: StandsFor(f, c) ==> |e| <= |f|)
    && (|e| == 6 ==> !UpperHex(e[4]) && !UpperHex(e[5]))
  }

  lemma NoShorter(c: char, f: string)
    requires StandsFor(f, c)
    ensures |EscapeChar(c)| <= |f|
    ensures |f| == |EscapeChar(c)| && (|f| == 6 ==> !UpperHex(f[4]) && !UpperHex(f[5])) ==> f == EscapeChar(c)
  {
    ThreeShapes(f, c);
    if |f| == 2 {
      TwoLetters(f[1], c);
      assert f == [f[0], f[1]] && f[1..] == [f[1]];
    } else if |f| == 6 {
      if !UpperHex(f[4]) && !UpperHex(f[5]) { LowerDigits(f[4], f[5]); }
      assert f == f[..4] + [f[4], f[5]];
      assert |EscapeChar(c)| == 6 ==> EscapeChar(c) == "\\u00" + [HexChar(c as nat / 16), HexChar(c as nat % 16)];
    }
  }

  lemma TwoLetters(x: char, c: char)
    requires x in "\"\\btnfr" && ReadEscape([x]) == Some((c, ""))
    ensures EscapeChar(c) == ['\\', x]
  {
  }

  lemma LowerDigits(a: char, b: char)
    requires ReadHex(a).Some? && ReadHex(b).Some? && !UpperHex(a) && !UpperHex(b)
    ensures var n := 16 * ReadHex(a).value + ReadHex(b).value;
            HexChar(n / 16) == a && HexChar(n % 16) == b
  {
  }

  lemma EscapeLower(c: char)
    ensures |EscapeChar(c)| == 6 ==> !UpperHex(EscapeChar(c)[4]) && !UpperHex(EscapeChar(c)[5])
  {
  }

  /** A character is written in the one text that is shortest for it, in lower case: as it is, unless
      it is a quote, a backslash or a control character, and then by its letter if it has one. */
  lemma EscapeIsShortest(c: char, e: string)
    ensures e == EscapeChar(c) <==> Shortest(e, c)
  {
    hide StandsFor, EscapeChar, UpperHex;
    EscapeStands(c);
    EscapeLower(c);
    forall f | StandsFor(f, c) ensures |EscapeChar(c)| <= |f| { NoShorter(c, f); }
    if Shortest(e, c) { NoShorter(c, e); }
  }

  // ---------------------------------------------------------------- numbers

  // t has the character f(i) at each of its n places.
  ghost predicate Spells(t: string, n: int, f: int -> char) { |t| == n && forall i :: 0 <= i < n ==> t[i] == f(i) }

  // One digit, a point and the rest if there is any, then the exponent with its sign.
  ghost predicate Scientific(t: string, digits: string, sign: char, x: string)
    requires digits != ""
  {
    var m := if |digits| == 1 then 1 else |digits| + 1;
    && |t| == m + 2 + |x| && t[0] == digits[0] && (m > 1 ==> t[1] == '.')
    && (forall i :: 1 < i < m ==> t[i] == digits[i - 1])
    && t[m] == 'e' && t[m + 1] == sign && forall i :: 0 <= i < |x| ==> t[m + 2 + i] == x[i]
  }

  lemma LayoutPlain(digits: string, n: int)
    requires digits != "" && |digits| <= n <= 21
    ensures Spells(Layout(digits, n), n, i => if 0 <= i < |digits| then digits[i] else '0')
  {
  }

  lemma LayoutPoint(digits: string, n: int)
    requires 0 < n <= 21 && n < |digits|
    ensures Spells(Layout(digits, n), |digits| + 1,
                   i => if 0 <= i < n then digits[i] else if n < i <= |digits| then digits[i - 1] else '.')
  {
  }

  lemma LayoutZeros(digits: string, n: int)
    requires digits != "" && -6 < n <= 0
    ensures Spells(Layout(digits, n), 2 - n + |digits|,
                   i => if i == 1 then '.' else if 2 - n <= i < 2 - n + |digits| then digits[i - 2 + n] else '0')
  {
    var t := Layout(digits, n);
    var zeros := Zeros(-n);
    assert t == "0." + (zeros + digits);
    hide Layout, Zeros;
    assert forall i :: 2 <= i < 2 - n ==> t[i] == zeros[i - 2];
    assert forall i :: 2 - n <= i < |t| ==> t[i] == digits[i - 2 + n];
  }

  lemma ExponentIs(n: int)
    requires n > 21 || n <= -6
    ensures ExponentText(n - 1) == (if n > 0 then "e+" else "e-") + NatText(if n > 0 then n - 1 else 1 - n)
  {
    hide NatText;
  }

  function Mantissa(digits: string): string
    requires digits != ""
  {
    if |digits| == 1 then digits else [digits[0], '.'] + digits[1..]
  }

  lemma LayoutParts(digits: string, n: int)
    requires digits != "" && (n > 21 || n <= -6)
    ensures Layout(digits, n) == Mantissa(digits) + ExponentText(n - 1)
  {
    if |digits| > 1 { assert digits[..1] + ("." + digits[1..]) == [digits[0], '.'] + digits[1..]; }
  }

  lemma LayoutExponent(digits: string, n: int, x: string)
    requires digits != "" && (n > 21 || n <= -6) && ExponentText(n - 1) == (if n > 0 then "e+" else "e-") + x
    ensures Scientific(Layout(digits, n), digits, if n > 0 then '+' else '-', x)
  {
    hide Layout, ExponentText;
    LayoutParts(digits, n);
    var (t, m, e) := (Layout(digits, n), Mantissa(digits), (if n > 0 then "e+" else "e-") + x);
    assert forall i :: 1 < i <= |digits| ==> m[i] == digits[i - 1];
    assert forall i :: 0 <= i < |m| ==> t[i] == m[i];
    assert forall i :: 0 <= i < |e| ==> t[|m| + i] == e[i];
  }

  /** Number::toString: for k digits and n of them before the point, from 10^-6 up to but not including
      10^21 without an exponent, all digits of an integer, or a point among or a zero and zeros before
      them; outside of that one digit, a point and the rest if there is any, and the exponent with its
      sign. */
  lemma LayoutByStandard(digits: string, n: int)
    requires digits != ""
    ensures var (t, k) := (Layout(digits, n), |digits|);
            && (k <= n <= 21 ==> Spells(t, n, i => if 0 <= i < k then digits[i] else '0'))
            && (0 < n <= 21 && n < k ==>
                  Spells(t, k + 1, i => if 0 <= i < n then digits[i] else if n < i <= k then digits[i - 1] else '.'))
            && (-6 < n <= 0 ==>
                  Spells(t, 2 - n + k, i => if i == 1 then '.' else if 2 - n <= i < 2 - n + k then digits[i - 2 + n]
                                            else '0'))
            && (n > 21 || n <= -6 ==>
                  Scientific(t, digits, if n > 0 then '+' else '-', NatText(if n > 0 then n - 1 else 1 - n)))
  {
    var (t, k) := (Layout(digits, n), |digits|);
    if k <= n <= 21 {
      LayoutPlain(digits, n);
    } else if 0 < n <= 21 {
      LayoutPoint(digits, n);
    } else if -6 < n <= 0 {
      LayoutZeros(digits, n);
    } else {
      var x := NatText(if n > 0 then n - 1 else 1 - n);
      ExponentIs(n);
      hide Layout, NatText, ExponentText;
      LayoutExponent(digits, n, x);
    }
  }

  /** Which literals are int64: a sign or none, digits, and a value within 64 bits. */
  lemma ParseInt64Iff(lit: string, i: int)
    ensures ParseInt64(lit) == Some(i)
       <==> && -9223372036854775808 <= i <= 9223372036854775807
            && exists digits :: AllDigits(digits) && digits != ""
                 && ((lit == digits && i == NatValue(digits)) || (lit == "+" + digits && i == NatValue(digits))
                     || (lit == "-" + digits && i == 0 - NatValue(digits)))
  {
  }

  // ---------------------------------------------------------------- the order of keys

  // In UTF-16, characters beyond U+FFFF stand between U+D7FF and U+E000.
  predicate Earlier(c: char, d: char) {
    var (m, n) := (c as nat, d as nat);
    if (m < 0x10000) == (n < 0x10000) then m < n else if m >= 0x10000 then n >= 0xE000 else m < 0xD800
  }

  // The first i characters are the same, and there a is at its end or has the earlier one.
  ghost predicate PrecedesAt(a: string, b: string, i: nat) {
    && i <= |a| && i < |b| && a[..i] == b[..i] && (i == |a| || (a[i] != b[i] && Earlier(a[i], b[i])))
  }

  lemma UnitsOrder(c: char, d: char, a: seq<nat>, b: seq<nat>)
    requires c != d
    ensures Before(Units(c) + a, Units(d) + b) <==> Earlier(c, d)
  {
    var (x, y) := (Units(c) + a, Units(d) + b);
    assert x[0] == Units(c)[0] && y[0] == Units(d)[0];
    if x[0] == y[0] {
      assert |Units(c)| == 2 && |Units(d)| == 2;
      assert x[1..][0] == Units(c)[1] && y[1..][0] == Units(d)[1];
      var (m, n) := (c as nat - 0x10000, d as nat - 0x10000);
      assert m / 0x400 == n / 0x400;
      assert m % 0x400 < n % 0x400 <==> m < n;
    }
  }

  lemma {:induction false} SameHead(u: seq<nat>, a: seq<nat>, b: seq<nat>)
    ensures Before(u + a, u + b) == Before(a, b)
  {
    if u == [] {
      assert u + a == a && u + b == b;
    } else {
      assert (u + a)[1..] == u[1..] + a && (u + b)[1..] == u[1..] + b;
      SameHead(u[1..], a, b);
    }
  }

  /** The order of keys by characters: a proper beginning comes first, otherwise the first character
      that differs decides. */
  lemma {:induction false} LessByCharacter(a: string, b: string)
    ensures Utf16Less(a, b) <==> exists i: nat :: PrecedesAt(a, b, i)
  {
    if a == "" || b == "" {
      if a == "" && b != "" { assert PrecedesAt(a, b, 0); }
    } else if a[0] != b[0] {
      UnitsOrder(a[0], b[0], Utf16(a[1..]), Utf16(b[1..]));
      if Earlier(a[0], b[0]) { assert PrecedesAt(a, b, 0); }
      forall i: nat | 0 < i <= |a| && i <= |b| ensures a[..i] != b[..i] {
        assert a[..i][0] == a[0] && b[..i][0] == b[0];
      }
    } else {
      SameHead(Units(a[0]), Utf16(a[1..]), Utf16(b[1..]));
      LessByCharacter(a[1..], b[1..]);
      assert a == [a[0]] + a[1..] && b == [b[0]] + b[1..];
      forall i: nat | PrecedesAt(a[1..], b[1..], i) ensures PrecedesAt(a, b, i + 1) {
        assert a[..i + 1] == [a[0]] + a[1..][..i] && b[..i + 1] == [b[0]] + b[1..][..i];
      }
      forall i: nat | PrecedesAt(a, b, i) ensures i > 0 && PrecedesAt(a[1..], b[1..], i - 1) {
        assert a[1..][..i - 1] == a[..i][1..] && b[1..][..i - 1] == b[..i][1..];
      }
    }
  }
}
