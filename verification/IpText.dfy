/**
 What an IPv6 address looks like in text, after section 2.2 of RFC 4291 and said without the parser's
 notions of groups and spellings, and that the parser reads exactly that.
 */
module IpText {
  import opened Wrappers
  import opened Radix
  import opened Hex
  import opened IpParse

  // ----- The grammar -----------------------------------------------------------------------------

  const HEX := "0123456789abcdef"

  function Numeral(d: seq<nat>): nat
    requires 1 <= |d| <= 4
  {
    if |d| == 1 then d[0] else if |d| == 2 then 16 * d[0] + d[1]
    else if |d| == 3 then 256 * d[0] + 16 * d[1] + d[2] else 4096 * d[0] + 256 * d[1] + 16 * d[2] + d[3]
  }

  predicate DigitsOf(p: string, d: seq<nat>) {
    |d| == |p| && forall i :: 0 <= i < |d| ==> d[i] < 16 && p[i] == HEX[d[i]]
  }

  // One to four hexadecimal digits for a group of 16 bits.
  ghost predicate Group(p: string, n: nat) { exists d :: 1 <= |d| <= 4 && DigitsOf(p, d) && n == Numeral(d) }

  // Groups with colons between them.
  ghost predicate Pieces(t: string, g: seq<nat>)
    decreases |g|
  {
    if g == [] then t == ""
    else if |g| == 1 then Group(t, g[0])
    else exists a, rest :: Group(a, g[0]) && Pieces(rest, g[1..]) && t == a + ":" + rest
  }

  // The same, where the last two groups may be an IPv4 address.
  ghost predicate Tailed(t: string, g: seq<nat>) {
    Pieces(t, g) || exists head, o :: DottedEnd(t, g, head, o)
  }

  ghost predicate DottedEnd(t: string, g: seq<nat>, head: string, o: seq<Byte>) {
    && |o| == 4 && |g| >= 2 && g[|g| - 2] == 256 * (o[0] as int) + o[1] && g[|g| - 1] == 256 * (o[2] as int) + o[3]
    && Pieces(head, g[..|g| - 2]) && t == (if |g| == 2 then "" else head + ":") + Dotted(o)
  }

  // Groups, the gap, groups; the gap stands for the zeros that are missing.
  ghost predicate Gapped(t: string, g: seq<nat>, a: string, l: seq<nat>, b: string, r: seq<nat>) {
    && |l| + |r| <= 8 && g == l + seq(8 - |l| - |r|, i => 0) + r && Pieces(a, l) && Tailed(b, r) && t == a + "::" + b
  }

  ghost predicate Address(t: string, g: seq<nat>) {
    (|g| == 8 && Tailed(t, g)) || exists a, l, b, r :: Gapped(t, g, a, l, b, r)
  }

  // ----- Groups ------------------------------------------------------------------------------------

  lemma HexDigitIs(c: char, d: nat)
    ensures d < 16 && c == HEX[d] <==> IsHex(c) && HexValue(c) == d
  {
  }

  lemma NumberIs(p: string)
    requires 1 <= |p| <= 4 && AllHex(p)
    ensures HexNumber(p) == Numeral(seq(|p|, i requires 0 <= i < |p| => HexValue(p[i])))
  {
    NumberStep(p);
    if |p| > 1 { NumberStep(p[..|p| - 1]); }
    if |p| > 2 { NumberStep(p[..|p| - 1][..|p| - 2]); }
    if |p| > 3 { NumberStep(p[..|p| - 1][..|p| - 2][..|p| - 3]); }
    hide HexNumber, HexValue;
  }

  lemma NumberStep(p: string)
    requires p != "" && AllHex(p)
    ensures HexNumber(p) == 16 * HexNumber(p[..|p| - 1]) + HexValue(p[|p| - 1]) && HexNumber("") == 0
    ensures |p| == 1 ==> p[..|p| - 1] == ""
  {
  }

  lemma GroupIff(p: string, n: nat)
    ensures Group(p, n) <==> GroupShaped(p) && HexNumber(p) == n
  {
    hide HexNumber, HexValue, IsHex;
    forall c, d: nat ensures d < 16 && c == HEX[d] <==> IsHex(c) && HexValue(c) == d { HexDigitIs(c, d); }
    if GroupShaped(p) {
      NumberIs(p);
      var d: seq<nat> := seq(|p|, i requires 0 <= i < |p| => HexValue(p[i]));
      assert DigitsOf(p, d);
    }
    if d :| 1 <= |d| <= 4 && DigitsOf(p, d) && n == Numeral(d) {
      assert GroupShaped(p);
      assert d == seq(|p|, i requires 0 <= i < |p| => HexValue(p[i]));
      NumberIs(p);
    }
  }

  lemma {:induction false} JoinedIsPieces(ps: seq<string>)
    requires AllGroups(ps)
    ensures Pieces(Join(ps, ':'), GroupValues(ps))
  {
    hide Group, HexNumber;
    if ps != [] {
      assert GroupShaped(ps[0]);
      GroupIff(ps[0], HexNumber(ps[0]));
      if |ps| > 1 {
        assert forall i :: 0 <= i < |ps[1..]| ==> GroupShaped(ps[1..][i]);
        JoinedIsPieces(ps[1..]);
        assert GroupValues(ps)[1..] == GroupValues(ps[1..]);
        assert ps[0] + [':'] + Join(ps[1..], ':') == ps[0] + ":" + Join(ps[1..], ':');
      }
    }
  }

  lemma {:induction false} PiecesJoined(t: string, g: seq<nat>) returns (ps: seq<string>)
    requires Pieces(t, g)
    ensures AllGroups(ps) && Join(ps, ':') == t && GroupValues(ps) == g
    decreases |g|
  {
    hide Group, HexNumber;
    if g == [] {
      ps := [];
    } else if |g| == 1 {
      GroupIff(t, g[0]);
      ps := [t];
    } else {
      var a, rest :| Group(a, g[0]) && Pieces(rest, g[1..]) && t == a + ":" + rest;
      GroupIff(a, g[0]);
      var tail := PiecesJoined(rest, g[1..]);
      ps := [a] + tail;
      assert ps[1..] == tail && |tail| == |g[1..]|;
    }
  }

  // ----- Tails ---------------------------------------------------------------------------------------

  function TailValues(tail: Option<seq<Byte>>): seq<nat>
    requires tail.Some? ==> |tail.value| == 4
  {
    if tail.None? then [] else [Word(tail.value[0], tail.value[1]), Word(tail.value[2], tail.value[3])]
  }

  function TailedText(ps: seq<string>, tail: Option<seq<Byte>>): string
    requires tail.Some? ==> |tail.value| == 4
  {
    Join(ps, ':') + if tail.None? then "" else (if ps == [] then "" else ":") + Dotted(tail.value)
  }

  lemma TailedIs(ps: seq<string>, tail: Option<seq<Byte>>)
    requires AllGroups(ps) && (tail.Some? ==> |tail.value| == 4)
    ensures Tailed(TailedText(ps, tail), GroupValues(ps) + TailValues(tail))
  {
    hide Pieces, Dotted;
    JoinedIsPieces(ps);
    var (t, g) := (TailedText(ps, tail), GroupValues(ps) + TailValues(tail));
    if tail.None? {
      assert t == Join(ps, ':') && g == GroupValues(ps);
    } else {
      assert g[..|g| - 2] == GroupValues(ps);
      assert DottedEnd(t, g, Join(ps, ':'), tail.value);
    }
  }

  lemma TailedFrom(t: string, g: seq<nat>) returns (ps: seq<string>, tail: Option<seq<Byte>>)
    requires Tailed(t, g)
    ensures AllGroups(ps) && (tail.Some? ==> |tail.value| == 4)
    ensures t == TailedText(ps, tail) && g == GroupValues(ps) + TailValues(tail)
  {
    hide Pieces, Dotted;
    if Pieces(t, g) {
      ps := PiecesJoined(t, g);
      tail := None;
      assert TailedText(ps, tail) == Join(ps, ':') && GroupValues(ps) + TailValues(tail) == GroupValues(ps);
    } else {
      var head, o :| DottedEnd(t, g, head, o);
      ps := PiecesJoined(head, g[..|g| - 2]);
      tail := Some(o);
      assert g == g[..|g| - 2] + [g[|g| - 2], g[|g| - 1]];
    }
  }

  // ----- Addresses -----------------------------------------------------------------------------------

  lemma TextIs(sp: Spelling)
    requires Spells(sp)
    ensures Text(sp) == if sp.gap then Join(sp.left, ':') + "::" + TailedText(sp.right, sp.tail)
                        else TailedText(sp.left, sp.tail)
    ensures Groups(sp) == GroupValues(sp.left)
                          + (if sp.gap then seq(8 - Count(sp), i => 0) + GroupValues(sp.right) else [])
                          + TailValues(sp.tail)
    ensures Count(sp) == |sp.left| + |sp.right| + |TailValues(sp.tail)| <= 8
  {
    hide Join, Dotted, AllGroups, GroupValues;
  }

  lemma SpelledIsAddress(sp: Spelling)
    requires Spells(sp)
    ensures Address(Text(sp), Groups(sp))
  {
    TextIs(sp);
    hide Text, Groups, TailedText, Tailed, Pieces, AllGroups, Join, TailValues;
    if sp.gap {
      JoinedIsPieces(sp.left);
      TailedIs(sp.right, sp.tail);
      var (l, r) := (GroupValues(sp.left), GroupValues(sp.right) + TailValues(sp.tail));
      assert Gapped(Text(sp), Groups(sp), Join(sp.left, ':'), l, TailedText(sp.right, sp.tail), r);
    } else {
      TailedIs(sp.left, sp.tail);
      assert GroupValues(sp.left) + [] + TailValues(sp.tail) == GroupValues(sp.left) + TailValues(sp.tail);
    }
  }

  lemma AddressIsSpelled(t: string, g: seq<nat>) returns (sp: Spelling)
    requires Address(t, g)
    ensures Spells(sp) && Text(sp) == t && Groups(sp) == g
  {
    hide Tailed, Pieces, Text, Groups, TailedText;
    if |g| == 8 && Tailed(t, g) {
      var ps, tail := TailedFrom(t, g);
      sp := Spelling(ps, false, [], tail);
      TextIs(sp);
      assert GroupValues(ps) + [] + TailValues(tail) == g;
    } else {
      var a, l, b, r :| Gapped(t, g, a, l, b, r);
      var left := PiecesJoined(a, l);
      var right, tail := TailedFrom(b, r);
      sp := Spelling(left, true, right, tail);
      TextIs(sp);
      assert Groups(sp) == l + seq(8 - |l| - |r|, i => 0) + r;
    }
  }

  /** The parser accepts exactly the texts of addresses, and returns their groups. */
  lemma ParsedIffAddress(t: string, g: seq<nat>)
    ensures Parsed(t) == Some(g) <==> Address(t, g)
  {
    hide Parsed, Text, Groups, Address;
    ParsedIffSpelled(t, g);
    if sp :| Spells(sp) && Text(sp) == t && Groups(sp) == g { SpelledIsAddress(sp); }
    if Address(t, g) { var sp := AddressIsSpelled(t, g); }
  }

  // The same characters, but letters of either case for the lower-case ones.
  predicate SameButCase(s: string, t: string) {
    |s| == |t| && forall i :: 0 <= i < |s| ==> s[i] == t[i] || ('a' <= t[i] <= 'z' && s[i] as int + 32 == t[i] as int)
  }

  lemma LoweredText(s: string, t: string)
    requires AddressChars(t)
    ensures SameButCase(s, t) <==> Lower(s) == t
    ensures SameButCase(s, "[" + t + "]") <==> Lower(s) == "[" + t + "]"
  {
    hide Lower;
    LoweredIs(s);
    if Lower(s) == "[" + t + "]" {
      forall i | 0 <= i < |s| ensures s[i] == Lower(s)[i] || s[i] as int + 32 == Lower(s)[i] as int { }
    }
  }

  lemma LoweredIs(s: string)
    ensures |Lower(s)| == |s| && forall i :: 0 <= i < |s| ==> Lower(s)[i] == LowerChar(s[i])
  {
  }

  lemma ReadChars(t: string)
    requires Parsed(t).Some?
    ensures AddressChars(t)
  {
    hide ReadBody, Octets;
  }

  /** In either case, with or without brackets round it: that is all that is read. */
  lemma ReadIffAddress(s: string, g: seq<nat>)
    ensures Parsed(Unbracketed(Lower(s))) == Some(g)
       <==> exists t :: Address(t, g) && (SameButCase(s, t) || SameButCase(s, "[" + t + "]"))
  {
    hide Parsed, Address, Lower, SameButCase;
    var own := Unbracketed(Lower(s));
    ParsedIffAddress(own, g);
    if Parsed(own) == Some(g) {
      ReadChars(own);
      LoweredText(s, own);
      assert Lower(s) == own || Lower(s) == "[" + own + "]";
    }
    forall t | Address(t, g) && (SameButCase(s, t) || SameButCase(s, "[" + t + "]")) ensures own == t {
      ParsedIffAddress(t, g);
      ReadChars(t);
      LoweredText(s, t);
    }
  }
}
