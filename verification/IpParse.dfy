/**
 Address parsing in TypeScript, against what the accepted texts mean: for IPv4 one text per
 address, for IPv6 every spelling with groups, a gap and a dotted tail.
 */
module IpParse {
  import opened Decimals
  import opened Wrappers
  import opened Hex
  import opened Radix

  // ----- Splitting and joining ---------------------------------------------------------------------

  function Split(s: string, c: char): (parts: seq<string>)
    ensures |parts| >= 1
  {
    if s == "" then [""]
    else if s[0] == c then [""] + Split(s[1..], c)
    else var rest := Split(s[1..], c); [[s[0]] + rest[0]] + rest[1..]
  }

  function Join(parts: seq<string>, c: char): string {
    if parts == [] then "" else if |parts| == 1 then parts[0] else parts[0] + [c] + Join(parts[1..], c)
  }

  predicate Without(s: string, c: char) { forall i :: 0 <= i < |s| ==> s[i] != c }

  predicate AllWithout(parts: seq<string>, c: char) { forall i :: 0 <= i < |parts| ==> Without(parts[i], c) }

  lemma {:induction false} JoinSplit(s: string, c: char)
    ensures Join(Split(s, c), c) == s && AllWithout(Split(s, c), c)
  {
    if s != "" {
      JoinSplit(s[1..], c);
      var rest := Split(s[1..], c);
      assert s == [s[0]] + s[1..];
      if s[0] == c {
        assert ([""] + rest)[1..] == rest;
        assert "" + [c] + Join(rest, c) == s;
      } else {
        var parts := [[s[0]] + rest[0]] + rest[1..];
        assert parts[1..] == rest[1..];
        assert Without(rest[0], c);
        assert forall i :: 0 < i < |parts| ==> parts[i] == rest[i];
        if |rest| > 1 {
          assert [s[0]] + (rest[0] + [c] + Join(rest[1..], c)) == ([s[0]] + rest[0]) + [c] + Join(rest[1..], c);
        }
      }
    }
  }

  lemma {:induction false} SplitJoin(parts: seq<string>, c: char)
    requires parts != [] && AllWithout(parts, c)
    ensures Split(Join(parts, c), c) == parts
    decreases parts
  {
    var s := Join(parts, c);
    if |parts| == 1 {
      SplitOne(parts[0], c);
    } else {
      assert Without(parts[0], c);
      SplitJoin(parts[1..], c);
      SplitFirst(parts[0], Join(parts[1..], c), c);
      assert s == parts[0] + [c] + Join(parts[1..], c);
      assert parts == [parts[0]] + parts[1..];
    }
  }

  lemma {:induction false} SplitOne(s: string, c: char)
    requires Without(s, c)
    ensures Split(s, c) == [s]
  {
    if s != "" {
      SplitOne(s[1..], c);
      assert s == [s[0]] + s[1..];
    }
  }

  lemma {:induction false} SplitFirst(a: string, b: string, c: char)
    requires Without(a, c)
    ensures Split(a + [c] + b, c) == [a] + Split(b, c)
  {
    var s := a + [c] + b;
    if a == "" {
      assert s[0] == c && s[1..] == b;
    } else {
      assert s[0] == a[0] && s[1..] == a[1..] + [c] + b;
      SplitFirst(a[1..], b, c);
      assert a == [a[0]] + a[1..];
      assert ([a[1..]] + Split(b, c))[1..] == Split(b, c);
    }
  }

  // ----- IPv4 --------------------------------------------------------------------------------------

  predicate OctetShaped(p: string) { 1 <= |p| <= 3 && AllDigits(p) }

  // The decimal text of an octet.
  function OctetText(n: Byte): string {
    if n < 10 then [DigitChar(n)]
    else if n < 100 then [DigitChar(n / 10), DigitChar(n % 10)]
    else [DigitChar(n / 100), DigitChar(n / 10 % 10), DigitChar(n % 10)]
  }

  predicate OctetAccepted(p: string) { OctetShaped(p) && NatValue(p) <= 255 && !(|p| > 1 && p[0] == '0') }

  lemma DecimalSteps(p: string)
    requires 1 <= |p| <= 3 && AllDigits(p)
    ensures NatValue(p) == if |p| == 1 then DigitValue(p[0])
                               else if |p| == 2 then 10 * DigitValue(p[0]) + DigitValue(p[1])
                               else 100 * DigitValue(p[0]) + 10 * DigitValue(p[1]) + DigitValue(p[2])
  {
    var one := [p[0]];
    assert one[..0] == "" && NatValue(one) == DigitValue(p[0]);
    if |p| == 1 {
      assert p == one;
    } else {
      var two := [p[0], p[1]];
      assert two[..1] == one && NatValue(two) == 10 * NatValue(one) + (DigitValue(p[1]));
      if |p| == 2 {
        assert p == two;
      } else {
        assert p[..2] == two;
      }
    }
  }

  lemma OctetTextUnique(p: string)
    ensures OctetAccepted(p) ==> p == OctetText(NatValue(p))
  {
    if OctetAccepted(p) {
      DecimalSteps(p);
      hide NatValue, OctetText;
      assert forall i :: 0 <= i < |p| ==> IsDigit(p[i]);
      if |p| == 1 {
        assert p == [p[0]];
        TextOfDigits(0, 0, DigitValue(p[0]));
      } else if |p| == 2 {
        assert p == [p[0], p[1]];
        TextOfDigits(0, DigitValue(p[0]), DigitValue(p[1]));
      } else {
        assert p == [p[0], p[1], p[2]];
        TextOfDigits(DigitValue(p[0]), DigitValue(p[1]), DigitValue(p[2]));
      }
    }
  }

  lemma TextOfDigits(a: nat, b: nat, c: nat)
    requires a < 10 && b < 10 && c < 10 && 100 * a + 10 * b + c < 256
    ensures OctetText(100 * a + 10 * b + c)
         == if a > 0 then [DigitChar(a), DigitChar(b), DigitChar(c)]
            else if b > 0 then [DigitChar(b), DigitChar(c)] else [DigitChar(c)]
  {
  }

  lemma DigitsAccepted(a: nat, b: nat, c: nat)
    requires a < 10 && b < 10 && c < 10 && 100 * a + 10 * b + c < 256
    ensures var p := OctetText(100 * a + 10 * b + c);
            && OctetAccepted(p) && NatValue(p) == 100 * a + 10 * b + c
            && Without(p, '.') && Without(p, ':')
  {
    TextOfDigits(a, b, c);
    hide OctetText, NatValue;
    var p := OctetText(100 * a + 10 * b + c);
    assert forall i :: 0 <= i < |p| ==> IsDigit(p[i]);
    DecimalSteps(p);
  }

  lemma ThreeDigits(n: Byte)
    ensures n == 100 * (n / 100) + 10 * (n / 10 % 10) + n % 10
  {
  }

  lemma OctetTextAccepted(n: Byte)
    ensures OctetAccepted(OctetText(n)) && NatValue(OctetText(n)) == n
    ensures Without(OctetText(n), '.') && Without(OctetText(n), ':')
  {
    hide *;
    ThreeDigits(n);
    DigitsAccepted(n / 100, n / 10 % 10, n % 10);
  }

  // The four octets of a text, if it is one address.
  function Octets(s: string): (r: Option<seq<Byte>>)
    ensures r.Some? ==> |r.value| == 4
  {
    var m := Split(s, '.');
    if |m| == 4 && OctetAccepted(m[0]) && OctetAccepted(m[1]) && OctetAccepted(m[2]) && OctetAccepted(m[3])
    then Some([NatValue(m[0]), NatValue(m[1]), NatValue(m[2]), NatValue(m[3])]) else None
  }

  method ParseIpv4(s: string) returns (r: Option<nat>)
    ensures r == if Octets(s).Some? then Some(Value(Octets(s).value)) else None
  {
    hide NatValue, Split;
    var m := Split(s, '.');
    if |m| != 4 || !OctetShaped(m[0]) || !OctetShaped(m[1]) || !OctetShaped(m[2]) || !OctetShaped(m[3]) { return None; }
    var v := 0;
    ghost var bytes: seq<Byte> := [];
    for i := 0 to 4
      invariant forall j :: 0 <= j < i ==> OctetAccepted(m[j])
      invariant |bytes| == i && (forall j :: 0 <= j < i ==> bytes[j] == NatValue(m[j])) && v == Value(bytes)
    {
      assert OctetShaped(m[i]);
      var octet := NatValue(m[i]);
      if octet > 255 || (|m[i]| > 1 && m[i][0] == '0') { return None; }
      assert (bytes + [octet])[..i] == bytes;
      bytes := bytes + [octet];
      v := v * 256 + octet;
    }
    assert bytes == [NatValue(m[0]), NatValue(m[1]), NatValue(m[2]), NatValue(m[3])];
    return Some(v);
  }

  // The dotted text of four octets.
  function Dotted(o: seq<Byte>): string
    requires |o| == 4
  {
    Join([OctetText(o[0]), OctetText(o[1]), OctetText(o[2]), OctetText(o[3])], '.')
  }

  /** Exactly one text is accepted for each IPv4 address: its dotted decimal form without leading
      zeros. */
  lemma OctetsIffDotted(s: string, o: seq<Byte>)
    requires |o| == 4
    ensures Octets(s) == Some(o) <==> s == Dotted(o)
  {
    hide OctetText, OctetAccepted, Join, Split, Without;
    var texts := [OctetText(o[0]), OctetText(o[1]), OctetText(o[2]), OctetText(o[3])];
    if s == Dotted(o) {
      OctetTextAccepted(o[0]);
      OctetTextAccepted(o[1]);
      OctetTextAccepted(o[2]);
      OctetTextAccepted(o[3]);
      SplitJoin(texts, '.');
      assert o == [o[0], o[1], o[2], o[3]];
    }
    if Octets(s) == Some(o) {
      var m := Split(s, '.');
      JoinSplit(s, '.');
      OctetTextUnique(m[0]);
      OctetTextUnique(m[1]);
      OctetTextUnique(m[2]);
      OctetTextUnique(m[3]);
      assert m == texts;
      assert s == Join(texts, '.') == Dotted(o);
    }
  }

  // ----- IPv6 groups -------------------------------------------------------------------------------

  predicate GroupShaped(p: string) { 1 <= |p| <= 4 && AllHex(p) }

  function HexNumber(p: string): nat
    requires AllHex(p)
  {
    if p == "" then 0 else 16 * HexNumber(p[..|p| - 1]) + HexValue(p[|p| - 1])
  }

  predicate AllGroups(ps: seq<string>) { forall i :: 0 <= i < |ps| ==> GroupShaped(ps[i]) }

  function GroupValues(ps: seq<string>): (g: seq<nat>)
    requires AllGroups(ps)
    ensures |g| == |ps| && forall i :: 0 <= i < |ps| ==> g[i] == HexNumber(ps[i])
  {
    seq(|ps|, i requires 0 <= i < |ps| => HexNumber(ps[i]))
  }

  // The groups of one side of the gap.
  function HalfGroups(half: string): Option<seq<string>> {
    if half == "" then Some([]) else if AllGroups(Split(half, ':')) then Some(Split(half, ':')) else None
  }

  method ParseHalf(half: string) returns (r: Option<seq<nat>>)
    ensures r == if HalfGroups(half).Some? then Some(GroupValues(HalfGroups(half).value)) else None
  {
    if half == "" { return Some([]); }
    var parts := Split(half, ':');
    var out := [];
    var i := 0;
    while i < |parts|
      invariant 0 <= i <= |parts| == |parts|
      invariant (forall j :: 0 <= j < i ==> GroupShaped(parts[j]))
      invariant |out| == i && forall j :: 0 <= j < i ==> out[j] == HexNumber(parts[j])
    {
      if !GroupShaped(parts[i]) { return None; }
      out := out + [HexNumber(parts[i])];
      i := i + 1;
    }
    assert out == GroupValues(parts);
    return Some(out);
  }

  // ----- IPv6 text ---------------------------------------------------------------------------------

  // The first "::" from position i on.
  function FindGap(s: string, i: nat): (r: Option<nat>)
    requires i <= |s|
    ensures r.Some? ==> i <= r.value && r.value + 2 <= |s| && s[r.value] == s[r.value + 1] == ':'
    ensures forall j :: i <= j < (if r.Some? then r.value else |s| - 1) ==> !(s[j] == ':' && s[j + 1] == ':')
    decreases |s| - i
  {
    if i + 2 > |s| then None else if s[i] == ':' && s[i + 1] == ':' then Some(i) else FindGap(s, i + 1)
  }

  function LastColon(s: string): (i: int)
    ensures -1 <= i < |s| && (i >= 0 ==> s[i] == ':') && forall j :: i < j < |s| ==> s[j] != ':'
  {
    if s == "" then -1 else if s[|s| - 1] == ':' then |s| - 1 else LastColon(s[..|s| - 1])
  }

  /** What a text spells: groups before and after a gap, if there is one, and a dotted tail. */
  datatype Spelling = Spelling(left: seq<string>, gap: bool, right: seq<string>, tail: Option<seq<Byte>>)

  function Count(sp: Spelling): nat { |sp.left| + |sp.right| + (if sp.tail.Some? then 2 else 0) }

  // A gap may stand for any number of groups, even none.
  predicate Spells(sp: Spelling) {
    && AllGroups(sp.left) && AllGroups(sp.right) && (sp.tail.Some? ==> |sp.tail.value| == 4)
    && (if sp.gap then Count(sp) <= 8 else sp.right == [] && Count(sp) == 8)
  }

  function Word(high: Byte, low: Byte): (n: nat)
    ensures n < 0x1_0000
  {
    256 * (high as int) + low
  }

  function TailGroups(sp: Spelling): seq<nat>
    requires sp.tail.Some? ==> |sp.tail.value| == 4
  {
    if sp.tail.None? then []
    else [Word(sp.tail.value[0], sp.tail.value[1]), Word(sp.tail.value[2], sp.tail.value[3])]
  }

  // The eight groups meant.
  function Groups(sp: Spelling): (g: seq<nat>)
    requires Spells(sp)
    ensures |g| == 8
  {
    GroupValues(sp.left) + seq(8 - Count(sp), i => 0) + GroupValues(sp.right) + TailGroups(sp)
  }

  // Without the dotted tail: groups, gap, groups.
  function BodyText(sp: Spelling): string {
    Join(sp.left, ':') + (if sp.gap then "::" + Join(sp.right, ':') else "")
  }

  // The tail follows a gap directly, and groups after a colon.
  function Text(sp: Spelling): string
    requires sp.tail.Some? ==> |sp.tail.value| == 4
  {
    if sp.tail.None? then BodyText(sp)
    else BodyText(sp) + (if sp.gap && sp.right == [] then "" else ":") + Dotted(sp.tail.value)
  }

  // Splitting the body at its gap.
  function ReadBody(input: string, tail: Option<seq<Byte>>): Option<Spelling> {
    var k := FindGap(input, 0);
    if k.None? then
      if HalfGroups(input).None? then None else Some(Spelling(HalfGroups(input).value, false, [], tail))
    else
      var (l, r) := (input[..k.value], input[k.value + 2..]);
      if FindGap(r, 0).Some? || HalfGroups(l).None? || HalfGroups(r).None? then None
      else Some(Spelling(HalfGroups(l).value, true, HalfGroups(r).value, tail))
  }

  predicate AddressChars(s: string) {
    s != "" && forall i :: 0 <= i < |s| ==> IsHex(s[i]) || s[i] == ':' || s[i] == '.'
  }

  // What the parser makes of lower-case text without brackets.
  function Read(input: string): Option<Spelling> {
    if !AddressChars(input) then None
    else
      var at := LastColon(input);
      var tail := if at >= 0 then input[at + 1..] else "";
      if at >= 0 && !Without(tail, '.') then
        if Octets(tail).None? then None
        else ReadBody(if at > 0 && input[at - 1] == ':' then input[..at + 1] else input[..at], Octets(tail))
      else ReadBody(input, None)
  }

  function Parsed(input: string): Option<seq<nat>> {
    if Read(input).Some? && Spells(Read(input).value) then Some(Groups(Read(input).value)) else None
  }

  function Unbracketed(s: string): string {
    if |s| >= 2 && s[0] == '[' && s[|s| - 1] == ']' then s[1..|s| - 1] else s
  }

  predicate SixteenBit(g: seq<nat>) { forall i :: 0 <= i < |g| ==> g[i] < 0x1_0000 }

  // Two bytes for each group, the high one first.
  predicate Carries(b: seq<Byte>, g: seq<nat>) {
    |b| == 2 * |g| && forall i :: 0 <= i < |g| ==> Word(b[2 * i], b[2 * i + 1]) == g[i]
  }

  /** No other bytes carry the same groups. */
  lemma CarriedByOne(a: seq<Byte>, b: seq<Byte>, g: seq<nat>)
    requires Carries(a, g) && Carries(b, g)
    ensures a == b
  {
    forall j | 0 <= j < |a| ensures a[j] == b[j] {
      var i := j / 2;
      assert Word(a[2 * i], a[2 * i + 1]) == g[i] == Word(b[2 * i], b[2 * i + 1]);
    }
  }

  lemma {:induction false} HexBound(p: string)
    requires AllHex(p) && |p| <= 4
    ensures HexNumber(p) < if |p| == 0 then 1 else if |p| == 1 then 16 else if |p| == 2 then 256
                           else if |p| == 3 then 4096 else 0x1_0000
  {
    if p != "" { HexBound(p[..|p| - 1]); }
  }

  lemma GroupsFit(sp: Spelling)
    requires Spells(sp)
    ensures SixteenBit(Groups(sp))
  {
    GroupValuesFit(sp.left);
    GroupValuesFit(sp.right);
    hide AllGroups, GroupValues, Count;
  }

  lemma GroupValuesFit(ps: seq<string>)
    requires AllGroups(ps)
    ensures SixteenBit(GroupValues(ps))
  {
    forall i | 0 <= i < |ps| ensures GroupValues(ps)[i] < 0x1_0000 {
      assert GroupShaped(ps[i]);
      HexBound(ps[i]);
    }
  }

  /** The sixteen bytes carry the eight groups that were spelled; text that spells none is refused. */
  method ParseIpv6(s: string) returns (r: Option<seq<Byte>>)
    ensures r.Some? <==> Parsed(Unbracketed(Lower(s))).Some?
    ensures r.Some? ==> |r.value| == 16 && Carries(r.value, Parsed(Unbracketed(Lower(s))).value)
    ensures r.Some? ==>
              var g := Parsed(Unbracketed(Lower(s))).value;
              |g| == 8 && forall i :: 0 <= i < 8 ==> 256 * (r.value[2 * i] as int) + r.value[2 * i + 1] == g[i]
  {
    hide Octets, HalfGroups, Lower, ReadBody, AddressChars, Without, Spells, Groups;
    var input := Lower(s);
    if |input| >= 2 && input[0] == '[' && input[|input| - 1] == ']' { input := input[1..|input| - 1]; }
    if !AddressChars(input) { return None; }
    var tail: Option<seq<Byte>> := None;
    var lastColon := LastColon(input);
    var body := input;
    if lastColon >= 0 && !Without(input[lastColon + 1..], '.') {
      var v4 := Octets(input[lastColon + 1..]);
      if v4.None? { return None; }
      tail := v4;
      body := if lastColon > 0 && input[lastColon - 1] == ':' then input[..lastColon + 1] else input[..lastColon];
    }
    assert Read(input) == ReadBody(body, tail);
    var groups := BodyGroups(body, tail);
    if groups.None? { return None; }
    var bytes := ToBytes(groups.value);
    assert forall i :: 0 <= i < 8 ==> Word(bytes[2 * i], bytes[2 * i + 1]) == groups.value[i];
    return Some(bytes);
  }

  method BodyGroups(body: string, tail: Option<seq<Byte>>) returns (r: Option<seq<nat>>)
    requires tail.Some? ==> |tail.value| == 4
    ensures var sp := ReadBody(body, tail);
            r == if sp.Some? && Spells(sp.value) then Some(Groups(sp.value)) else None
    ensures r.Some? ==> |r.value| == 8 && SixteenBit(r.value)
  {
    hide HalfGroups, SixteenBit;
    var k := FindGap(body, 0);
    var tailGroups := if tail.Some? then 2 else 0;
    if k.Some? && FindGap(body[k.value + 2..], 0).Some? { return None; }
    var left := ParseHalf(if k.Some? then body[..k.value] else body);
    var right := if k.None? then Some([]) else None;
    if k.Some? { right := ParseHalf(body[k.value + 2..]); }
    if left.None? || right.None? { return None; }
    var sp := ReadBody(body, tail).value;
    HalfShaped(if k.Some? then body[..k.value] else body);
    if k.Some? { HalfShaped(body[k.value + 2..]); }
    var groups;
    if k.Some? {
      var missing := 8 - |left.value| - |right.value| - tailGroups;
      if missing < 0 { return None; }
      groups := left.value + seq(missing, i => 0) + right.value;
    } else {
      if |left.value| + tailGroups != 8 { return None; }
      groups := left.value;
      assert GroupValues([]) == [] && seq(0, i => 0) == [];
      assert left.value + seq(8 - Count(sp), i => 0) + GroupValues(sp.right) == left.value;
    }
    GroupsFit(sp);
    r := Some(groups + TailGroups(sp));
  }

  lemma HalfShaped(half: string)
    ensures HalfGroups(half).Some? ==> AllGroups(HalfGroups(half).value)
  {
  }

  method ToBytes(g: seq<nat>) returns (b: seq<Byte>)
    requires SixteenBit(g)
    ensures Carries(b, g)
  {
    b := [];
    var i := 0;
    while i < |g|
      invariant 0 <= i <= |g| && |b| == 2 * i
      invariant forall j :: 0 <= j < i ==> Word(b[2 * j], b[2 * j + 1]) == g[j]
    {
      assert g[i] / 256 % 256 == g[i] / 256;
      b := b + [g[i] / 256 % 256, g[i] % 256];
      i := i + 1;
    }
  }

  // ----- Reading back what was spelled ---------------------------------------------------------------

  predicate BodyChars(s: string) { forall i :: 0 <= i < |s| ==> IsHex(s[i]) || s[i] == ':' }

  predicate NoGap(s: string) { forall j :: 0 <= j < |s| - 1 ==> !(s[j] == ':' && s[j + 1] == ':') }

  lemma {:induction false} JoinChars(ps: seq<string>)
    requires AllGroups(ps)
    ensures var s := Join(ps, ':');
            && BodyChars(s) && NoGap(s) && (ps == [] ==> s == "")
            && (ps != [] ==> s != "" && IsHex(s[0]) && IsHex(s[|s| - 1]))
  {
    if |ps| == 1 {
      assert GroupShaped(ps[0]);
    } else if |ps| > 1 {
      assert GroupShaped(ps[0]);
      JoinChars(ps[1..]);
      var (a, b) := (ps[0], Join(ps[1..], ':'));
      var s := a + [':'] + b;
      assert Join(ps, ':') == s;
      assert forall j :: 0 <= j < |a| ==> s[j] == a[j];
      assert forall j :: |a| < j < |s| ==> s[j] == b[j - |a| - 1];
    }
  }

  lemma GroupsWithout(ps: seq<string>)
    requires AllGroups(ps)
    ensures AllWithout(ps, ':')
  {
    forall i | 0 <= i < |ps| ensures Without(ps[i], ':') { assert GroupShaped(ps[i]); }
  }

  lemma HalfReads(ps: seq<string>)
    requires AllGroups(ps)
    ensures HalfGroups(Join(ps, ':')) == Some(ps)
  {
    JoinChars(ps);
    GroupsWithout(ps);
    if ps != [] { SplitJoin(ps, ':'); }
  }

  lemma BodyShape(sp: Spelling)
    requires Spells(sp)
    ensures var b := BodyText(sp);
            && b != "" && BodyChars(b)
            && (b[|b| - 1] == ':' <==> sp.gap && sp.right == [])
            && (b[|b| - 1] == ':' ==> |b| >= 2 && b[|b| - 2] == ':')
  {
    JoinChars(sp.left);
    JoinChars(sp.right);
    hide Join, AllGroups, Without, NoGap;
    var (l, r) := (Join(sp.left, ':'), Join(sp.right, ':'));
    if sp.gap {
      assert BodyText(sp) == l + ("::" + r);
      GappedShape(l, r);
    } else {
      assert BodyText(sp) == l + "" == l;
    }
  }

  lemma GappedShape(l: string, r: string)
    requires BodyChars(l) && BodyChars(r) && (r != "" ==> IsHex(r[|r| - 1]))
    ensures var b := l + ("::" + r);
            BodyChars(b) && |b| >= 2 && (b[|b| - 1] == ':' <==> r == "") && (r == "" ==> b[|b| - 2] == ':')
  {
    var b := l + ("::" + r);
    assert forall j :: 0 <= j < |l| ==> b[j] == l[j];
    assert b[|l|] == ':' && b[|l| + 1] == ':';
    assert forall j :: |l| + 2 <= j < |b| ==> b[j] == r[j - |l| - 2];
  }

  lemma GappedReads(l: string, r: string, left: seq<string>, right: seq<string>, tail: Option<seq<Byte>>)
    requires FindGap(l + ("::" + r), 0) == Some(|l|) && FindGap(r, 0) == None
    requires HalfGroups(l) == Some(left) && HalfGroups(r) == Some(right)
    ensures ReadBody(l + ("::" + r), tail) == Some(Spelling(left, true, right, tail))
  {
    hide FindGap, HalfGroups;
    var b := l + ("::" + r);
    assert b[..|l|] == l && b[|l| + 2..] == r;
  }

  lemma BodyReads(sp: Spelling)
    requires Spells(sp)
    ensures ReadBody(BodyText(sp), sp.tail) == Some(sp)
  {
    hide Join, HalfGroups, Count, FindGap, ReadBody, AllGroups, BodyChars, NoGap;
    JoinChars(sp.left);
    JoinChars(sp.right);
    HalfReads(sp.left);
    HalfReads(sp.right);
    var (l, r) := (Join(sp.left, ':'), Join(sp.right, ':'));
    NotColon(l);
    GapAt(l, r);
    if sp.gap {
      assert BodyText(sp) == l + ("::" + r);
      GappedReads(l, r, sp.left, sp.right, sp.tail);
    } else {
      assert BodyText(sp) == l + "" == l;
      PlainReads(l, sp.left, sp.tail);
    }
  }

  lemma PlainReads(l: string, left: seq<string>, tail: Option<seq<Byte>>)
    requires FindGap(l, 0) == None && HalfGroups(l) == Some(left)
    ensures ReadBody(l, tail) == Some(Spelling(left, false, [], tail))
  {
    hide FindGap, HalfGroups;
  }

  lemma NotColon(l: string)
    ensures l != "" && IsHex(l[|l| - 1]) ==> l[|l| - 1] != ':'
  {
  }

  lemma GapAt(l: string, r: string)
    requires NoGap(l) && (l != "" ==> l[|l| - 1] != ':') && NoGap(r)
    ensures FindGap(l + ("::" + r), 0) == Some(|l|) && FindGap(r, 0) == None && FindGap(l, 0) == None
  {
    var b := l + ("::" + r);
    assert forall j :: 0 <= j < |l| ==> b[j] == l[j];
    assert b[|l|] == ':' && b[|l| + 1] == ':';
  }

  lemma DottedChars(o: seq<Byte>)
    requires |o| == 4
    ensures Without(Dotted(o), ':') && !Without(Dotted(o), '.') && Octets(Dotted(o)) == Some(o)
    ensures forall i :: 0 <= i < |Dotted(o)| ==> IsHex(Dotted(o)[i]) || Dotted(o)[i] == '.'
  {
    OctetsIffDotted(Dotted(o), o);
    hide Octets;
    var (a, b, c, d) := (OctetText(o[0]), OctetText(o[1]), OctetText(o[2]), OctetText(o[3]));
    OctetDigits(o[0]);
    OctetDigits(o[1]);
    OctetDigits(o[2]);
    OctetDigits(o[3]);
    hide OctetText;
    var texts := [a, b, c, d];
    assert texts[1..] == [b, c, d] && [b, c, d][1..] == [c, d] && [c, d][1..] == [d];
    assert Join([d], '.') == d && Join([c, d], '.') == c + ['.'] + d;
    assert Join([b, c, d], '.') == b + ['.'] + (c + ['.'] + d);
    var s := a + ['.'] + (b + ['.'] + (c + ['.'] + d));
    assert Dotted(o) == s;
    assert s[|a|] == '.';
  }

  lemma OctetDigits(n: Byte)
    ensures forall i :: 0 <= i < |OctetText(n)| ==> IsDigit(OctetText(n)[i])
  {
  }

  lemma LastColonIs(a: string, b: string)
    requires a != "" && a[|a| - 1] == ':' && Without(b, ':')
    ensures LastColon(a + b) == |a| - 1
  {
    var s := a + b;
    assert s[|a| - 1] == ':';
    assert forall j :: |a| <= j < |s| ==> s[j] == b[j - |a|];
  }

  lemma TextChars(sp: Spelling)
    requires Spells(sp)
    ensures AddressChars(Text(sp))
  {
    BodyShape(sp);
    if sp.tail.Some? { DottedChars(sp.tail.value); }
    hide BodyText, Dotted, Count;
  }

  lemma ReadWithoutTail(b: string)
    requires AddressChars(b) && Without(b, '.')
    ensures Read(b) == ReadBody(b, None)
  {
    hide ReadBody, Octets;
    var at := LastColon(b);
    assert forall i :: at < i < |b| ==> b[at + 1..][i - at - 1] == b[i];
  }

  lemma ReadWithTail(head: string, d: string, o: seq<Byte>)
    requires AddressChars(head + d) && |head| >= 2 && head[|head| - 1] == ':'
    requires Without(d, ':') && !Without(d, '.') && Octets(d) == Some(o)
    ensures Read(head + d) == ReadBody(if head[|head| - 2] == ':' then head else head[..|head| - 1], Some(o))
  {
    hide ReadBody, Octets, AddressChars, Without;
    LastColonIs(head, d);
    var s := head + d;
    assert s[|head|..] == d && s[..|head|] == head && s[|head| - 2] == head[|head| - 2];
    assert s[..|head| - 1] == head[..|head| - 1];
  }

  lemma UntailedReads(sp: Spelling)
    requires Spells(sp) && sp.tail.None?
    ensures Read(Text(sp)) == Some(sp)
  {
    TextChars(sp);
    BodyShape(sp);
    BodyReads(sp);
    hide BodyText, ReadBody, AddressChars, Read, Spells;
    NoDots(BodyText(sp));
    ReadWithoutTail(BodyText(sp));
  }

  lemma NoDots(b: string)
    requires BodyChars(b)
    ensures Without(b, '.')
  {
  }

  lemma TailedReads(sp: Spelling)
    requires Spells(sp) && sp.tail.Some?
    ensures Read(Text(sp)) == Some(sp)
  {
    TextChars(sp);
    BodyShape(sp);
    BodyReads(sp);
    DottedChars(sp.tail.value);
    hide BodyText, Dotted, ReadBody, Octets, AddressChars, Read, BodyChars, Without, Spells;
    var b := BodyText(sp);
    var head := b + (if sp.gap && sp.right == [] then "" else ":");
    HeadOfTail(b);
    ReadWithTail(head, Dotted(sp.tail.value), sp.tail.value);
  }

  /** Every spelling of an address is read as what it spells: any groups of one to four lower-case
      digits, a gap anywhere, a dotted tail after groups or gap. */
  lemma SpellingReads(sp: Spelling)
    requires Spells(sp)
    ensures Read(Text(sp)) == Some(sp) && Parsed(Text(sp)) == Some(Groups(sp))
  {
    if sp.tail.None? { UntailedReads(sp); } else { TailedReads(sp); }
    hide Read, Text, Spells, Groups;
  }

  lemma HeadOfTail(b: string)
    requires b != "" && (b[|b| - 1] == ':' ==> |b| >= 2)
    ensures b + "" == b && (b + ":")[..|b| + 1 - 1] == b && |b + ":"| == |b| + 1
    ensures (b + ":")[|b|] == ':' && (b + ":")[|b| + 1 - 2] == b[|b| - 1]
  {
  }

  // ----- And nothing else ------------------------------------------------------------------------------

  lemma HalfJoins(half: string)
    ensures HalfGroups(half).Some? ==> Join(HalfGroups(half).value, ':') == half && AllGroups(HalfGroups(half).value)
    ensures HalfGroups(half).Some? ==> (HalfGroups(half).value == [] <==> half == "")
  {
    if half != "" { JoinSplit(half, ':'); }
  }

  lemma Glued(s: string, k: nat)
    requires k + 2 <= |s| && s[k] == s[k + 1] == ':'
    ensures s == s[..k] + ("::" + s[k + 2..])
  {
  }

  lemma BodyJoins(body: string, tail: Option<seq<Byte>>)
    requires ReadBody(body, tail).Some?
    ensures var sp := ReadBody(body, tail).value;
            BodyText(sp) == body && sp.tail == tail
  {
    var k := FindGap(body, 0);
    if k.None? {
      HalfJoins(body);
      hide HalfGroups, Join;
      assert body + "" == body;
    } else {
      HalfJoins(body[..k.value]);
      HalfJoins(body[k.value + 2..]);
      hide HalfGroups, Join, AllGroups;
      Glued(body, k.value);
    }
  }

  /** Text that is accepted is the spelling it was read as: nothing beyond the spellings gets
      through. */
  lemma AcceptedIsSpelled(input: string)
    requires Read(input).Some? && Spells(Read(input).value)
    ensures Text(Read(input).value) == input
  {
    hide Octets, ReadBody, BodyText, Dotted;
    var sp := Read(input).value;
    var at := LastColon(input);
    if at >= 0 && !Without(input[at + 1..], '.') {
      var o := Octets(input[at + 1..]);
      OctetsIffDotted(input[at + 1..], o.value);
      if at > 0 && input[at - 1] == ':' {
        BodyJoins(input[..at + 1], o);
        EndsInGap(input[..at + 1], sp);
        assert input == input[..at + 1] + "" + input[at + 1..];
      } else {
        BodyJoins(input[..at], o);
        NotGapEnd(input[..at], sp);
        assert input == input[..at] + ":" + input[at + 1..];
      }
    } else {
      BodyJoins(input, None);
    }
  }

  lemma EndsInGap(body: string, sp: Spelling)
    requires Spells(sp) && BodyText(sp) == body && |body| >= 2 && body[|body| - 1] == body[|body| - 2] == ':'
    ensures sp.gap && sp.right == []
  {
    BodyShape(sp);
  }

  lemma NotGapEnd(body: string, sp: Spelling)
    requires Spells(sp) && BodyText(sp) == body && (body == "" || body[|body| - 1] != ':')
    ensures !(sp.gap && sp.right == [])
  {
    BodyShape(sp);
  }

  /** The parser accepts exactly the spellings, and returns what they spell. */
  lemma ParsedIffSpelled(input: string, g: seq<nat>)
    ensures Parsed(input) == Some(g) <==> exists sp :: Spells(sp) && Text(sp) == input && Groups(sp) == g
  {
    hide Read, Text, Groups;
    if Parsed(input) == Some(g) { AcceptedIsSpelled(input); }
    if sp :| Spells(sp) && Text(sp) == input && Groups(sp) == g { SpellingReads(sp); }
  }

  /** Among the spellings are some that RFC 4291, section 2.2, does not have: a gap that stands for
      no group at all. */
  lemma EmptyGapAccepted(sp: Spelling)
    requires Spells(sp) && sp.gap && Count(sp) == 8
    ensures Parsed(Text(sp)).Some? && Groups(sp) == GroupValues(sp.left) + GroupValues(sp.right) + TailGroups(sp)
  {
    SpellingReads(sp);
    assert seq(0, i => 0) == [];
    assert GroupValues(sp.left) + [] == GroupValues(sp.left);
  }
}
