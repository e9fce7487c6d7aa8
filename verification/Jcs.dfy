/**
 The JSON canonicaliser of the Go SDK (RFC 8785): its recursive writer and its key order,
 and a reader for the canonical grammar that inverts the writer.

 Strings are well-formed Unicode: a Dafny string is a sequence of scalar values. A Go map is
 the sequence of its members in whatever order the iteration delivers them.
 */
module Jcs {
  // ---------------------------------------------------------------- UTF-16 order of keys

  function Units(c: char): (u: seq<nat>)
    ensures 1 <= |u| <= 2
  {
    var n := c as nat;
    if n < 0x10000 then [n]
    else [0xD800 + (n - 0x10000) / 0x400, 0xDC00 + (n - 0x10000) % 0x400]
  }

  // utf16.Encode([]rune(s)).
  function Utf16(s: string): seq<nat> {
    if s == "" then [] else Units(s[0]) + Utf16(s[1..])
  }

  predicate Before(a: seq<nat>, b: seq<nat>) {
    if a == [] || b == [] then |a| < |b|
    else if a[0] != b[0] then a[0] < b[0]
    else Before(a[1..], b[1..])
  }

  predicate Utf16Less(a: string, b: string) { Before(Utf16(a), Utf16(b)) }

  // utf16Less of the source: an index loop over both encodings.
  method CompareUtf16(a: string, b: string) returns (less: bool)
    ensures less == Utf16Less(a, b)
  {
    var ra, rb := Utf16(a), Utf16(b);
    var i := 0;
    while i < |ra| && i < |rb|
      invariant 0 <= i <= |ra| && i <= |rb|
      invariant Before(ra[i..], rb[i..]) == Before(ra, rb)
      decreases |ra| - i
    {
      if ra[i] != rb[i] { return ra[i] < rb[i]; }
      assert ra[i..][1..] == ra[i + 1..] && rb[i..][1..] == rb[i + 1..];
      i := i + 1;
    }
    return |ra| < |rb|;
  }

  lemma {:induction false} BeforeIrreflexive(a: seq<nat>)
    ensures !Before(a, a)
  {
    if a != [] { BeforeIrreflexive(a[1..]); }
  }

  lemma {:induction false} BeforeTransitive(a: seq<nat>, b: seq<nat>, c: seq<nat>)
    requires Before(a, b) && Before(b, c)
    ensures Before(a, c)
  {
    if a != [] && b != [] && c != [] && a[0] == b[0] == c[0] { BeforeTransitive(a[1..], b[1..], c[1..]); }
  }

  lemma {:induction false} BeforeTotal(a: seq<nat>, b: seq<nat>)
    ensures Before(a, b) || Before(b, a) || a == b
  {
    if a != [] && b != [] && a[0] == b[0] {
      BeforeTotal(a[1..], b[1..]);
      assert a == [a[0]] + a[1..] && b == [b[0]] + b[1..];
    }
  }

  lemma UnitsInjective(c: char, d: char, a: seq<nat>, b: seq<nat>)
    requires Units(c) + a == Units(d) + b
    ensures c == d && a == b
  {
    var x, y := Units(c) + a, Units(d) + b;
    assert x[0] == Units(c)[0] && y[0] == Units(d)[0];
    assert |Units(c)| == |Units(d)|;
    assert x[..|Units(c)|] == Units(c) && y[..|Units(d)|] == Units(d);
    assert x[|Units(c)|..] == a && y[|Units(d)|..] == b;
    if |Units(c)| == 2 {
      var n, m := c as nat - 0x10000, d as nat - 0x10000;
      assert x[1] == Units(c)[1] && y[1] == Units(d)[1];
      assert n / 0x400 == m / 0x400 && n % 0x400 == m % 0x400;
      assert n == m;
    }
  }

  lemma {:induction false} Utf16Injective(a: string, b: string)
    requires Utf16(a) == Utf16(b)
    ensures a == b
  {
    if a != "" && b != "" {
      UnitsInjective(a[0], b[0], Utf16(a[1..]), Utf16(b[1..]));
      Utf16Injective(a[1..], b[1..]);
      assert a == [a[0]] + a[1..] && b == [b[0]] + b[1..];
    }
  }

  /** The key order of section 3.2.3 of RFC 8785 is a strict total order on strings. */
  lemma Utf16LessIsStrictTotalOrder(a: string, b: string, c: string)
    ensures !Utf16Less(a, a)
    ensures Utf16Less(a, b) && Utf16Less(b, c) ==> Utf16Less(a, c)
    ensures a != b ==> (Utf16Less(a, b) <==> !Utf16Less(b, a))
  {
    BeforeIrreflexive(Utf16(a));
    if Utf16Less(a, b) && Utf16Less(b, c) { BeforeTransitive(Utf16(a), Utf16(b), Utf16(c)); }
    BeforeTotal(Utf16(a), Utf16(b));
    if Utf16(a) == Utf16(b) { Utf16Injective(a, b); }
    if Utf16Less(a, b) && Utf16Less(b, a) { BeforeTransitive(Utf16(a), Utf16(b), Utf16(a)); }
  }

  /** It is not the order of code points: U+10000 comes before U+FFFF. */
  lemma Utf16OrderIsNotCodePointOrder()
    ensures Utf16Less("\U{10000}", "\U{FFFF}")
  {
    assert Utf16("\U{10000}") == [0xD800, 0xDC00];
    assert Utf16("\U{FFFF}") == [0xFFFF];
  }

  // ---------------------------------------------------------------- sorting members

  datatype Member<+T> = Member(key: string, value: T)

  function InsertMember<T>(m: Member<T>, ms: seq<Member<T>>): seq<Member<T>> {
    if ms == [] || Utf16Less(m.key, ms[0].key) then [m] + ms else [ms[0]] + InsertMember(m, ms[1..])
  }

  // sort.Slice under utf16Less.
  function Sort<T>(ms: seq<Member<T>>): (r: seq<Member<T>>)
  {
    if ms == [] then [] else InsertMember(ms[0], Sort(ms[1..]))
  }

  predicate Distinct<T>(ms: seq<Member<T>>) {
    forall i, j | 0 <= i < j < |ms| :: ms[i].key != ms[j].key
  }

  predicate Ascending<T>(ms: seq<Member<T>>) {
    forall i, j | 0 <= i < j < |ms| :: Utf16Less(ms[i].key, ms[j].key)
  }

  lemma {:induction false} InsertPermutes<T>(m: Member<T>, ms: seq<Member<T>>)
    ensures multiset(InsertMember(m, ms)) == multiset(ms) + multiset{m}
  {
    if ms != [] {
      assert ms == [ms[0]] + ms[1..];
      InsertPermutes(m, ms[1..]);
    }
  }

  lemma {:induction false} SortPermutes<T>(ms: seq<Member<T>>)
    ensures multiset(Sort(ms)) == multiset(ms) && |Sort(ms)| == |ms|
  {
    if ms != [] {
      assert ms == [ms[0]] + ms[1..];
      SortPermutes(ms[1..]);
      InsertPermutes(ms[0], Sort(ms[1..]));
    }
    assert |multiset(Sort(ms))| == |Sort(ms)| && |multiset(ms)| == |ms|;
  }

  lemma {:induction false} InsertAscends<T>(m: Member<T>, ms: seq<Member<T>>)
    requires Ascending(ms) && forall x <- ms :: x.key != m.key
    ensures Ascending(InsertMember(m, ms))
  {
    if ms == [] {
    } else if Utf16Less(m.key, ms[0].key) {
      forall j | 0 <= j < |ms| ensures Utf16Less(m.key, ms[j].key) {
        Utf16LessIsStrictTotalOrder(m.key, ms[0].key, ms[j].key);
      }
    } else {
      Utf16LessIsStrictTotalOrder(m.key, ms[0].key, m.key);
      InsertAscends(m, ms[1..]);
      var rest := InsertMember(m, ms[1..]);
      InsertPermutes(m, ms[1..]);
      forall j | 0 <= j < |rest| ensures Utf16Less(ms[0].key, rest[j].key) {
        assert rest[j] in multiset(rest);
        assert rest[j] == m || rest[j] in ms[1..];
      }
    }
  }

  lemma {:induction false} SortAscends<T>(ms: seq<Member<T>>)
    requires Distinct(ms)
    ensures Ascending(Sort(ms))
  {
    if ms != [] {
      SortAscends(ms[1..]);
      SortPermutes(ms[1..]);
      forall x | x in Sort(ms[1..]) ensures x.key != ms[0].key {
        assert x in multiset(Sort(ms[1..])) && x in ms[1..];
      }
      InsertAscends(ms[0], Sort(ms[1..]));
    }
  }

  lemma {:induction false} AscendingUnique<T>(a: seq<Member<T>>, b: seq<Member<T>>)
    requires Ascending(a) && Ascending(b) && forall m :: m in a <==> m in b
    ensures a == b
  {
    assert b == [] || b[0] in a;
    if a != [] {
      assert a[0] in b;
      Utf16LessIsStrictTotalOrder(a[0].key, b[0].key, a[0].key);
      assert a[0] == b[0];
      forall m ensures m in a[1..] <==> m in b[1..] {
        TailMembers(a, m);
        TailMembers(b, m);
      }
      AscendingUnique(a[1..], b[1..]);
      assert a == [a[0]] + a[1..] && b == [b[0]] + b[1..];
    }
  }

  lemma TailMembers<T>(a: seq<Member<T>>, m: Member<T>)
    requires Ascending(a) && a != []
    ensures m in a[1..] <==> m in a && m != a[0]
  {
    Utf16LessIsStrictTotalOrder(a[0].key, a[0].key, a[0].key);
    assert a == [a[0]] + a[1..];
  }

  /** Whatever order distinct keys are collected in, sorting yields one sequence. */
  lemma SortIsCanonical<T>(a: seq<Member<T>>, b: seq<Member<T>>)
    requires Distinct(a) && Distinct(b)
    ensures Sort(a) == Sort(b) <==> forall m :: m in a <==> m in b
  {
    SortPermutes(a);
    SortPermutes(b);
    assert forall m :: (m in a <==> m in multiset(a)) && (m in Sort(a) <==> m in multiset(Sort(a)));
    assert forall m :: (m in b <==> m in multiset(b)) && (m in Sort(b) <==> m in multiset(Sort(b)));
    if forall m :: m in a <==> m in b {
      SortAscends(a);
      SortAscends(b);
      AscendingUnique(Sort(a), Sort(b));
    }
  }
}
