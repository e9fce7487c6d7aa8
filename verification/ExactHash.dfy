/**
 The exact confirmation table: 32-byte digests, concatenated in ascending order and searched by
 bisection. It is built from hexadecimal text, which is sorted as text.
 */
module ExactHash {
  import opened Hex
  import opened Lex
  import opened Wrappers
  import opened Radix

  // ----- Sorting text ------------------------------------------------------------------------------

  function Insert(s: string, sorted: seq<string>): seq<string> {
    if sorted == [] || !Less(Codes(sorted[0]), Codes(s)) then [s] + sorted
    else [sorted[0]] + Insert(s, sorted[1..])
  }

  function SortText(ss: seq<string>): seq<string> {
    if ss == [] then [] else Insert(ss[0], SortText(ss[1..]))
  }

  predicate Ascends(ss: seq<string>) {
    forall i, j :: 0 <= i < j < |ss| ==> !Less(Codes(ss[j]), Codes(ss[i]))
  }

  lemma {:induction false} InsertMembers(s: string, sorted: seq<string>)
    ensures |Insert(s, sorted)| == |sorted| + 1
    ensures forall x :: x in Insert(s, sorted) <==> x == s || x in sorted
  {
    hide Less;
    if sorted == [] || !Less(Codes(sorted[0]), Codes(s)) {
    } else {
      InsertMembers(s, sorted[1..]);
      assert sorted == [sorted[0]] + sorted[1..];
    }
  }

  lemma {:induction false} InsertAscends(s: string, sorted: seq<string>)
    requires Ascends(sorted)
    ensures Ascends(Insert(s, sorted))
  {
    hide Less;
    if sorted == [] {
    } else if !Less(Codes(sorted[0]), Codes(s)) {
      LessTrichotomy(Codes(sorted[0]), Codes(sorted[0]));
      forall x <- sorted ensures !Less(Codes(x), Codes(s)) {
        NotLessTransitive(Codes(x), Codes(sorted[0]), Codes(s));
      }
      HeadFirst(s, sorted);
    } else {
      InsertAscends(s, sorted[1..]);
      InsertMembers(s, sorted[1..]);
      LessTrichotomy(Codes(sorted[0]), Codes(s));
      forall x <- Insert(s, sorted[1..]) ensures !Less(Codes(x), Codes(sorted[0])) {
        if x != s { assert x in sorted[1..]; }
      }
      HeadFirst(sorted[0], Insert(s, sorted[1..]));
    }
  }

  lemma HeadFirst(s: string, rest: seq<string>)
    requires Ascends(rest) && forall x <- rest :: !Less(Codes(x), Codes(s))
    ensures Ascends([s] + rest)
  {
    hide Less;
  }

  lemma {:induction false} SortTextSorts(ss: seq<string>)
    ensures Ascends(SortText(ss)) && |SortText(ss)| == |ss|
    ensures forall x :: x in SortText(ss) <==> x in ss
  {
    hide Less;
    if ss != [] {
      SortTextSorts(ss[1..]);
      InsertAscends(ss[0], SortText(ss[1..]));
      InsertMembers(ss[0], SortText(ss[1..]));
      assert ss == [ss[0]] + ss[1..];
    }
  }

  // ----- Hexadecimal -------------------------------------------------------------------------------

  predicate IsDigestText(s: string) { |s| == 64 && AllHex(s) }

  function Decoded(s: string): (d: seq<Byte>)
    requires AllHex(s) && |s| % 2 == 0
    ensures |d| == |s| / 2
    ensures forall j :: 0 <= j < |d| ==> d[j] == 16 * HexValue(s[2 * j]) + HexValue(s[2 * j + 1])
  {
    seq(|s| / 2, j requires 0 <= j < |s| / 2 => 16 * HexValue(s[2 * j]) + HexValue(s[2 * j + 1]))
  }

  lemma DecodedTail(s: string)
    requires AllHex(s) && |s| % 2 == 0 && s != []
    ensures AllHex(s[2..]) && Decoded(s)[1..] == Decoded(s[2..])
  {
    var t := s[2..];
    forall j | 0 <= j < |t| / 2 ensures Decoded(s)[1..][j] == Decoded(t)[j] {
      assert t[2 * j] == s[2 * (j + 1)] && t[2 * j + 1] == s[2 * (j + 1) + 1];
    }
  }

  // Two digits compare like the byte they stand for.
  lemma PairOrder(a0: char, a1: char, b0: char, b1: char)
    requires IsHex(a0) && IsHex(a1) && IsHex(b0) && IsHex(b1)
    ensures var (x, y) := (16 * HexValue(a0) + HexValue(a1), 16 * HexValue(b0) + HexValue(b1));
            && (x < y <==> a0 as int < b0 as int || (a0 == b0 && a1 as int < b1 as int))
            && (x == y <==> a0 == b0 && a1 == b1)
  {
  }

  function PairValue(a: char, b: char): int
    requires IsHex(a) && IsHex(b)
  {
    16 * HexValue(a) + HexValue(b)
  }

  lemma TextStep(a: string, b: string)
    requires |a| == |b| >= 2
    ensures Less(Codes(a), Codes(b))
       <==> a[0] as int < b[0] as int
            || (a[0] == b[0] && (a[1] as int < b[1] as int || (a[1] == b[1] && Less(Codes(a[2..]), Codes(b[2..])))))
    ensures a == b <==> a[0] == b[0] && a[1] == b[1] && a[2..] == b[2..]
  {
    LessTwice(Codes(a), Codes(b));
    assert Codes(a)[2..] == Codes(a[2..]) && Codes(b)[2..] == Codes(b[2..]);
    assert a == [a[0], a[1]] + a[2..] && b == [b[0], b[1]] + b[2..];
    hide Less;
  }

  lemma BytesStep(a: string, b: string)
    requires AllHex(a) && AllHex(b) && |a| == |b| >= 2 && |a| % 2 == 0
    ensures AllHex(a[2..]) && AllHex(b[2..])
    ensures var (x, y) := (PairValue(a[0], a[1]), PairValue(b[0], b[1]));
            && (Less(Decoded(a), Decoded(b)) <==> x < y || (x == y && Less(Decoded(a[2..]), Decoded(b[2..]))))
            && (Decoded(a) == Decoded(b) <==> x == y && Decoded(a[2..]) == Decoded(b[2..]))
  {
    hide Decoded, PairValue, Less;
    DecodedTail(a);
    DecodedTail(b);
    DecodedHead(a);
    DecodedHead(b);
    LessOnce(Decoded(a), Decoded(b));
  }

  lemma DecodedHead(s: string)
    requires AllHex(s) && |s| % 2 == 0 && |s| >= 2
    ensures Decoded(s)[0] == PairValue(s[0], s[1])
  {
    assert Decoded(s)[0] == 16 * HexValue(s[2 * 0]) + HexValue(s[2 * 0 + 1]);
  }

  /** Sorting the text sorts the bytes: lower-case hexadecimal of one length compares like what it
      encodes. */
  lemma {:induction false} HexOrderIsByteOrder(a: string, b: string)
    requires AllHex(a) && AllHex(b) && |a| == |b| && |a| % 2 == 0
    ensures Less(Codes(a), Codes(b)) <==> Less(Decoded(a), Decoded(b))
    ensures a == b <==> Decoded(a) == Decoded(b)
    decreases |a|
  {
    if a != [] {
      TextStep(a, b);
      BytesStep(a, b);
      PairOrder(a[0], a[1], b[0], b[1]);
      hide Less, Codes, Decoded, HexValue;
      HexOrderIsByteOrder(a[2..], b[2..]);
    }
  }

  // ----- The table -----------------------------------------------------------------------------------

  function Size(table: seq<Byte>): nat { |table| / 32 }

  function DigestAt(table: seq<Byte>, i: nat): (d: seq<Byte>)
    requires i < Size(table)
    ensures |d| == 32
  {
    table[32 * i..32 * i + 32]
  }

  predicate InTable(table: seq<Byte>, d: seq<Byte>) { exists i :: 0 <= i < Size(table) && DigestAt(table, i) == d }

  predicate Sorted(table: seq<Byte>) {
    forall i, j :: 0 <= i < j < Size(table) ==> !Less(DigestAt(table, j), DigestAt(table, i))
  }

  function Mid(lo: int, hi: int): (mid: int)
    requires lo <= hi
    ensures lo <= mid <= hi
  {
    (lo + hi) / 2
  }

  // The search between two positions, in whatever order the table is.
  predicate Bisect(table: seq<Byte>, digest: seq<Byte>, lo: int, hi: int)
    requires 0 <= lo <= hi + 1 <= Size(table)
    decreases hi - lo + 1
  {
    lo <= hi &&
    var mid := Mid(lo, hi);
    if DigestAt(table, mid) == digest then true
    else if Less(DigestAt(table, mid), digest) then Bisect(table, digest, mid + 1, hi)
    else Bisect(table, digest, lo, mid - 1)
  }

  predicate Found(table: seq<Byte>, digest: seq<Byte>) {
    |digest| == 32 && Bisect(table, digest, 0, Size(table) - 1)
  }

  class ExactHashTable {
    const digests: seq<Byte>

    // The source throws for a length that is no multiple of 32.
    constructor (digests: seq<Byte>)
      requires |digests| % 32 == 0
      ensures this.digests == digests
    {
      this.digests := digests;
    }

    method CompareAt(mid: nat, digest: seq<Byte>) returns (cmp: int)
      requires mid < Size(digests) && |digest| == 32
      ensures cmp == 0 <==> DigestAt(digests, mid) == digest
      ensures cmp < 0 <==> Less(DigestAt(digests, mid), digest)
      ensures cmp > 0 <==> Less(digest, DigestAt(digests, mid))
    {
      ghost var d := DigestAt(digests, mid);
      cmp := 0;
      var j := 0;
      LessTrichotomy(d, digest);
      while j < 32
        invariant 0 <= j <= 32 && cmp == 0
        invariant d[..j] == digest[..j]
      {
        assert digests[mid * 32 + j] == d[j];
        assert d[..j + 1] == d[..j] + [d[j]] && digest[..j + 1] == digest[..j] + [digest[j]];
        cmp := digests[mid * 32 + j] as int - digest[j] as int;
        if cmp != 0 {
          FirstDifference(d, digest, j);
          return;
        }
        j := j + 1;
      }
      assert d == d[..32] && digest == digest[..32];
    }

    /** The loop answers what the search does; so never a digest that is not there, and, when the
        table is sorted, every one that is. */
    method HasDigest(digest: seq<Byte>) returns (found: bool)
      ensures found == Found(digests, digest)
      ensures found ==> InTable(digests, digest)
      ensures Sorted(digests) ==> (found <==> InTable(digests, digest))
    {
      hide Less, InTable, Sorted, DigestAt, Bisect, Mid;
      FoundIff(digests, digest);
      if |digest| != 32 { return false; }
      var lo, hi := 0, Size(digests) - 1;
      while lo <= hi
        invariant 0 <= lo <= hi + 1 <= Size(digests)
        invariant Bisect(digests, digest, lo, hi) == Found(digests, digest)
        decreases hi - lo + 1
      {
        var mid := Mid(lo, hi);
        var cmp := CompareAt(mid, digest);
        BisectStep(digests, digest, lo, hi);
        if cmp == 0 { return true; }
        if cmp < 0 { lo := mid + 1; } else { hi := mid - 1; }
      }
      BisectNothing(digests, digest, lo, hi);
      return false;
    }
  }

  lemma BisectStep(table: seq<Byte>, digest: seq<Byte>, lo: int, hi: int)
    requires 0 <= lo <= hi < Size(table)
    ensures Bisect(table, digest, lo, hi)
         == if DigestAt(table, Mid(lo, hi)) == digest then true
            else if Less(DigestAt(table, Mid(lo, hi)), digest) then Bisect(table, digest, Mid(lo, hi) + 1, hi)
            else Bisect(table, digest, lo, Mid(lo, hi) - 1)
  {
    hide Less, DigestAt, Mid;
  }

  lemma BisectNothing(table: seq<Byte>, digest: seq<Byte>, lo: int, hi: int)
    requires 0 <= lo == hi + 1 <= Size(table)
    ensures !Bisect(table, digest, lo, hi)
  {
    hide Less, DigestAt;
  }

  // The digest stands between these positions.
  predicate Between(table: seq<Byte>, digest: seq<Byte>, lo: int, hi: int)
    requires 0 <= lo <= hi + 1 <= Size(table)
  {
    exists i :: lo <= i <= hi && DigestAt(table, i) == digest
  }

  lemma {:induction false} BisectFinds(table: seq<Byte>, digest: seq<Byte>, lo: int, hi: int)
    requires 0 <= lo <= hi + 1 <= Size(table)
    ensures Bisect(table, digest, lo, hi) ==> Between(table, digest, lo, hi)
    ensures Sorted(table) && Between(table, digest, lo, hi) ==> Bisect(table, digest, lo, hi)
    decreases hi - lo + 1
  {
    hide Less, Sorted, DigestAt, Bisect, Mid;
    if lo <= hi {
      var mid := Mid(lo, hi);
      if Sorted(table) { OneSide(table, mid, digest); }
      LessTrichotomy(DigestAt(table, mid), digest);
      BisectStep(table, digest, lo, hi);
      BisectFinds(table, digest, mid + 1, hi);
      BisectFinds(table, digest, lo, mid - 1);
    } else {
      BisectNothing(table, digest, lo, hi);
    }
  }

  lemma FoundIff(table: seq<Byte>, digest: seq<Byte>)
    ensures Found(table, digest) ==> InTable(table, digest)
    ensures Sorted(table) ==> (Found(table, digest) <==> InTable(table, digest))
  {
    hide Sorted, Bisect;
    BisectFinds(table, digest, 0, Size(table) - 1);
  }

  predicate DistinctDigests(table: seq<Byte>) {
    forall i, j :: 0 <= i < j < Size(table) ==> DigestAt(table, i) != DigestAt(table, j)
  }

  // What stands between these positions ascends.
  predicate AscendsBetween(table: seq<Byte>, lo: int, hi: int)
    requires 0 <= lo <= hi + 1 <= Size(table)
  {
    forall i, j :: lo <= i < j <= hi ==> Less(DigestAt(table, i), DigestAt(table, j))
  }

  lemma NotBetween(table: seq<Byte>, i: nat, lo: int, hi: int)
    requires DistinctDigests(table) && i < Size(table) && 0 <= lo <= hi + 1 <= Size(table) && !(lo <= i <= hi)
    ensures !Bisect(table, DigestAt(table, i), lo, hi)
  {
    hide Bisect, DigestAt;
    BisectFinds(table, DigestAt(table, i), lo, hi);
  }

  // A search that succeeds has turned to the side its digest is on.
  lemma SideBefore(table: seq<Byte>, lo: int, hi: int, i: int)
    requires DistinctDigests(table) && 0 <= lo <= hi < Size(table) && lo <= i < Mid(lo, hi)
    requires Bisect(table, DigestAt(table, i), lo, hi)
    ensures var mid := Mid(lo, hi);
            Less(DigestAt(table, i), DigestAt(table, mid)) && Bisect(table, DigestAt(table, i), lo, mid - 1)
  {
    hide Less, Bisect, DigestAt, Mid;
    var mid := Mid(lo, hi);
    BisectStep(table, DigestAt(table, i), lo, hi);
    NotBetween(table, i, mid + 1, hi);
    LessTrichotomy(DigestAt(table, mid), DigestAt(table, i));
  }

  lemma SideAfter(table: seq<Byte>, lo: int, hi: int, i: int)
    requires DistinctDigests(table) && 0 <= lo <= hi < Size(table) && Mid(lo, hi) < i <= hi
    requires Bisect(table, DigestAt(table, i), lo, hi)
    ensures var mid := Mid(lo, hi);
            Less(DigestAt(table, mid), DigestAt(table, i)) && Bisect(table, DigestAt(table, i), mid + 1, hi)
  {
    hide Less, Bisect, DigestAt, Mid;
    var mid := Mid(lo, hi);
    BisectStep(table, DigestAt(table, i), lo, hi);
    NotBetween(table, i, lo, mid - 1);
    LessTrichotomy(DigestAt(table, mid), DigestAt(table, i));
  }

  lemma AscendsAround(table: seq<Byte>, lo: int, mid: int, hi: int)
    requires 0 <= lo <= mid <= hi < Size(table)
    requires AscendsBetween(table, lo, mid - 1) && AscendsBetween(table, mid + 1, hi)
    requires forall i :: lo <= i < mid ==> Less(DigestAt(table, i), DigestAt(table, mid))
    requires forall i :: mid < i <= hi ==> Less(DigestAt(table, mid), DigestAt(table, i))
    ensures AscendsBetween(table, lo, hi)
  {
    hide Less, DigestAt;
    forall i, j | lo <= i < j <= hi ensures Less(DigestAt(table, i), DigestAt(table, j)) {
      if i < mid < j { LessTransitive(DigestAt(table, i), DigestAt(table, mid), DigestAt(table, j)); }
    }
  }

  // Every entry between these positions is found between them.
  predicate FindsBetween(table: seq<Byte>, lo: int, hi: int)
    requires 0 <= lo <= hi + 1 <= Size(table)
  {
    forall i :: lo <= i <= hi ==> Bisect(table, DigestAt(table, i), lo, hi)
  }

  lemma SidesSplit(table: seq<Byte>, lo: int, hi: int)
    requires DistinctDigests(table) && 0 <= lo <= hi < Size(table) && FindsBetween(table, lo, hi)
    ensures var mid := Mid(lo, hi);
            && FindsBetween(table, lo, mid - 1) && FindsBetween(table, mid + 1, hi)
            && (forall i :: lo <= i < mid ==> Less(DigestAt(table, i), DigestAt(table, mid)))
            && (forall i :: mid < i <= hi ==> Less(DigestAt(table, mid), DigestAt(table, i)))
  {
    hide Less, Bisect, DistinctDigests, DigestAt, Mid;
    var mid := Mid(lo, hi);
    forall i | lo <= i < mid
      ensures Less(DigestAt(table, i), DigestAt(table, mid)) && Bisect(table, DigestAt(table, i), lo, mid - 1)
    {
      SideBefore(table, lo, hi, i);
    }
    forall i | mid < i <= hi
      ensures Less(DigestAt(table, mid), DigestAt(table, i)) && Bisect(table, DigestAt(table, i), mid + 1, hi)
    {
      SideAfter(table, lo, hi, i);
    }
  }

  lemma {:induction false} FindsAllAscends(table: seq<Byte>, lo: int, hi: int)
    requires DistinctDigests(table) && 0 <= lo <= hi + 1 <= Size(table) && FindsBetween(table, lo, hi)
    ensures AscendsBetween(table, lo, hi)
    decreases hi - lo + 1
  {
    hide Less, Bisect, DistinctDigests, DigestAt, FindsBetween, Mid;
    if lo <= hi {
      hide AscendsBetween;
      SidesSplit(table, lo, hi);
      FindsAllAscends(table, lo, Mid(lo, hi) - 1);
      FindsAllAscends(table, Mid(lo, hi) + 1, hi);
      AscendsAround(table, lo, Mid(lo, hi), hi);
    }
  }

  lemma Finds(table: seq<Byte>, i: nat)
    requires Sorted(table) && i < Size(table)
    ensures Found(table, DigestAt(table, i))
  {
    hide Bisect, DigestAt, Sorted;
    FoundIff(table, DigestAt(table, i));
  }

  /** A table in base64 is searched as it comes. Of a table without repetitions the search finds
      every entry if and only if the table is sorted. */
  lemma FindsAllIffSorted(table: seq<Byte>)
    requires DistinctDigests(table)
    ensures (forall i :: 0 <= i < Size(table) ==> Found(table, DigestAt(table, i))) <==> Sorted(table)
  {
    hide Bisect, DigestAt, Sorted, InTable, DistinctDigests, AscendsBetween;
    if Sorted(table) {
      forall i | 0 <= i < Size(table) ensures Found(table, DigestAt(table, i)) { Finds(table, i); }
    } else if forall i :: 0 <= i < Size(table) ==> Found(table, DigestAt(table, i)) {
      FindsAllAscends(table, 0, Size(table) - 1);
      AscendingIsSorted(table);
    }
  }

  lemma AscendingIsSorted(table: seq<Byte>)
    requires AscendsBetween(table, 0, Size(table) - 1)
    ensures Sorted(table)
  {
    hide Less;
    forall i, j | 0 <= i < j < Size(table) ensures !Less(DigestAt(table, j), DigestAt(table, i)) {
      LessTrichotomy(DigestAt(table, i), DigestAt(table, j));
    }
  }

  lemma OneSide(table: seq<Byte>, mid: nat, digest: seq<Byte>)
    requires Sorted(table) && mid < Size(table)
    ensures Less(DigestAt(table, mid), digest) ==> forall i :: 0 <= i <= mid ==> DigestAt(table, i) != digest
    ensures Less(digest, DigestAt(table, mid)) ==> forall i :: mid <= i < Size(table) ==> DigestAt(table, i) != digest
  {
    LessTrichotomy(digest, digest);
    hide Less;
  }

  // ----- Building the table --------------------------------------------------------------------------

  lemma DigestTextShape(s: string)
    requires IsDigestText(s)
    ensures |s| % 2 == 0 && AllHex(s)
  {
  }

  predicate AllDigests(texts: seq<string>) { forall i :: 0 <= i < |texts| ==> IsDigestText(texts[i]) }

  function Concat(texts: seq<string>): (t: seq<Byte>)
    requires AllDigests(texts)
    ensures |t| == 32 * |texts|
  {
    if texts == [] then []
    else
      assert IsDigestText(texts[|texts| - 1]);
      Concat(texts[..|texts| - 1]) + Decoded(texts[|texts| - 1])
  }

  lemma {:induction false} ConcatAt(texts: seq<string>, i: nat)
    requires AllDigests(texts) && i < |texts|
    ensures IsDigestText(texts[i]) && DigestAt(Concat(texts), i) == Decoded(texts[i])
  {
    hide Decoded;
    var n := |texts| - 1;
    assert IsDigestText(texts[n]) && IsDigestText(texts[i]);
    if i < n {
      ConcatAt(texts[..n], i);
      assert DigestAt(Concat(texts), i) == DigestAt(Concat(texts[..n]), i);
    }
  }

  // h is hexadecimal text, in either case, for d.
  predicate Encodes(h: string, d: seq<Byte>) { IsDigestText(Lower(h)) && Decoded(Lower(h)) == d }

  /** Text that is no digest anywhere in the list is refused; otherwise the table is sorted and
      holds exactly the digests of the list. */
  method FromHexList(hexDigests: seq<string>) returns (r: Option<seq<Byte>>)
    ensures r.None? <==> exists h <- hexDigests :: !IsDigestText(Lower(h))
    ensures r.Some? ==> |r.value| == 32 * |hexDigests| && Sorted(r.value)
    ensures r.Some? ==> forall d :: InTable(r.value, d) <==> exists h <- hexDigests :: Encodes(h, d)
  {
    hide Less, Decoded, Lower, IsDigestText, Sorted, InTable, Encodes;
    var lowered := [];
    var i := 0;
    while i < |hexDigests|
      invariant 0 <= i <= |hexDigests|
      invariant |lowered| == i && forall k :: 0 <= k < i ==> lowered[k] == Lower(hexDigests[k])
    {
      lowered := lowered + [Lower(hexDigests[i])];
      i := i + 1;
    }
    var sorted := SortText(lowered);
    SortTextSorts(lowered);
    var out := [];
    i := 0;
    while i < |sorted|
      invariant 0 <= i <= |sorted|
      invariant AllDigests(sorted[..i]) && out == Concat(sorted[..i])
    {
      if !IsDigestText(sorted[i]) {
        SomeBad(hexDigests, lowered, sorted, i);
        return None;
      }
      assert sorted[..i + 1][..i] == sorted[..i] && sorted[..i + 1][i] == sorted[i];
      DigestTextShape(sorted[i]);
      out := out + Decoded(sorted[i]);
      i := i + 1;
    }
    assert sorted[..i] == sorted;
    TableIs(hexDigests, lowered, sorted);
    return Some(out);
  }

  lemma SomeBad(hexes: seq<string>, lowered: seq<string>, sorted: seq<string>, i: nat)
    requires |lowered| == |hexes| && forall k :: 0 <= k < |hexes| ==> lowered[k] == Lower(hexes[k])
    requires (forall x :: x in sorted <==> x in lowered) && i < |sorted| && !IsDigestText(sorted[i])
    ensures exists h <- hexes :: !IsDigestText(Lower(h))
  {
    hide Lower, IsDigestText;
    assert sorted[i] in lowered;
    var k :| 0 <= k < |lowered| && lowered[k] == sorted[i];
    assert hexes[k] in hexes;
  }

  lemma SortedConcat(sorted: seq<string>)
    requires AllDigests(sorted) && Ascends(sorted)
    ensures Sorted(Concat(sorted))
  {
    hide Less, Decoded;
    var t := Concat(sorted);
    forall i, j | 0 <= i < j < |sorted| ensures !Less(DigestAt(t, j), DigestAt(t, i)) {
      ConcatAt(sorted, i);
      ConcatAt(sorted, j);
      HexOrderIsByteOrder(sorted[j], sorted[i]);
    }
  }

  lemma TableIs(hexes: seq<string>, lowered: seq<string>, sorted: seq<string>)
    requires |lowered| == |hexes| && forall k :: 0 <= k < |hexes| ==> lowered[k] == Lower(hexes[k])
    requires (forall x :: x in sorted <==> x in lowered) && Ascends(sorted) && |sorted| == |hexes|
    requires AllDigests(sorted)
    ensures forall h <- hexes :: IsDigestText(Lower(h))
    ensures Sorted(Concat(sorted))
    ensures forall d :: InTable(Concat(sorted), d) <==> exists h <- hexes :: Encodes(h, d)
  {
    SortedConcat(sorted);
    hide Lower, Less, Decoded, Sorted, Concat;
    forall h <- hexes ensures IsDigestText(Lower(h)) && Lower(h) in sorted {
      var k :| 0 <= k < |hexes| && hexes[k] == h;
      assert lowered[k] in sorted;
      var i :| 0 <= i < |sorted| && sorted[i] == lowered[k];
    }
    forall d ensures InTable(Concat(sorted), d) <==> exists h <- hexes :: Encodes(h, d) {
      OneDigest(hexes, lowered, sorted, d);
    }
  }

  lemma OneDigest(hexes: seq<string>, lowered: seq<string>, sorted: seq<string>, d: seq<Byte>)
    requires |lowered| == |hexes| && forall k :: 0 <= k < |hexes| ==> lowered[k] == Lower(hexes[k])
    requires (forall x :: x in sorted <==> x in lowered) && |sorted| == |hexes| && AllDigests(sorted)
    ensures InTable(Concat(sorted), d) <==> exists h <- hexes :: Encodes(h, d)
  {
    hide Lower, Decoded, Concat, IsDigestText;
    var t := Concat(sorted);
    if InTable(t, d) {
      var i :| 0 <= i < Size(t) && DigestAt(t, i) == d;
      ConcatAt(sorted, i);
      assert sorted[i] in lowered;
      var k :| 0 <= k < |lowered| && lowered[k] == sorted[i];
      assert hexes[k] in hexes && Encodes(hexes[k], d);
    }
    if exists h <- hexes :: Encodes(h, d) {
      var h :| h in hexes && Encodes(h, d);
      var k :| 0 <= k < |hexes| && hexes[k] == h;
      assert lowered[k] in sorted;
      var i :| 0 <= i < |sorted| && sorted[i] == lowered[k];
      ConcatAt(sorted, i);
      assert DigestAt(t, i) == d;
    }
  }
}
