/**
 Bundle versions "YYYY.MM.DD-N": parsing and comparing. Build numbers are exact here.
 */
module BundleVersion {
  import opened Decimals
  import opened Wrappers

  datatype Version = Version(year: nat, month: nat, day: nat, build: nat)

  predicate Shaped(v: string) {
    && |v| >= 12 && AllDigits(v[..4]) && v[4] == '.' && AllDigits(v[5..7]) && v[7] == '.' && AllDigits(v[8..10])
    && v[10] == '-' && AllDigits(v[11..])
  }

  function Parse(v: string): Option<Version> {
    if Shaped(v) then Some(Version(NatValue(v[..4]), NatValue(v[5..7]), NatValue(v[8..10]), NatValue(v[11..])))
    else None
  }

  function Part(v: Version, i: nat): nat
    requires i < 4
  {
    if i == 0 then v.year else if i == 1 then v.month else if i == 2 then v.day else v.build
  }

  predicate Newer(a: Version, b: Version) {
    a.year > b.year || (a.year == b.year && (a.month > b.month || (a.month == b.month &&
      (a.day > b.day || (a.day == b.day && a.build > b.build)))))
  }

  function Comparison(a: string, b: string): Option<int> {
    if Parse(a).None? || Parse(b).None? then None
    else if Newer(Parse(a).value, Parse(b).value) then Some(1)
    else if Newer(Parse(b).value, Parse(a).value) then Some(-1)
    else Some(0)
  }

  method CompareBundleVersions(a: string, b: string) returns (r: Option<int>)
    ensures r == Comparison(a, b)
  {
    var pa, pb := Parse(a), Parse(b);
    if pa.None? || pb.None? { return None; }
    var i := 0;
    while i < 4
      invariant 0 <= i <= 4
      invariant forall j :: 0 <= j < i ==> Part(pa.value, j) == Part(pb.value, j)
    {
      if Part(pa.value, i) != Part(pb.value, i) {
        assert i > 0 ==> Part(pa.value, 0) == Part(pb.value, 0);
        assert i > 1 ==> Part(pa.value, 1) == Part(pb.value, 1);
        assert i > 2 ==> Part(pa.value, 2) == Part(pb.value, 2);
        return Some(if Part(pa.value, i) < Part(pb.value, i) then -1 else 1);
      }
      i := i + 1;
    }
    assert Part(pa.value, 0) == Part(pb.value, 0) && Part(pa.value, 1) == Part(pb.value, 1);
    assert Part(pa.value, 2) == Part(pb.value, 2) && Part(pa.value, 3) == Part(pb.value, 3);
    return Some(0);
  }

  // Four digits, two, two, and at least one, with the separators between them.
  ghost predicate Spelled(v: string, y: string, m: string, d: string, n: string) {
    && AllDigits(y) && AllDigits(m) && AllDigits(d) && AllDigits(n)
    && |y| == 4 && |m| == 2 && |d| == 2 && n != ""
    && v == y + "." + m + "." + d + "-" + n
  }

  /** A text parses exactly if it is spelled so, and as the four numbers it spells. */
  lemma ParseIff(v: string, p: Version)
    ensures Parse(v) == Some(p)
       <==> exists y, m, d, n ::
              Spelled(v, y, m, d, n) && p == Version(NatValue(y), NatValue(m), NatValue(d), NatValue(n))
  {
    if Shaped(v) {
      assert v == v[..4] + "." + v[5..7] + "." + v[8..10] + "-" + v[11..];
      assert Spelled(v, v[..4], v[5..7], v[8..10], v[11..]);
    }
    forall y, m, d, n | Spelled(v, y, m, d, n)
      ensures Shaped(v) && y == v[..4] && m == v[5..7] && d == v[8..10] && n == v[11..] {
    }
  }

  /** Newer is the first part that differs, from the year down to the build, being greater. */
  lemma NewerByParts(a: string, b: string)
    requires Parse(a).Some? && Parse(b).Some?
    ensures var (pa, pb) := (Parse(a).value, Parse(b).value);
            Comparison(a, b).Some?
            && (Comparison(a, b).value > 0
                <==> || pa.year > pb.year
                     || (pa.year == pb.year && pa.month > pb.month)
                     || (pa.year == pb.year && pa.month == pb.month && pa.day > pb.day)
                     || (pa.year == pb.year && pa.month == pb.month && pa.day == pb.day && pa.build > pb.build))
  {
    hide Parse;
  }

  /** The comparison is a total order on what the versions say, for all versions that parse. */
  lemma ComparisonIsTotalOrder(a: string, b: string, c: string)
    requires Parse(a).Some? && Parse(b).Some? && Parse(c).Some?
    ensures Comparison(a, a) == Some(0) && Comparison(b, a) == Some(-Comparison(a, b).value)
    ensures Comparison(a, b) == Some(0) <==> Parse(a) == Parse(b)
    ensures Comparison(a, b).value >= 0 && Comparison(b, c).value >= 0 ==> Comparison(a, c).value >= 0
    ensures Comparison(a, b).value > 0 && Comparison(b, c).value >= 0 ==> Comparison(a, c).value > 0
  {
    hide Parse;
  }

  /** Different texts can be the same version, so re-signing a build as "-01" is a rollback. */
  lemma LeadingZerosCompareEqual()
    ensures Comparison("2026.01.02-1", "2026.01.02-01") == Some(0)
  {
    var (a, b) := ("2026.01.02-1", "2026.01.02-01");
    assert a[..4] == b[..4] && a[5..7] == b[5..7] && a[8..10] == b[8..10];
    assert a[11..] == "1" && b[11..] == "01";
    assert "01"[..1] == "0" && "0"[..0] == "" && "1"[..0] == "";
    assert NatValue("0") == 0 && NatValue("01") == 1 && NatValue("1") == 1;
  }
}
