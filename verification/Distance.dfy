/**
 Optimal-string-alignment distance of the typosquat check: three rolling rows with a bound
 and an early exit, against the recursive definition and against edit scripts.
 */
module Distance {

  function Min(a: int, b: int): int { if a <= b then a else b }

  function AbsDiff(a: int, b: int): nat { if a >= b then a - b else b - a }

  // ---------------------------------------------------------------- the recursive definition

  predicate Swapped(a: string, b: string, i: nat, j: nat)
    requires i <= |a| && j <= |b|
  {
    i > 1 && j > 1 && a[i - 1] == b[j - 2] && a[i - 2] == b[j - 1]
  }

  function Cost(a: string, b: string, i: nat, j: nat): nat
    requires 0 < i <= |a| && 0 < j <= |b|
  {
    if a[i - 1] == b[j - 1] then 0 else 1
  }

  // The three neighbours of a cell: deletion, insertion, substitution.
  function Cheapest(up: int, left: int, diagonal: int, cost: int): int {
    Min(Min(up + 1, left + 1), diagonal + cost)
  }

  // The distance of the prefixes a[..i] and b[..j]; a transposition costs 1.
  function Osa(a: string, b: string, i: nat, j: nat): (d: nat)
    requires i <= |a| && j <= |b|
  {
    if i == 0 then j
    else if j == 0 then i
    else
      var v := Cheapest(Osa(a, b, i - 1, j), Osa(a, b, i, j - 1), Osa(a, b, i - 1, j - 1), Cost(a, b, i, j));
      if Swapped(a, b, i, j) then Min(v, Osa(a, b, i - 2, j - 2) + 1) else v
  }

  // ---------------------------------------------------------------- bounds

  // The recurrence as facts, for proofs that hide the definition.
  lemma Cell(a: string, b: string, i: nat, j: nat)
    requires i <= |a| && j <= |b|
    ensures i == 0 ==> Osa(a, b, i, j) == j
    ensures j == 0 ==> Osa(a, b, i, j) == i
    ensures i > 0 && j > 0 ==>
      && Osa(a, b, i, j) <= Osa(a, b, i - 1, j) + 1
      && Osa(a, b, i, j) <= Osa(a, b, i, j - 1) + 1
      && Osa(a, b, i, j) <= Osa(a, b, i - 1, j - 1) + Cost(a, b, i, j)
      && (Swapped(a, b, i, j) ==> Osa(a, b, i, j) <= Osa(a, b, i - 2, j - 2) + 1)
    ensures i > 0 && j > 0 ==>
      || Osa(a, b, i, j) == Osa(a, b, i - 1, j) + 1
      || Osa(a, b, i, j) == Osa(a, b, i, j - 1) + 1
      || Osa(a, b, i, j) == Osa(a, b, i - 1, j - 1) + Cost(a, b, i, j)
      || (Swapped(a, b, i, j) && Osa(a, b, i, j) == Osa(a, b, i - 2, j - 2) + 1)
  {
  }

  // The source charges a transposition the substitution cost instead. When that is 0 all
  // four characters are equal and two substitutions are as cheap.
  lemma TranspositionCost(a: string, b: string, i: nat, j: nat, v: int)
    requires 0 < i <= |a| && 0 < j <= |b| && Swapped(a, b, i, j)
    requires v == Cheapest(Osa(a, b, i - 1, j), Osa(a, b, i, j - 1), Osa(a, b, i - 1, j - 1), Cost(a, b, i, j))
    ensures Osa(a, b, i, j) == Min(v, Osa(a, b, i - 2, j - 2) + Cost(a, b, i, j))
  {
    hide Osa;
    CellExact(a, b, i, j);
    Cell(a, b, i - 1, j - 1);
  }

  lemma CellExact(a: string, b: string, i: nat, j: nat)
    requires 0 < i <= |a| && 0 < j <= |b| && Swapped(a, b, i, j)
    ensures Osa(a, b, i, j)
         == Min(Cheapest(Osa(a, b, i - 1, j), Osa(a, b, i, j - 1), Osa(a, b, i - 1, j - 1), Cost(a, b, i, j)),
                Osa(a, b, i - 2, j - 2) + 1)
  {
  }

  lemma {:induction false} LengthBound(a: string, b: string, i: nat, j: nat)
    requires i <= |a| && j <= |b|
    ensures AbsDiff(i, j) <= Osa(a, b, i, j)
    decreases i + j
  {
    hide Osa;
    Cell(a, b, i, j);
    if i > 0 && j > 0 {
      LengthBound(a, b, i - 1, j);
      LengthBound(a, b, i, j - 1);
      LengthBound(a, b, i - 1, j - 1);
      if Swapped(a, b, i, j) { LengthBound(a, b, i - 2, j - 2); }
    }
  }

  // Every entry of row i is at least m.
  ghost predicate RowAtLeast(a: string, b: string, i: nat, m: int)
    requires i <= |a|
  {
    forall j | 0 <= j <= |b| :: Osa(a, b, i, j) >= m
  }

  // The next row is no smaller, although it also reads the row before: a transposition to
  // (i+1, j) is never cheaper than the entry (i, j-1) it skips.
  lemma {:induction false} NextRowAtLeast(a: string, b: string, i: nat, j: nat, m: int)
    requires i + 1 <= |a| && j <= |b| && RowAtLeast(a, b, i, m)
    ensures Osa(a, b, i + 1, j) >= m
    decreases j
  {
    hide Osa;
    Cell(a, b, i + 1, j);
    Cell(a, b, i, j);
    assert Osa(a, b, i, j) >= m;
    if j > 0 {
      NextRowAtLeast(a, b, i, j - 1, m);
      assert Osa(a, b, i, j - 1) >= m;
      if Swapped(a, b, i + 1, j) { Cell(a, b, i, j - 1); }
    }
  }

  lemma {:induction false} RowsAtLeast(a: string, b: string, i: nat, m: int)
    requires i <= |a| && RowAtLeast(a, b, i, m)
    ensures Osa(a, b, |a|, |b|) >= m
    decreases |a| - i
  {
    if i < |a| {
      var next := i + 1;
      forall j | 0 <= j <= |b| ensures Osa(a, b, next, j) >= m { NextRowAtLeast(a, b, i, j, m); }
      RowsAtLeast(a, b, i + 1, m);
    } else {
      assert Osa(a, b, i, |b|) >= m;
    }
  }

  // ---------------------------------------------------------------- the routine

  datatype Bound = Unbounded | AtMost(max: int) {
    predicate Exceeded(d: int) { AtMost? && d > max }
  }

  // The promise of the bounded distance: exact when within the bound, above it otherwise.
  ghost predicate Bounded(r: int, d: nat, bound: Bound) {
    if bound.Exceeded(d) then bound.Exceeded(r) else r == d
  }

  ghost predicate IsRow(row: array<int>, a: string, b: string, i: nat)
    requires i <= |a|
    reads row
  {
    row.Length == |b| + 1 && forall j {:trigger row[j]} | 0 <= j <= |b| :: row[j] == Osa(a, b, i, j)
  }

  method FillCell(a: string, b: string, i: nat, j: nat, prev2: array<int>, prev: array<int>, left: int) returns (v: int)
    requires 1 <= i <= |a| && 1 <= j <= |b|
    requires IsRow(prev, a, b, i - 1) && (i > 1 ==> IsRow(prev2, a, b, i - 2)) && left == Osa(a, b, i, j - 1)
    ensures v == Osa(a, b, i, j)
  {
    var cost := if a[i - 1] == b[j - 1] then 0 else 1;
    v := Cheapest(prev[j], left, prev[j - 1], cost);
    if i > 1 && j > 1 && a[i - 1] == b[j - 2] && a[i - 2] == b[j - 1] {
      TranspositionCost(a, b, i, j, v);
      v := Min(v, prev2[j - 2] + cost);
    }
  }

  // One row of the table: curr from prev and prev2.
  method FillRow(a: string, b: string, i: nat, prev2: array<int>, prev: array<int>, curr: array<int>)
    returns (rowMin: int)
    requires 1 <= i <= |a|
    requires curr.Length == |b| + 1 && curr != prev && curr != prev2
    requires IsRow(prev, a, b, i - 1) && (i > 1 ==> IsRow(prev2, a, b, i - 2))
    modifies curr
    ensures IsRow(curr, a, b, i)
    ensures RowAtLeast(a, b, i, rowMin)
  {
    curr[0] := i;
    rowMin := i;
    for j := 1 to |b| + 1
      invariant forall x {:trigger curr[x]} | 0 <= x < j :: curr[x] == Osa(a, b, i, x) && rowMin <= curr[x]
    {
      var v := FillCell(a, b, i, j, prev2, prev, curr[j - 1]);
      curr[j] := v;
      if v < rowMin { rowMin := v; }
    }
    forall j | 0 <= j <= |b| ensures Osa(a, b, i, j) >= rowMin { assert rowMin <= curr[j]; }
  }

  method DamerauLevenshtein(a: string, b: string, bound: Bound) returns (r: int)
    ensures Bounded(r, Osa(a, b, |a|, |b|), bound)
  {
    LengthBound(a, b, |a|, |b|);
    if bound.Exceeded(AbsDiff(|a|, |b|)) { return bound.max + 1; }
    if |a| == 0 { return |b|; }
    if |b| == 0 { return |a|; }
    var prev := new int[|b| + 1](j => j);
    var prev2 := prev;
    var curr := new int[|b| + 1];
    for i := 1 to |a| + 1
      invariant fresh(prev) && fresh(prev2) && fresh(curr)
      invariant curr.Length == |b| + 1 && curr != prev && curr != prev2
      invariant IsRow(prev, a, b, i - 1) && (i > 1 ==> IsRow(prev2, a, b, i - 2))
    {
      var rowMin := FillRow(a, b, i, prev2, prev, curr);
      if bound.Exceeded(rowMin) {
        RowsAtLeast(a, b, i, rowMin);
        return bound.max + 1;
      }
      prev2 := prev;
      prev := curr;
      curr := new int[|b| + 1];
    }
    return prev[|b|];
  }

  // ---------------------------------------------------------------- a metric without triangles

  lemma {:induction false} Symmetric(a: string, b: string, i: nat, j: nat)
    requires i <= |a| && j <= |b|
    ensures Osa(a, b, i, j) == Osa(b, a, j, i)
    decreases i + j
  {
    hide Osa;
    Cell(a, b, i, j);
    Cell(b, a, j, i);
    if i > 0 && j > 0 {
      Symmetric(a, b, i - 1, j);
      Symmetric(a, b, i, j - 1);
      Symmetric(a, b, i - 1, j - 1);
      if Swapped(a, b, i, j) { Symmetric(a, b, i - 2, j - 2); }
    }
  }

  lemma {:induction false} ZeroIffEqual(a: string, b: string, i: nat, j: nat)
    requires i <= |a| && j <= |b|
    ensures Osa(a, b, i, j) == 0 <==> a[..i] == b[..j]
    decreases i + j
  {
    hide Osa;
    Cell(a, b, i, j);
    if i > 0 && j > 0 {
      ZeroIffEqual(a, b, i - 1, j - 1);
      LengthBound(a, b, i, j);
      assert a[..i] == a[..i - 1] + [a[i - 1]] && b[..j] == b[..j - 1] + [b[j - 1]];
    }
  }

  // ---------------------------------------------------------------- edit scripts

  // The edits of an optimal string alignment; no substring is edited twice.
  datatype Edit =
    | Keep(c: char)
    | Substitute(c: char, d: char)
    | Delete(c: char)
    | Insert(d: char)
    | Transpose(c: char, d: char)

  function Before(e: Edit): string {
    match e
    case Keep(c) => [c]
    case Substitute(c, _) => [c]
    case Delete(c) => [c]
    case Insert(_) => ""
    case Transpose(c, d) => [c, d]
  }

  function After(e: Edit): string {
    match e
    case Keep(c) => [c]
    case Substitute(_, d) => [d]
    case Delete(_) => ""
    case Insert(d) => [d]
    case Transpose(c, d) => [d, c]
  }

  function Source(s: seq<Edit>): string { if s == [] then "" else Source(s[..|s| - 1]) + Before(s[|s| - 1]) }

  function Target(s: seq<Edit>): string { if s == [] then "" else Target(s[..|s| - 1]) + After(s[|s| - 1]) }

  function Price(s: seq<Edit>): nat {
    if s == [] then 0 else Price(s[..|s| - 1]) + EditPrice(s[|s| - 1])
  }

  function EditPrice(e: Edit): nat { if e.Keep? then 0 else 1 }

  // The last edit of a script that ends at (i, j).
  ghost predicate Ends(a: string, b: string, i: nat, j: nat, e: Edit)
    requires i <= |a| && j <= |b|
  {
    && |Before(e)| <= i && Before(e) == a[i - |Before(e)|..i]
    && |After(e)| <= j && After(e) == b[j - |After(e)|..j]
  }

  lemma LastTwo(a: string, i: nat, c: char, d: char)
    requires 2 <= i <= |a| && [c, d] == a[i - 2..i]
    ensures a[i - 2] == c && a[i - 1] == d
  {
    assert a[i - 2] == a[i - 2..i][0] && a[i - 1] == a[i - 2..i][1];
  }

  lemma LastOne(a: string, i: nat, c: char)
    requires 1 <= i <= |a| && [c] == a[i - 1..i]
    ensures a[i - 1] == c
  {
    assert a[i - 1] == a[i - 1..i][0];
  }

  lemma LastEdit(a: string, b: string, i: nat, j: nat, e: Edit)
    requires i <= |a| && j <= |b| && Ends(a, b, i, j, e)
    ensures Osa(a, b, i, j) <= Osa(a, b, i - |Before(e)|, j - |After(e)|) + EditPrice(e)
  {
    hide Osa;
    Cell(a, b, i, j);
    match e
    case Transpose(c, d) =>
      LastTwo(a, i, c, d);
      LastTwo(b, j, d, c);
    case Keep(c) =>
      LastOne(a, i, c);
      LastOne(b, j, c);
    case Substitute(_, _) =>
    case Delete(_) => Cell(a, b, i - 1, j);
    case Insert(_) => Cell(a, b, i, j - 1);
  }

  // e ends a script for (i, j) whose remainder is a cheapest one.
  ghost predicate Best(a: string, b: string, i: nat, j: nat, e: Edit)
    requires i <= |a| && j <= |b|
  {
    && Ends(a, b, i, j, e) && |Before(e)| + |After(e)| > 0
    && Osa(a, b, i, j) == Osa(a, b, i - |Before(e)|, j - |After(e)|) + EditPrice(e)
  }

  lemma BestEdit(a: string, b: string, i: nat, j: nat) returns (e: Edit)
    requires i <= |a| && j <= |b| && (i > 0 || j > 0)
    ensures Best(a, b, i, j, e)
  {
    hide Osa, Best;
    Cell(a, b, i, j);
    if i == 0 || j == 0 {
      e := BestAtEdge(a, b, i, j);
    } else if Osa(a, b, i, j) == Osa(a, b, i - 1, j) + 1 {
      e := Delete(a[i - 1]);
      DeleteBest(a, b, i, j);
    } else if Osa(a, b, i, j) == Osa(a, b, i, j - 1) + 1 {
      e := Insert(b[j - 1]);
      InsertBest(a, b, i, j);
    } else if Osa(a, b, i, j) == Osa(a, b, i - 1, j - 1) + Cost(a, b, i, j) {
      e := OneForOne(a[i - 1], b[j - 1]);
      OneForOneBest(a, b, i, j);
    } else {
      e := Transpose(a[i - 2], a[i - 1]);
      TransposeBest(a, b, i, j);
    }
  }

  lemma BestAtEdge(a: string, b: string, i: nat, j: nat) returns (e: Edit)
    requires i <= |a| && j <= |b| && (i > 0 <==> j == 0)
    ensures Best(a, b, i, j, e)
  {
    hide Osa, Best;
    Cell(a, b, i, j);
    if j == 0 {
      Cell(a, b, i - 1, 0);
      e := Delete(a[i - 1]);
      DeleteBest(a, b, i, j);
    } else {
      Cell(a, b, 0, j - 1);
      e := Insert(b[j - 1]);
      InsertBest(a, b, i, j);
    }
  }

  function OneForOne(c: char, d: char): Edit { if c == d then Keep(c) else Substitute(c, d) }

  lemma DeleteBest(a: string, b: string, i: nat, j: nat)
    requires 0 < i <= |a| && j <= |b| && Osa(a, b, i, j) == Osa(a, b, i - 1, j) + 1
    ensures Best(a, b, i, j, Delete(a[i - 1]))
  {
    hide Osa, Cost, Swapped;
    assert a[i - 1..i] == [a[i - 1]] && b[j..j] == "";
  }

  lemma InsertBest(a: string, b: string, i: nat, j: nat)
    requires i <= |a| && 0 < j <= |b| && Osa(a, b, i, j) == Osa(a, b, i, j - 1) + 1
    ensures Best(a, b, i, j, Insert(b[j - 1]))
  {
    hide Osa;
  }

  lemma OneForOneBest(a: string, b: string, i: nat, j: nat)
    requires 0 < i <= |a| && 0 < j <= |b| && Osa(a, b, i, j) == Osa(a, b, i - 1, j - 1) + Cost(a, b, i, j)
    ensures Best(a, b, i, j, OneForOne(a[i - 1], b[j - 1]))
  {
    hide Osa;
  }

  lemma TransposeBest(a: string, b: string, i: nat, j: nat)
    requires 0 < i <= |a| && 0 < j <= |b| && Swapped(a, b, i, j) && Osa(a, b, i, j) == Osa(a, b, i - 2, j - 2) + 1
    ensures Best(a, b, i, j, Transpose(a[i - 2], a[i - 1]))
  {
    hide Osa;
  }

  lemma PrefixParts(a: string, i: nat, x: string, y: string)
    requires i <= |a| && x + y == a[..i]
    ensures |y| <= i && x == a[..i - |y|] && y == a[i - |y|..i]
  {
    var s := x + y;
    assert |s| == i && x == s[..|x|] && y == s[|x|..];
  }

  lemma ScriptEnds(a: string, b: string, i: nat, j: nat, s: seq<Edit>)
    requires i <= |a| && j <= |b| && Source(s) == a[..i] && Target(s) == b[..j] && s != []
    ensures var e, r := s[|s| - 1], s[..|s| - 1];
            && Ends(a, b, i, j, e)
            && Source(r) == a[..i - |Before(e)|] && Target(r) == b[..j - |After(e)|]
  {
    PrefixParts(a, i, Source(s[..|s| - 1]), Before(s[|s| - 1]));
    PrefixParts(b, j, Target(s[..|s| - 1]), After(s[|s| - 1]));
  }

  /** No script that turns a[..i] into b[..j] is cheaper than the distance. */
  lemma {:induction false} ScriptsCostAtLeast(a: string, b: string, i: nat, j: nat, s: seq<Edit>)
    requires i <= |a| && j <= |b| && Source(s) == a[..i] && Target(s) == b[..j]
    ensures Osa(a, b, i, j) <= Price(s)
    decreases |s|
  {
    hide Osa;
    if s != [] {
      var e := s[|s| - 1];
      ScriptEnds(a, b, i, j, s);
      ScriptsCostAtLeast(a, b, i - |Before(e)|, j - |After(e)|, s[..|s| - 1]);
      LastEdit(a, b, i, j, e);
    } else {
      Cell(a, b, i, j);
    }
  }

  lemma ScriptSnoc(r: seq<Edit>, e: Edit)
    ensures Source(r + [e]) == Source(r) + Before(e) && Target(r + [e]) == Target(r) + After(e)
    ensures Price(r + [e]) == Price(r) + EditPrice(e)
  {
    assert (r + [e])[..|r|] == r;
  }

  /** Some script costs exactly the distance. */
  lemma {:induction false} CheapestScript(a: string, b: string, i: nat, j: nat) returns (s: seq<Edit>)
    requires i <= |a| && j <= |b|
    ensures Source(s) == a[..i] && Target(s) == b[..j] && Price(s) == Osa(a, b, i, j)
    decreases i + j
  {
    hide Osa, Best, Ends, Before, After, EditPrice;
    if i == 0 && j == 0 {
      s := [];
      Cell(a, b, i, j);
    } else {
      var e := BestEdit(a, b, i, j);
      BestBounds(a, b, i, j, e);
      var r := CheapestScript(a, b, i - |Before(e)|, j - |After(e)|);
      s := r + [e];
      ScriptExtends(a, b, i, j, e, r);
    }
  }

  lemma BestBounds(a: string, b: string, i: nat, j: nat, e: Edit)
    requires i <= |a| && j <= |b| && Best(a, b, i, j, e)
    ensures |Before(e)| <= i && |After(e)| <= j && |Before(e)| + |After(e)| > 0
  {
    hide Osa;
  }

  lemma ScriptExtends(a: string, b: string, i: nat, j: nat, e: Edit, r: seq<Edit>)
    requires i <= |a| && j <= |b| && Best(a, b, i, j, e) && |Before(e)| <= i && |After(e)| <= j
    requires Source(r) == a[..i - |Before(e)|] && Target(r) == b[..j - |After(e)|]
    requires Price(r) == Osa(a, b, i - |Before(e)|, j - |After(e)|)
    ensures Source(r + [e]) == a[..i] && Target(r + [e]) == b[..j] && Price(r + [e]) == Osa(a, b, i, j)
  {
    hide Osa, Source, Target, Price, Before, After, EditPrice;
    ScriptSnoc(r, e);
    var (p, q) := (|Before(e)|, |After(e)|);
    assert a[..i] == a[..i - p] + a[i - p..i] && b[..j] == b[..j - q] + b[j - q..j];
  }
}
