/**
 Decoding the labels of a host name for display: labels with the ACE prefix are decoded, labels
 that do not decode and all others stay as they are.

 Hosts are sequences of code points, before and after.
 */
module PunycodeHost {
  import opened Wrappers
  import opened Arith
  import opened Punycode
  import opened Rfc3492
  import opened PunycodeInverse

  const DOT := 46

  // `split` on a dot: always one label at least.
  function Labels(host: seq<nat>): (ls: seq<seq<nat>>)
    ensures ls != []
  {
    if host == [] then [[]]
    else
      var rest := Labels(host[1..]);
      if host[0] == DOT then [[]] + rest else [[host[0]] + rest[0]] + rest[1..]
  }

  function Joined(ls: seq<seq<nat>>): seq<nat> {
    if ls == [] then [] else if |ls| == 1 then ls[0] else ls[0] + [DOT] + Joined(ls[1..])
  }

  // "xn--", in either case.
  predicate IsPunycodeLabel(part: seq<nat>) {
    |part| >= 4 && part[0] in {120, 88} && part[1] in {110, 78} && part[2] == 45 && part[3] == 45
  }

  // What is shown for a label.
  function Shown(part: seq<nat>): seq<nat> {
    if !IsPunycodeLabel(part) then part
    else match DecodeLabel(part[4..]) case Ok(s) => s case Err(_) => part
  }

  function ShownAll(ls: seq<seq<nat>>): (r: seq<seq<nat>>)
    ensures |r| == |ls| && forall i :: 0 <= i < |ls| ==> r[i] == Shown(ls[i])
  {
    seq(|ls|, i requires 0 <= i < |ls| => Shown(ls[i]))
  }

  method DecodeHostLabels(host: seq<nat>) returns (shown: seq<nat>)
    ensures shown == Joined(ShownAll(Labels(host)))
    ensures Labels(shown) == ShownAll(Labels(host))
  {
    hide Shown, Labels, Joined, DecodeLabel;
    var ls := Labels(host);
    var out := [];
    for i := 0 to |ls|
      invariant |out| == i && forall j :: 0 <= j < i ==> out[j] == Shown(ls[j])
    {
      var part := ls[i];
      ShownCases(part);
      if IsPunycodeLabel(part) {
        var r := DecodePunycodeLabel(part[4..]);
        if r.Ok? { part := r.value; }
      }
      out := out + [part];
    }
    assert out == ShownAll(ls);
    shown := Joined(out);
    LabelsShown(host);
  }

  lemma ShownCases(part: seq<nat>)
    ensures !IsPunycodeLabel(part) ==> Shown(part) == part
    ensures IsPunycodeLabel(part) && DecodeLabel(part[4..]).Ok? ==> Shown(part) == DecodeLabel(part[4..]).value
    ensures IsPunycodeLabel(part) && DecodeLabel(part[4..]).Err? ==> Shown(part) == part
  {
    hide DecodeLabel;
  }

  // ---------------------------------------------------------------- dots

  lemma {:induction false} LabelsHaveNoDot(host: seq<nat>)
    ensures forall l <- Labels(host) :: DOT !in l
  {
    if host != [] {
      LabelsHaveNoDot(host[1..]);
      var rest := Labels(host[1..]);
      assert rest[0] in rest && forall l <- rest[1..] :: l in rest;
    }
  }

  lemma {:induction false} LabelThenDot(l: seq<nat>, rest: seq<nat>)
    requires DOT !in l
    ensures Labels(l) == [l] && Labels(l + [DOT] + rest) == [l] + Labels(rest)
  {
    var all := l + [DOT] + rest;
    if l == [] {
      assert all[1..] == rest;
    } else {
      assert l[0] in l && forall c <- l[1..] :: c in l;
      LabelThenDot(l[1..], rest);
      assert all[1..] == l[1..] + [DOT] + rest;
      assert l == [l[0]] + l[1..];
    }
  }

  lemma {:induction false} JoinedLabels(ls: seq<seq<nat>>)
    requires ls != [] && forall l <- ls :: DOT !in l
    ensures Labels(Joined(ls)) == ls
  {
    hide Labels;
    assert ls[0] in ls && forall l <- ls[1..] :: l in ls;
    if |ls| == 1 {
      LabelThenDot(ls[0], []);
    } else {
      JoinedLabels(ls[1..]);
      LabelThenDot(ls[0], Joined(ls[1..]));
    }
    assert ls == [ls[0]] + ls[1..];
  }

  lemma {:induction false} BelowHas(s: seq<nat>, n: nat, c: nat)
    ensures c in Below(s, n) <==> c in s && c < n
  {
    if s != [] {
      Uncons(s);
      BelowHas(s[1..], n, c);
    }
  }

  // Decoding brings in no ASCII character that was not there.
  lemma DecodedBasic(x: seq<nat>, c: nat)
    requires DecodeLabel(x).Ok? && c < 128
    ensures c in DecodeLabel(x).value <==> c in Basic(x)
  {
    var s := DecodeLabel(x).value;
    RunPlan(Basic(x), Extended(x), s);
    BelowHas(s, 128, c);
  }

  lemma BasicIn(x: seq<nat>, c: nat)
    requires c in Basic(x)
    ensures c in x
  {
  }

  lemma ShownHasNoDot(part: seq<nat>)
    requires DOT !in part
    ensures DOT !in Shown(part)
  {
    if IsPunycodeLabel(part) && DecodeLabel(part[4..]).Ok? {
      DecodedBasic(part[4..], DOT);
      if DOT in Basic(part[4..]) { BasicIn(part[4..], DOT); }
    }
  }

  /** Decoding for display keeps the structure of a host: label by label it shows what the label
      decodes to, and no decoded label falls apart into several or joins with its neighbour. */
  lemma LabelsShown(host: seq<nat>)
    ensures Labels(Joined(ShownAll(Labels(host)))) == ShownAll(Labels(host))
  {
    hide Shown, Labels, Joined;
    var ls := Labels(host);
    LabelsHaveNoDot(host);
    var all := ShownAll(ls);
    forall l <- all ensures DOT !in l {
      var i :| 0 <= i < |all| && all[i] == l;
      assert ls[i] in ls;
      ShownHasNoDot(ls[i]);
    }
    JoinedLabels(all);
  }

  /** A label is shown as something else exactly when it has the ACE prefix and what follows is, up
      to the case of its digits, how RFC 3492 writes that. */
  lemma ShownOtherwiseIff(part: seq<nat>, s: seq<nat>)
    requires s != part && 2 * |part| <= MAX_POINTS
    ensures Shown(part) == s
       <==> IsPunycodeLabel(part) && AllBelow(s, 0x110000) && EncodeLabel(s) == Normal(part[4..])
  {
    hide EncodeLabel, Normal, DecodeLabel;
    if IsPunycodeLabel(part) { AcceptsIff(part[4..], s); }
  }
}
