/**
 The hash-chained audit emitter, run one emission at a time as the bus sink does, and with two
 emissions overlapping.

 The digest and the canonical text of an event without its hash are inputs. Of the digest only
 its length is assumed, of the text that it tells events apart and starts with a brace.
 */
module Audit {
  import opened Wrappers

  // An event's content is all of it but seq, prevHash and hash.
  datatype Event = Event(seqNo: nat, content: string, prevHash: string, hash: string)

  type Digest = string -> string

  type Text = (nat, string, string) -> string

  // Hexadecimal digests of 64 characters.
  ghost predicate IsDigest(h: Digest) { forall x :: |h(x)| == 64 }

  ghost predicate IsText(text: Text) {
    && (forall s, c, p :: text(s, c, p) != "" && text(s, c, p)[0] == '{')
    && (forall s, c, p, s', c', p' :: text(s, c, p) == text(s', c', p') ==> s == s' && c == c' && p == p')
  }

  function ChainHash(h: Digest, text: string, prevHash: string): string { "sha256:" + h(prevHash + text) }

  function BuildAuditEvent(seqNo: nat, content: string, prevHash: string, h: Digest, text: Text): Event {
    Event(seqNo, content, prevHash, ChainHash(h, text(seqNo, content, prevHash), prevHash))
  }

  class AuditEmitter {
    const h: Digest
    const text: Text
    var seqNo: nat
    var prevHash: string
    var delivered: seq<Event>

    constructor (h: Digest, text: Text)
      ensures this.h == h && this.text == text && St() == Emitter(0, "", [])
    {
      this.h, this.text, seqNo, prevHash, delivered := h, text, 0, "", [];
    }

    function St(): Emitter
      reads this
    {
      Emitter(seqNo, prevHash, delivered)
    }

    // `sinkOk` says whether the sink takes the event; if not, its error propagates.
    method EmitEvent(content: string, sinkOk: bool) returns (r: Option<Event>)
      modifies this
      ensures St() == Emit(old(St()), content, sinkOk, h, text)
      ensures r == if sinkOk then Some(delivered[|delivered| - 1]) else None
    {
      seqNo := seqNo + 1;
      var event := BuildAuditEvent(seqNo, content, prevHash, h, text);
      if !sinkOk { return None; }
      delivered := delivered + [event];
      prevHash := event.hash;
      return Some(event);
    }
  }

  // The emitter's fields, and what its sink has taken.
  datatype Emitter = Emitter(seqNo: nat, prevHash: string, delivered: seq<Event>)

  // Up to the await: the number is taken and the event built on the hash as it is now.
  function Begin(s: Emitter, content: string, h: Digest, text: Text): (Emitter, Event) {
    (s.(seqNo := s.seqNo + 1), BuildAuditEvent(s.seqNo + 1, content, s.prevHash, h, text))
  }

  // After it.
  function Finish(s: Emitter, e: Event): Emitter {
    s.(prevHash := e.hash, delivered := s.delivered + [e])
  }

  function Emit(s: Emitter, content: string, sinkOk: bool, h: Digest, text: Text): Emitter {
    var (s', e) := Begin(s, content, h, text);
    if sinkOk then Finish(s', e) else s'
  }

  // ----- Serial runs -----------------------------------------------------------------------------

  datatype Emission = Emission(content: string, sinkOk: bool)

  function Run(es: seq<Emission>, h: Digest, text: Text): Emitter {
    if es == [] then Emitter(0, "", [])
    else Emit(Run(es[..|es| - 1], h, text), es[|es| - 1].content, es[|es| - 1].sinkOk, h, text)
  }

  // The hash a history ends in.
  function Head(d: seq<Event>): string { if d == [] then "" else d[|d| - 1].hash }

  predicate WellHashed(e: Event, h: Digest, text: Text) {
    e.hash == "sha256:" + h(e.prevHash + text(e.seqNo, e.content, e.prevHash))
  }

  /** Every event is hashed over its predecessor, the first over the empty string, and the numbers
      go up. */
  predicate IsChain(d: seq<Event>, h: Digest, text: Text) {
    && (forall i :: 0 <= i < |d| ==> WellHashed(d[i], h, text) && d[i].prevHash == Head(d[..i]))
    && (forall i, j :: 0 <= i < j < |d| ==> d[i].seqNo < d[j].seqNo)
  }

  function Failures(es: seq<Emission>): nat {
    if es == [] then 0 else Failures(es[..|es| - 1]) + (if es[|es| - 1].sinkOk then 0 else 1)
  }

  lemma ChainGrows(d: seq<Event>, e: Event, h: Digest, text: Text)
    requires IsChain(d, h, text) && e.prevHash == Head(d) && WellHashed(e, h, text)
    requires d != [] ==> d[|d| - 1].seqNo < e.seqNo
    ensures IsChain(d + [e], h, text)
  {
    hide WellHashed, Head;
    var d' := d + [e];
    forall i | 0 <= i < |d'| ensures WellHashed(d'[i], h, text) && d'[i].prevHash == Head(d'[..i]) {
      if i == |d| { assert d'[..i] == d; } else { assert d'[i] == d[i] && d'[..i] == d[..i]; }
    }
  }

  lemma HeadGrows(s: Emitter, content: string, h: Digest, text: Text)
    ensures var e := BuildAuditEvent(s.seqNo + 1, content, s.prevHash, h, text);
            Head(s.delivered + [e]) == e.hash && WellHashed(e, h, text)
  {
  }

  // The emitter stands at the head of the chain it has delivered.
  predicate AtHead(s: Emitter, h: Digest, text: Text) {
    && IsChain(s.delivered, h, text) && s.prevHash == Head(s.delivered)
    && (s.delivered != [] ==> s.delivered[|s.delivered| - 1].seqNo <= s.seqNo)
  }

  lemma EmitKeeps(s: Emitter, content: string, sinkOk: bool, h: Digest, text: Text)
    requires AtHead(s, h, text)
    ensures AtHead(Emit(s, content, sinkOk, h, text), h, text)
  {
    hide IsChain, ChainHash, Head, WellHashed;
    HeadGrows(s, content, h, text);
    if sinkOk { ChainGrows(s.delivered, BuildAuditEvent(s.seqNo + 1, content, s.prevHash, h, text), h, text); }
  }

  /** Serial emissions, however often the sink fails: what was delivered is one chain with rising
      numbers, the emitter points at its last hash, and the numbers that are missing are those of
      the failures. */
  lemma {:induction false} SerialRunsChain(es: seq<Emission>, h: Digest, text: Text)
    ensures var s := Run(es, h, text);
            && IsChain(s.delivered, h, text) && s.prevHash == Head(s.delivered)
            && s.seqNo == |es| == |s.delivered| + Failures(es)
            && (s.delivered != [] ==> s.delivered[|s.delivered| - 1].seqNo <= s.seqNo)
  {
    hide IsChain, ChainHash, WellHashed, BuildAuditEvent;
    if es == [] {
      NothingIsChain(h, text);
    } else {
      var n := |es| - 1;
      SerialRunsChain(es[..n], h, text);
      EmitKeeps(Run(es[..n], h, text), es[n].content, es[n].sinkOk, h, text);
    }
  }

  lemma NothingIsChain(h: Digest, text: Text)
    ensures IsChain([], h, text)
  {
  }

  // The rising positions of exactly the emissions that the sink took.
  ghost predicate SinkTook(at: seq<nat>, es: seq<Emission>) {
    && (forall k :: 0 <= k < |at| ==> at[k] < |es|)
    && (forall k, l :: 0 <= k < l < |at| ==> at[k] < at[l])
    && (forall j :: 0 <= j < |es| ==> (j in at <==> es[j].sinkOk))
  }

  // The emission that comes next is the last one in front of which these were taken.
  lemma TookOneMore(at: seq<nat>, es: seq<Emission>)
    requires es != [] && SinkTook(at, es[..|es| - 1])
    ensures SinkTook(if es[|es| - 1].sinkOk then at + [|es| - 1] else at, es)
  {
    var n := |es| - 1;
    var at' := if es[n].sinkOk then at + [n] else at;
    forall j | 0 <= j < |es| ensures j in at' <==> es[j].sinkOk {
      if j < n { assert es[..n][j] == es[j]; }
      if es[n].sinkOk { assert at'[|at|] == n; }
    }
  }

  // What one emission adds.
  lemma EmitAdds(s: Emitter, content: string, sinkOk: bool, h: Digest, text: Text)
    ensures var s' := Emit(s, content, sinkOk, h, text);
            && s'.seqNo == s.seqNo + 1
            && (!sinkOk ==> s'.delivered == s.delivered)
            && (sinkOk ==> |s'.delivered| == |s.delivered| + 1 && s.delivered <= s'.delivered
                           && s'.delivered[|s.delivered|].content == content
                           && s'.delivered[|s.delivered|].seqNo == s'.seqNo)
  {
    hide ChainHash;
  }

  // The events delivered are those of the emissions at these places.
  ghost predicate DeliveredAt(d: seq<Event>, at: seq<nat>, es: seq<Emission>) {
    && |d| == |at| && SinkTook(at, es)
    && forall k :: 0 <= k < |at| ==> d[k].content == es[at[k]].content && d[k].seqNo == at[k] + 1
  }

  lemma DeliveredOneMore(s: Emitter, at: seq<nat>, es: seq<Emission>, h: Digest, text: Text)
    requires es != [] && DeliveredAt(s.delivered, at, es[..|es| - 1]) && s.seqNo == |es| - 1
    ensures var last := es[|es| - 1];
            DeliveredAt(Emit(s, last.content, last.sinkOk, h, text).delivered,
                        if last.sinkOk then at + [|es| - 1] else at, es)
  {
    var n := |es| - 1;
    EmitAdds(s, es[n].content, es[n].sinkOk, h, text);
    TookOneMore(at, es);
    hide Emit;
    forall k | 0 <= k < |at| ensures es[..n][at[k]] == es[at[k]] {
    }
  }

  lemma RunOneMore(es: seq<Emission>, h: Digest, text: Text)
    requires es != []
    ensures var n := |es| - 1;
            Run(es, h, text) == Emit(Run(es[..n], h, text), es[n].content, es[n].sinkOk, h, text)
            && Run(es[..n], h, text).seqNo == n
  {
    SerialRunsChain(es[..|es| - 1], h, text);
    hide Emit, IsChain, Head, Failures;
  }

  /** What serial emissions deliver: in order, each event the sink took, with the content it was given
      and the number of its emission. */
  lemma {:induction false} DeliveredAreTaken(es: seq<Emission>, h: Digest, text: Text) returns (at: seq<nat>)
    ensures DeliveredAt(Run(es, h, text).delivered, at, es)
  {
    if es == [] {
      at := [];
    } else {
      hide DeliveredAt, Run;
      var n := |es| - 1;
      var front := DeliveredAreTaken(es[..n], h, text);
      RunOneMore(es, h, text);
      DeliveredOneMore(Run(es[..n], h, text), front, es, h, text);
      at := if es[n].sinkOk then front + [n] else front;
    }
  }

  // ----- Tamper evidence ---------------------------------------------------------------------------

  predicate HashShaped(p: string) { p == "" || (|p| == 71 && p[0] == 's') }

  // Where the previous hash ends and the text begins can be told from the whole.
  lemma SplitsUniquely(p: string, t: string, p': string, t': string)
    requires HashShaped(p) && HashShaped(p') && t != "" && t' != "" && t[0] == t'[0] == '{'
    requires p + t == p' + t'
    ensures p == p' && t == t'
  {
    assert (p + t)[0] == (p' + t')[0];
    assert |p| == |p'|;
    assert p == (p + t)[..|p|] && p' == (p' + t')[..|p'|];
    assert t == (p + t)[|p|..] && t' == (p' + t')[|p'|..];
  }

  lemma HashesShaped(d: seq<Event>, h: Digest, text: Text, i: nat)
    requires IsDigest(h) && IsChain(d, h, text) && i < |d|
    ensures HashShaped(d[i].prevHash) && HashShaped(d[i].hash) && d[i].hash != ""
  {
    assert WellHashed(d[i], h, text);
    if i > 0 {
      assert WellHashed(d[i - 1], h, text);
      assert d[..i][i - 1] == d[i - 1];
    }
  }

  lemma ChainPrefix(d: seq<Event>, h: Digest, text: Text)
    requires IsChain(d, h, text) && d != []
    ensures IsChain(d[..|d| - 1], h, text)
  {
    hide WellHashed;
    var front := d[..|d| - 1];
    forall i | 0 <= i < |front| ensures front[i] == d[i] && front[..i] == d[..i] { }
  }

  lemma LastLink(d: seq<Event>, h: Digest, text: Text)
    requires IsDigest(h) && IsChain(d, h, text) && d != []
    ensures var (front, e) := (d[..|d| - 1], d[|d| - 1]);
            && Head(d) == e.hash && e.hash != "" && WellHashed(e, h, text) && HashShaped(e.prevHash)
            && e.prevHash == Head(front) && IsChain(front, h, text) && d == front + [e]
  {
    HashesShaped(d, h, text, |d| - 1);
    ChainPrefix(d, h, text);
  }

  /** Two chains that end in the same hash are the same history, or they give away two different
      texts with the same digest. */
  lemma {:induction false} SameHeadSameHistory(a: seq<Event>, b: seq<Event>, h: Digest, text: Text)
    returns (x: string, y: string)
    requires IsDigest(h) && IsText(text) && IsChain(a, h, text) && IsChain(b, h, text) && Head(a) == Head(b)
    ensures a == b || (x != y && h(x) == h(y))
    decreases |a|
  {
    assert Head([]) == "";
    hide *;
    x, y := "", "";
    if a != [] { LastLink(a, h, text); }
    if b != [] { LastLink(b, h, text); }
    if a != [] && b != [] {
      x, y := SameHashSameEvent(a[|a| - 1], b[|b| - 1], h, text);
      if x == y { x, y := SameHeadSameHistory(a[..|a| - 1], b[..|b| - 1], h, text); }
    }
  }

  lemma SameHashSameEvent(e: Event, f: Event, h: Digest, text: Text) returns (x: string, y: string)
    requires IsText(text) && WellHashed(e, h, text) && WellHashed(f, h, text)
    requires HashShaped(e.prevHash) && HashShaped(f.prevHash) && e.hash == f.hash
    ensures (x == y && e == f) || (x != y && h(x) == h(y))
  {
    var (te, tf) := (text(e.seqNo, e.content, e.prevHash), text(f.seqNo, f.content, f.prevHash));
    x, y := e.prevHash + te, f.prevHash + tf;
    SameDigest(h(x), h(y));
    if x == y { SplitsUniquely(e.prevHash, te, f.prevHash, tf); }
  }

  lemma SameDigest(a: string, b: string)
    requires "sha256:" + a == "sha256:" + b
    ensures a == b
  {
    assert ("sha256:" + a)[7..] == a && ("sha256:" + b)[7..] == b;
  }

  // ----- Overlapping emissions -----------------------------------------------------------------------

  // What becomes of two emissions that are both built before the sink has answered either: which
  // of them it takes, and in which order.
  datatype Taken = Neither | OnlyFirst | OnlySecond | InOrder | Reversed

  function TakenOf(t: Taken, e1: Event, e2: Event): seq<Event> {
    match t
    case Neither => []
    case OnlyFirst => [e1]
    case OnlySecond => [e2]
    case InOrder => [e1, e2]
    case Reversed => [e2, e1]
  }

  function FinishAll(s: Emitter, es: seq<Event>): Emitter
    decreases |es|
  {
    if es == [] then s else FinishAll(Finish(s, es[0]), es[1..])
  }

  function Overlapped(s: Emitter, c1: string, c2: string, t: Taken, h: Digest, text: Text): Emitter {
    var (s1, e1) := Begin(s, c1, h, text);
    var (s2, e2) := Begin(s1, c2, h, text);
    FinishAll(s2, TakenOf(t, e1, e2))
  }

  lemma {:induction false} FinishAllTakes(s: Emitter, es: seq<Event>)
    ensures FinishAll(s, es).delivered == s.delivered + es && FinishAll(s, es).seqNo == s.seqNo
    ensures FinishAll(s, es).prevHash == if es == [] then s.prevHash else es[|es| - 1].hash
    decreases |es|
  {
    if es != [] {
      FinishAllTakes(Finish(s, es[0]), es[1..]);
      assert es == [es[0]] + es[1..];
    }
  }

  // Two events on one predecessor, delivered one after the other.
  lemma TwinsChainIff(d: seq<Event>, e1: Event, e2: Event, h: Digest, text: Text)
    requires IsChain(d, h, text) && (d != [] ==> d[|d| - 1].seqNo < e1.seqNo && d[|d| - 1].seqNo < e2.seqNo)
    requires WellHashed(e1, h, text) && WellHashed(e2, h, text) && e1.prevHash == e2.prevHash == Head(d)
    ensures IsChain(d + [e1, e2], h, text) <==> e1.seqNo < e2.seqNo && e1.hash == Head(d)
  {
    hide WellHashed;
    var both := d + [e1, e2];
    assert both == d + [e1] + [e2] && both[..|d| + 1] == d + [e1];
    if e1.seqNo < e2.seqNo && e1.hash == Head(d) {
      ChainGrows(d, e1, h, text);
      ChainGrows(d + [e1], e2, h, text);
    }
    if IsChain(both, h, text) {
      assert both[|d| + 1].prevHash == Head(both[..|d| + 1]);
    }
  }

  lemma OverlapCases(s: Emitter, c1: string, c2: string, t: Taken, h: Digest, text: Text)
    requires AtHead(s, h, text)
    ensures var o := Overlapped(s, c1, c2, t, h, text);
            var first := BuildAuditEvent(s.seqNo + 1, c1, s.prevHash, h, text);
            && o.delivered == s.delivered + TakenOf(t, first, BuildAuditEvent(s.seqNo + 2, c2, s.prevHash, h, text))
            && o.prevHash == Head(o.delivered)
            && (IsChain(o.delivered, h, text)
                <==> t == Neither || t == OnlyFirst || t == OnlySecond
                     || (t == InOrder && first.hash == Head(s.delivered)))
  {
    hide ChainHash, WellHashed, IsChain, Head;
    var (s1, e1) := Begin(s, c1, h, text);
    var (s2, e2) := Begin(s1, c2, h, text);
    HeadGrows(s, c1, h, text);
    HeadGrows(s1, c2, h, text);
    FinishAllTakes(s2, TakenOf(t, e1, e2));
    HeadOfTaken(s.delivered, t, e1, e2);
    match t
    case Neither => assert s.delivered + [] == s.delivered;
    case OnlyFirst => ChainGrows(s.delivered, e1, h, text);
    case OnlySecond => ChainGrows(s.delivered, e2, h, text);
    case InOrder => TwinsChainIff(s.delivered, e1, e2, h, text);
    case Reversed => TwinsChainIff(s.delivered, e2, e1, h, text);
  }

  lemma HeadOfTaken(d: seq<Event>, t: Taken, e1: Event, e2: Event)
    ensures var es := TakenOf(t, e1, e2);
            Head(d + es) == if es == [] then Head(d) else es[|es| - 1].hash
  {
    assert d + [] == d;
  }

  /** Two overlapping emissions name the same predecessor. What is delivered then is still a chain,
      with the emitter at its head, if and only if the sink took at most one of them, or took both
      in the order built and the first one's hash is that very predecessor. */
  lemma OverlapForks(es: seq<Emission>, c1: string, c2: string, t: Taken, h: Digest, text: Text)
    ensures var s := Run(es, h, text);
            var o := Overlapped(s, c1, c2, t, h, text);
            var first := BuildAuditEvent(s.seqNo + 1, c1, s.prevHash, h, text);
            && s.delivered <= o.delivered && o.prevHash == Head(o.delivered)
            && (forall i :: |s.delivered| <= i < |o.delivered| ==> o.delivered[i].prevHash == Head(s.delivered))
            && (IsChain(o.delivered, h, text)
                <==> |o.delivered| <= |s.delivered| + 1 || (t == InOrder && first.hash == Head(s.delivered)))
  {
    SerialRunsChain(es, h, text);
    hide ChainHash, Run, IsChain, Head, Overlapped;
    OverlapCases(Run(es, h, text), c1, c2, t, h, text);
  }

  /** From the start there is no way round it: two overlapping first events that are both taken
      never make a chain. */
  lemma FirstEventsFork(c1: string, c2: string, t: Taken, h: Digest, text: Text)
    requires IsDigest(h) && (t == InOrder || t == Reversed)
    ensures !IsChain(Overlapped(Run([], h, text), c1, c2, t, h, text).delivered, h, text)
  {
    OverlapCases(Emitter(0, "", []), c1, c2, t, h, text);
  }
}
