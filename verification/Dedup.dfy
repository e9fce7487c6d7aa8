/**
 Deduplication: occurrences with the same fingerprint within a sliding window are suppressed,
 or renotified every so often. The digest is taken to be injective, so the fingerprint is the
 string that is hashed.
 */
module Dedup {
  import opened Wrappers
  import opened AlertTypes

  const DEFAULT_WINDOW_SECONDS := 86400
  const HARD_MAX_SECONDS := 604800

  function ModuleName(m: SourceModule): string {
    match m
    case Detect => "detect"
    case Monitor => "monitor"
    case Discover => "discover"
    case DdosEngine => "ddos-engine"
    case AiRedteam => "ai-redteam"
    case PhishCatcher => "phish-catcher"
    case Commander => "commander"
  }

  function Fingerprint(e: Event): string {
    e.orgId + "|" + ModuleName(e.sourceModule) + "|" + Or(e.fingerprintHint, "") + "|" + e.assetId
  }

  function Min(a: int, b: int): int { if a <= b then a else b }

  // A window of zero, or below, means the default.
  function WindowSeconds(e: Event): int {
    var w := Or(e.dedupWindowSeconds, DEFAULT_WINDOW_SECONDS);
    Min(if w <= 0 then DEFAULT_WINDOW_SECONDS else w, HARD_MAX_SECONDS)
  }

  datatype Occurrence = New | Duplicate | Renotify

  function OccurrenceFor(count: int, renotifyEvery: int): Occurrence {
    if count <= 1 then New
    else if renotifyEvery > 0 && count % renotifyEvery == 0 then Renotify
    else Duplicate
  }

  datatype Seen = Seen(alertId: string, count: int, firstSeen: int, expiresAt: int)

  function Touch(seen: map<string, Seen>, fp: string, alertId: string, windowSeconds: int, renotifyEvery: int, now: int)
    : (map<string, Seen>, Occurrence)
  {
    if fp !in seen || seen[fp].expiresAt <= now then
      (seen[fp := Seen(alertId, 1, now, now + Min(windowSeconds, HARD_MAX_SECONDS) * 1000)], New)
    else
      var s := seen[fp];
      var s' := Seen(s.alertId, s.count + 1, s.firstSeen,
                     Min(now + windowSeconds * 1000, s.firstSeen + HARD_MAX_SECONDS * 1000));
      (seen[fp := s'], OccurrenceFor(s'.count, renotifyEvery))
  }

  // `up` is false while the store is out: then nothing is suppressed.
  function DedupCheck(seen: map<string, Seen>, e: Event, now: int, up: bool): (map<string, Seen>, Occurrence, bool) {
    if !up then (seen, New, true)
    else
      var (seen', v) := Touch(seen, Fingerprint(e), e.eventId, WindowSeconds(e), Or(e.renotifyEvery, 0), now);
      (seen', v, false)
  }

  // ----- Runs on one fingerprint -------------------------------------------------------------

  datatype Sighting = Sighting(alertId: string, window: int, renotifyEvery: int, now: int)

  function Verdicts(seen: map<string, Seen>, fp: string, ss: seq<Sighting>): seq<Occurrence>
    decreases |ss|
  {
    if ss == [] then []
    else
      var (seen', v) := Touch(seen, fp, ss[0].alertId, ss[0].window, ss[0].renotifyEvery, ss[0].now);
      [v] + Verdicts(seen', fp, ss[1..])
  }

  predicate SeenOk(seen: map<string, Seen>, fp: string) {
    fp in seen ==> seen[fp].count >= 1 && seen[fp].expiresAt <= seen[fp].firstSeen + HARD_MAX_SECONDS * 1000
  }

  // Where the count stands, and since when, after the run's sightings before i.
  function After(seen: map<string, Seen>, fp: string, ss: seq<Sighting>): map<string, Seen>
    decreases |ss|
  {
    if ss == [] then seen
    else After(Touch(seen, fp, ss[0].alertId, ss[0].window, ss[0].renotifyEvery, ss[0].now).0, fp, ss[1..])
  }

  lemma TouchOk(seen: map<string, Seen>, fp: string, s: Sighting)
    requires SeenOk(seen, fp)
    ensures var (seen', v) := Touch(seen, fp, s.alertId, s.window, s.renotifyEvery, s.now);
            && SeenOk(seen', fp) && fp in seen'
            && (v == New ==> seen'[fp].firstSeen == s.now && seen'[fp].count == 1)
            && (v != New ==> fp in seen && s.now < seen[fp].firstSeen + HARD_MAX_SECONDS * 1000
                             && seen'[fp].firstSeen == seen[fp].firstSeen && seen'[fp].count == seen[fp].count + 1)
            && (v == Renotify <==> seen'[fp].count > 1 && s.renotifyEvery > 0 && seen'[fp].count % s.renotifyEvery == 0)
  {
  }

  // The position of the sighting that opened the window the i-th one falls in.
  function Opening(vs: seq<Occurrence>, i: nat): int
    requires i < |vs|
  {
    if vs[i] == New then i else if i == 0 then -1 else Opening(vs, i - 1)
  }

  lemma {:induction false} OpeningAt(seen: map<string, Seen>, fp: string, ss: seq<Sighting>, i: nat)
    requires fp !in seen && i < |ss|
    ensures |Verdicts(seen, fp, ss)| == |ss|
    ensures SeenOk(After(seen, fp, ss[..i + 1]), fp)
    ensures var (vs, s) := (Verdicts(seen, fp, ss), After(seen, fp, ss[..i + 1]));
            var o := Opening(vs, i);
            && 0 <= o <= i && vs[o] == New && fp in s
            && s[fp].firstSeen == ss[o].now && s[fp].count == i - o + 1
  {
    VerdictsAt(seen, fp, ss, i);
    var before := After(seen, fp, ss[..i]);
    if i == 0 {
      assert ss[..0] == [];
      TouchOk(before, fp, ss[0]);
    } else {
      OpeningAt(seen, fp, ss, i - 1);
      assert ss[..i - 1 + 1] == ss[..i];
      TouchOk(before, fp, ss[i]);
    }
  }

  lemma {:induction false} VerdictsAt(seen: map<string, Seen>, fp: string, ss: seq<Sighting>, i: nat)
    requires i < |ss|
    ensures |Verdicts(seen, fp, ss)| == |ss|
    ensures var before := After(seen, fp, ss[..i]);
            var (after, v) := Touch(before, fp, ss[i].alertId, ss[i].window, ss[i].renotifyEvery, ss[i].now);
            Verdicts(seen, fp, ss)[i] == v && After(seen, fp, ss[..i + 1]) == after
    decreases |ss|
  {
    hide Touch;
    var seen' := Touch(seen, fp, ss[0].alertId, ss[0].window, ss[0].renotifyEvery, ss[0].now).0;
    if i == 0 {
      assert ss[..0] == [] && ss[..1] == [ss[0]] && [ss[0]][1..] == [];
      assert After(seen, fp, [ss[0]]) == After(seen', fp, []);
      if |ss| > 1 { VerdictsAt(seen', fp, ss[1..], 0); } else { assert ss[1..] == []; }
    } else {
      VerdictsAt(seen', fp, ss[1..], i - 1);
      assert ss[..i][1..] == ss[1..][..i - 1] && ss[..i + 1][1..] == ss[1..][..i];
    }
  }

  /** Whatever windows the occurrences ask for, one that is suppressed or renotified lies less
      than seven days after the new one that opened its window, and it is renotified exactly
      when its number within the window is a multiple of its interval. */
  lemma NeverSilencedPastTheCap(fp: string, ss: seq<Sighting>, i: nat)
    requires i < |ss|
    ensures var vs := Verdicts(map[], fp, ss);
            && |vs| == |ss|
            && 0 <= Opening(vs, i) <= i && vs[Opening(vs, i)] == New
            && (vs[i] != New ==> ss[i].now < ss[Opening(vs, i)].now + HARD_MAX_SECONDS * 1000)
            && (vs[i] == Renotify <==>
                  i > Opening(vs, i) && ss[i].renotifyEvery > 0 && (i - Opening(vs, i) + 1) % ss[i].renotifyEvery == 0)
  {
    OpeningAt(map[], fp, ss, i);
    VerdictsAt(map[], fp, ss, i);
    var before := After(map[], fp, ss[..i]);
    if i > 0 {
      OpeningAt(map[], fp, ss, i - 1);
      assert ss[..i - 1 + 1] == ss[..i];
    } else {
      assert ss[..0] == [];
    }
    TouchOk(before, fp, ss[i]);
  }

  // When the window stands open until, after sighting i.
  lemma ExpiresAfter(fp: string, ss: seq<Sighting>, i: nat)
    requires i < |ss|
    ensures |Verdicts(map[], fp, ss)| == |ss| && 0 <= Opening(Verdicts(map[], fp, ss), i) <= i
    ensures var (o, s) := (Opening(Verdicts(map[], fp, ss), i), After(map[], fp, ss[..i + 1]));
            fp in s && s[fp].expiresAt == Min(ss[i].now + ss[i].window * 1000, ss[o].now + HARD_MAX_SECONDS * 1000)
  {
    OpeningAt(map[], fp, ss, i);
    VerdictsAt(map[], fp, ss, i);
    var before := After(map[], fp, ss[..i]);
    if i > 0 {
      OpeningAt(map[], fp, ss, i - 1);
      assert ss[..i - 1 + 1] == ss[..i];
    } else {
      assert ss[..0] == [];
    }
  }

  /** An occurrence is new exactly when it is the first, or comes at the end of the window that the
      one before it asked for, or of the seven days after the one that opened it; every other one is
      a duplicate or renotified. */
  lemma NewIffWindowOver(fp: string, ss: seq<Sighting>, i: nat)
    requires i < |ss|
    ensures var vs := Verdicts(map[], fp, ss);
            && |vs| == |ss| && (i > 0 ==> 0 <= Opening(vs, i - 1) < i)
            && (vs[i] == New
                <==> i == 0 || ss[i].now >= ss[i - 1].now + ss[i - 1].window * 1000
                     || ss[i].now >= ss[Opening(vs, i - 1)].now + 604800000)
  {
    VerdictsAt(map[], fp, ss, i);
    if i > 0 {
      ExpiresAfter(fp, ss, i - 1);
      OpeningAt(map[], fp, ss, i - 1);
      assert ss[..i - 1 + 1] == ss[..i];
    } else {
      assert ss[..0] == [];
    }
  }

  /** The window of an event: what it asks for, at most seven days; a day if it asks for nothing, or
      for nothing positive. */
  lemma WindowAsked(e: Event, w: int)
    ensures e.dedupWindowSeconds == Some(w) && 0 < w <= 604800 ==> WindowSeconds(e) == w
    ensures e.dedupWindowSeconds == Some(w) && w > 604800 ==> WindowSeconds(e) == 604800
    ensures e.dedupWindowSeconds == Some(w) && w <= 0 ==> WindowSeconds(e) == 86400
    ensures e.dedupWindowSeconds.None? ==> WindowSeconds(e) == 86400
  {
  }

  /** One check is a sighting of the event's fingerprint with its window and interval; while the store
      is out everything is new, and nothing is remembered. Other fingerprints are not touched. */
  lemma CheckIsSighting(seen: map<string, Seen>, e: Event, now: int, up: bool)
    ensures var (seen', v, degraded) := DedupCheck(seen, e, now, up);
            && (!up ==> v == New && degraded && seen' == seen)
            && (up ==> !degraded
                       && var s := Sighting(e.eventId, WindowSeconds(e),
                                            if e.renotifyEvery.Some? then e.renotifyEvery.value else 0, now);
                       && [v] == Verdicts(seen, Fingerprint(e), [s]) && seen' == After(seen, Fingerprint(e), [s]))
            && forall fp :: fp != Fingerprint(e) ==>
                 (fp in seen' <==> fp in seen) && (fp in seen ==> seen'[fp] == seen[fp])
  {
    hide Fingerprint, WindowSeconds;
    var s := Sighting(e.eventId, WindowSeconds(e), Or(e.renotifyEvery, 0), now);
    var (seen', v) := Touch(seen, Fingerprint(e), s.alertId, s.window, s.renotifyEvery, s.now);
    assert [s][1..] == [];
    assert Verdicts(seen', Fingerprint(e), []) == [] && After(seen', Fingerprint(e), []) == seen';
  }

  // ----- What fingerprints tell apart ----------------------------------------------------------

  // No bar, the separator of the fields.
  predicate BarFree(s: string) { '|' !in s }

  // Which finding an event is about; no hint and an empty one are the same.
  predicate SameFinding(a: Event, b: Event) {
    Or(a.fingerprintHint, "") == Or(b.fingerprintHint, "") && a.assetId == b.assetId
  }

  function Tail(e: Event): string { Or(e.fingerprintHint, "") + ("|" + e.assetId) }

  lemma FingerprintParts(e: Event)
    ensures Fingerprint(e) == e.orgId + ("|" + (ModuleName(e.sourceModule) + ("|" + Tail(e))))
  {
    hide ModuleName;
  }

  lemma AtBar(a: string, b: string)
    ensures var s := a + ("|" + b); s[|a|] == '|' && s[..|a|] == a && s[|a| + 1..] == b
  {
  }

  // The bar at i is the first one.
  predicate FirstBarAt(s: string, i: nat) { i < |s| && s[i] == '|' && BarFree(s[..i]) }

  // The bar at i is the last one.
  predicate LastBarAt(s: string, i: nat) { i < |s| && s[i] == '|' && BarFree(s[i + 1..]) }

  lemma NotFirst(s: string, i: nat, j: nat)
    requires i < j < |s| && s[i] == '|'
    ensures !FirstBarAt(s, j)
  {
    assert s[..j][i] == '|';
  }

  lemma NotLast(s: string, i: nat, j: nat)
    requires i < j < |s| && s[j] == '|'
    ensures !LastBarAt(s, i)
  {
    assert s[i + 1..][j - i - 1] == '|';
  }

  // Text up to the first bar can be told from what follows it.
  lemma FirstBar(p: string, t: string, p': string, t': string)
    requires BarFree(p) && BarFree(p') && p + ("|" + t) == p' + ("|" + t')
    ensures p == p' && t == t'
  {
    AtBar(p, t);
    AtBar(p', t');
    hide BarFree;
    if |p| < |p'| { NotFirst(p + ("|" + t), |p|, |p'|); }
    if |p'| < |p| { NotFirst(p + ("|" + t), |p'|, |p|); }
  }

  // So can text from the last bar on.
  lemma LastBar(h: string, x: string, h': string, x': string)
    requires BarFree(x) && BarFree(x') && h + ("|" + x) == h' + ("|" + x')
    ensures h == h' && x == x'
  {
    AtBar(h, x);
    AtBar(h', x');
    hide BarFree;
    if |h| < |h'| { NotLast(h + ("|" + x), |h|, |h'|); }
    if |h'| < |h| { NotLast(h + ("|" + x), |h'|, |h|); }
  }

  lemma ModuleNames(m: SourceModule, n: SourceModule)
    ensures BarFree(ModuleName(m)) && (ModuleName(m) == ModuleName(n) ==> m == n)
  {
  }

  /** Where neither organization nor asset has a bar in its name, fingerprints are the same
      exactly for the same finding of the same module in the same organization. Hints may have
      bars. */
  lemma FingerprintsTellApart(a: Event, b: Event)
    requires BarFree(a.orgId) && BarFree(b.orgId) && BarFree(a.assetId) && BarFree(b.assetId)
    ensures Fingerprint(a) == Fingerprint(b)
       <==> a.orgId == b.orgId && a.sourceModule == b.sourceModule && SameFinding(a, b)
  {
    FingerprintParts(a);
    FingerprintParts(b);
    ModuleNames(a.sourceModule, b.sourceModule);
    ModuleNames(b.sourceModule, a.sourceModule);
    hide Fingerprint, ModuleName, BarFree;
    if Fingerprint(a) == Fingerprint(b) {
      FirstBar(a.orgId, ModuleName(a.sourceModule) + ("|" + Tail(a)),
               b.orgId, ModuleName(b.sourceModule) + ("|" + Tail(b)));
      FirstBar(ModuleName(a.sourceModule), Tail(a), ModuleName(b.sourceModule), Tail(b));
      LastBar(Or(a.fingerprintHint, ""), a.assetId, Or(b.fingerprintHint, ""), b.assetId);
    }
  }

  // Within one organization and module, whatever the bars, the tails decide.
  lemma SameTail(a: Event, b: Event)
    requires a.orgId == b.orgId && a.sourceModule == b.sourceModule
    ensures Fingerprint(a) == Fingerprint(b) <==> Tail(a) == Tail(b)
  {
    FingerprintParts(a);
    FingerprintParts(b);
    var head := a.orgId + ("|" + (ModuleName(a.sourceModule) + "|"));
    hide Fingerprint, ModuleName, Tail;
    assert Fingerprint(a) == head + Tail(a) && Fingerprint(b) == head + Tail(b);
    assert (head + Tail(a))[|head|..] == Tail(a) && (head + Tail(b))[|head|..] == Tail(b);
  }

  // Another finding, on another asset, of the same organization and module, with one fingerprint.
  ghost predicate Collides(e: Event, other: Event) {
    && other.orgId == e.orgId && other.sourceModule == e.sourceModule
    && other.assetId != "" && other.assetId != e.assetId && Fingerprint(other) == Fingerprint(e)
  }

  lemma Rejoined(h: string, a: string, b: string)
    ensures (h + ("|" + a)) + ("|" + b) == h + ("|" + (a + ("|" + b)))
  {
  }

  // Moving text from the hint to the asset, at a bar of the hint.
  lemma BarInHint(e: Event, i: nat) returns (other: Event)
    requires e.assetId != "" && i < |Or(e.fingerprintHint, "")| && Or(e.fingerprintHint, "")[i] == '|'
    ensures Collides(e, other)
  {
    var hint := Or(e.fingerprintHint, "");
    other := e.(fingerprintHint := Some(hint[..i]), assetId := hint[i + 1..] + ("|" + e.assetId));
    assert hint == hint[..i] + ("|" + hint[i + 1..]);
    assert Tail(other) == Tail(e);
    SameTail(e, other);
  }

  // And the other way round, at a bar of the asset.
  lemma BarInAsset(e: Event, i: nat) returns (other: Event)
    requires i + 1 < |e.assetId| && e.assetId[i] == '|'
    ensures Collides(e, other)
  {
    var (hint, a, b) := (Or(e.fingerprintHint, ""), e.assetId[..i], e.assetId[i + 1..]);
    hide Fingerprint;
    other := e.(fingerprintHint := Some(hint + ("|" + a)), assetId := b);
    assert e.assetId == a + ("|" + b);
    Rejoined(hint, a, b);
    SameTail(e, other);
  }

  // Without such a bar the text splits in one way only.
  lemma NoOtherSplit(e: Event, other: Event)
    requires e.assetId != "" && Collides(e, other)
    ensures !BarFree(Or(e.fingerprintHint, "")) || !BarFree(e.assetId[..|e.assetId| - 1])
  {
    SameTail(e, other);
    hide Fingerprint;
    var (h, x, h', x') := (Or(e.fingerprintHint, ""), e.assetId, Or(other.fingerprintHint, ""), other.assetId);
    var s := Tail(e);
    AtBar(h, x);
    AtBar(h', x');
    if |h'| < |h| {
      assert h[|h'|] == s[..|h|][|h'|] == '|';
    } else if |h| < |h'| {
      assert x[|h'| - |h| - 1] == s[|h| + 1..][|h'| - |h| - 1] == '|';
      assert x[..|x| - 1][|h'| - |h| - 1] == '|';
    }
  }

  /** Two findings on different assets can share a fingerprint because a bar joins the fields.
      For an event this can happen exactly when its hint has a bar, or its asset has one before
      its last character. */
  lemma CollidesIffBar(e: Event)
    requires e.assetId != ""
    ensures (exists other :: Collides(e, other))
       <==> !BarFree(Or(e.fingerprintHint, "")) || !BarFree(e.assetId[..|e.assetId| - 1])
  {
    hide Collides;
    var (hint, front) := (Or(e.fingerprintHint, ""), e.assetId[..|e.assetId| - 1]);
    if !BarFree(hint) {
      var i :| 0 <= i < |hint| && hint[i] == '|';
      var other := BarInHint(e, i);
    } else if !BarFree(front) {
      var i :| 0 <= i < |front| && front[i] == '|';
      var other := BarInAsset(e, i);
    }
    forall other | Collides(e, other) ensures !BarFree(hint) || !BarFree(front) { NoOtherSplit(e, other); }
  }

  /** And then the later of the two is suppressed as a duplicate, unless it comes after the window
      of the earlier one or asks to be renotified at the second sighting. */
  lemma FingerprintsCollide(a: Event, b: Event, t1: int, t2: int)
    requires Fingerprint(a) == Fingerprint(b)
    ensures DedupCheck(DedupCheck(map[], a, t1, true).0, b, t2, true).1 == Duplicate
       <==> && t2 < t1 + (match a.dedupWindowSeconds
                          case None => 86400000
                          case Some(w) => if w <= 0 then 86400000 else if w <= 604800 then w * 1000 else 604800000)
            && b.renotifyEvery != Some(1) && b.renotifyEvery != Some(2)
  {
    hide Fingerprint;
  }
}
