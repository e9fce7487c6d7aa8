/**
 Scope evaluation in Go: exclusions first, then the includes, each list scanned for its most
 specific match.

 Canonical targets and the library functions for trimming, lower case and address parsing are
 inputs; an address is a number of 32 or 128 bits with an optional zone.
 */
module ScopeMatch {
  import opened Wrappers
  import opened Arith
  import opened Radix

  // ----- Addresses and prefixes --------------------------------------------------------------------

  datatype Family = V4 | V6

  function Width(f: Family): nat { if f == V4 then 32 else 128 }

  datatype Addr = Addr(family: Family, n: nat, zone: string)

  datatype RawPrefix = RawPrefix(family: Family, n: nat, bits: nat)

  type Prefix = p: RawPrefix | p.bits <= Width(p.family) witness RawPrefix(V4, 0, 0)

  // What the first `bits` bits of an address say.
  function Network(f: Family, n: nat, bits: nat): nat
    requires bits <= Width(f)
  {
    ShiftRight(n, Width(f) - bits)
  }

  // An address with a zone is in no prefix, and the families do not mix.
  predicate Contains(p: Prefix, a: Addr) {
    a.family == p.family && a.zone == "" && Network(p.family, a.n, p.bits) == Network(p.family, p.n, p.bits)
  }

  function Masked(p: Prefix): Prefix {
    RawPrefix(p.family, MaskedNumber(p), p.bits)
  }

  function MaskedNumber(p: Prefix): nat {
    var block := Pow2(Width(p.family) - p.bits);
    MulNonneg(Network(p.family, p.n, p.bits), block);
    Network(p.family, p.n, p.bits) * block
  }

  lemma MaskedSameNetwork(p: Prefix)
    ensures Network(p.family, MaskedNumber(p), p.bits) == Network(p.family, p.n, p.bits)
    ensures forall a :: Contains(Masked(p), a) <==> Contains(p, a)
  {
    var (block, q) := (Pow2(Width(p.family) - p.bits), Network(p.family, p.n, p.bits));
    assert q * block == block * q + 0;
    DivModIs(q * block, block, q, 0);
  }

  // ----- Targets and entries -------------------------------------------------------------------------

  datatype Kind = HostKind | IpKind | UrlKind | CidrKind

  // The host is "" when there is none.
  datatype Target = Target(kind: Kind, host: string, ip: Option<Addr>, prefix: Prefix)

  datatype Lib = Lib(
    trim: string -> string,
    lower: string -> string,
    parsePrefix: string -> Option<Prefix>,
    parseAddr: string -> Option<Addr>)

  datatype Rule = Blank | Wildcard(suffix: string) | Block(prefix: Prefix) | Single(ip: Addr) | Exact(host: string)

  function TrimDot(s: string): string { if s != "" && s[|s| - 1] == '.' then s[..|s| - 1] else s }

  function ReadEntry(entry: string, lib: Lib): Rule {
    var e := lib.trim(entry);
    if e == "" then Blank
    else if "*." <= e then Wildcard(TrimDot(lib.lower(e[2..])))
    else if lib.parsePrefix(e).Some? then Block(Masked(lib.parsePrefix(e).value))
    else if lib.parseAddr(e).Some? then Single(lib.parseAddr(e).value)
    else Exact(TrimDot(lib.lower(e)))
  }

  predicate EndsWith(s: string, t: string) { |s| >= |t| && s[|s| - |t|..] == t }

  predicate RuleMatches(r: Rule, t: Target) {
    match r
    case Blank => false
    case Wildcard(suffix) => t.host != "" && t.host != suffix && EndsWith(t.host, "." + suffix)
    case Block(p) =>
      if t.kind == CidrKind then p.bits <= t.prefix.bits && Contains(p, Addr(t.prefix.family, t.prefix.n, ""))
      else t.ip.Some? && Contains(p, t.ip.value)
    case Single(ip) => t.ip.Some? && t.ip.value == ip
    case Exact(host) => t.host != "" && t.host == host
  }

  function Specificity(r: Rule): nat {
    match r
    case Blank => 0
    case Wildcard(suffix) => 64 + |suffix|
    case Block(p) => p.bits
    case Single(_) => 129
    case Exact(host) => 128 + |host|
  }

  predicate Matches(entry: string, t: Target, lib: Lib) { RuleMatches(ReadEntry(entry, lib), t) }

  function SpecificityOf(entry: string, lib: Lib): nat { Specificity(ReadEntry(entry, lib)) }

  method MatchEntry(entry: string, t: Target, lib: Lib) returns (ok: bool, specificity: int)
    ensures ok == Matches(entry, t, lib)
    ensures specificity == if ok then SpecificityOf(entry, lib) else -1
  {
    var e := lib.trim(entry);
    if e == "" { return false, -1; }
    if "*." <= e {
      var suffix := TrimDot(lib.lower(e[2..]));
      if t.host != "" && t.host != suffix && EndsWith(t.host, "." + suffix) { return true, 64 + |suffix|; }
      return false, -1;
    }
    var p := lib.parsePrefix(e);
    if p.Some? {
      var m := Masked(p.value);
      if t.kind == CidrKind {
        if m.bits <= t.prefix.bits && Contains(m, Addr(t.prefix.family, t.prefix.n, "")) { return true, m.bits; }
        return false, -1;
      }
      if t.ip.Some? && Contains(m, t.ip.value) { return true, m.bits; }
      return false, -1;
    }
    var ip := lib.parseAddr(e);
    if ip.Some? {
      if t.ip.Some? && t.ip.value == ip.value { return true, 129; }
      return false, -1;
    }
    var host := TrimDot(lib.lower(e));
    if t.host != "" && t.host == host { return true, 128 + |host|; }
    return false, -1;
  }

  // ----- Evaluation ------------------------------------------------------------------------------------

  predicate AnyMatches(entries: seq<string>, t: Target, lib: Lib) { exists e :: e in entries && Matches(e, t, lib) }

  // Entry i is the first of the most specific matches.
  predicate IsBest(entries: seq<string>, t: Target, lib: Lib, i: int) {
    && 0 <= i < |entries| && Matches(entries[i], t, lib)
    && (forall j :: 0 <= j < |entries| && Matches(entries[j], t, lib) ==>
          SpecificityOf(entries[j], lib) <= SpecificityOf(entries[i], lib))
    && (forall j :: 0 <= j < i && Matches(entries[j], t, lib) ==>
          SpecificityOf(entries[j], lib) < SpecificityOf(entries[i], lib))
  }

  datatype Scope = Scope(domains: seq<string>, cidrs: seq<string>, excludes: seq<string>)

  datatype Decision = Decision(allowed: bool, excluded: bool, rule: string)

  // The decision a scope and target call for, said without any scan.
  ghost predicate Decides(d: Decision, scope: Option<Scope>, target: Option<Target>, lib: Lib) {
    if scope.None? || target.None? then d == Decision(false, false, "")
    else
      var (s, t) := (scope.value, target.value);
      && (d.excluded <==> AnyMatches(s.excludes, t, lib))
      && (d.allowed <==> !AnyMatches(s.excludes, t, lib) && AnyMatches(s.domains + s.cidrs, t, lib))
      && (d.excluded ==> exists i :: IsBest(s.excludes, t, lib, i) && d.rule == s.excludes[i])
      && (d.allowed ==> exists i :: IsBest(s.domains + s.cidrs, t, lib, i) && d.rule == (s.domains + s.cidrs)[i])
      && (!d.excluded && !d.allowed ==> d.rule == "")
  }

  // What the scans know of the entries before position n.
  ghost predicate Scanned(entries: seq<string>, n: nat, t: Target, lib: Lib, best: int, rule: string)
    requires n <= |entries|
  {
    if best < 0 then best == -1 && rule == "" && forall j :: 0 <= j < n ==> !Matches(entries[j], t, lib)
    else exists i :: IsBest(entries[..n], t, lib, i) && rule == entries[i] && best == SpecificityOf(entries[i], lib)
  }

  lemma ScanStep(entries: seq<string>, n: nat, t: Target, lib: Lib, best: int, rule: string)
    requires n < |entries| && Scanned(entries, n, t, lib, best, rule)
    ensures var take := Matches(entries[n], t, lib) && SpecificityOf(entries[n], lib) > best;
            Scanned(entries, n + 1, t, lib, if take then SpecificityOf(entries[n], lib) else best,
                    if take then entries[n] else rule)
  {
    hide Matches, SpecificityOf;
    var (e, e') := (entries[..n], entries[..n + 1]);
    assert forall j :: 0 <= j < n ==> e'[j] == e[j];
    if best >= 0 {
      var i :| IsBest(e, t, lib, i) && rule == entries[i] && best == SpecificityOf(entries[i], lib);
      if Matches(entries[n], t, lib) && SpecificityOf(entries[n], lib) > best {
        assert IsBest(e', t, lib, n);
      } else {
        assert IsBest(e', t, lib, i);
      }
    } else if Matches(entries[n], t, lib) {
      assert forall j :: 0 <= j < n ==> !Matches(e'[j], t, lib);
      assert IsBest(e', t, lib, n);
    }
  }

  // One scan, going on with the best so far of the entries before.
  method Scan(ghost before: seq<string>, entries: seq<string>, t: Target, lib: Lib, best0: int, rule0: string)
    returns (best: int, rule: string)
    requires Scanned(before, |before|, t, lib, best0, rule0)
    ensures Scanned(before + entries, |before + entries|, t, lib, best, rule)
  {
    hide Matches, SpecificityOf, Scanned;
    best, rule := best0, rule0;
    ghost var all := before + entries;
    ScanPrefix(before, entries, t, lib, best, rule);
    var i := 0;
    while i < |entries|
      invariant 0 <= i <= |entries| && Scanned(all, |before| + i, t, lib, best, rule)
    {
      ScanStep(all, |before| + i, t, lib, best, rule);
      var ok, specificity := MatchEntry(entries[i], t, lib);
      if ok && specificity > best { best, rule := specificity, entries[i]; }
      i := i + 1;
    }
  }

  lemma ScanPrefix(before: seq<string>, entries: seq<string>, t: Target, lib: Lib, best: int, rule: string)
    requires Scanned(before, |before|, t, lib, best, rule)
    ensures Scanned(before + entries, |before|, t, lib, best, rule)
  {
    hide Matches, SpecificityOf;
    var all := before + entries;
    assert before[..|before|] == before == all[..|before|];
    if best >= 0 {
      var i :| IsBest(before, t, lib, i) && rule == before[i] && best == SpecificityOf(before[i], lib);
      assert IsBest(all[..|before|], t, lib, i) && all[i] == before[i];
    }
  }

  lemma ScanMeans(entries: seq<string>, t: Target, lib: Lib, best: int, rule: string)
    requires Scanned(entries, |entries|, t, lib, best, rule)
    ensures best >= 0 <==> AnyMatches(entries, t, lib)
    ensures best >= 0 ==> exists i :: IsBest(entries, t, lib, i) && rule == entries[i]
    ensures best < 0 ==> rule == ""
  {
    hide Matches, SpecificityOf;
    assert entries[..|entries|] == entries;
    if best >= 0 {
      var i :| IsBest(entries, t, lib, i) && rule == entries[i];
      assert entries[i] in entries;
    }
  }

  /** Exclusions win, includes admit, nothing else does; and the rule reported is the first of the
      most specific ones that match. */
  method Evaluate(scope: Option<Scope>, target: Option<Target>, lib: Lib) returns (d: Decision)
    ensures Decides(d, scope, target, lib)
  {
    hide AnyMatches, IsBest;
    if scope.None? || target.None? { return Decision(false, false, ""); }
    var s, t := scope.value, target.value;
    var best, rule := Scan([], s.excludes, t, lib, -1, "");
    assert [] + s.excludes == s.excludes;
    ScanMeans(s.excludes, t, lib, best, rule);
    if best >= 0 { return Decision(false, true, rule); }
    best, rule := Scan([], s.domains, t, lib, -1, "");
    assert [] + s.domains == s.domains;
    best, rule := Scan(s.domains, s.cidrs, t, lib, best, rule);
    ScanMeans(s.domains + s.cidrs, t, lib, best, rule);
    if best < 0 { return Decision(false, false, ""); }
    return Decision(true, false, rule);
  }

  /** The verdict does not depend on the order or repetition of entries; more includes or fewer
      exclusions never turn an allowed target into a denied one. */
  lemma VerdictMonotone(a: Scope, b: Scope, t: Option<Target>, lib: Lib, da: Decision, db: Decision)
    requires Decides(da, Some(a), t, lib) && Decides(db, Some(b), t, lib)
    requires (forall e :: e in a.domains + a.cidrs ==> e in b.domains + b.cidrs)
             && (forall e :: e in b.excludes ==> e in a.excludes)
    ensures da.allowed ==> db.allowed
    ensures db.excluded ==> da.excluded
  {
    hide Matches, IsBest;
  }

  lemma VerdictOrderIndependent(a: Scope, b: Scope, t: Option<Target>, lib: Lib, da: Decision, db: Decision)
    requires Decides(da, Some(a), t, lib) && Decides(db, Some(b), t, lib)
    requires (forall e :: e in a.domains + a.cidrs <==> e in b.domains + b.cidrs)
             && (forall e :: e in b.excludes <==> e in a.excludes)
    ensures da.allowed == db.allowed && da.excluded == db.excluded
  {
    hide Decides;
    VerdictMonotone(a, b, t, lib, da, db);
    VerdictMonotone(b, a, t, lib, db, da);
  }

  // ----- What an entry means for a target --------------------------------------------------------------

  // The address is in the block: same family, no zone, the same leading bits.
  ghost predicate LeadingBits(a: Addr, p: Prefix) {
    && a.family == p.family && a.zone == ""
    && a.n / Pow2(Width(p.family) - p.bits) == p.n / Pow2(Width(p.family) - p.bits)
  }

  // h is s without the dot at its end, if it has one.
  predicate Undotted(s: string, h: string) { s == h + "." || (s == h && (h == "" || h[|h| - 1] != '.')) }

  lemma TrimDotIs(s: string, h: string)
    ensures Undotted(s, h) <==> h == TrimDot(s)
  {
    if s != "" && s[|s| - 1] == '.' { assert s == s[..|s| - 1] + "."; }
  }

  lemma WildcardMatchesIff(entry: string, t: Target, lib: Lib)
    requires "*." <= lib.trim(entry)
    ensures Matches(entry, t, lib)
       <==> exists labels, suffix ::
              Undotted(lib.lower(lib.trim(entry)[2..]), suffix) && t.host == labels + "." + suffix
  {
    var rest := lib.lower(lib.trim(entry)[2..]);
    var own := TrimDot(rest);
    TrimDotIs(rest, own);
    UnderSuffix(t.host, own);
    assert ReadEntry(entry, lib) == Wildcard(own);
    hide TrimDot, ReadEntry;
    if exists labels :: t.host == labels + "." + own {
      var labels :| t.host == labels + "." + own;
      assert Undotted(rest, own) && t.host == labels + "." + own;
    }
    forall labels, suffix | Undotted(rest, suffix) && t.host == labels + "." + suffix
      ensures t.host == labels + "." + own {
      TrimDotIs(rest, suffix);
    }
  }

  /** Exactly what each form of entry matches, whatever kind of target it is: a wildcard the hosts that
      end in a dot and its suffix, a single address that address, a name the host of that name; a block
      the addresses with its leading bits, and of the CIDR targets those that are no wider and whose own
      address has them. A blank entry matches nothing. */
  lemma EntryMatchesIff(entry: string, t: Target, lib: Lib)
    ensures var e := lib.trim(entry);
            Matches(entry, t, lib)
            <==> && e != ""
                 && if "*." <= e then
                      exists labels, suffix :: Undotted(lib.lower(e[2..]), suffix) && t.host == labels + "." + suffix
                    else if lib.parsePrefix(e).Some? then
                      var p := lib.parsePrefix(e).value;
                      if t.kind == CidrKind then
                        p.bits <= t.prefix.bits && LeadingBits(Addr(t.prefix.family, t.prefix.n, ""), p)
                      else exists a :: t.ip == Some(a) && LeadingBits(a, p)
                    else if lib.parseAddr(e).Some? then t.ip == lib.parseAddr(e)
                    else t.host != "" && Undotted(lib.lower(e), t.host)
  {
    var e := lib.trim(entry);
    TrimDotIs(lib.lower(e), t.host);
    if "*." <= e {
      WildcardMatchesIff(entry, t, lib);
    } else if lib.parsePrefix(e).Some? {
      var p := lib.parsePrefix(e).value;
      MaskedSameNetwork(p);
      ContainsIff(p, Addr(t.prefix.family, t.prefix.n, ""));
      if t.ip.Some? { ContainsIff(p, t.ip.value); }
      hide Contains, LeadingBits;
    }
  }

  lemma ContainsIff(p: Prefix, a: Addr)
    ensures Contains(p, a) <==> LeadingBits(a, p)
  {
    if a.family == p.family {
      NetworkIs(p.family, a.n, p.bits);
      NetworkIs(p.family, p.n, p.bits);
    }
  }

  lemma UnderSuffix(host: string, suffix: string)
    ensures host != "" && host != suffix && EndsWith(host, "." + suffix)
       <==> exists labels :: host == labels + "." + suffix
  {
    var dotted := "." + suffix;
    if EndsWith(host, dotted) {
      assert host == host[..|host| - |dotted|] + "." + suffix;
    }
    forall labels | host == labels + "." + suffix
      ensures host != "" && host != suffix && EndsWith(host, dotted) {
      assert host == labels + dotted;
    }
  }

  /** A dot at the end of an entry, of which one is dropped, and what the library makes of its case and
      blanks aside, an apex is not under its own wildcard; only a host that starts with a dot is with
      no label in front. */
  lemma WildcardLabels(host: string, suffix: string, labels: string)
    requires host == labels + "." + suffix
    ensures host != suffix && (labels == "" <==> host[0] == '.' && |host| == |suffix| + 1)
  {
    assert |host| == |labels| + 1 + |suffix|;
  }

  /** Named entries and single addresses look at the host and the address of a target only: a URL, a
      host and an address with the same ones are treated alike. */
  lemma KindIsIrrelevant(entry: string, t: Target, kind: Kind, prefix: Prefix, lib: Lib)
    requires lib.parsePrefix(lib.trim(entry)).None? || "*." <= lib.trim(entry)
    ensures Matches(entry, t, lib) <==> Matches(entry, t.(kind := kind, prefix := prefix), lib)
  {
  }

  // The entry names the target's host, or its address.
  predicate NamesTarget(entry: string, t: Target, lib: Lib) {
    var e := lib.trim(entry);
    && e != "" && !("*." <= e) && lib.parsePrefix(e).None?
    && if lib.parseAddr(e).Some? then t.ip == lib.parseAddr(e) else t.host != "" && Undotted(lib.lower(e), t.host)
  }

  /** What is excluded by name is never allowed, in whatever form the target is given. */
  lemma ExcludedByNameIsDenied(scope: Scope, t: Target, lib: Lib, entry: string, d: Decision)
    requires Decides(d, Some(scope), Some(t), lib) && entry in scope.excludes && NamesTarget(entry, t, lib)
    ensures d.excluded && !d.allowed
  {
    hide IsBest;
    TrimDotIs(lib.lower(lib.trim(entry)), t.host);
    assert Matches(entry, t, lib);
  }

  /** What is included by name is allowed unless something excludes it. */
  lemma IncludedByNameIsAllowed(scope: Scope, t: Target, lib: Lib, entry: string, d: Decision)
    requires Decides(d, Some(scope), Some(t), lib) && entry in scope.domains + scope.cidrs && NamesTarget(entry, t, lib)
    ensures d.allowed <==> forall x :: x in scope.excludes ==> !Matches(x, t, lib)
  {
    hide IsBest;
    TrimDotIs(lib.lower(lib.trim(entry)), t.host);
    assert Matches(entry, t, lib);
  }

  /** Which of two rules that match one target is the more specific: an address beats every block, a
      longer block a shorter one, and a name every wildcard and every block; all are at least 0. */
  lemma Ranking(r: Rule, s: Rule, t: Target)
    requires RuleMatches(r, t) && RuleMatches(s, t)
    ensures Specificity(r) >= 0
    ensures r.Single? && s.Block? ==> Specificity(r) > Specificity(s)
    ensures r.Block? && s.Block? ==> (Specificity(r) > Specificity(s) <==> r.prefix.bits > s.prefix.bits)
    ensures r.Exact? && (s.Wildcard? || s.Block?) ==> Specificity(r) > Specificity(s)
    ensures r.Wildcard? && s.Wildcard? ==> (Specificity(r) > Specificity(s) <==> |r.suffix| > |s.suffix|)
    ensures Specificity(Single(Addr(V4, 0, ""))) == 129 && Specificity(Wildcard("")) == 64
    ensures r.Exact? ==> Specificity(r) == 128 + |t.host|
    ensures r.Wildcard? ==> Specificity(r) == 64 + |r.suffix|
    ensures r.Block? ==> Specificity(r) == r.prefix.bits
    ensures r.Single? ==> Specificity(r) == 129
  {
    if s.Wildcard? { LongerThanSuffix(t.host, "." + s.suffix); }
  }

  // ----- Specificity means inclusion -------------------------------------------------------------------

  predicate Numeric(r: Rule) { r.Block? || r.Single? }

  predicate Named(r: Rule) { r.Wildcard? || r.Exact? }

  // Fewer bits say no less than more bits do.
  lemma NarrowerNetwork(f: Family, x: nat, y: nat, short: nat, long: nat)
    requires short <= long <= Width(f) && Network(f, x, long) == Network(f, y, long)
    ensures Network(f, x, short) == Network(f, y, short)
  {
    ShiftTwice(x, Width(f) - long, long - short);
    ShiftTwice(y, Width(f) - long, long - short);
    hide ShiftRight;
  }

  lemma NestedBlocks(p: Prefix, q: Prefix, t: Target, t': Target)
    requires RuleMatches(Block(p), t) && RuleMatches(Block(q), t) && p.bits >= q.bits && RuleMatches(Block(p), t')
    ensures RuleMatches(Block(q), t')
  {
    hide Network;
    var (a, a') := (if t.kind == CidrKind then t.prefix.n else t.ip.value.n,
                    if t'.kind == CidrKind then t'.prefix.n else t'.ip.value.n);
    NarrowerNetwork(p.family, a, p.n, q.bits, p.bits);
    NarrowerNetwork(p.family, a', p.n, q.bits, p.bits);
  }

  lemma SuffixOfSuffix(host: string, host': string, a: string, b: string)
    requires EndsWith(host, a) && EndsWith(host, b) && |a| >= |b| && EndsWith(host', a)
    ensures EndsWith(host', b)
  {
    assert a[|a| - |b|..] == host[|host| - |a|..][|a| - |b|..] == host[|host| - |b|..];
    assert a[|a| - |b|..] == host'[|host'| - |a|..][|a| - |b|..] == host'[|host'| - |b|..];
  }

  /** Within address rules, and within host rules, the more specific of two rules that match a
      target matches a subset of what the other does: the reported rule is the tightest one. */
  lemma MoreSpecificIsNarrower(r: Rule, s: Rule, t: Target, t': Target)
    requires (Numeric(r) && Numeric(s)) || (Named(r) && Named(s))
    requires RuleMatches(r, t) && RuleMatches(s, t) && Specificity(r) >= Specificity(s)
    requires t.kind == CidrKind ==> t.ip.None?
    requires t'.kind == CidrKind ==> t'.ip.None?
    requires RuleMatches(r, t')
    ensures RuleMatches(s, t')
  {
    match r {
      case Block(p) => if s.Block? { NestedBlocks(p, s.prefix, t, t'); }
      case Single(_) =>
      case Wildcard(a) =>
        hide EndsWith;
        if s.Wildcard? {
          SuffixOfSuffix(t.host, t'.host, "." + a, "." + s.suffix);
          LongerThanSuffix(t'.host, "." + s.suffix);
        } else {
          LongerThanSuffix(t.host, "." + a);
        }
      case Exact(_) =>
    }
  }

  lemma LongerThanSuffix(host: string, dotted: string)
    requires EndsWith(host, dotted)
    ensures |host| >= |dotted|
  {
  }

  // ----- Blocks as sets of addresses ---------------------------------------------------------------------

  predicate InBlock(p: Prefix, n: nat) { Network(p.family, n, p.bits) == Network(p.family, p.n, p.bits) }

  /** A CIDR target matches a block exactly when every address of the target lies in the block. */
  lemma BlockTargetIffAllAddresses(p: Prefix, t: Target)
    requires t.kind == CidrKind && t.prefix.family == p.family
    ensures RuleMatches(Block(p), t) <==> forall n :: InBlock(t.prefix, n) ==> InBlock(p, n)
  {
    hide Network;
    var q := t.prefix;
    if RuleMatches(Block(p), t) {
      forall n | InBlock(q, n) ensures InBlock(p, n) {
        NarrowerNetwork(p.family, n, q.n, p.bits, q.bits);
      }
    }
    if forall n :: InBlock(q, n) ==> InBlock(p, n) {
      assert InBlock(q, q.n);
      if p.bits > q.bits {
        var n := Outside(p, q);
        assert false;
      }
    }
  }

  // When the block is narrower, some address of the target lies outside it.
  lemma Outside(p: Prefix, q: Prefix) returns (n: nat)
    requires p.family == q.family && p.bits > q.bits
    ensures InBlock(q, n) && !InBlock(p, n)
  {
    hide Pow2, Network, MaskedNumber;
    var f := p.family;
    var net := Network(f, q.n, q.bits);
    var (step, block) := (Pow2(Width(f) - p.bits), Pow2(Width(f) - q.bits));
    Pow2Adds(p.bits - q.bits, Width(f) - p.bits);
    AtLeastTwo(p.bits - q.bits);
    SameBlock(net, block, step, Pow2(p.bits - q.bits));
    MulNonneg(net, block);
    var base: nat := net * block;
    NetworkIs(f, base, p.bits);
    NetworkIs(f, base + step, p.bits);
    NetworkIs(f, base, q.bits);
    NetworkIs(f, base + step, q.bits);
    n := if InBlock(p, base) then base + step else base;
  }

  lemma NetworkIs(f: Family, n: nat, bits: nat)
    requires bits <= Width(f)
    ensures Network(f, n, bits) == n / Pow2(Width(f) - bits)
  {
  }

  lemma AtLeastTwo(n: nat)
    requires n > 0
    ensures Pow2(n) >= 2
  {
  }

  lemma SameBlock(net: nat, block: nat, step: nat, k: nat)
    requires block == k * step && step >= 1 && k >= 2
    ensures (net * block) / block == net && (net * block + step) / block == net
    ensures (net * block + step) / step == (net * block) / step + 1
  {
    assert net * block == block * net;
    DivModIs(net * block, block, net, 0);
    assert step < block by { MulStep(step, 1, k); assert step * k == k * step && step * 1 == step; }
    DivModIs(net * block + step, block, net, step);
    assert net * (k * step) == step * (net * k);
    DivModIs(net * block, step, net * k, 0);
    DivModIs(net * block + step, step, net * k + 1, 0);
  }

  /** The other way round nothing is promised: an exclusion narrower than a CIDR target does not
      match it, so an allowed block can contain excluded addresses. */
  lemma NarrowExclusionIsMissed(excluded: Prefix, t: Target)
    requires t.kind == CidrKind && excluded.bits > t.prefix.bits
    ensures !RuleMatches(Block(excluded), t)
    ensures InBlock(t.prefix, excluded.n) && excluded.family == t.prefix.family ==>
              RuleMatches(Block(excluded), Target(IpKind, "", Some(Addr(excluded.family, excluded.n, "")), t.prefix))
  {
  }
}
