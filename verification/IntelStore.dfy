/**
 The intelligence store: signed, versioned bundles and policies, checked against pinned keys
 that a bundle may extend.

 Signatures, canonical text, base64 and JSON decoding are inputs: `Crypto` answers whether a key
 verifies a signature, `body` is the canonical text of a document without its signature, and a
 payload that does not decode is None. Nothing is assumed of `Crypto`.
 */
module IntelStore {
  import opened Wrappers
  import opened BundleVersion
  import opened Radix
  import Bloom
  import ExactHash

  datatype Crypto = Crypto(
    verifies: (string, string, string) -> bool,
    keyShaped: string -> bool,
    rotationText: string -> string)

  datatype NextKey = NextKey(publicKey: string, signature: string)

  datatype Bundle = Bundle(
    version: string,
    issuedAt: int,
    expiresAt: int,
    body: string,
    signature: string,
    nextKey: Option<NextKey>,
    bloom: Option<seq<Byte>>,
    exact: Option<seq<Byte>>,
    confusablesDecode: bool)

  // `wellFormed` is the rest of the structural validation.
  datatype BundleDoc = NotABundle | BundleDoc(bundle: Bundle, wellFormed: bool)

  datatype Policy = Policy(version: int, expiresAt: int, body: string, signature: string)

  datatype PolicyDoc = NotAPolicy | PolicyDoc(policy: Policy)

  datatype Reason =
    | SchemaInvalid | SignatureMissing | SignatureInvalid | UntrustedKey | Rollback | VersionInvalid
    | PolicyExpired | RotationSignatureInvalid

  const STALE_AFTER_MS := 1209600000

  predicate Stale(b: Bundle, now: int) { now > b.expiresAt || now > b.issuedAt + STALE_AFTER_MS }

  // The first pin, from position i on, that verifies the text.
  function SignerFrom(pins: seq<string>, crypto: Crypto, signature: string, body: string, i: nat): (r: Option<nat>)
    requires i <= |pins|
    ensures r.Some? ==> i <= r.value < |pins| && crypto.verifies(pins[r.value], signature, body)
    ensures forall j :: i <= j < (if r.Some? then r.value else |pins|) ==> !crypto.verifies(pins[j], signature, body)
    decreases |pins| - i
  {
    if i == |pins| then None
    else if crypto.verifies(pins[i], signature, body) then Some(i) else SignerFrom(pins, crypto, signature, body, i + 1)
  }

  function Signer(pins: seq<string>, crypto: Crypto, signature: string, body: string): (r: Option<nat>)
    ensures r.Some? ==> r.value < |pins| && signature != "" && crypto.verifies(pins[r.value], signature, body)
  {
    if signature == "" then None else SignerFrom(pins, crypto, signature, body, 0)
  }

  method VerifyAgainstPins(pins: seq<string>, crypto: Crypto, signature: string, body: string) returns (r: Option<nat>)
    ensures r == Signer(pins, crypto, signature, body)
  {
    if signature == "" { return None; }
    var i := 0;
    while i < |pins|
      invariant 0 <= i <= |pins|
      invariant SignerFrom(pins, crypto, signature, body, 0) == SignerFrom(pins, crypto, signature, body, i)
    {
      if crypto.verifies(pins[i], signature, body) { return Some(i); }
      i := i + 1;
    }
    return None;
  }

  datatype VerifiedBundle = VerifiedBundle(bundle: Bundle, keyIndex: nat, stale: bool, rotation: Option<string>)

  function VerifyIntelBundle(doc: BundleDoc, pins: seq<string>, current: Option<string>, now: int, crypto: Crypto)
    : Result<VerifiedBundle, Reason>
  {
    if doc.NotABundle? || !doc.wellFormed || Parse(doc.bundle.version).None? then Err(SchemaInvalid)
    else if pins == [] then Err(UntrustedKey)
    else
      var b := doc.bundle;
      var signer := Signer(pins, crypto, b.signature, b.body);
      if signer.None? then Err(SignatureInvalid)
      else if current.Some? && Comparison(b.version, current.value).None? then Err(VersionInvalid)
      else if current.Some? && Comparison(b.version, current.value).value <= 0 then Err(Rollback)
      else if b.nextKey.None? then Ok(VerifiedBundle(b, signer.value, Stale(b, now), None))
      else
        var next := b.nextKey.value;
        if !(crypto.keyShaped(next.publicKey)
             && crypto.verifies(pins[signer.value], next.signature, crypto.rotationText(next.publicKey)))
        then Err(RotationSignatureInvalid)
        else Ok(VerifiedBundle(b, signer.value, Stale(b, now), Some(next.publicKey)))
  }

  function VerifyPolicyConfig(doc: PolicyDoc, pins: seq<string>, current: Option<int>, now: int, crypto: Crypto)
    : Result<Policy, Reason>
  {
    if doc.NotAPolicy? then Err(SchemaInvalid)
    else if pins == [] then Err(UntrustedKey)
    else if doc.policy.signature == "" then Err(SignatureMissing)
    else if Signer(pins, crypto, doc.policy.signature, doc.policy.body).None? then Err(SignatureInvalid)
    else if current.Some? && doc.policy.version <= current.value then Err(Rollback)
    else if doc.policy.expiresAt <= now then Err(PolicyExpired)
    else Ok(doc.policy)
  }

  // ----- The store's state -----------------------------------------------------------------------

  datatype Installed = Installed(version: string, filter: Bloom.Filter, exact: seq<Byte>, stale: bool)

  datatype Store = Store(pins: seq<string>, bundle: Option<Installed>, policy: Option<Policy>)

  datatype ApplyResult = ApplyResult(
    applied: bool,
    reason: Option<Reason>,
    stale: bool,
    integrityFailure: bool,
    adopted: Option<string>)

  function Refused(reason: Reason, integrityFailure: bool): ApplyResult {
    ApplyResult(false, Some(reason), false, integrityFailure, None)
  }

  function Materialize(b: Bundle, stale: bool): Option<Installed> {
    if b.bloom.None? || Bloom.FromWire(b.bloom.value).Err? || b.exact.None? || |b.exact.value| % 32 != 0
       || !b.confusablesDecode
    then None else Some(Installed(b.version, Bloom.FromWire(b.bloom.value).value, b.exact.value, stale))
  }

  // Reading the store and verifying, as one step.
  function Begin(s: Store, doc: BundleDoc, now: int, crypto: Crypto): Result<VerifiedBundle, Reason> {
    VerifyIntelBundle(doc, s.pins, if s.bundle.Some? then Some(s.bundle.value.version) else None, now, crypto)
  }

  // Writing what was verified.
  function Finish(s: Store, verified: Result<VerifiedBundle, Reason>): (Store, ApplyResult) {
    match verified
    case Err(reason) =>
      (s, Refused(reason, reason == SignatureInvalid || reason == Rollback || reason == RotationSignatureInvalid))
    case Ok(v) =>
      var next := Materialize(v.bundle, v.stale);
      if next.None? then (s, Refused(SchemaInvalid, true))
      else
        var adopted := if v.rotation.Some? && v.rotation.value !in s.pins then v.rotation else None;
        (s.(bundle := next, pins := if adopted.Some? then s.pins + [adopted.value] else s.pins),
         ApplyResult(true, None, v.stale, false, adopted))
  }

  function ApplyBundle(s: Store, doc: BundleDoc, now: int, crypto: Crypto): (Store, ApplyResult) {
    Finish(s, Begin(s, doc, now, crypto))
  }

  function ApplyPolicy(s: Store, doc: PolicyDoc, now: int, crypto: Crypto): (Store, ApplyResult) {
    match VerifyPolicyConfig(doc, s.pins, if s.policy.Some? then Some(s.policy.value.version) else None, now, crypto)
    case Err(reason) => (s, Refused(reason, reason == SignatureInvalid || reason == Rollback))
    case Ok(p) => (s.(policy := Some(p)), ApplyResult(true, None, false, false, None))
  }

  class IntelStoreObject {
    const crypto: Crypto
    var pins: seq<string>
    var state: Option<Installed>
    var currentPolicy: Option<Policy>

    function St(): Store
      reads this
    {
      Store(pins, state, currentPolicy)
    }

    constructor (pinnedKeys: seq<string>, crypto: Crypto)
      ensures this.crypto == crypto && St() == Store(pinnedKeys, None, None)
    {
      this.crypto, pins, state, currentPolicy := crypto, pinnedKeys, None, None;
    }

    method ApplyBundleDoc(doc: BundleDoc, now: int) returns (r: ApplyResult)
      modifies this
      ensures (St(), r) == ApplyBundle(old(St()), doc, now, crypto)
    {
      hide Signer, Comparison, Parse;
      var res := VerifyIntelBundle(doc, pins, if state.Some? then Some(state.value.version) else None, now, crypto);
      if res.Err? {
        return Refused(res.error, res.error == SignatureInvalid || res.error == Rollback
                                  || res.error == RotationSignatureInvalid);
      }
      var next := Materialize(res.value.bundle, res.value.stale);
      if next.None? { return Refused(SchemaInvalid, true); }
      state := next;
      var adopted := None;
      if res.value.rotation.Some? && res.value.rotation.value !in pins {
        pins := pins + [res.value.rotation.value];
        adopted := res.value.rotation;
      }
      return ApplyResult(true, None, res.value.stale, false, adopted);
    }

    method ApplyPolicyDoc(doc: PolicyDoc, now: int) returns (r: ApplyResult)
      modifies this
      ensures (St(), r) == ApplyPolicy(old(St()), doc, now, crypto)
    {
      hide Signer;
      var current := if currentPolicy.Some? then Some(currentPolicy.value.version) else None;
      var res := VerifyPolicyConfig(doc, pins, current, now, crypto);
      if res.Err? { return Refused(res.error, res.error == SignatureInvalid || res.error == Rollback); }
      currentPolicy := Some(res.value);
      return ApplyResult(true, None, false, false, None);
    }

    // None stands for the compiled-in defaults.
    method PolicyInForce(now: int) returns (p: Option<Policy>)
      ensures p == InForce(St(), now)
    {
      if currentPolicy.Some? && currentPolicy.value.expiresAt > now { return currentPolicy; }
      return None;
    }

    method Degraded() returns (d: bool)
      ensures d == IsDegraded(St())
    {
      return state.None? || state.value.stale;
    }
  }

  function InForce(s: Store, now: int): Option<Policy> {
    if s.policy.Some? && s.policy.value.expiresAt > now then s.policy else None
  }

  predicate IsDegraded(s: Store) { s.bundle.None? || s.bundle.value.stale }

  // ----- Runs ------------------------------------------------------------------------------------

  datatype Op = BundleOp(doc: BundleDoc, now: int) | PolicyOp(config: PolicyDoc, now: int)

  function After(s: Store, op: Op, crypto: Crypto): (Store, ApplyResult) {
    match op
    case BundleOp(doc, now) => ApplyBundle(s, doc, now, crypto)
    case PolicyOp(doc, now) => ApplyPolicy(s, doc, now, crypto)
  }

  function Run(s: Store, ops: seq<Op>, crypto: Crypto): Store
    decreases |ops|
  {
    if ops == [] then s else Run(After(s, ops[0], crypto).0, ops[1..], crypto)
  }

  // The versions installed along a run, and those of the policies.
  function BundlesInstalled(s: Store, ops: seq<Op>, crypto: Crypto): seq<string>
    decreases |ops|
  {
    if ops == [] then []
    else
      var (s', r) := After(s, ops[0], crypto);
      (if ops[0].BundleOp? && r.applied then [ops[0].doc.bundle.version] else [])
        + BundlesInstalled(s', ops[1..], crypto)
  }

  function PoliciesInstalled(s: Store, ops: seq<Op>, crypto: Crypto): seq<Policy>
    decreases |ops|
  {
    if ops == [] then []
    else
      var (s', r) := After(s, ops[0], crypto);
      (if ops[0].PolicyOp? && r.applied then [ops[0].config.policy] else []) + PoliciesInstalled(s', ops[1..], crypto)
  }

  predicate IsNewer(a: string, b: string) { Comparison(a, b).Some? && Comparison(a, b).value > 0 }

  // Each version newer than all before it, and than the one the run started from.
  predicate Increasing(vs: seq<string>, start: Option<string>) {
    && (forall i :: 0 <= i < |vs| ==> Parse(vs[i]).Some? && (start.Some? ==> IsNewer(vs[i], start.value)))
    && (forall i, j :: 0 <= i < j < |vs| ==> IsNewer(vs[j], vs[i]))
  }

  function VersionOf(s: Store): Option<string> { if s.bundle.Some? then Some(s.bundle.value.version) else None }

  lemma InstalledIsNewer(s: Store, doc: BundleDoc, now: int, crypto: Crypto)
    requires ApplyBundle(s, doc, now, crypto).1.applied
    ensures doc.BundleDoc? && Parse(doc.bundle.version).Some?
    ensures VersionOf(ApplyBundle(s, doc, now, crypto).0) == Some(doc.bundle.version)
    ensures VersionOf(s).Some? ==> IsNewer(doc.bundle.version, VersionOf(s).value)
  {
    hide Signer, Comparison, Parse;
  }

  /** A rejected document changes nothing. */
  lemma RejectionChangesNothing(s: Store, op: Op, crypto: Crypto)
    requires !After(s, op, crypto).1.applied
    ensures After(s, op, crypto).0 == s
  {
    hide Signer, Comparison, Parse;
  }

  lemma NewerTransitive(a: string, b: string, c: string)
    requires IsNewer(a, b) && IsNewer(b, c)
    ensures IsNewer(a, c)
  {
    ComparisonIsTotalOrder(a, b, c);
  }

  /** Along every run of applied bundles and policies, good and bad, the installed bundle versions
      strictly increase. */
  lemma {:induction false} VersionsIncrease(s: Store, ops: seq<Op>, crypto: Crypto)
    requires VersionOf(s).Some? ==> Parse(VersionOf(s).value).Some?
    ensures Increasing(BundlesInstalled(s, ops, crypto), VersionOf(s))
    decreases |ops|
  {
    hide ApplyBundle, ApplyPolicy, IsNewer, Parse;
    if ops != [] {
      var (s', r) := After(s, ops[0], crypto);
      if !r.applied { RejectionChangesNothing(s, ops[0], crypto); }
      if ops[0].BundleOp? && r.applied { InstalledIsNewer(s, ops[0].doc, ops[0].now, crypto); }
      if ops[0].PolicyOp? { PolicyKeepsBundle(s, ops[0].config, ops[0].now, crypto); }
      VersionsIncrease(s', ops[1..], crypto);
      var rest := BundlesInstalled(s', ops[1..], crypto);
      if ops[0].BundleOp? && r.applied && VersionOf(s).Some? {
        forall i | 0 <= i < |rest| ensures IsNewer(rest[i], VersionOf(s).value) {
          NewerTransitive(rest[i], ops[0].doc.bundle.version, VersionOf(s).value);
        }
      }
    }
  }

  lemma PolicyKeepsBundle(s: Store, doc: PolicyDoc, now: int, crypto: Crypto)
    ensures var (s', r) := ApplyPolicy(s, doc, now, crypto);
            && s'.bundle == s.bundle && s'.pins == s.pins
            && (r.applied ==> doc.PolicyDoc? && s'.policy == Some(doc.policy) && doc.policy.expiresAt > now
                              && (s.policy.Some? ==> doc.policy.version > s.policy.value.version))
  {
  }

  lemma BundleKeepsPolicy(s: Store, doc: BundleDoc, now: int, crypto: Crypto)
    ensures ApplyBundle(s, doc, now, crypto).0.policy == s.policy
  {
    hide Signer, Comparison, Parse;
  }

  predicate PoliciesIncrease(ps: seq<Policy>, start: Option<Policy>) {
    && (forall i :: 0 <= i < |ps| ==> start.Some? ==> ps[i].version > start.value.version)
    && (forall i, j :: 0 <= i < j < |ps| ==> ps[i].version < ps[j].version)
  }

  lemma OneMorePolicy(p: Policy, rest: seq<Policy>, start: Option<Policy>)
    requires PoliciesIncrease(rest, Some(p)) && (start.Some? ==> p.version > start.value.version)
    ensures PoliciesIncrease([p] + rest, start)
  {
  }

  /** So do the policy versions. */
  lemma {:induction false} PolicyVersionsIncrease(s: Store, ops: seq<Op>, crypto: Crypto)
    ensures PoliciesIncrease(PoliciesInstalled(s, ops, crypto), s.policy)
    decreases |ops|
  {
    hide ApplyBundle, ApplyPolicy;
    if ops != [] {
      var (s', r) := After(s, ops[0], crypto);
      if !r.applied { RejectionChangesNothing(s, ops[0], crypto); }
      PolicyVersionsIncrease(s', ops[1..], crypto);
      var rest := PoliciesInstalled(s', ops[1..], crypto);
      assert [] + rest == rest;
      match ops[0]
      case BundleOp(doc, now) => BundleKeepsPolicy(s, doc, now, crypto);
      case PolicyOp(config, now) =>
        PolicyKeepsBundle(s, config, now, crypto);
        if r.applied { OneMorePolicy(config.policy, rest, s.policy); }
    }
  }

  // ----- The policy in force ---------------------------------------------------------------------

  lemma {:induction false} PolicyAfter(s: Store, ops: seq<Op>, crypto: Crypto)
    ensures var ps := PoliciesInstalled(s, ops, crypto);
            Run(s, ops, crypto).policy == if ps == [] then s.policy else Some(ps[|ps| - 1])
    decreases |ops|
  {
    hide ApplyBundle, ApplyPolicy;
    if ops != [] {
      var (s', r) := After(s, ops[0], crypto);
      if !r.applied { RejectionChangesNothing(s, ops[0], crypto); }
      PolicyAfter(s', ops[1..], crypto);
      match ops[0]
      case BundleOp(doc, now) => BundleKeepsPolicy(s, doc, now, crypto);
      case PolicyOp(config, now) => PolicyKeepsBundle(s, config, now, crypto);
    }
  }

  // The last policy that has not expired, of the one at the start and those applied since.
  function LastUnexpired(start: Option<Policy>, ps: seq<Policy>, now: int): (r: Option<Policy>)
    ensures r.Some? ==> r.value.expiresAt > now
  {
    if ps == [] then (if start.Some? && start.value.expiresAt > now then start else None)
    else if ps[|ps| - 1].expiresAt > now then Some(ps[|ps| - 1])
    else LastUnexpired(start, ps[..|ps| - 1], now)
  }

  /** After every run the policy in force, if any, is one that was applied, has the highest version
      of all, and has not expired. It is the last one not expired, as the source's comment has it,
      if and only if the newest policy has not expired or none is left that has not: an older one
      is not gone back to. */
  lemma PolicyInForceAlongRun(s: Store, ops: seq<Op>, crypto: Crypto, now: int)
    ensures var (ps, p) := (PoliciesInstalled(s, ops, crypto), InForce(Run(s, ops, crypto), now));
            && (p.Some? ==> p.value.expiresAt > now && (p.value in ps || p == s.policy))
            && (p.Some? ==> forall q :: q in ps ==> q.version <= p.value.version)
            && (p == LastUnexpired(s.policy, ps, now)
                <==> ps == [] || ps[|ps| - 1].expiresAt > now || LastUnexpired(s.policy, ps, now).None?)
  {
    PolicyAfter(s, ops, crypto);
    PolicyVersionsIncrease(s, ops, crypto);
    hide Run, PoliciesInstalled;
    var ps := PoliciesInstalled(s, ops, crypto);
    assert forall q :: q in ps ==> exists i :: 0 <= i < |ps| && ps[i] == q;
  }

  /** So a newer policy that expires first takes the older one's place for good: after its time
      the defaults apply, though the older one would still be valid. */
  lemma NewerPolicyExpiresFirst(s: Store, doc: PolicyDoc, applied: int, crypto: Crypto, now: int)
    requires s.policy.Some? && ApplyPolicy(s, doc, applied, crypto).1.applied
    requires doc.PolicyDoc? && doc.policy.expiresAt <= now < s.policy.value.expiresAt
    ensures InForce(s, now) == s.policy && InForce(ApplyPolicy(s, doc, applied, crypto).0, now).None?
  {
    PolicyKeepsBundle(s, doc, applied, crypto);
  }

  // ----- Pins ------------------------------------------------------------------------------------

  // Some bundle of the run, signed by `from`, names `to` as the next key, and `from` signed that too.
  ghost predicate Hands(from: string, to: string, ops: seq<Op>, crypto: Crypto) {
    exists k :: 0 <= k < |ops| && HandsIn(from, to, ops[k], crypto)
  }

  predicate HandsIn(from: string, to: string, op: Op, crypto: Crypto) {
    && op.BundleOp? && op.doc.BundleDoc? && op.doc.bundle.nextKey.Some?
    && op.doc.bundle.nextKey.value.publicKey == to
    && crypto.verifies(from, op.doc.bundle.signature, op.doc.bundle.body)
    && crypto.verifies(from, op.doc.bundle.nextKey.value.signature, crypto.rotationText(to))
  }

  // A line of keys from one of `origin` to `pin`, each handed on by the one before.
  ghost predicate Line(keys: seq<string>, pin: string, origin: seq<string>, ops: seq<Op>, crypto: Crypto) {
    && keys != [] && keys[0] in origin && keys[|keys| - 1] == pin
    && forall i :: 0 <= i < |keys| - 1 ==> Hands(keys[i], keys[i + 1], ops, crypto)
  }

  lemma PinsAfter(s: Store, op: Op, crypto: Crypto)
    ensures var s' := After(s, op, crypto).0;
            s'.pins == s.pins || (|s'.pins| == |s.pins| + 1 && s'.pins[..|s.pins|] == s.pins
                                  && exists from :: from in s.pins && HandsIn(from, s'.pins[|s.pins|], op, crypto))
  {
    hide Comparison, Parse, SignerFrom, Bloom.FromWire;
    if op.PolicyOp? {
      PolicyKeepsBundle(s, op.config, op.now, crypto);
    } else {
      var begun := Begin(s, op.doc, op.now, crypto);
      if begun.Ok? {
        assert s.pins[begun.value.keyIndex] in s.pins;
      }
    }
  }

  lemma LongerLine(keys: seq<string>, pin: string, to: string, origin: seq<string>, ops: seq<Op>, crypto: Crypto,
                   op: Op)
    requires Line(keys, pin, origin, ops, crypto)
    ensures Line(keys, pin, origin, ops + [op], crypto)
    ensures HandsIn(pin, to, op, crypto) ==> Line(keys + [to], to, origin, ops + [op], crypto)
  {
    hide HandsIn;
    var all := ops + [op];
    forall i | 0 <= i < |keys| - 1 ensures Hands(keys[i], keys[i + 1], all, crypto) {
      var k :| 0 <= k < |ops| && HandsIn(keys[i], keys[i + 1], ops[k], crypto);
      assert all[k] == ops[k];
    }
    if HandsIn(pin, to, op, crypto) {
      assert HandsIn(pin, to, all[|ops|], crypto);
      assert Hands(pin, to, all, crypto);
      hide Hands;
      forall i | 0 <= i < |keys + [to]| - 1 ensures Hands((keys + [to])[i], (keys + [to])[i + 1], all, crypto) {
        if i < |keys| - 1 {
          assert Hands(keys[i], keys[i + 1], all, crypto);
        }
      }
    }
  }

  lemma {:induction false} RunSnoc(s: Store, ops: seq<Op>, op: Op, crypto: Crypto)
    ensures Run(s, ops + [op], crypto) == After(Run(s, ops, crypto), op, crypto).0
    decreases |ops|
  {
    hide After;
    if ops == [] {
      assert [op][1..] == [] && [] + [op] == [op];
      assert Run(s, [op], crypto) == Run(After(s, op, crypto).0, [], crypto);
    } else {
      assert (ops + [op])[0] == ops[0] && (ops + [op])[1..] == ops[1..] + [op];
      RunSnoc(After(s, ops[0], crypto).0, ops[1..], op, crypto);
    }
  }

  /** Every pin the store comes to trust is an original one or stands at the end of a line of keys
      that starts with one, each handed on in a bundle that the key before signed twice, as a
      whole and for the new key. Pins are never given up. */
  lemma {:induction false} PinsAreLinked(s: Store, ops: seq<Op>, crypto: Crypto)
    ensures s.pins <= Run(s, ops, crypto).pins
    ensures forall pin :: pin in Run(s, ops, crypto).pins ==> exists keys :: Line(keys, pin, s.pins, ops, crypto)
    decreases |ops|
  {
    hide After, HandsIn, Hands;
    if ops == [] {
      forall pin | pin in s.pins ensures exists keys :: Line(keys, pin, s.pins, ops, crypto) {
        assert Line([pin], pin, s.pins, ops, crypto);
      }
    } else {
      var (front, op) := (ops[..|ops| - 1], ops[|ops| - 1]);
      assert front + [op] == ops;
      PinsAreLinked(s, front, crypto);
      RunSnoc(s, front, op, crypto);
      var mid := Run(s, front, crypto);
      PinsAfter(mid, op, crypto);
      var end := Run(s, ops, crypto);
      forall pin | pin in end.pins ensures exists keys :: Line(keys, pin, s.pins, ops, crypto) {
        if pin in mid.pins {
          var keys :| Line(keys, pin, s.pins, front, crypto);
          LongerLine(keys, pin, pin, s.pins, front, crypto, op);
        } else {
          assert pin == end.pins[|mid.pins|];
          var from :| from in mid.pins && HandsIn(from, pin, op, crypto);
          var keys :| Line(keys, from, s.pins, front, crypto);
          LongerLine(keys, from, pin, s.pins, front, crypto, op);
        }
      }
    }
  }

  // ----- Overlapping applications ------------------------------------------------------------------

  lemma {:induction false} SignerPrefix(pins: seq<string>, more: seq<string>, crypto: Crypto, signature: string,
                                        body: string, i: nat)
    requires i <= |pins|
    ensures SignerFrom(pins, crypto, signature, body, i).Some? ==>
              SignerFrom(pins + more, crypto, signature, body, i) == SignerFrom(pins, crypto, signature, body, i)
    ensures SignerFrom(pins, crypto, signature, body, i).None? ==>
              SignerFrom(pins + more, crypto, signature, body, i)
                == SignerFrom(pins + more, crypto, signature, body, |pins|)
    decreases |pins| - i
  {
    if i < |pins| {
      assert (pins + more)[i] == pins[i];
      SignerPrefix(pins, more, crypto, signature, body, i + 1);
    }
  }

  // One of these keys verifies the text.
  predicate AnyVerifies(keys: seq<string>, crypto: Crypto, signature: string, body: string) {
    signature != "" && exists k :: 0 <= k < |keys| && crypto.verifies(keys[k], signature, body)
  }

  lemma SignerGrows(pins: seq<string>, more: seq<string>, crypto: Crypto, signature: string, body: string)
    ensures Signer(pins, crypto, signature, body).Some? ==>
              Signer(pins + more, crypto, signature, body) == Signer(pins, crypto, signature, body)
    ensures Signer(pins, crypto, signature, body).None? ==>
              (Signer(pins + more, crypto, signature, body).Some? <==> AnyVerifies(more, crypto, signature, body))
  {
    SignerPrefix(pins, more, crypto, signature, body, 0);
    var all := pins + more;
    var late := SignerFrom(all, crypto, signature, body, |pins|);
    if late.Some? {
      assert crypto.verifies(more[late.value - |pins|], signature, body);
    } else {
      assert forall k :: 0 <= k < |more| ==> all[|pins| + k] == more[k];
    }
  }

  /** Pins adopted while a bundle is being verified only help it: what passes with the pins at the
      start passes unchanged with more, and what fails comes out otherwise exactly if it failed for
      its signature and one of the new keys made that. */
  lemma GrownPins(pins: seq<string>, more: seq<string>, doc: BundleDoc, current: Option<string>, now: int,
                  crypto: Crypto)
    requires pins != []
    ensures var (few, many) := (VerifyIntelBundle(doc, pins, current, now, crypto),
                                VerifyIntelBundle(doc, pins + more, current, now, crypto));
            && (few.Ok? ==> many == few)
            && (many != few <==> few == Err(SignatureInvalid)
                                 && AnyVerifies(more, crypto, doc.bundle.signature, doc.bundle.body))
  {
    if doc.BundleDoc? {
      var b := doc.bundle;
      SignerGrows(pins, more, crypto, b.signature, b.body);
      hide SignerFrom, Signer, AnyVerifies, Comparison, Parse;
    }
  }

  /** Writing what was verified against an earlier state is the same as applying the bundle now, in
      effect and in answer, if and only if it is newer than what is installed now. Pins adopted in
      between make no difference. */
  lemma OverlapSafeIff(read: Store, s: Store, doc: BundleDoc, now: int, crypto: Crypto)
    requires read.pins <= s.pins && Begin(read, doc, now, crypto).Ok?
    ensures Finish(s, Begin(read, doc, now, crypto)) == ApplyBundle(s, doc, now, crypto)
       <==> (VersionOf(s).Some? ==> IsNewer(doc.bundle.version, VersionOf(s).value))
  {
    var b := doc.bundle;
    var more := s.pins[|read.pins|..];
    assert s.pins == read.pins + more;
    SignerGrows(read.pins, more, crypto, b.signature, b.body);
    hide SignerFrom, Signer, AnyVerifies, Comparison, Parse, Bloom.FromWire;
  }

  // Applications under way: one has read the version, is verified against the pins of some later
  // moment, for the array of pins is shared, and is then written.
  datatype Task =
    | Reading(doc: BundleDoc, now: int, read: Option<string>, mark: nat)
    | Checked(result: Result<VerifiedBundle, Reason>, mark: nat)

  datatype Event = BeginEvent(task: nat, doc: BundleDoc, now: int) | CheckEvent(task: nat) | FinishEvent(task: nat)

  // `log` lists the versions installed so far; a task's mark is how many there were when it began.
  datatype World = World(store: Store, tasks: map<nat, Task>, log: seq<string>)

  function Next(w: World, e: Event, crypto: Crypto): World {
    match e
    case BeginEvent(id, doc, now) =>
      if id in w.tasks then w else w.(tasks := w.tasks[id := Reading(doc, now, VersionOf(w.store), |w.log|)])
    case CheckEvent(id) =>
      if id !in w.tasks || !w.tasks[id].Reading? then w
      else
        var t := w.tasks[id];
        w.(tasks := w.tasks[id := Checked(VerifyIntelBundle(t.doc, w.store.pins, t.read, t.now, crypto), t.mark)])
    case FinishEvent(id) =>
      if id !in w.tasks || !w.tasks[id].Checked? then w
      else
        var (s', r) := Finish(w.store, w.tasks[id].result);
        World(s', w.tasks - {id}, if r.applied then w.log + [w.tasks[id].result.value.bundle.version] else w.log)
  }

  function RunEvents(w: World, es: seq<Event>, crypto: Crypto): World
    decreases |es|
  {
    if es == [] then w else RunEvents(Next(w, es[0], crypto), es[1..], crypto)
  }

  // If this event installs a bundle, that one is newer than all installed since its task began.
  predicate NotOvertaken(w: World, e: Event, crypto: Crypto) {
    |Next(w, e, crypto).log| > |w.log| ==>
      forall i :: w.tasks[e.task].mark <= i < |w.log| ==> IsNewer(w.tasks[e.task].result.value.bundle.version, w.log[i])
  }

  predicate NoneOvertaken(w: World, es: seq<Event>, crypto: Crypto)
    decreases |es|
  {
    es == [] || (NotOvertaken(w, es[0], crypto) && NoneOvertaken(Next(w, es[0], crypto), es[1..], crypto))
  }

  function Last(log: seq<string>, start: Option<string>): Option<string> {
    if log == [] then start else Some(log[|log| - 1])
  }

  // A task's bundle parses, and is newer than what was installed when it began.
  predicate TaskOk(t: Task, log: seq<string>, start: Option<string>) {
    && t.mark <= |log|
    && (t.Reading? ==> t.read == Last(log[..t.mark], start))
    && (t.Checked? && t.result.Ok? ==>
          var v := t.result.value.bundle.version;
          Parse(v).Some? && (Last(log[..t.mark], start).Some? ==> IsNewer(v, Last(log[..t.mark], start).value)))
  }

  predicate WorldOk(w: World, start: Option<string>) {
    VersionOf(w.store) == Last(w.log, start) && forall id :: id in w.tasks ==> TaskOk(w.tasks[id], w.log, start)
  }

  lemma TaskLasts(t: Task, log: seq<string>, v: string, start: Option<string>)
    requires TaskOk(t, log, start)
    ensures TaskOk(t, log + [v], start)
  {
    assert (log + [v])[..t.mark] == log[..t.mark];
    hide IsNewer, Parse;
  }

  lemma CheckOk(t: Task, pins: seq<string>, log: seq<string>, start: Option<string>, crypto: Crypto)
    requires t.Reading? && TaskOk(t, log, start)
    ensures TaskOk(Checked(VerifyIntelBundle(t.doc, pins, t.read, t.now, crypto), t.mark), log, start)
  {
    hide Signer, Comparison, Parse, Last;
  }

  lemma FinishInstalls(s: Store, result: Result<VerifiedBundle, Reason>)
    ensures var (s', r) := Finish(s, result);
            if r.applied then result.Ok? && VersionOf(s') == Some(result.value.bundle.version)
            else s' == s
  {
    hide Bloom.FromWire;
  }

  lemma NextOk(w: World, e: Event, start: Option<string>, crypto: Crypto)
    requires WorldOk(w, start)
    ensures WorldOk(Next(w, e, crypto), start)
  {
    hide IsNewer, Parse, VerifyIntelBundle, Finish, TaskOk;
    match e
    case BeginEvent(id, doc, now) => FreshTask(Reading(doc, now, VersionOf(w.store), |w.log|), w.log, start);
    case CheckEvent(id) =>
      if id in w.tasks && w.tasks[id].Reading? { CheckOk(w.tasks[id], w.store.pins, w.log, start, crypto); }
    case FinishEvent(id) =>
      if id in w.tasks && w.tasks[id].Checked? {
        FinishInstalls(w.store, w.tasks[id].result);
        if Finish(w.store, w.tasks[id].result).1.applied {
          forall k | k in w.tasks ensures TaskOk(w.tasks[k], Next(w, e, crypto).log, start) {
            TaskLasts(w.tasks[k], w.log, w.tasks[id].result.value.bundle.version, start);
          }
        }
      }
  }

  lemma FreshTask(t: Task, log: seq<string>, start: Option<string>)
    requires t.Reading? && t.mark == |log| && t.read == Last(log, start)
    ensures TaskOk(t, log, start)
  {
    assert log[..t.mark] == log;
  }

  // One more version keeps the order exactly if it is newer than those since its mark.
  lemma OneMoreVersion(log: seq<string>, v: string, mark: nat, start: Option<string>)
    requires mark <= |log| && Parse(v).Some?
    requires Last(log[..mark], start).Some? ==> IsNewer(v, Last(log[..mark], start).value)
    ensures Increasing(log + [v], start)
       <==> Increasing(log, start) && forall i :: mark <= i < |log| ==> IsNewer(v, log[i])
  {
    hide IsNewer, Parse;
    if Increasing(log, start) {
      if mark > 0 {
        forall i | 0 <= i < mark - 1 ensures IsNewer(v, log[i]) { NewerTransitive(v, log[mark - 1], log[i]); }
        if start.Some? { NewerTransitive(v, log[mark - 1], start.value); }
      }
    }
    var all := log + [v];
    assert all[|log|] == v && forall i :: 0 <= i < |log| ==> all[i] == log[i];
  }

  lemma {:induction false} RunIncreasesIff(w: World, es: seq<Event>, start: Option<string>, crypto: Crypto)
    requires WorldOk(w, start)
    ensures Increasing(RunEvents(w, es, crypto).log, start)
            <==> Increasing(w.log, start) && NoneOvertaken(w, es, crypto)
    decreases |es|
  {
    if es != [] {
      hide Increasing, WorldOk, Next, NotOvertaken;
      NextOk(w, es[0], start, crypto);
      NextIncreasesIff(w, es[0], start, crypto);
      RunIncreasesIff(Next(w, es[0], crypto), es[1..], start, crypto);
    }
  }

  lemma NextIncreasesIff(w: World, e: Event, start: Option<string>, crypto: Crypto)
    requires WorldOk(w, start)
    ensures Increasing(Next(w, e, crypto).log, start) <==> Increasing(w.log, start) && NotOvertaken(w, e, crypto)
  {
    hide IsNewer, Parse, VerifyIntelBundle, Finish, Increasing, Last;
    if e.FinishEvent? && e.task in w.tasks && w.tasks[e.task].Checked? {
      var t := w.tasks[e.task];
      assert TaskOk(t, w.log, start);
      FinishInstalls(w.store, t.result);
      if Finish(w.store, t.result).1.applied {
        OneMoreVersion(w.log, t.result.value.bundle.version, t.mark, start);
      }
    }
  }

  /** Applications that overlap in any way: the versions installed increase if and only if no bundle
      is written after one that is not older and was itself written while it was being verified.
      One application at a time is the case in which nothing can come in between. */
  lemma OverlapsIncreaseIff(s: Store, es: seq<Event>, crypto: Crypto)
    ensures var w := World(s, map[], []);
            Increasing(RunEvents(w, es, crypto).log, VersionOf(s)) <==> NoneOvertaken(w, es, crypto)
  {
    RunIncreasesIff(World(s, map[], []), es, VersionOf(s), crypto);
  }

  /** Two applications that both read the empty store: the newer bundle is written first, the
      older one after it, and the store has rolled back although each was verified. */
  lemma OverlapRollsBack(s: Store, older: BundleDoc, fresher: BundleDoc, now: int, crypto: Crypto)
    requires s.bundle.None?
    requires older.BundleDoc? && fresher.BundleDoc?
    requires ApplyBundle(s, older, now, crypto).1.applied && ApplyBundle(s, fresher, now, crypto).1.applied
    requires IsNewer(fresher.bundle.version, older.bundle.version)
    ensures var s1 := Finish(s, Begin(s, fresher, now, crypto)).0;
            var s2 := Finish(s1, Begin(s, older, now, crypto)).0;
            && VersionOf(s1) == Some(fresher.bundle.version) && VersionOf(s2) == Some(older.bundle.version)
            && IsNewer(VersionOf(s1).value, VersionOf(s2).value)
            && !ApplyBundle(s1, older, now, crypto).1.applied
  {
    OlderIsNotNewer(older.bundle.version, fresher.bundle.version);
    hide Signer, Comparison, Parse, Bloom.FromWire;
  }

  lemma OlderIsNotNewer(a: string, b: string)
    requires IsNewer(b, a)
    ensures Comparison(a, b).Some? && Comparison(a, b).value <= 0
  {
    ComparisonIsTotalOrder(b, a, a);
  }

  /** Freshness is judged when a bundle is applied and not again: a store that is not degraded then
      stays so, however long nothing new arrives. */
  lemma StalenessIsNotRechecked(s: Store, doc: BundleDoc, now: int, crypto: Crypto, later: seq<Op>)
    requires doc.BundleDoc? && ApplyBundle(s, doc, now, crypto).1.applied && !Stale(doc.bundle, now)
    requires forall k :: 0 <= k < |later| ==> !later[k].BundleOp?
    ensures !IsDegraded(Run(ApplyBundle(s, doc, now, crypto).0, later, crypto))
  {
    AppliedStaleness(s, doc, now, crypto);
    hide ApplyBundle, Run;
    OnlyPolicies(ApplyBundle(s, doc, now, crypto).0, later, crypto);
  }

  lemma AppliedStaleness(s: Store, doc: BundleDoc, now: int, crypto: Crypto)
    requires ApplyBundle(s, doc, now, crypto).1.applied
    ensures doc.BundleDoc? && (IsDegraded(ApplyBundle(s, doc, now, crypto).0) <==> Stale(doc.bundle, now))
  {
    hide Signer, Comparison, Parse, Bloom.FromWire;
  }

  lemma {:induction false} OnlyPolicies(s: Store, later: seq<Op>, crypto: Crypto)
    requires forall k :: 0 <= k < |later| ==> !later[k].BundleOp?
    ensures Run(s, later, crypto).bundle == s.bundle
    decreases |later|
  {
    if later != [] {
      assert !later[0].BundleOp?;
      PolicyKeepsBundle(s, later[0].config, later[0].now, crypto);
      hide ApplyPolicy;
      OnlyPolicies(After(s, later[0], crypto).0, later[1..], crypto);
    }
  }

  // ----- Lookup ------------------------------------------------------------------------------------

  type Sha256 = string -> seq<Byte>

  // What the reader answers for an entry: the filter first, then the exact table.
  predicate Confirmed(i: Installed, entry: string, hashOf: Bloom.HashOf, sha: Sha256) {
    Bloom.TestAll(i.filter.bits, Bloom.Positions(hashOf(entry), i.filter.mBits, i.filter.k))
    && ExactHash.Found(i.exact, sha(entry))
  }

  // The bundle's payloads were built from this list of entries.
  ghost predicate BuiltFrom(b: Bundle, entries: seq<string>, mBits: nat, k: nat, hashOf: Bloom.HashOf, sha: Sha256) {
    && b.bloom == Some(Bloom.ToWire(Bloom.Filter(mBits, k, Bloom.Built(Bloom.Bytes(mBits), mBits, k, entries, hashOf))))
    && b.exact.Some? && ExactHash.Sorted(b.exact.value)
    && forall d :: ExactHash.InTable(b.exact.value, d) <==> exists e :: e in entries && sha(e) == d
  }

  // No other entry of the list has this one's digest.
  ghost predicate NoCollision(entries: seq<string>, entry: string, sha: Sha256) {
    forall e :: e in entries && sha(e) == sha(entry) ==> e == entry
  }

  /** The offline lookup is plain membership: an entry is confirmed exactly when it is on the list
      the bundle was built from, as long as its digest collides with none of the list. */
  lemma ConfirmedIffListed(b: Bundle, stale: bool, entries: seq<string>, mBits: nat, k: nat, hashOf: Bloom.HashOf,
                           sha: Sha256, entry: string)
    requires 0 < mBits <= TWO31 && 1 <= k <= 64 && BuiltFrom(b, entries, mBits, k, hashOf, sha)
    requires Materialize(b, stale).Some?
    requires NoCollision(entries, entry, sha)
    ensures Confirmed(Materialize(b, stale).value, entry, hashOf, sha) <==> entry in entries
  {
    ExactHash.FoundIff(b.exact.value, sha(entry));
    hide Bloom.Positions, Bloom.TestAll, Bloom.Built, Bloom.ToWire, Bloom.FromWire, ExactHash.InTable, Bloom.Bytes;
    hide ExactHash.Found, ExactHash.Sorted;
    var f := Bloom.Filter(mBits, k, Bloom.Built(Bloom.Bytes(mBits), mBits, k, entries, hashOf));
    Bloom.BuiltTest(Bloom.Bytes(mBits), mBits, k, entries, hashOf, 0);
    Bloom.WireRoundTrip(f);
    if entry in entries {
      var e :| 0 <= e < |entries| && entries[e] == entry;
      Bloom.NoFalseNegatives(mBits, k, entries, hashOf, e);
    }
  }

  // What the reader's two objects were made from.
  function Readers(bloom: Bloom.BloomFilter, exact: ExactHash.ExactHashTable, version: string, stale: bool): Installed
    reads bloom.bits
  {
    Installed(version, Bloom.Filter(bloom.mBits, bloom.k, bloom.bits[..]), exact.digests, stale)
  }

  /** The reader's answer. Of the objects made from a bundle that was built from a list, it says
      whether the entry is listed. */
  method ConfirmEntry(bloom: Bloom.BloomFilter, exact: ExactHash.ExactHashTable, entry: string, sha: Sha256,
                      ghost b: Bundle, ghost stale: bool, ghost entries: seq<string>)
    returns (found: bool)
    ensures found <==> Confirmed(Readers(bloom, exact, b.version, stale), entry, bloom.hashOf, sha)
    ensures 0 < bloom.mBits <= TWO31 && 1 <= bloom.k <= 64 && NoCollision(entries, entry, sha)
            && BuiltFrom(b, entries, bloom.mBits, bloom.k, bloom.hashOf, sha)
            && Materialize(b, stale) == Some(Readers(bloom, exact, b.version, stale))
            ==> (found <==> entry in entries)
  {
    hide Bloom.Positions, Bloom.TestAll, ExactHash.Found, BuiltFrom, NoCollision, Materialize;
    if 0 < bloom.mBits <= TWO31 && 1 <= bloom.k <= 64 && NoCollision(entries, entry, sha)
       && BuiltFrom(b, entries, bloom.mBits, bloom.k, bloom.hashOf, sha)
       && Materialize(b, stale) == Some(Readers(bloom, exact, b.version, stale)) {
      ConfirmedIffListed(b, stale, entries, bloom.mBits, bloom.k, bloom.hashOf, sha, entry);
    }
    var maybe := bloom.Has(entry);
    if !maybe { return false; }
    found := exact.HasDigest(sha(entry));
  }
}
