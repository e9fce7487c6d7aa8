/**
 What applying a bundle or a policy comes to, said of the document, the pinned keys and the
 signatures alone: when it is applied, what is installed then, which key is adopted, and the reason
 of each refusal.
 */
module IntelEffects {
  import opened Wrappers
  import opened Radix
  import opened BundleVersion
  import opened IntelStore
  import Bloom

  // The document has a bundle's shape, its version included.
  predicate Shapely(doc: BundleDoc) { doc.BundleDoc? && doc.wellFormed && Parse(doc.bundle.version).Some? }

  // Pin k is the first to verify the text.
  ghost predicate SignedBy(k: nat, pins: seq<string>, crypto: Crypto, signature: string, body: string) {
    && signature != "" && k < |pins| && crypto.verifies(pins[k], signature, body)
    && forall j :: 0 <= j < k ==> !crypto.verifies(pins[j], signature, body)
  }

  ghost predicate Signed(pins: seq<string>, crypto: Crypto, signature: string, body: string) {
    signature != "" && exists pin <- pins :: crypto.verifies(pin, signature, body)
  }

  // What the bundle says the next key is was signed, as a key, by the pin that signed the bundle.
  ghost predicate RotationSigned(b: Bundle, pins: seq<string>, crypto: Crypto) {
    b.nextKey.Some? ==>
      && crypto.keyShaped(b.nextKey.value.publicKey)
      && forall k: nat :: SignedBy(k, pins, crypto, b.signature, b.body) ==>
           crypto.verifies(pins[k], b.nextKey.value.signature, crypto.rotationText(b.nextKey.value.publicKey))
  }

  // The payloads decode: a filter, a table of whole digests, and the map of confusables.
  ghost predicate Readable(b: Bundle) {
    && (exists f :: b.bloom.Some? && Bloom.FromWire(b.bloom.value) == Ok(f))
    && (exists n: nat :: b.exact.Some? && |b.exact.value| == 32 * n) && b.confusablesDecode
  }

  // Nothing is installed, or something older.
  ghost predicate Upgrade(s: Store, b: Bundle)
    requires Parse(b.version).Some?
  {
    s.bundle.Some? ==>
      Parse(s.bundle.value.version).Some? && Newer(Parse(b.version).value, Parse(s.bundle.value.version).value)
  }

  ghost predicate Applies(s: Store, doc: BundleDoc, crypto: Crypto)
    requires Shapely(doc)
  {
    var b := doc.bundle;
    Signed(s.pins, crypto, b.signature, b.body) && Upgrade(s, b) && RotationSigned(b, s.pins, crypto) && Readable(b)
  }

  // The key a bundle brings that is not pinned yet.
  predicate Brings(b: Bundle, pins: seq<string>, key: string) {
    b.nextKey.Some? && b.nextKey.value.publicKey == key && key !in pins
  }

  lemma SignerIs(pins: seq<string>, crypto: Crypto, signature: string, body: string)
    ensures forall k: nat :: Signer(pins, crypto, signature, body) == Some(k)
                             <==> SignedBy(k, pins, crypto, signature, body)
    ensures Signer(pins, crypto, signature, body).Some? <==> Signed(pins, crypto, signature, body)
  {
    forall k: nat ensures Signer(pins, crypto, signature, body) == Some(k)
                          <==> SignedBy(k, pins, crypto, signature, body) {
      if signature != "" {
        var first := SignerFrom(pins, crypto, signature, body, 0);
      }
    }
    if Signer(pins, crypto, signature, body).Some? {
      assert pins[Signer(pins, crypto, signature, body).value] in pins;
    }
  }

  lemma ReadableIff(b: Bundle, stale: bool)
    ensures Materialize(b, stale).Some? <==> Readable(b)
  {
    hide Bloom.FromWire;
    if b.bloom.Some? && Bloom.FromWire(b.bloom.value).Ok? {
      assert Bloom.FromWire(b.bloom.value) == Ok(Bloom.FromWire(b.bloom.value).value);
    }
    if b.exact.Some? && |b.exact.value| % 32 == 0 { assert |b.exact.value| == 32 * (|b.exact.value| / 32); }
  }

  lemma NewerIs(a: string, b: string)
    ensures Comparison(a, b).Some? <==> Parse(a).Some? && Parse(b).Some?
    ensures Comparison(a, b).Some? ==> (Comparison(a, b).value > 0 <==> Newer(Parse(a).value, Parse(b).value))
  {
    hide Parse;
  }

  /** A bundle is applied if and only if it is well formed, some pin signed it, it is newer than what
      is installed, the pin that signed it signed its next key too if it has one, and its payloads
      decode. Then its version, payloads and freshness are installed, and its next key is adopted
      exactly when it has one that is not pinned yet; otherwise nothing changes. */
  lemma BundleAppliedIff(s: Store, doc: BundleDoc, now: int, crypto: Crypto)
    ensures var (s', r) := ApplyBundle(s, doc, now, crypto);
            && (r.applied <==> Shapely(doc) && Applies(s, doc, crypto))
            && (!r.applied ==> s' == s && r.reason.Some? && r.adopted.None? && !r.stale)
            && (r.applied ==>
                  var b := doc.bundle;
                  var aged := now > b.expiresAt || now > b.issuedAt + 14 * 24 * 60 * 60 * 1000;
                  && r.reason.None? && !r.integrityFailure && r.stale == aged
                  && s'.policy == s.policy && b.bloom.Some? && b.exact.Some?
                  && s'.bundle.Some? && s'.bundle.value.version == b.version && s'.bundle.value.stale == aged
                  && Ok(s'.bundle.value.filter) == Bloom.FromWire(b.bloom.value)
                  && s'.bundle.value.exact == b.exact.value
                  && (forall key :: r.adopted == Some(key) <==> Brings(b, s.pins, key))
                  && s'.pins == s.pins + (if r.adopted.Some? then [r.adopted.value] else []))
  {
    hide Parse, Comparison, Signer, Bloom.FromWire;
    if doc.BundleDoc? {
      var b := doc.bundle;
      SignerIs(s.pins, crypto, b.signature, b.body);
      ReadableIff(b, Stale(b, now));
      if s.bundle.Some? { NewerIs(b.version, s.bundle.value.version); }
      hide SignedBy, Signed, Readable;
      if Signer(s.pins, crypto, b.signature, b.body).Some? && b.nextKey.Some? { RotationIs(b, s.pins, crypto); }
    }
  }

  lemma RotationIs(b: Bundle, pins: seq<string>, crypto: Crypto)
    requires Signer(pins, crypto, b.signature, b.body).Some? && b.nextKey.Some?
    ensures RotationSigned(b, pins, crypto)
       <==> crypto.keyShaped(b.nextKey.value.publicKey)
            && crypto.verifies(pins[Signer(pins, crypto, b.signature, b.body).value], b.nextKey.value.signature,
                               crypto.rotationText(b.nextKey.value.publicKey))
  {
    SignerIs(pins, crypto, b.signature, b.body);
    hide SignedBy, Signed, Signer;
  }

  /** Which refusal a bundle gets, each with exactly its condition, and which of them count as an
      integrity failure. What is installed has a version that parses, as every applied bundle. */
  lemma BundleRefusedFor(s: Store, doc: BundleDoc, now: int, crypto: Crypto)
    requires s.bundle.Some? ==> Parse(s.bundle.value.version).Some?
    ensures var r := ApplyBundle(s, doc, now, crypto).1;
            var shapely := Shapely(doc);
            var signed := shapely && s.pins != [] && Signed(s.pins, crypto, doc.bundle.signature, doc.bundle.body);
            var newer := signed && Upgrade(s, doc.bundle);
            var rotates := newer && RotationSigned(doc.bundle, s.pins, crypto);
            && (r.reason == Some(SchemaInvalid) <==> !shapely || (rotates && !Readable(doc.bundle)))
            && (r.reason == Some(UntrustedKey) <==> shapely && s.pins == [])
            && (r.reason == Some(SignatureInvalid) <==> shapely && s.pins != [] && !signed)
            && (r.reason == Some(Rollback) <==> signed && !newer)
            && (r.reason == Some(RotationSignatureInvalid) <==> newer && !rotates)
            && r.reason != Some(VersionInvalid)
            && (r.integrityFailure
                <==> (shapely && s.pins != [] && !signed) || (signed && !newer) || (newer && !rotates)
                     || (rotates && !Readable(doc.bundle)))
  {
    hide Parse, Comparison, Signer, Bloom.FromWire;
    if doc.BundleDoc? {
      var b := doc.bundle;
      SignerIs(s.pins, crypto, b.signature, b.body);
      ReadableIff(b, Stale(b, now));
      if s.bundle.Some? { NewerIs(b.version, s.bundle.value.version); }
      hide SignedBy, Signed, Readable;
      if Signer(s.pins, crypto, b.signature, b.body).Some? && b.nextKey.Some? { RotationIs(b, s.pins, crypto); }
      hide RotationSigned;
    }
  }

  /** A rotation takes: once a bundle with a next key has been applied, a newer bundle that only that
      key has signed applies too. */
  lemma RotationTakes(s: Store, doc: BundleDoc, now: int, next: BundleDoc, later: int, crypto: Crypto)
    requires ApplyBundle(s, doc, now, crypto).1.applied && doc.BundleDoc? && doc.bundle.nextKey.Some?
    requires Shapely(next) && next.bundle.nextKey.None? && Readable(next.bundle)
    requires next.bundle.signature != ""
             && crypto.verifies(doc.bundle.nextKey.value.publicKey, next.bundle.signature, next.bundle.body)
    requires Shapely(doc) ==> Newer(Parse(next.bundle.version).value, Parse(doc.bundle.version).value)
    ensures var s' := ApplyBundle(s, doc, now, crypto).0;
            && doc.bundle.nextKey.value.publicKey in s'.pins
            && ApplyBundle(s', next, later, crypto).1.applied
  {
    hide ApplyBundle, Readable, Newer, Bloom.FromWire, Parse;
    BundleAppliedIff(s, doc, now, crypto);
    var (s', r) := ApplyBundle(s, doc, now, crypto);
    var key := doc.bundle.nextKey.value.publicKey;
    assert r.adopted == Some(key) <==> Brings(doc.bundle, s.pins, key);
    assert key in s'.pins;
    BundleAppliedIff(s', next, later, crypto);
    assert Signed(s'.pins, crypto, next.bundle.signature, next.bundle.body);
  }

  /** The same for policies: applied if and only if well formed, signed by a pin, newer and not expired;
      each refusal with exactly its condition; and the policy applied is the one in force. */
  lemma PolicyAppliedIff(s: Store, doc: PolicyDoc, now: int, crypto: Crypto)
    ensures var (s', r) := ApplyPolicy(s, doc, now, crypto);
            var present := doc.PolicyDoc? && s.pins != [] && doc.policy.signature != "";
            var signed := present
                          && exists pin <- s.pins :: crypto.verifies(pin, doc.policy.signature, doc.policy.body);
            var newer := signed && (s.policy.Some? ==> doc.policy.version > s.policy.value.version);
            && (r.applied <==> newer && doc.policy.expiresAt > now)
            && (r.applied ==> s' == s.(policy := Some(doc.policy)) && r.reason.None? && !r.integrityFailure)
            && (!r.applied ==> s' == s)
            && (r.reason == Some(SchemaInvalid) <==> doc.NotAPolicy?)
            && (r.reason == Some(UntrustedKey) <==> doc.PolicyDoc? && s.pins == [])
            && (r.reason == Some(SignatureMissing) <==> doc.PolicyDoc? && s.pins != [] && doc.policy.signature == "")
            && (r.reason == Some(SignatureInvalid) <==> present && !signed)
            && (r.reason == Some(Rollback) <==> signed && !newer)
            && (r.reason == Some(PolicyExpired) <==> newer && doc.policy.expiresAt <= now)
            && (r.integrityFailure <==> (present && !signed) || (signed && !newer))
            && (r.applied ==> InForce(s', now) == Some(doc.policy))
  {
    if doc.PolicyDoc? {
      SignerIs(s.pins, crypto, doc.policy.signature, doc.policy.body);
      hide Signer, SignedBy;
    }
  }
}
