/**
 Authorization-context enforcement: which alerts need a scope token, and what a token has to
 show for an alert to be accepted.

 Checking the signature, the validity window and the manifest is an input: `TokenCheck` says
 what came of it.
 */
module AlertAuthz {
  import opened Wrappers
  import opened AlertTypes

  predicate RequiresAuthorization(e: Event) {
    e.sourceModule == DdosEngine || e.sourceModule == AiRedteam
    || ((e.category == Vuln || e.category == Exposure) && e.confidence == Confirmed)
  }

  function CapabilityPrefixes(m: SourceModule): seq<string> {
    match m
    case Detect => ["detect.", "vuln.validate", "scan.active"]
    case Monitor => ["monitor."]
    case Discover => ["discover.", "recon."]
    case DdosEngine => ["stress."]
    case AiRedteam => ["ai_redteam.", "redteam."]
    case PhishCatcher => ["intel.phishing_indicators", "phish."]
    case Commander => []
  }

  predicate Covers(capabilities: seq<string>, m: SourceModule) {
    CapabilityPrefixes(m) == []
    || exists c, p :: c in capabilities && p in CapabilityPrefixes(m) && p <= c
  }

  datatype Containment = Inside | Outside | ManifestUnavailable | ManifestInvalid(code: string)

  datatype TokenCheck =
    | Claimed(jti: string, capabilities: seq<string>, asset: Containment)
    | KeysUnavailable
    | UnknownSigningKey
    | TokenInvalid(code: string)

  datatype Verdict = NotRequired | Verified | Rejected(code: string) | Unavailable

  function Verify(e: Event, token: Option<string>, check: TokenCheck): Verdict {
    if !RequiresAuthorization(e) then NotRequired
    else if !Truthy(e.tokenId) then Rejected("AUTHZ_TOKEN_ID_MISSING")
    else if !Truthy(token) then Rejected("AUTHZ_TOKEN_MISSING")
    else if e.occurredAt.None? then Rejected("AUTHZ_OCCURRED_AT_INVALID")
    else match check
      case KeysUnavailable => Unavailable
      case UnknownSigningKey => Rejected("AUTHZ_UNKNOWN_SIGNING_KEY")
      case TokenInvalid(code) => Rejected("AUTHZ_" + code)
      case Claimed(jti, capabilities, asset) =>
        if jti != e.tokenId.value then Rejected("AUTHZ_JTI_MISMATCH")
        else if !Covers(capabilities, e.sourceModule) then Rejected("AUTHZ_CAPABILITY_MISMATCH")
        else match asset
          case Inside => Verified
          case Outside => Rejected("AUTHZ_TARGET_OUT_OF_SCOPE")
          case ManifestUnavailable => Unavailable
          case ManifestInvalid(code) => Rejected("AUTHZ_" + code)
  }

  // The events that may go without a token, by their fields.
  predicate NeedsNoToken(e: Event) {
    && e.sourceModule != DdosEngine && e.sourceModule != AiRedteam
    && (e.confidence != Confirmed || (e.category != Vuln && e.category != Exposure))
  }

  // The capabilities that speak for a module's activity; Commander's orders need none.
  predicate SpeaksFor(c: string, m: SourceModule) {
    || (m == Detect && ("detect." <= c || "vuln.validate" <= c || "scan.active" <= c))
    || (m == Monitor && "monitor." <= c)
    || (m == Discover && ("discover." <= c || "recon." <= c))
    || (m == DdosEngine && "stress." <= c)
    || (m == AiRedteam && ("ai_redteam." <= c || "redteam." <= c))
    || (m == PhishCatcher && ("intel.phishing_indicators" <= c || "phish." <= c))
  }

  lemma CoversIff(capabilities: seq<string>, m: SourceModule)
    ensures Covers(capabilities, m) <==> m == Commander || exists c <- capabilities :: SpeaksFor(c, m)
  {
    forall c ensures SpeaksFor(c, m) <==> exists p :: p in CapabilityPrefixes(m) && p <= c { PrefixOf(c, m); }
    hide SpeaksFor, CapabilityPrefixes;
    NoPrefixes(m);
  }

  lemma NoPrefixes(m: SourceModule)
    ensures CapabilityPrefixes(m) == [] <==> m == Commander
  {
  }

  lemma PrefixOf(c: string, m: SourceModule)
    ensures SpeaksFor(c, m) <==> exists p :: p in CapabilityPrefixes(m) && p <= c
  {
    var ps := CapabilityPrefixes(m);
    assert |ps| > 0 ==> ps[0] in ps;
    assert |ps| > 1 ==> ps[1] in ps;
    assert |ps| > 2 ==> ps[2] in ps;
  }

  /** The verdict on an alert, exactly. It needs no token unless its module is the DDoS engine or
      the AI red team, or it is a confirmed vulnerability or exposure. It is verified exactly when
      a valid token that the event itself names speaks for the module's activity and covers the
      asset; it is held exactly when keys are out, or the manifest is for a token that is otherwise
      in order; in all other cases it is rejected. */
  lemma VerifiedIff(e: Event, token: Option<string>, check: TokenCheck)
    ensures Verify(e, token, check) == NotRequired
       <==> e.sourceModule != DdosEngine && e.sourceModule != AiRedteam
            && !((e.category == Vuln || e.category == Exposure) && e.confidence == Confirmed)
    ensures Verify(e, token, check) == NotRequired <==> NeedsNoToken(e)
    ensures var presented := !NeedsNoToken(e) && Truthy(e.tokenId) && Truthy(token) && e.occurredAt.Some?;
            var inOrder := presented && check.Claimed? && e.tokenId == Some(check.jti)
                           && (e.sourceModule == Commander
                               || exists c <- check.capabilities :: SpeaksFor(c, e.sourceModule));
            && (Verify(e, token, check) == Verified <==> inOrder && check.asset == Inside)
            && (Verify(e, token, check) == Unavailable
                <==> (presented && check.KeysUnavailable?) || (inOrder && check.asset == ManifestUnavailable))
            && (Verify(e, token, check).Rejected?
                <==> !NeedsNoToken(e) && !(presented && check.KeysUnavailable?)
                     && !(inOrder && (check.asset == Inside || check.asset == ManifestUnavailable)))
  {
    hide Covers, SpeaksFor;
    if check.Claimed? { CoversIff(check.capabilities, e.sourceModule); }
  }

  /** Which reason a rejection gives: the first of these that applies. */
  lemma RejectionCodes(e: Event, token: Option<string>, check: TokenCheck)
    requires !NeedsNoToken(e)
    ensures var v := Verify(e, token, check);
            if !Truthy(e.tokenId) then v == Rejected("AUTHZ_TOKEN_ID_MISSING")
            else if !Truthy(token) then v == Rejected("AUTHZ_TOKEN_MISSING")
            else e.occurredAt.Some? ==>
              && (check.UnknownSigningKey? ==> v == Rejected("AUTHZ_UNKNOWN_SIGNING_KEY"))
              && (check.TokenInvalid? ==> v == Rejected("AUTHZ_" + check.code))
              && (check.Claimed? && e.tokenId != Some(check.jti) ==> v == Rejected("AUTHZ_JTI_MISMATCH"))
              && (check.Claimed? && e.tokenId == Some(check.jti) ==>
                    if e.sourceModule != Commander && !exists c <- check.capabilities :: SpeaksFor(c, e.sourceModule)
                    then v == Rejected("AUTHZ_CAPABILITY_MISMATCH")
                    else check.asset == Outside ==> v == Rejected("AUTHZ_TARGET_OUT_OF_SCOPE"))
  {
    hide Covers, SpeaksFor;
    if check.Claimed? { CoversIff(check.capabilities, e.sourceModule); }
  }
}
