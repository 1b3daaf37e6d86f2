/** The checks that the Confidential Space verifier makes on a token's claims. */
module GcpClaims {
  import opened Wrappers
  import opened Utf8
  import opened Text
  import Base64
  import opened Nonces
  import opened Attestation

  const MAX_CLOCK_SKEW_SECS := 300

  datatype Policy = Policy(
    imageDigest: Option<string>,
    imageReference: Option<string>,
    signatureKeyIds: seq<string>,
    serviceAccount: Option<string>,
    projectId: Option<string>,
    zone: Option<string>,
    instanceName: Option<string>,
    requireDebugDisabled: bool,
    requireConfidentialSpace: bool,
    requireSecureBoot: bool)

  datatype Container = Container(imageDigest: Option<string>, imageReference: Option<string>, signatureKeyIds: seq<string>)

  datatype Gce = Gce(projectId: Option<string>, zone: Option<string>, instanceName: Option<string>)

  datatype Claims = Claims(
    iat: nat, swname: string, dbgstat: string, secboot: bool,
    serviceAccounts: seq<string>,
    gce: Option<Gce>, container: Option<Container>,
    eatNonce: NonceClaim)

  const DIGEST_PREFIX := "sha256:"

  function NormalizeDigest(raw: string): string { WithPrefix(DIGEST_PREFIX, Lower(Trim(raw))) }

  function WithPrefix(prefix: string, clean: string): string {
    if prefix <= clean then clean else prefix + clean
  }

  /** A digest without padding, letter case and the optional prefix. */
  function Bare(raw: string): string {
    var clean := Lower(Trim(raw));
    if "sha256:" <= clean then clean[7..] else clean
  }

  /** Normalised digests are equal exactly if they differ in padding, letter case and prefix only. */
  lemma SameDigest(a: string, b: string)
    ensures NormalizeDigest(a) == NormalizeDigest(b) <==> Bare(a) == Bare(b)
    ensures NormalizeDigest(a) == "sha256:" + Bare(a)
  {
    hide Lower, Trim;
    assert NormalizeDigest(a) == "sha256:" + Bare(a) && NormalizeDigest(b) == "sha256:" + Bare(b);
    assert ("sha256:" + Bare(a))[7..] == Bare(a) && ("sha256:" + Bare(b))[7..] == Bare(b);
  }

  /** Nothing is left to lower or to trim. */
  predicate IsClean(s: string) { Lower(s) == s && Trimmed(s, IsWhitespace) }

  lemma CleanWithPrefix(prefix: string, clean: string)
    requires prefix != "" && IsClean(prefix) && IsClean(clean)
    ensures IsClean(WithPrefix(prefix, clean)) && prefix <= WithPrefix(prefix, clean)
  {}

  lemma CleanIsFixed(s: string)
    ensures IsClean(Lower(Trim(s)))
    ensures IsClean(s) ==> Lower(Trim(s)) == s
  {
    hide TrimStart, TrimEnd;
    var pre, suf := TrimShape(s, IsWhitespace);
    var clean := Lower(Trim(s));
    assert forall i :: 0 <= i < |clean| ==> IsWhitespace(clean[i]) == IsWhitespace(Trim(s)[i]);
    if IsClean(s) {
      assert "" + s + "" == s;
      TrimPadded("", s, "", IsWhitespace);
    }
  }

  lemma NormalizeDigestIdempotent(raw: string)
    ensures NormalizeDigest(NormalizeDigest(raw)) == NormalizeDigest(raw)
  {
    hide Trim, Lower, IsClean;
    CleanIsFixed(raw);
    assert IsClean(DIGEST_PREFIX) by { PrefixIsClean(); }
    CleanWithPrefix(DIGEST_PREFIX, Lower(Trim(raw)));
    CleanIsFixed(NormalizeDigest(raw));
  }

  lemma PrefixIsClean()
    ensures IsClean(DIGEST_PREFIX)
  {}

  function PinError(policy: Policy, container: Container): Option<AttestError> {
    if policy.imageDigest.Some? && container.imageDigest.None? then Some(VerificationFailed)
    else if policy.imageDigest.Some?
            && NormalizeDigest(container.imageDigest.value) != NormalizeDigest(policy.imageDigest.value) then Some(ImageDigestMismatch)
    else if policy.imageReference.Some? && container.imageReference != policy.imageReference then Some(VerificationFailed)
    else if policy.signatureKeyIds != [] && !AnyKey(container.signatureKeyIds, policy.signatureKeyIds) then Some(VerificationFailed)
    else None
  }

  function AnyKey(keys: seq<string>, expected: seq<string>): bool {
    if keys == [] then false else keys[0] in expected || AnyKey(keys[1..], expected)
  }

  lemma {:induction false} AnyKeyMeaning(keys: seq<string>, expected: seq<string>)
    ensures AnyKey(keys, expected) <==> exists k :: k in keys && k in expected
  {
    if keys != [] {
      AnyKeyMeaning(keys[1..], expected);
      assert forall k :: k in keys <==> k == keys[0] || k in keys[1..];
    }
  }

  function FieldMatches(expected: Option<string>, actual: Option<string>): bool { expected.Some? ==> actual == expected }

  /** The first check that fails, apart from the nonce; `enforce` is off in audit mode. */
  function PolicyError(policy: Policy, enforce: bool, claims: Claims, now: nat): Option<AttestError> {
    var gce := if claims.gce.Some? then claims.gce.value else Gce(None, None, None);
    if claims.iat > now + MAX_CLOCK_SKEW_SECS then Some(VerificationFailed)
    else if policy.requireConfidentialSpace && claims.swname != "CONFIDENTIAL_SPACE" then Some(VerificationFailed)
    else if policy.requireDebugDisabled && claims.dbgstat != "disabled-since-boot" then Some(VerificationFailed)
    else if policy.requireSecureBoot && !claims.secboot then Some(VerificationFailed)
    else if policy.serviceAccount.Some? && policy.serviceAccount.value !in claims.serviceAccounts then Some(VerificationFailed)
    else if !FieldMatches(policy.projectId, gce.projectId) then Some(VerificationFailed)
    else if !FieldMatches(policy.zone, gce.zone) then Some(VerificationFailed)
    else if !FieldMatches(policy.instanceName, gce.instanceName) then Some(VerificationFailed)
    else if claims.container.None? then Some(VerificationFailed)
    else if enforce then PinError(policy, claims.container.value)
    else None
  }

  function VerifyClaims(policy: Policy, enforce: bool, claims: Claims, now: nat, expected: Option<ReportData>)
    : Result<ReportData, AttestError>
  {
    match PolicyError(policy, enforce, claims, now)
    case Some(e) => Err(e)
    case None =>
      match Claimed(claims.eatNonce)
      case Err(_) => Err(VerificationFailed)
      case Ok(rd) => if expected.Some? && rd != expected.value then Err(ReportDataMismatch) else Ok(rd)
  }

  /** The workload is the pinned one. */
  ghost predicate Pinned(policy: Policy, container: Container) {
    && (forall d :: policy.imageDigest == Some(d) ==>
          container.imageDigest.Some? && Bare(container.imageDigest.value) == Bare(d))
    && (policy.imageReference.Some? ==> container.imageReference == policy.imageReference)
    && (policy.signatureKeyIds != [] ==> exists k :: k in container.signatureKeyIds && k in policy.signatureKeyIds)
  }

  /** The platform is the one that the policy asks for. */
  ghost predicate PlatformMeets(policy: Policy, claims: Claims, now: nat) {
    && claims.iat <= now + 300
    && (policy.requireConfidentialSpace ==> claims.swname == "CONFIDENTIAL_SPACE")
    && (policy.requireDebugDisabled ==> claims.dbgstat == "disabled-since-boot")
    && (policy.requireSecureBoot ==> claims.secboot)
    && (forall sa :: policy.serviceAccount == Some(sa) ==> sa in claims.serviceAccounts)
    && (forall p :: policy.projectId == Some(p) ==> claims.gce.Some? && claims.gce.value.projectId == Some(p))
    && (forall z :: policy.zone == Some(z) ==> claims.gce.Some? && claims.gce.value.zone == Some(z))
    && (forall i :: policy.instanceName == Some(i) ==> claims.gce.Some? && claims.gce.value.instanceName == Some(i))
  }

  lemma PinErrorMeaning(policy: Policy, container: Container)
    ensures PinError(policy, container) == None <==> Pinned(policy, container)
  {
    hide NormalizeDigest, Bare;
    if policy.imageDigest.Some? && container.imageDigest.Some? {
      SameDigest(container.imageDigest.value, policy.imageDigest.value);
    }
    AnyKeyMeaning(container.signatureKeyIds, policy.signatureKeyIds);
  }

  lemma PolicyErrorMeaning(policy: Policy, enforce: bool, claims: Claims, now: nat)
    ensures PolicyError(policy, enforce, claims, now) == None <==>
            && PlatformMeets(policy, claims, now) && claims.container.Some?
            && (enforce ==> Pinned(policy, claims.container.value))
  {
    hide Pinned, PinError;
    if claims.container.Some? { PinErrorMeaning(policy, claims.container.value); }
  }

  lemma PolicyDigestError(policy: Policy, enforce: bool, claims: Claims, now: nat)
    ensures PolicyError(policy, enforce, claims, now) == Some(ImageDigestMismatch) <==>
            && enforce && PlatformMeets(policy, claims, now) && claims.container.Some?
            && policy.imageDigest.Some? && claims.container.value.imageDigest.Some?
            && Bare(claims.container.value.imageDigest.value) != Bare(policy.imageDigest.value)
    ensures PolicyError(policy, enforce, claims, now) in {None, Some(ImageDigestMismatch), Some(VerificationFailed)}
  {
    hide NormalizeDigest, Bare;
    if claims.container.Some? && policy.imageDigest.Some? && claims.container.value.imageDigest.Some? {
      SameDigest(claims.container.value.imageDigest.value, policy.imageDigest.value);
    }
  }

  /** Which error the claims get: an image mismatch where platform and digests are there and only
      differ, a REPORTDATA mismatch where they would be accepted for another one, else a failure. */
  lemma RefusedClaims(policy: Policy, enforce: bool, claims: Claims, now: nat, expected: Option<ReportData>)
    ensures var answer := VerifyClaims(policy, enforce, claims, now, expected);
            && (answer == Err(ImageDigestMismatch) <==>
                && enforce && PlatformMeets(policy, claims, now) && claims.container.Some?
                && policy.imageDigest.Some? && claims.container.value.imageDigest.Some?
                && Bare(claims.container.value.imageDigest.value) != Bare(policy.imageDigest.value))
            && (answer == Err(ReportDataMismatch) <==>
                expected.Some? && exists rd :: rd != expected.value && VerifyClaims(policy, enforce, claims, now, None) == Ok(rd))
            && (answer.Err? ==> answer.error in {ImageDigestMismatch, ReportDataMismatch, VerificationFailed})
  {
    hide PlatformMeets, PolicyError, Claimed, Bare;
    PolicyDigestError(policy, enforce, claims, now);
    var whole := VerifyClaims(policy, enforce, claims, now, None);
    if whole.Ok? { assert whole == Ok(whole.value); }
  }

  /** Claims are accepted as `rd` exactly when platform and workload meet the policy, every nonce
      with a prefix decodes, the last ones are those that `rd` prints, and `rd` is as expected. */
  lemma AcceptedClaims(policy: Policy, enforce: bool, claims: Claims, now: nat, expected: Option<ReportData>, rd: ReportData)
    ensures VerifyClaims(policy, enforce, claims, now, expected) == Ok(rd) <==>
            && PlatformMeets(policy, claims, now) && claims.container.Some?
            && (enforce ==> Pinned(policy, claims.container.value))
            && (forall nonce :: nonce in Parts(claims.eatNonce) ==> Spells(nonce, "trr1s.", 48) && Spells(nonce, "trr1c.", 16))
            && IsLast(Parts(claims.eatNonce), "trr1s.", "trr1s." + Base64.EncodeNoPad(Base64.UrlSafe, rd[..48]))
            && IsLast(Parts(claims.eatNonce), "trr1c.", "trr1c." + Base64.EncodeNoPad(Base64.UrlSafe, rd[48..]))
            && (expected == None || expected == Some(rd))
  {
    hide PlatformMeets, Pinned, PolicyError, Claimed, Spells, IsLast, Base64.EncodeNoPad, Parts;
    PolicyErrorMeaning(policy, enforce, claims, now);
    ClaimInText(claims.eatNonce, rd);
  }

  /** Passing the expected REPORTDATA in accepts what comparing afterwards accepts. */
  lemma InsideOrAfter(policy: Policy, enforce: bool, claims: Claims, now: nat, rd: ReportData)
    ensures VerifyClaims(policy, enforce, claims, now, Some(rd)).Ok? <==>
            VerifyClaims(policy, enforce, claims, now, None) == Ok(rd)
    ensures VerifyClaims(policy, enforce, claims, now, Some(rd)).Ok? ==>
            VerifyClaims(policy, enforce, claims, now, Some(rd)) == Ok(rd)
  {
    hide PolicyError, Claimed;
  }
}
