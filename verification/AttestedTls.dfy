/** Attested TLS end to end: the server binds its key and configuration into REPORTDATA, a backend
    attests it, and the client compares what the backend gives back. */
module AttestedTls {
  import opened Wrappers
  import opened Utf8
  import opened Nonces
  import CertTable
  import opened Attestation
  import opened GcpClaims

  type Hash48 = h: seq<byte> | |h| == 48 witness seq(48, i => 0)
  type Hash32 = h: seq<byte> | |h| == 32 witness seq(32, i => 0)

  /** SHA-384, of which only the length is used. */
  type Sha384 = seq<byte> -> Hash48

  type Verify = (Evidence, Option<seq<byte>>) -> Result<ReportData, AttestError>

  datatype Certificate = Certificate(spki: seq<byte>, evidence: Evidence)

  // ---- REPORTDATA --------------------------------------------------------------------------

  /** Half of the hash, or zeros where there is none. */
  function First16(configHash: Option<Hash32>): seq<byte> {
    if configHash.Some? then configHash.value[..16] else seq(16, i => 0)
  }

  lemma First16Bytes(configHash: Option<Hash32>, i: nat)
    requires i < 16
    ensures |First16(configHash)| == 16
    ensures First16(configHash)[i] == if configHash.Some? then configHash.value[i] else 0
  {}

  /** REPORTDATA that binds a key and a configuration. */
  function Reportdata(keyHash: Hash48, configHash: Option<Hash32>): (rd: ReportData)
    ensures rd[..48] == keyHash && rd[48..64] == First16(configHash)
  {
    keyHash + First16(configHash)
  }

  /** The 64-byte buffer that server, client and online checker each fill. */
  method FillReportdata(keyHash: Hash48, configHash: Option<Hash32>) returns (rd: ReportData)
    ensures rd == Reportdata(keyHash, configHash)
  {
    var buffer := new byte[REPORTDATA_LEN](i => 0);
    forall i | 0 <= i < 48 { buffer[i] := keyHash[i]; }
    if configHash.Some? {
      forall i | 48 <= i < 64 { buffer[i] := configHash.value[i - 48]; }
    }
    assert buffer[..48] == keyHash && buffer[48..64] == First16(configHash);
    assert buffer[..] == buffer[..48] + buffer[48..64];
    rd := buffer[..];
  }

  lemma HalvesDecide(a: ReportData, b: ReportData)
    ensures a == b <==> a[..48] == b[..48] && a[48..64] == b[48..64]
  {
    assert a == a[..48] + a[48..64] && b == b[..48] + b[48..64];
  }

  // ---- server ------------------------------------------------------------------------------

  /** `attest` is the backend's evidence for some REPORTDATA. */
  method FromKeyPair(sha384: Sha384, attest: ReportData -> Result<Evidence, AttestError>, configHash: Option<Hash32>, spki: seq<byte>)
    returns (r: Result<Certificate, AttestError>)
    ensures match attest(Reportdata(sha384(spki), configHash))
            case Ok(evidence) => r == Ok(Certificate(spki, evidence))
            case Err(e) => r == Err(e)
  {
    var reportdata := FillReportdata(sha384(spki), configHash);
    var evidence := attest(reportdata);
    r := match evidence case Ok(e) => Ok(Certificate(spki, e)) case Err(e) => Err(e);
  }

  // ---- client ------------------------------------------------------------------------------

  datatype Client = Client(expectedMeasurement: Option<seq<byte>>, expectedConfigHash: Option<Hash32>)

  datatype TlsError = AttestationFailed(error: AttestError) | KeyMismatch | ConfigMismatch

  /** What the client hands to the backend: a measurement, or for Confidential Space the expected
      REPORTDATA, but only where a configuration is expected. */
  function Passed(client: Client, teeType: TeeType, expected: ReportData): Option<seq<byte>> {
    if teeType.GcpConfidentialSpace? then
      if client.expectedConfigHash.Some? then Some(expected) else None
    else client.expectedMeasurement
  }

  /** The attested REPORTDATA agrees with the key and, where one is expected, with the configuration. */
  ghost predicate Agrees(actual: ReportData, keyHash: Hash48, configHash: Option<Hash32>) {
    actual[..48] == keyHash && (configHash.Some? ==> actual[48..64] == configHash.value[..16])
  }

  /** What the backend says about a certificate, given the input that the client passes. */
  function Answered(sha384: Sha384, verify: Verify, client: Client, cert: Certificate): Result<ReportData, AttestError> {
    verify(cert.evidence, Passed(client, cert.evidence.teeType, Reportdata(sha384(cert.spki), client.expectedConfigHash)))
  }

  /** The client accepts the certificate. */
  ghost predicate Accepts(sha384: Sha384, verify: Verify, client: Client, cert: Certificate) {
    var answer := Answered(sha384, verify, client, cert);
    answer.Ok? && Agrees(answer.value, sha384(cert.spki), client.expectedConfigHash)
  }

  method VerifyServerCert(sha384: Sha384, verify: Verify, client: Client, cert: Certificate)
    returns (r: Result<(), TlsError>)
    ensures r.Ok? <==> Accepts(sha384, verify, client, cert)
    ensures match Answered(sha384, verify, client, cert)
            case Err(e) => r == Err(AttestationFailed(e))
            case Ok(actual) =>
              && (r == Err(KeyMismatch) <==> actual[..48] != sha384(cert.spki))
              && (r == Err(ConfigMismatch) <==>
                    actual[..48] == sha384(cert.spki) && !Agrees(actual, sha384(cert.spki), client.expectedConfigHash))
  {
    var expected := FillReportdata(sha384(cert.spki), client.expectedConfigHash);
    var answer := verify(cert.evidence, Passed(client, cert.evidence.teeType, expected));
    if answer.Err? { return Err(AttestationFailed(answer.error)); }
    var actual := answer.value;
    if actual[..48] != expected[..48] { return Err(KeyMismatch); }
    if client.expectedConfigHash.Some? && actual[48..64] != expected[48..64] { return Err(ConfigMismatch); }
    r := Ok(());
  }

  // ---- backends ----------------------------------------------------------------------------

  /** The backend gives `rd` back for this evidence, to a client whose other expectations are met:
      for Confidential Space an expected REPORTDATA may be passed in, and must then be `rd`. */
  ghost predicate GivesBack(verify: Verify, measurement: Option<seq<byte>>, evidence: Evidence, rd: ReportData) {
    if evidence.teeType.GcpConfidentialSpace? then
      && verify(evidence, None) == Ok(rd)
      && forall x: ReportData :: verify(evidence, Some(x)) == if x == rd then Ok(rd) else Err(ReportDataMismatch)
    else verify(evidence, measurement) == Ok(rd)
  }

  /** `GcpConfidentialSpaceVerifier::verify`; `decode` is the check of the token's signature,
      issuer, audience and times, and gives its claims. */
  function GcpVerify(policy: Policy, enforce: bool, policyValid: bool, now: nat, decode: string -> Option<Claims>,
                     evidence: Evidence, expected: Option<seq<byte>>): Result<ReportData, AttestError>
  {
    if !evidence.teeType.GcpConfidentialSpace? then Err(UnsupportedTeeType(evidence.teeType))
    else if enforce && !policyValid then Err(VerificationFailed)
    else if expected.Some? && |expected.value| != REPORTDATA_LEN then Err(VerificationFailed)
    else
      match Utf8.Decode(evidence.data)
      case None => Err(VerificationFailed)
      case Some(token) =>
        match decode(token)
        case None => Err(VerificationFailed)
        case Some(claims) =>
          VerifyClaims(policy, enforce, claims, now, if expected.Some? then Some(expected.value) else None)
  }

  /** The nonce claims that carry `rd`: both orders of the list, or the joined text. */
  ghost predicate CarriesNonces(claim: NonceClaim, rd: ReportData) {
    var n := ReportdataNonces(rd);
    claim == Many(n) || claim == Many([n[1], n[0]]) || claim == One(ReportdataNonce(rd))
  }

  /** A verifier of the source, with what it asks of the outside. */
  datatype Backend =
    | Gcp(policy: Policy, enforce: bool, policyValid: bool, now: nat, decode: string -> Option<Claims>)
    | Snp(amd: Amd)

  ghost function VerifierOf(b: Backend): Verify {
    match b
    case Gcp(policy, enforce, policyValid, now, decode) =>
      (evidence, expected) => GcpVerify(policy, enforce, policyValid, now, decode, evidence, expected)
    case Snp(amd) => (evidence, expected) => SnpVerify(amd, evidence, expected)
  }

  /** The evidence is for `rd`: a token with its nonces, or a report with its bytes. */
  ghost predicate IsFor(b: Backend, evidence: Evidence, rd: ReportData) {
    match b
    case Gcp(_, _, _, _, decode) =>
      && evidence.teeType.GcpConfidentialSpace?
      && var token := Utf8.Decode(evidence.data);
      token.Some? && decode(token.value).Some? && CarriesNonces(decode(token.value).value.eatNonce, rd)
    case Snp(_) =>
      evidence.teeType.SevSnp? && |evidence.data| >= CertTable.REPORT_SIZE && evidence.data[0x50..0x90] == rd
  }

  /** Platform and workload are what the verifier trusts. */
  ghost predicate Trusts(b: Backend, measurement: Option<seq<byte>>, evidence: Evidence)
    requires exists rd :: IsFor(b, evidence, rd)
  {
    match b
    case Gcp(policy, enforce, policyValid, now, decode) =>
      var claims := decode(Utf8.Decode(evidence.data).value).value;
      && PlatformMeets(policy, claims, now) && claims.container.Some?
      && (enforce ==> policyValid && Pinned(policy, claims.container.value))
    case Snp(amd) => Genuine(amd, evidence, measurement)
  }

  lemma GcpAnswer(b: Backend, evidence: Evidence, expected: Option<seq<byte>>, rd: ReportData)
    requires b.Gcp? && IsFor(b, evidence, rd) && (expected.Some? ==> |expected.value| == REPORTDATA_LEN)
    ensures Trusts(b, None, evidence) ==>
              VerifierOf(b)(evidence, expected) == if expected == None || expected == Some(rd) then Ok(rd) else Err(ReportDataMismatch)
    ensures !Trusts(b, None, evidence) ==> VerifierOf(b)(evidence, expected).Err?
  {
    hide PolicyError, PlatformMeets, Pinned, Claimed, Utf8.Decode, ReportdataNonces, ReportdataNonce;
    var claims := b.decode(Utf8.Decode(evidence.data).value).value;
    PolicyErrorMeaning(b.policy, b.enforce, claims, b.now);
    ListRoundTrip(rd);
    JoinedRoundTrip(rd);
  }

  /** A backend gives back the REPORTDATA that trusted evidence is for. */
  lemma TrustedIsGivenBack(b: Backend, measurement: Option<seq<byte>>, evidence: Evidence, rd: ReportData)
    requires IsFor(b, evidence, rd) && Trusts(b, measurement, evidence)
    ensures GivesBack(VerifierOf(b), measurement, evidence, rd)
  {
    hide VerifierOf, CarriesNonces, Genuine, PlatformMeets, Pinned, Utf8.Decode;
    match b {
      case Gcp(_, _, _, _, _) =>
        GcpAnswer(b, evidence, None, rd);
        forall x: ReportData ensures VerifierOf(b)(evidence, Some(x)) == if x == rd then Ok(rd) else Err(ReportDataMismatch) {
          GcpAnswer(b, evidence, Some(x), rd);
        }
      case Snp(amd) =>
        SnpAnswer(b, evidence, measurement, rd);
    }
  }

  lemma SnpAnswer(b: Backend, evidence: Evidence, expected: Option<seq<byte>>, rd: ReportData)
    requires b.Snp? && IsFor(b, evidence, rd)
    ensures if Trusts(b, expected, evidence) then VerifierOf(b)(evidence, expected) == Ok(rd) else VerifierOf(b)(evidence, expected).Err?
  {
    hide SnpVerify, Genuine;
    SnpVerifyIff(b.amd, evidence, expected, rd);
    var answer := SnpVerify(b.amd, evidence, expected);
    if answer.Ok? { SnpVerifyIff(b.amd, evidence, expected, answer.value); }
  }

  lemma UntrustedIsRefused(b: Backend, measurement: Option<seq<byte>>, evidence: Evidence, input: Option<seq<byte>>, rd: ReportData)
    requires IsFor(b, evidence, rd) && !Trusts(b, measurement, evidence)
    requires if b.Snp? then input == measurement else input.Some? ==> |input.value| == REPORTDATA_LEN
    ensures VerifierOf(b)(evidence, input).Err?
  {
    hide VerifierOf, CarriesNonces, Genuine, PlatformMeets, Pinned, Utf8.Decode;
    match b {
      case Gcp(_, _, _, _, _) => GcpAnswer(b, evidence, input, rd);
      case Snp(_) => SnpAnswer(b, evidence, input, rd);
    }
  }

  /** What the backend answers to the client, for evidence that is for `rd` and trusted: with an
      expected configuration the Confidential Space verifier itself refuses another REPORTDATA;
      everything else is left to the client. */
  lemma TrustedAnswer(sha384: Sha384, b: Backend, client: Client, cert: Certificate, rd: ReportData)
    requires IsFor(b, cert.evidence, rd) && Trusts(b, client.expectedMeasurement, cert.evidence)
    ensures var expected := Reportdata(sha384(cert.spki), client.expectedConfigHash);
            Answered(sha384, VerifierOf(b), client, cert) ==
            if b.Gcp? && client.expectedConfigHash.Some? && expected != rd then Err(ReportDataMismatch) else Ok(rd)
  {
    hide VerifierOf, Trusts, CarriesNonces, Utf8.Decode;
    TrustedIsGivenBack(b, client.expectedMeasurement, cert.evidence, rd);
  }

  /** A verifier refuses evidence of another kind by name. */
  lemma OtherKindRefused(sha384: Sha384, b: Backend, client: Client, cert: Certificate)
    requires cert.evidence.teeType != if b.Gcp? then GcpConfidentialSpace else SevSnp
    ensures Answered(sha384, VerifierOf(b), client, cert) == Err(UnsupportedTeeType(cert.evidence.teeType))
  {}

  // ---- the binding -------------------------------------------------------------------------

  /** What a backend that gives the attested REPORTDATA back makes of a certificate. */
  lemma GivenBackDecides(sha384: Sha384, verify: Verify, client: Client, cert: Certificate, rd: ReportData)
    requires GivesBack(verify, client.expectedMeasurement, cert.evidence, rd)
    ensures Accepts(sha384, verify, client, cert) <==> Agrees(rd, sha384(cert.spki), client.expectedConfigHash)
  {
    HalvesDecide(rd, Reportdata(sha384(cert.spki), client.expectedConfigHash));
  }

  /** For both backends of the source: a certificate is accepted exactly if its evidence is trusted
      and is for the hash of its own key and, where a configuration is expected, for that one. */
  lemma AcceptedIffAgrees(sha384: Sha384, b: Backend, client: Client, cert: Certificate, rd: ReportData)
    requires IsFor(b, cert.evidence, rd)
    ensures Accepts(sha384, VerifierOf(b), client, cert) <==>
            && Trusts(b, client.expectedMeasurement, cert.evidence)
            && Agrees(rd, sha384(cert.spki), client.expectedConfigHash)
  {
    hide VerifierOf, Agrees, CarriesNonces, Genuine, PlatformMeets, Pinned, Utf8.Decode;
    var expected := Reportdata(sha384(cert.spki), client.expectedConfigHash);
    if Trusts(b, client.expectedMeasurement, cert.evidence) {
      TrustedIsGivenBack(b, client.expectedMeasurement, cert.evidence, rd);
      GivenBackDecides(sha384, VerifierOf(b), client, cert, rd);
    } else {
      var input := Passed(client, cert.evidence.teeType, expected);
      UntrustedIsRefused(b, client.expectedMeasurement, cert.evidence, input, rd);
    }
  }

  /** A certificate that the server builds with one configuration hash is accepted by a client that
      expects another exactly if it is trusted and the two agree on 16 bytes; a client that expects
      none accepts every trusted one. */
  lemma BindingIff(sha384: Sha384, b: Backend, client: Client, cert: Certificate, configHash: Option<Hash32>)
    requires IsFor(b, cert.evidence, Reportdata(sha384(cert.spki), configHash))
    ensures Accepts(sha384, VerifierOf(b), client, cert) <==>
            && Trusts(b, client.expectedMeasurement, cert.evidence)
            && (client.expectedConfigHash.Some? ==> First16(client.expectedConfigHash) == First16(configHash))
  {
    hide Accepts, IsFor, Trusts, VerifierOf;
    AcceptedIffAgrees(sha384, b, client, cert, Reportdata(sha384(cert.spki), configHash));
  }

  /** Evidence does not serve another key: it is accepted with one exactly if it is accepted with the
      server's key and both keys have the same hash. */
  lemma EvidenceBindsKey(sha384: Sha384, b: Backend, client: Client, cert: Certificate, other: seq<byte>, configHash: Option<Hash32>)
    requires IsFor(b, cert.evidence, Reportdata(sha384(cert.spki), configHash))
    ensures Accepts(sha384, VerifierOf(b), client, Certificate(other, cert.evidence)) <==>
            Accepts(sha384, VerifierOf(b), client, cert) && sha384(other) == sha384(cert.spki)
  {
    hide Accepts, IsFor, Trusts, VerifierOf;
    var rd := Reportdata(sha384(cert.spki), configHash);
    AcceptedIffAgrees(sha384, b, client, cert, rd);
    AcceptedIffAgrees(sha384, b, client, Certificate(other, cert.evidence), rd);
  }

  /** The same client, but comparing only afterwards. */
  ghost predicate AcceptsAfterwards(sha384: Sha384, verify: Verify, client: Client, cert: Certificate) {
    var answer := verify(cert.evidence, None);
    answer.Ok? && Agrees(answer.value, sha384(cert.spki), client.expectedConfigHash)
  }

  /** For all Confidential Space evidence, whatever its claims: passing the expected REPORTDATA in
      or comparing afterwards accepts the same certificates. */
  lemma GcpInsideOrAfter(policy: Policy, enforce: bool, policyValid: bool, now: nat, decode: string -> Option<Claims>,
                         sha384: Sha384, client: Client, cert: Certificate)
    requires cert.evidence.teeType.GcpConfidentialSpace?
    ensures var verify: Verify := (e, x) => GcpVerify(policy, enforce, policyValid, now, decode, e, x);
            Accepts(sha384, verify, client, cert) <==> AcceptsAfterwards(sha384, verify, client, cert)
  {
    hide PolicyError, Claimed, Utf8.Decode;
    var verify: Verify := (e, x) => GcpVerify(policy, enforce, policyValid, now, decode, e, x);
    if rd: ReportData :| verify(cert.evidence, None) == Ok(rd) {
      assert GivesBack(verify, client.expectedMeasurement, cert.evidence, rd);
      GivenBackDecides(sha384, verify, client, cert, rd);
    }
  }
}
