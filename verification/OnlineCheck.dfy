/** The online checker: its own base64url decoder, and its check of a relay's certificate. */
module OnlineCheck {
  import opened Wrappers
  import opened Utf8
  import opened Base64
  import opened Nonces
  import opened Attestation
  import opened AttestedTls

  // ---- base64url: translate, pad, decode with the standard alphabet ------------------------

  function Replace(s: string, from: char, to: char): string {
    seq(|s|, i requires 0 <= i < |s| => if s[i] == from then to else s[i])
  }

  function ToStandard(s: string): string { Replace(Replace(s, '-', '+'), '_', '/') }

  /** The same symbols in the URL-safe alphabet. */
  function ToUrlSafe(s: string): string { Replace(Replace(s, '+', '-'), '/', '_') }

  function Pads(k: nat): string { seq(k, _ => '=') }

  function WithoutPads(s: string): (core: string)
    ensures core <= s && (core == "" || core[|core| - 1] != '=')
    ensures s == core + Pads(|s| - |core|)
  {
    if s == "" || s[|s| - 1] != '=' then s else WithoutPads(s[..|s| - 1])
  }

  /** The number of pads that complete `core`. */
  function MissingPads(core: string): nat { (4 - |core| % 4) % 4 }

  /** What the decoder accepts: unpadded base64url, which some or all of its pads may follow. */
  function Spelled(raw: string): Option<seq<byte>> {
    var core := WithoutPads(raw);
    if |raw| - |core| <= MissingPads(core) then DecodeNoPad(UrlSafe, ToUrlSafe(core)) else None
  }

  lemma {:induction false} SameSymbols(s: string)
    ensures DecodeNoPad(Standard, ToStandard(s)) == DecodeNoPad(UrlSafe, ToUrlSafe(s))
  {
    var t, u := ToStandard(s), ToUrlSafe(s);
    assert forall i :: 0 <= i < |s| ==> Value(Standard, t[i]) == Value(UrlSafe, u[i]);
    if |s| >= 4 {
      assert t[4..] == ToStandard(s[4..]) && u[4..] == ToUrlSafe(s[4..]);
      SameSymbols(s[4..]);
    }
  }

  lemma {:induction false} ForeignRefused(a: Alphabet, s: string, i: nat)
    requires i < |s| && s[i] != '=' && Value(a, s[i]).None?
    ensures DecodePadded(a, s).None?
  {
    if |s| > 4 && i >= 4 { ForeignRefused(a, s[4..], i - 4); }
  }

  lemma {:induction false} ForeignRefusedUnpadded(a: Alphabet, s: string, i: nat)
    requires i < |s| && Value(a, s[i]).None?
    ensures DecodeNoPad(a, s).None?
  {
    if |s| > 4 && i >= 4 { ForeignRefusedUnpadded(a, s[4..], i - 4); }
  }

  lemma {:induction false} CoreUnique(s: string, core: string)
    requires core <= s && s == core + Pads(|s| - |core|) && (core == "" || core[|core| - 1] != '=')
    ensures WithoutPads(s) == core
  {
    if |core| < |s| {
      assert s[..|s| - 1] == core + Pads(|s| - 1 - |core|);
      CoreUnique(s[..|s| - 1], core);
    }
  }

  lemma OneGroup(a: Alphabet, s: string)
    requires |s| == 4
    ensures var core := WithoutPads(s);
            DecodePadded(a, s) == if |core| >= 2 then DecodeNoPad(a, core) else None
  {
    hide Octets;
    var core := WithoutPads(s);
    assert |core| < 4 <==> s[3] == '=';
    assert |core| < 3 <==> s[3] == '=' && s[2] == '=';
    assert |core| < 2 ==> Value(a, s[1]).None?;
  }

  lemma TailCore(s: string)
    requires |s| > 4 && |s| - |WithoutPads(s)| <= |s| - 4
    ensures WithoutPads(s[4..]) == WithoutPads(s)[4..]
  {
    hide WithoutPads;
    CoreUnique(s[4..], WithoutPads(s)[4..]);
  }

  /** Decoding with padding, at a whole number of groups, is decoding what at most two pads follow. */
  lemma {:induction false} PaddedIsUnpadded(a: Alphabet, s: string)
    requires |s| % 4 == 0
    ensures var core := WithoutPads(s);
            DecodePadded(a, s) == if |s| - |core| <= 2 then DecodeNoPad(a, core) else None
  {
    hide WithoutPads, DecodeGroup, DecodePartial;
    var core := WithoutPads(s);
    if |s| > 4 {
      PaddedIsUnpadded(a, s[4..]);
      if |s| - |core| <= 2 {
        TailCore(s);
        assert core[..4] == s[..4];
      } else {
        assert s[|s| - 1] == '=' && s[|s| - 2] == '=' && s[|s| - 3] == '=';
      }
    } else if |s| == 4 {
      OneGroup(a, s);
    }
  }

  predicate IsAscii(s: string) { forall i :: 0 <= i < |s| ==> s[i] < 128 as char }

  lemma {:induction false} AsciiLength(s: string)
    requires IsAscii(s)
    ensures |Encode(s)| == |s|
  {
    if s != "" { AsciiLength(s[1..]); }
  }

  /** What the padding loop leaves: text of whole groups, measured in bytes. */
  ghost predicate Completed(raw: string, input: string) {
    exists k: nat :: k < 4 && input == ToStandard(raw) + Pads(k) && (|Encode(ToStandard(raw))| + k) % 4 == 0
  }

  lemma {:induction false} PadsLength(k: nat)
    ensures |Encode(Pads(k))| == k
  {
    AsciiLength(Pads(k));
  }

  lemma OnePad(k: nat)
    ensures Pads(k) + "=" == Pads(k + 1)
  {}

  /** The decoder gives what `Spelled` says, in both result and failure. */
  method Base64UrlDecode(raw: string) returns (r: Option<seq<byte>>)
    ensures r == Spelled(raw)
  {
    hide Encode, DecodePadded, Spelled;
    var input := Replace(Replace(raw, '-', '+'), '_', '/');
    ghost var k: nat := 0;
    assert input == ToStandard(raw) + Pads(0);
    ghost var before := |Encode(input)|;
    while |Encode(input)| % 4 != 0
      invariant k < 4 && input == ToStandard(raw) + Pads(k)
      invariant |Encode(input)| == before + k && (k == 0 || (before + k - 1) % 4 != 0)
      invariant before == |Encode(ToStandard(raw))|
      invariant before % 4 != 0 ==> k <= 4 - before % 4
      invariant before % 4 == 0 ==> k == 0
      decreases 4 - k
    {
      EncodeConcat(input, "=");
      PadsLength(1);
      OnePad(k);
      assert Pads(1) == "=";
      input, k := input + "=", k + 1;
    }
    assert Completed(raw, input);
    CompletedDecodes(raw, input);
    r := DecodePadded(Standard, input);
  }

  lemma StandardCore(raw: string, k: nat)
    ensures WithoutPads(ToStandard(raw) + Pads(k)) == ToStandard(WithoutPads(raw))
  {
    var core := WithoutPads(raw);
    var s := ToStandard(raw) + Pads(k);
    assert s == ToStandard(core) + Pads(|s| - |core|);
    CoreUnique(s, ToStandard(core));
  }

  lemma CompletedDecodes(raw: string, input: string)
    requires Completed(raw, input)
    ensures DecodePadded(Standard, input) == Spelled(raw)
  {
    hide DecodePadded, DecodeNoPad, WithoutPads, Encode, Value;
    var core := WithoutPads(raw);
    if IsAscii(raw) {
      AsciiDecodes(raw, input);
    } else {
      var i :| 0 <= i < |raw| && raw[i] >= 128 as char;
      NoValue(raw[i]);
      ForeignRefused(Standard, input, i);
      assert i < |core|;
      ForeignRefusedUnpadded(UrlSafe, ToUrlSafe(core), i);
    }
  }

  lemma CompletedLength(raw: string, input: string) returns (k: nat)
    requires Completed(raw, input) && IsAscii(raw)
    ensures k < 4 && input == ToStandard(raw) + Pads(k) && (|raw| + k) % 4 == 0 && |input| == |raw| + k
  {
    hide Encode;
    AsciiLength(ToStandard(raw));
    k := |input| - |raw|;
  }

  lemma AsciiDecodes(raw: string, input: string)
    requires Completed(raw, input) && IsAscii(raw)
    ensures DecodePadded(Standard, input) == Spelled(raw)
  {
    hide DecodePadded, DecodeNoPad, WithoutPads, Completed, Value, IsAscii;
    var core := WithoutPads(raw);
    var k := CompletedLength(raw, input);
    StandardCore(raw, k);
    PaddedIsUnpadded(Standard, input);
    SameSymbols(core);
    if |core| % 4 == 1 {
      OneSymbolLeft(UrlSafe, ToUrlSafe(core));
    } else {
      PadsArithmetic(|core|, |raw|, k);
    }
  }

  lemma PadsArithmetic(core: nat, raw: nat, k: nat)
    requires core <= raw && k < 4 && (raw + k) % 4 == 0 && core % 4 != 1
    ensures raw - core <= (4 - core % 4) % 4 <==> raw + k - core <= 2
  {}

  lemma NoValue(c: char)
    requires c >= 128 as char
    ensures forall a :: Value(a, c).None?
  {}

  /** One symbol cannot end a text: six bits are less than a byte. */
  lemma {:induction false} OneSymbolLeft(a: Alphabet, s: string)
    requires |s| % 4 == 1
    ensures DecodeNoPad(a, s).None?
  {
    hide DecodeGroup, DecodePartial;
    if |s| > 4 { OneSymbolLeft(a, s[4..]); }
  }

  predicate UrlSafeText(raw: string) { '+' !in raw && '/' !in raw && '=' !in raw }

  /** The repository's two decoders agree, in result and failure, on text free of '+', '/' and '=';
      on other text only this one can succeed. */
  lemma AgreesIff(raw: string)
    ensures Spelled(raw) == DecodeNoPad(UrlSafe, raw) <==> UrlSafeText(raw) || Spelled(raw).None?
  {
    if UrlSafeText(raw) {
      assert WithoutPads(raw) == raw && ToUrlSafe(raw) == raw;
    } else {
      var i: nat :| i < |raw| && raw[i] in ['+', '/', '='];
      ForeignRefusedUnpadded(UrlSafe, raw, i);
    }
  }

  /** Where they differ: pads that belong there, and the standard alphabet's symbols, change nothing. */
  lemma LenientInputs(raw: string, k: nat)
    requires '=' !in raw
    ensures Spelled(raw + Pads(k)) == if k <= MissingPads(raw) then Spelled(raw) else None
    ensures Spelled(ToStandard(raw)) == Spelled(raw)
  {
    hide DecodeNoPad;
    CoreUnique(raw + Pads(k), raw);
    CoreUnique(raw, raw);
    StandardCore(raw, 0);
    assert ToStandard(raw) + Pads(0) == ToStandard(raw);
    assert ToUrlSafe(ToStandard(raw)) == ToUrlSafe(raw);
  }

  // ---- the certificate check ---------------------------------------------------------------

  datatype Mode = Audit | Strict

  datatype CheckError = WrongTeeType | VerificationFailed(error: AttestError) | SpkiMismatch | ConfigHashMismatch

  /** `verify_reportdata`. */
  function VerifyReportdata(actual: ReportData, keyHash: Hash48, configHash: Option<Hash32>): (r: Result<(), CheckError>)
    ensures r.Ok? <==> Agrees(actual, keyHash, configHash)
    ensures r == Err(SpkiMismatch) <==> actual[..48] != keyHash
    ensures r.Ok? || r == Err(SpkiMismatch) || r == Err(ConfigHashMismatch)
  {
    if actual[..48] != keyHash then Err(SpkiMismatch)
    else if configHash.Some? && actual[48..64] != configHash.value[..16] then Err(ConfigHashMismatch)
    else Ok(())
  }

  /** The input of the backend: unlike the TLS client, for Confidential Space always the expected
      REPORTDATA, with zeros where no configuration hash is known. */
  function BackendInput(backend: TeeType, mode: Mode, measurement: Option<seq<byte>>, expected: ReportData): Option<seq<byte>> {
    if backend.GcpConfidentialSpace? then Some(expected) else if mode.Strict? then measurement else None
  }

  function HashToCompare(mode: Mode, configHash: Option<Hash32>): Option<Hash32> {
    if mode.Strict? then configHash else None
  }

  /** What the backend says about a certificate, given the input that the checker passes. */
  function CheckedAnswer(sha384: Sha384, verify: Verify, mode: Mode, measurement: Option<seq<byte>>,
                         configHash: Option<Hash32>, cert: Certificate): Result<ReportData, AttestError>
  {
    verify(cert.evidence,
           BackendInput(cert.evidence.teeType, mode, measurement, Reportdata(sha384(cert.spki), configHash)))
  }

  ghost predicate Checks(sha384: Sha384, verify: Verify, backend: TeeType, mode: Mode, measurement: Option<seq<byte>>,
                         configHash: Option<Hash32>, cert: Certificate)
  {
    && cert.evidence.teeType == backend
    && var answer := CheckedAnswer(sha384, verify, mode, measurement, configHash, cert);
    answer.Ok? && Agrees(answer.value, sha384(cert.spki), HashToCompare(mode, configHash))
  }

  method CheckCertificate(sha384: Sha384, verify: Verify, backend: TeeType, mode: Mode, measurement: Option<seq<byte>>,
                          configHash: Option<Hash32>, cert: Certificate)
    returns (r: Result<(), CheckError>)
    ensures r.Ok? <==> Checks(sha384, verify, backend, mode, measurement, configHash, cert)
    ensures r == Err(WrongTeeType) <==> cert.evidence.teeType != backend
    ensures cert.evidence.teeType == backend ==>
              match CheckedAnswer(sha384, verify, mode, measurement, configHash, cert)
              case Err(e) => r == Err(CheckError.VerificationFailed(e))
              case Ok(actual) => r == Err(SpkiMismatch) <==> actual[..48] != sha384(cert.spki)
  {
    if cert.evidence.teeType != backend { return Err(WrongTeeType); }
    var keyHash := sha384(cert.spki);
    var expected := FillReportdata(keyHash, configHash);
    var answer := verify(cert.evidence, BackendInput(backend, mode, measurement, expected));
    if answer.Err? { return Err(CheckError.VerificationFailed(answer.error)); }
    r := VerifyReportdata(answer.value, keyHash, HashToCompare(mode, configHash));
  }

  /** In strict mode, with a configuration hash, the checker accepts what the TLS client accepts,
      for any backend. */
  lemma StrictIsClient(sha384: Sha384, verify: Verify, backend: TeeType, measurement: Option<seq<byte>>,
                       configHash: Hash32, cert: Certificate)
    requires cert.evidence.teeType == backend
    ensures Checks(sha384, verify, backend, Strict, measurement, Some(configHash), cert) <==>
            Accepts(sha384, verify, Client(measurement, Some(configHash)), cert)
  {}

  /** For SEV-SNP audit mode compares the key alone: neither a measurement nor a configuration is asked
      for. Strict mode asks for both where they are known. */
  lemma SnpModes(sha384: Sha384, b: Backend, measurement: Option<seq<byte>>, configHash: Option<Hash32>, cert: Certificate, rd: ReportData)
    requires b.Snp? && IsFor(b, cert.evidence, rd)
    ensures Checks(sha384, VerifierOf(b), SevSnp, Audit, measurement, configHash, cert) <==>
            Trusts(b, None, cert.evidence) && rd[..48] == sha384(cert.spki)
    ensures Checks(sha384, VerifierOf(b), SevSnp, Strict, measurement, configHash, cert) <==>
            && Trusts(b, measurement, cert.evidence) && rd[..48] == sha384(cert.spki)
            && (configHash.Some? ==> rd[48..64] == configHash.value[..16])
  {
    hide VerifierOf, Trusts;
    SnpAnswer(b, cert.evidence, None, rd);
    SnpAnswer(b, cert.evidence, measurement, rd);
  }

  /** In audit mode on Confidential Space the configuration still decides: where no hash is known,
      only a relay that attests a zero configuration half passes, while the TLS client without an
      expected hash accepts every configuration. */
  lemma AuditStillBindsConfig(sha384: Sha384, b: Backend, measurement: Option<seq<byte>>, configHash: Option<Hash32>,
                              cert: Certificate, rd: ReportData)
    requires b.Gcp? && IsFor(b, cert.evidence, rd) && Trusts(b, measurement, cert.evidence)
    ensures Checks(sha384, VerifierOf(b), GcpConfidentialSpace, Audit, measurement, configHash, cert) <==>
            rd[..48] == sha384(cert.spki) && rd[48..64] == First16(configHash)
    ensures Accepts(sha384, VerifierOf(b), Client(measurement, None), cert) <==> rd[..48] == sha384(cert.spki)
  {
    hide VerifierOf, CarriesNonces, Trusts, Utf8.Decode;
    TrustedIsGivenBack(b, measurement, cert.evidence, rd);
    HalvesDecide(rd, Reportdata(sha384(cert.spki), configHash));
    AcceptedIffAgrees(sha384, b, Client(measurement, None), cert, rd);
  }
}
