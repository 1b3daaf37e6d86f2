/** Attestation evidence, and what the SEV-SNP verifier reads from a report. */
module Attestation {
  import opened Wrappers
  import opened Utf8
  import opened Nonces
  import opened CertTable
  import SnpFormats

  datatype TeeType = Tdx | SevSnp | GcpConfidentialSpace | Mock

  datatype Evidence = Evidence(teeType: TeeType, data: seq<byte>)

  datatype AttestError =
    | UnsupportedTeeType(teeType: TeeType)
    | VerificationFailed
    | MeasurementMismatch
    | ImageDigestMismatch
    | ReportDataMismatch

  // ---- the report (Table 21 of the AMD SEV-SNP ABI Specification) --------------------------

  const POLICY_OFFSET := 0x08
  const SIGNING_KEY_OFFSET := 0x48
  const REPORT_DATA_OFFSET := 0x50
  const MEASUREMENT_OFFSET := 0x90
  const MEASUREMENT_LEN := 48

  type Report = r: seq<byte> | |r| == REPORT_SIZE witness seq(REPORT_SIZE, i => 0)

  function ReportedData(report: Report): ReportData {
    report[REPORT_DATA_OFFSET..REPORT_DATA_OFFSET + REPORTDATA_LEN]
  }

  function Measurement(report: Report): seq<byte> { report[MEASUREMENT_OFFSET..MEASUREMENT_OFFSET + MEASUREMENT_LEN] }

  /** Bit 19 of the little-endian guest policy. */
  predicate DebugAllowed(report: Report) { report[POLICY_OFFSET + 2] / 8 % 2 == 1 }

  /** The selector of the signing key: VCEK (0) or VLEK (1); reserved bits and selectors are refused. */
  function SigningKey(report: Report): (r: Option<nat>)
    ensures r.Some? ==> r.value <= 1
  {
    var flags := Le32(report[SIGNING_KEY_OFFSET..SIGNING_KEY_OFFSET + 4]);
    if flags / 32 != 0 then None
    else
      var key := flags / 4 % 8;
      if key > 1 then None else Some(key)
  }

  // ---- the signature -----------------------------------------------------------------------

  const REPORTED_TCB_OFFSET := 0x180
  const CHIP_ID_OFFSET := 0x1A0
  const CHIP_ID_LEN := 64
  const SIGNATURE_OFFSET := 0x2A0

  /** The signature's two fields, as they are handed to the signature check. */
  function Signature(report: Report): seq<byte> {
    var r := SIGNATURE_OFFSET;
    var s := r + SnpFormats.AMD_SCALAR_LEN;
    SnpFormats.Reversed(report[r..r + SnpFormats.SCALAR_LEN]) + SnpFormats.Reversed(report[s..s + SnpFormats.SCALAR_LEN])
  }

  /** The two scalars are the two little-endian fields modulo 2^384. */
  lemma SignatureScalars(report: Report)
    ensures |Signature(report)| == 96
    ensures SnpFormats.BigEndian(Signature(report)[..48]) == SnpFormats.LittleEndian(report[0x2A0..0x2E8]) % SnpFormats.Pow256(48)
    ensures SnpFormats.BigEndian(Signature(report)[48..]) == SnpFormats.LittleEndian(report[0x2E8..0x330]) % SnpFormats.Pow256(48)
  {
    var r, s := report[0x2A0..0x2E8], report[0x2E8..0x330];
    SnpFormats.ScalarValue(r);
    SnpFormats.ScalarValue(s);
    assert r[..48] == report[0x2A0..0x2D0] && s[..48] == report[0x2E8..0x318];
    assert Signature(report)[..48] == SnpFormats.Reversed(r[..48]);
    assert Signature(report)[48..] == SnpFormats.Reversed(s[..48]);
  }

  function HexNibble(c: char): nat {
    if '0' <= c <= '9' then c as int - '0' as int
    else if 'a' <= c <= 'f' then c as int - 'a' as int + 10
    else if 'A' <= c <= 'F' then c as int - 'A' as int + 10
    else 0
  }

  function HexPair(hi: char, lo: char): byte { 16 * HexNibble(hi) + HexNibble(lo) }

  /** `guid_bytes`: the first three groups of a GUID's text are little-endian. */
  function GuidBytes(t: string): (r: seq<byte>)
    requires |t| == 36
    ensures |r| == 16
  {
    [HexPair(t[6], t[7]), HexPair(t[4], t[5]), HexPair(t[2], t[3]), HexPair(t[0], t[1]),
     HexPair(t[11], t[12]), HexPair(t[9], t[10]), HexPair(t[16], t[17]), HexPair(t[14], t[15]),
     HexPair(t[19], t[20]), HexPair(t[21], t[22]), HexPair(t[24], t[25]), HexPair(t[26], t[27]),
     HexPair(t[28], t[29]), HexPair(t[30], t[31]), HexPair(t[32], t[33]), HexPair(t[34], t[35])]
  }

  const GUID_VCEK: seq<byte> :=
    [0x8D, 0x75, 0xDA, 0x63, 0x64, 0xE6, 0x64, 0x45, 0xAD, 0xC5, 0xF4, 0xB9, 0x3B, 0xE8, 0xAC, 0xCD]

  const GUID_VLEK: seq<byte> :=
    [0xC2, 0x4B, 0x07, 0xA8, 0x5A, 0xA2, 0x3E, 0x48, 0xAA, 0xE6, 0x39, 0xC0, 0x45, 0xA0, 0xB8, 0xA1]

  /** The bytes are those of the GUIDs' texts. */
  lemma GuidTexts()
    ensures GuidBytes("63da758d-e664-4564-adc5-f4b93be8accd") == GUID_VCEK
    ensures GuidBytes("a8074bc2-a25a-483e-aae6-39c045a0b8a1") == GUID_VLEK
  {
    hide GuidBytes;
    VcekText();
    VlekText();
  }

  lemma VcekText()
    ensures GuidBytes("63da758d-e664-4564-adc5-f4b93be8accd") == GUID_VCEK
  {}

  lemma VlekText()
    ensures GuidBytes("a8074bc2-a25a-483e-aae6-39c045a0b8a1") == GUID_VLEK
  {}

  const PRODUCTS := ["Milan", "Genoa", "Turin"]

  /** What the verifier asks of the outside: the VCEK that is downloaded for a product, a chip and its
      security version numbers, and whether a product's chain of a kind ("vcek" or "vlek") reaches a
      leaf certificate whose key verifies a signature of the signed bytes. */
  datatype Amd = Amd(
    vcek: (string, seq<byte>, nat) -> Option<seq<byte>>,
    endorses: (string, string, seq<byte>, seq<byte>, seq<byte>) -> bool)

  /** The leaf certificate for a product: a VCEK may be downloaded, a VLEK must be provided. */
  ghost function Leaf(amd: Amd, product: string, data: seq<byte>, report: Report, key: nat): Option<seq<byte>> {
    if key == 0 then
      if Provided(data, GUID_VCEK).Some? then Provided(data, GUID_VCEK)
      else
        amd.vcek(product, report[CHIP_ID_OFFSET..CHIP_ID_OFFSET + CHIP_ID_LEN],
                 SnpFormats.LittleEndian(report[REPORTED_TCB_OFFSET..REPORTED_TCB_OFFSET + 8]))
    else Provided(data, GUID_VLEK)
  }

  /** One round of the loop over the products. */
  ghost predicate Checks(amd: Amd, product: string, data: seq<byte>, report: Report, key: nat) {
    && product in PRODUCTS
    && var leaf := Leaf(amd, product, data, report, key);
    leaf.Some? && amd.endorses(product, if key == 0 then "vcek" else "vlek", leaf.value, report[..SIGNATURE_OFFSET], Signature(report))
  }

  /** `verify_report_signature`: some product's leaf endorses a signature that is not all zeros. */
  ghost predicate Signed(amd: Amd, data: seq<byte>, report: Report, key: nat) {
    && (exists i :: SIGNATURE_OFFSET <= i < SIGNATURE_OFFSET + 2 * SnpFormats.AMD_SCALAR_LEN && report[i] != 0)
    && exists product :: Checks(amd, product, data, report, key)
  }

  /** `SevSnpVerifier::verify`. */
  ghost function SnpVerify(amd: Amd, evidence: Evidence, expected: Option<seq<byte>>): Result<ReportData, AttestError> {
    if !evidence.teeType.SevSnp? then Err(UnsupportedTeeType(evidence.teeType))
    else if |evidence.data| < REPORT_SIZE then Err(VerificationFailed)
    else
      var report := evidence.data[..REPORT_SIZE];
      if DebugAllowed(report) then Err(VerificationFailed)
      else if expected.Some? && Measurement(report) != expected.value then Err(MeasurementMismatch)
      else
        match SigningKey(report)
        case None => Err(VerificationFailed)
        case Some(key) => if Signed(amd, evidence.data, report, key) then Ok(ReportedData(report)) else Err(VerificationFailed)
  }

  /** A report that the verifier trusts, for a client that expects `expected`. */
  ghost predicate Genuine(amd: Amd, evidence: Evidence, expected: Option<seq<byte>>) {
    && evidence.teeType.SevSnp? && |evidence.data| >= REPORT_SIZE
    && var report := evidence.data[..REPORT_SIZE];
    && !DebugAllowed(report) && (expected.Some? ==> expected.value == Measurement(report))
    && SigningKey(report).Some? && Signed(amd, evidence.data, report, SigningKey(report).value)
  }

  lemma SnpVerifyIff(amd: Amd, evidence: Evidence, expected: Option<seq<byte>>, rd: ReportData)
    ensures SnpVerify(amd, evidence, expected) == Ok(rd) <==>
            Genuine(amd, evidence, expected) && evidence.data[0x50..0x90] == rd
  {
    hide Signed;
    if |evidence.data| >= REPORT_SIZE {
      assert evidence.data[..REPORT_SIZE][0x50..0x90] == evidence.data[0x50..0x90];
    }
  }

  lemma SameChecks(amd: Amd, product: string, a: seq<byte>, b: seq<byte>, report: Report, key: nat)
    requires Provided(a, GUID_VCEK) == Provided(b, GUID_VCEK) && Provided(a, GUID_VLEK) == Provided(b, GUID_VLEK)
    ensures Checks(amd, product, a, report, key) == Checks(amd, product, b, report, key)
  {
    hide Signature;
  }

  lemma SameSigned(amd: Amd, a: seq<byte>, b: seq<byte>, report: Report, key: nat)
    requires Provided(a, GUID_VCEK) == Provided(b, GUID_VCEK) && Provided(a, GUID_VLEK) == Provided(b, GUID_VLEK)
    ensures Signed(amd, a, report, key) == Signed(amd, b, report, key)
  {
    hide Provided, Leaf, Signature, Checks;
    forall product: string ensures Checks(amd, product, a, report, key) == Checks(amd, product, b, report, key) {
      SameChecks(amd, product, a, b, report, key);
    }
  }

  /** The attester's cut of the certificate blob does not change the verdict on its evidence. */
  lemma CutKeepsVerdict(amd: Amd, report: seq<byte>, certs: seq<byte>, expected: Option<seq<byte>>)
    requires |report| == REPORT_SIZE
    ensures SnpVerify(amd, Evidence(SevSnp, report + Truncated(certs)), expected) ==
            SnpVerify(amd, Evidence(SevSnp, report + certs), expected)
  {
    hide Truncated, Provided, Signed, SigningKey, DebugAllowed, Measurement, ReportedData, CertBlobBytes;
    CutProvidesTheSame(report, certs, GUID_VCEK);
    CutProvidesTheSame(report, certs, GUID_VLEK);
    var cut, whole := report + Truncated(certs), report + certs;
    assert cut[..REPORT_SIZE] == report && whole[..REPORT_SIZE] == report;
    match SigningKey(report) {
      case None =>
      case Some(key) => SameSigned(amd, cut, whole, report, key);
    }
  }

  // ---- the verdict on laid-out tables ------------------------------------------------------

  /** A laid-out table, with anything behind it, provides the first certificate with a GUID. */
  lemma LayoutAnswers(certs: seq<Cert>, pad: seq<byte>, guid: seq<byte>)
    requires WellFormed(certs) && ENTRY * (|certs| + 1) + TotalSize(certs) < 0x1_0000_0000
    ensures IsAnswer(Layout(certs) + pad, guid, FirstCert(certs, guid))
  {
    hide Layout, Truncated, IsAnswer, Serves, CertOf;
    if certs == [] {
      PaddedCount(certs, pad, 0);
      NoneServes(Layout(certs) + pad, guid);
    } else {
      PaddedLayoutCut(certs, pad);
      LayoutLookup(certs, guid);
      TruncationKeepsAnswers(Layout(certs) + pad, guid, FirstCert(certs, guid));
    }
  }

  lemma NoneServes(blob: seq<byte>, guid: seq<byte>)
    requires Count(blob, 0) == 0
    ensures IsAnswer(blob, guid, None)
  {}

  lemma LayoutProvides(report: seq<byte>, certs: seq<Cert>, pad: seq<byte>, guid: seq<byte>)
    requires |report| == REPORT_SIZE && WellFormed(certs) && ENTRY * (|certs| + 1) + TotalSize(certs) < 0x1_0000_0000
    ensures Provided(report + (Layout(certs) + pad), guid) == FirstCert(certs, guid)
  {
    hide Layout, IsAnswer, Provided, Finds, FirstCert;
    var blob, cert := Layout(certs) + pad, FirstCert(certs, guid);
    LayoutAnswers(certs, pad, guid);
    WholeLookup(report, blob, guid, cert);
    ProvidedUnique(report + blob, guid, cert);
  }

  /** Bit 19 of the policy is clear. */
  predicate DebugOff(report: Report) { SnpFormats.LittleEndian(report[8..16]) / 0x8_0000 % 2 == 0 }

  lemma DebugBit(report: Report)
    ensures DebugAllowed(report) <==> !DebugOff(report)
  {
    hide SnpFormats.LittleEndian;
    var p := report[8..16];
    var high := SnpFormats.LittleEndian(p[3..]);
    SnpFormats.LowByte(p);
    SnpFormats.LowByte(p[1..]);
    SnpFormats.LowByte(p[2..]);
    assert p[1..][1..] == p[2..] && p[2..][1..] == p[3..];
    var x: int, y: int, z: int := p[0], p[1], p[2];
    BitOf(x, y, z, high);
  }

  lemma BitOf(x: int, y: int, z: int, high: nat)
    requires 0 <= x < 256 && 0 <= y < 256 && 0 <= z < 256
    ensures (x + 256 * (y + 256 * (z + 256 * high))) / 0x8_0000 % 2 == z / 8 % 2
  {
    var q := (x + 256 * (y + 256 * (z + 256 * high))) / 0x8_0000;
    assert q == z / 8 + 32 * high;
  }

  /** Selector 0 is below 4, selector 1 below 8; others and the reserved bits are refused. */
  lemma KeySelected(report: Report)
    ensures SigningKey(report) == Some(0) <==> report[0x48] < 4 && report[0x49] == report[0x4A] == report[0x4B] == 0
    ensures SigningKey(report).Some? <==> report[0x48] < 8 && report[0x49] == report[0x4A] == report[0x4B] == 0
    ensures SigningKey(report) == Some(1) <==> 4 <= report[0x48] < 8 && report[0x49] == report[0x4A] == report[0x4B] == 0
  {
    var x: int, y: int, z: int, w: int := report[0x48], report[0x49], report[0x4A], report[0x4B];
    assert Le32(report[0x48..0x4C]) == x + 256 * y + 65536 * z + 16777216 * w;
  }

  /** For a VCEK report the table's first VCEK, or the downloaded one where the table has none; for a
      VLEK report the table's first VLEK and nothing else. */
  ghost predicate TableLeaf(amd: Amd, report: Report, certs: seq<Cert>, key: nat, product: string, leaf: seq<byte>) {
    if key == 0 then
      match FirstCert(certs, GUID_VCEK)
      case Some(cert) => leaf == cert
      case None => amd.vcek(product, report[0x1A0..0x1E0], SnpFormats.LittleEndian(report[0x180..0x188])) == Some(leaf)
    else FirstCert(certs, GUID_VLEK) == Some(leaf)
  }

  /** A product's chain of a kind reaches a leaf whose key verifies the report's signature. */
  ghost predicate Endorses(amd: Amd, report: Report, kind: string, product: string, leaf: seq<byte>) {
    && product in ["Milan", "Genoa", "Turin"]
    && amd.endorses(product, kind, leaf, report[..0x2A0], Signature(report))
  }

  ghost predicate HasSignature(report: Report) { exists i :: 0x2A0 <= i < 0x330 && report[i] != 0 }

  /** The signature is not all zeros, and some product endorses it. */
  ghost predicate Endorsable(amd: Amd, report: Report, certs: seq<Cert>, key: nat) {
    && HasSignature(report)
    && exists product, leaf :: EndorsedLeaf(amd, report, certs, key, product, leaf)
  }

  ghost predicate EndorsedLeaf(amd: Amd, report: Report, certs: seq<Cert>, key: nat, product: string, leaf: seq<byte>) {
    TableLeaf(amd, report, certs, key, product, leaf) && Endorses(amd, report, if key == 0 then "vcek" else "vlek", product, leaf)
  }

  lemma LayoutChecks(amd: Amd, report: Report, certs: seq<Cert>, data: seq<byte>, key: nat, product: string)
    requires Provided(data, GUID_VCEK) == FirstCert(certs, GUID_VCEK) && Provided(data, GUID_VLEK) == FirstCert(certs, GUID_VLEK)
    ensures Checks(amd, product, data, report, key) <==> exists leaf :: EndorsedLeaf(amd, report, certs, key, product, leaf)
  {
    hide Provided, FirstCert, Signature, SnpFormats.LittleEndian;
    if Checks(amd, product, data, report, key) {
      var leaf := Leaf(amd, product, data, report, key).value;
      assert EndorsedLeaf(amd, report, certs, key, product, leaf);
    }
  }

  lemma LayoutSigned(amd: Amd, report: Report, certs: seq<Cert>, data: seq<byte>, key: nat)
    requires Provided(data, GUID_VCEK) == FirstCert(certs, GUID_VCEK) && Provided(data, GUID_VLEK) == FirstCert(certs, GUID_VLEK)
    ensures Signed(amd, data, report, key) <==> Endorsable(amd, report, certs, key)
  {
    hide Provided, FirstCert, Checks, EndorsedLeaf;
    forall product: string
      ensures Checks(amd, product, data, report, key) <==> exists leaf :: EndorsedLeaf(amd, report, certs, key, product, leaf)
    {
      LayoutChecks(amd, report, certs, data, key, product);
    }
    if Signed(amd, data, report, key) {
      var product :| Checks(amd, product, data, report, key);
      var leaf :| EndorsedLeaf(amd, report, certs, key, product, leaf);
    }
    if Endorsable(amd, report, certs, key) {
      var product, leaf :| EndorsedLeaf(amd, report, certs, key, product, leaf);
      assert Checks(amd, product, data, report, key);
    }
  }

  lemma SignedLayout(amd: Amd, report: Report, certs: seq<Cert>, pad: seq<byte>, key: nat)
    requires WellFormed(certs) && ENTRY * (|certs| + 1) + TotalSize(certs) < 0x1_0000_0000
    ensures Signed(amd, report + (Layout(certs) + pad), report, key) <==> Endorsable(amd, report, certs, key)
  {
    hide Layout, Signed, Endorsable, Provided, FirstCert;
    LayoutProvides(report, certs, pad, GUID_VCEK);
    LayoutProvides(report, certs, pad, GUID_VLEK);
    LayoutSigned(amd, report, certs, report + (Layout(certs) + pad), key);
  }

  /** No debugging, and the expected launch digest. */
  ghost predicate Expected(report: Report, expected: Option<seq<byte>>) {
    && DebugOff(report) && (expected.Some? ==> expected.value == report[0x90..0xC0])
  }

  lemma ReportVerdict(amd: Amd, report: Report, blob: seq<byte>, expected: Option<seq<byte>>)
    ensures var verdict := SnpVerify(amd, Evidence(SevSnp, report + blob), expected);
            && (verdict == Err(MeasurementMismatch) <==>
                DebugOff(report) && expected.Some? && expected.value != report[0x90..0xC0])
            && (verdict == Ok(report[0x50..0x90]) <==>
                && Expected(report, expected)
                && SigningKey(report).Some? && Signed(amd, report + blob, report, SigningKey(report).value))
            && (verdict.Ok? ==> verdict.value == report[0x50..0x90])
  {
    hide Signed, SigningKey, DebugAllowed, DebugOff;
    DebugBit(report);
    assert (report + blob)[..REPORT_SIZE] == report;
  }

  /** The verdict on evidence with a table that the attester has cut. */
  lemma LayoutVerdict(amd: Amd, report: Report, certs: seq<Cert>, pad: seq<byte>, expected: Option<seq<byte>>)
    requires WellFormed(certs) && ENTRY * (|certs| + 1) + TotalSize(certs) < 0x1_0000_0000
    ensures var verdict := SnpVerify(amd, Evidence(SevSnp, report + Truncated(Layout(certs) + pad)), expected);
            && (verdict == Err(MeasurementMismatch) <==>
                DebugOff(report) && expected.Some? && expected.value != report[0x90..0xC0])
            && (verdict == Ok(report[0x50..0x90]) <==>
                && Expected(report, expected)
                && SigningKey(report).Some? && Endorsable(amd, report, certs, SigningKey(report).value))
            && (verdict.Ok? ==> verdict.value == report[0x50..0x90])
  {
    hide Layout, Truncated, Endorsable, Signed, SigningKey, DebugOff, Expected, TotalSize, SnpVerify, Provided, FirstCert;
    ReportVerdict(amd, report, Layout(certs) + pad, expected);
    CutKeepsVerdict(amd, report, Layout(certs) + pad, expected);
    if SigningKey(report).Some? { SignedLayout(amd, report, certs, pad, SigningKey(report).value); }
  }

  /** Reserved bits and the selectors from 2 on are refused. */
  lemma OtherKeysRefused(amd: Amd, report: Report, certs: seq<Cert>, pad: seq<byte>, expected: Option<seq<byte>>)
    requires WellFormed(certs) && ENTRY * (|certs| + 1) + TotalSize(certs) < 0x1_0000_0000
    requires report[0x48] >= 8 || !(report[0x49] == report[0x4A] == report[0x4B] == 0)
    ensures SnpVerify(amd, Evidence(SevSnp, report + Truncated(Layout(certs) + pad)), expected).Err?
  {
    hide Layout, Truncated, Endorsable, SigningKey, DebugOff, Expected, TotalSize, SnpVerify;
    LayoutVerdict(amd, report, certs, pad, expected);
    KeySelected(report);
  }

  /** A report signed by a VCEK is accepted exactly if some product endorses the table's first VCEK or,
      where the table has none, the one downloaded for the chip and its version numbers. */
  lemma VcekVerdict(amd: Amd, report: Report, certs: seq<Cert>, pad: seq<byte>, expected: Option<seq<byte>>)
    requires WellFormed(certs) && ENTRY * (|certs| + 1) + TotalSize(certs) < 0x1_0000_0000
    requires report[0x48] < 4 && report[0x49] == report[0x4A] == report[0x4B] == 0
    ensures SnpVerify(amd, Evidence(SevSnp, report + Truncated(Layout(certs) + pad)), expected) == Ok(report[0x50..0x90]) <==>
            && Expected(report, expected) && HasSignature(report)
            && exists product, vcek ::
                 && Endorses(amd, report, "vcek", product, vcek)
                 && match FirstCert(certs, GUID_VCEK)
                    case Some(provided) => vcek == provided
                    case None => amd.vcek(product, report[0x1A0..0x1E0], SnpFormats.LittleEndian(report[0x180..0x188])) == Some(vcek)
  {
    hide Layout, Truncated, FirstCert, SnpVerify, Expected, TotalSize, SnpFormats.LittleEndian, Endorses, HasSignature, SigningKey;
    LayoutVerdict(amd, report, certs, pad, expected);
    KeySelected(report);
    forall product: string, leaf
      ensures EndorsedLeaf(amd, report, certs, 0, product, leaf) <==>
              && Endorses(amd, report, "vcek", product, leaf)
              && match FirstCert(certs, GUID_VCEK)
                   case Some(provided) => leaf == provided
                   case None => amd.vcek(product, report[0x1A0..0x1E0], SnpFormats.LittleEndian(report[0x180..0x188])) == Some(leaf)
    {}
  }

  /** A report signed by a VLEK is accepted exactly if some product endorses the table's first VLEK;
      nothing is downloaded for it. */
  lemma VlekVerdict(amd: Amd, report: Report, certs: seq<Cert>, pad: seq<byte>, expected: Option<seq<byte>>)
    requires WellFormed(certs) && ENTRY * (|certs| + 1) + TotalSize(certs) < 0x1_0000_0000
    requires 4 <= report[0x48] < 8 && report[0x49] == report[0x4A] == report[0x4B] == 0
    ensures SnpVerify(amd, Evidence(SevSnp, report + Truncated(Layout(certs) + pad)), expected) == Ok(report[0x50..0x90]) <==>
            && Expected(report, expected) && HasSignature(report)
            && exists product, vlek :: Endorses(amd, report, "vlek", product, vlek) && FirstCert(certs, GUID_VLEK) == Some(vlek)
  {
    hide Layout, Truncated, FirstCert, SnpVerify, Expected, TotalSize, SnpFormats.LittleEndian, Endorses, HasSignature, SigningKey;
    LayoutVerdict(amd, report, certs, pad, expected);
    KeySelected(report);
    forall product: string, leaf
      ensures EndorsedLeaf(amd, report, certs, 1, product, leaf) <==>
              && Endorses(amd, report, "vlek", product, leaf)
              && FirstCert(certs, GUID_VLEK) == Some(leaf)
    {}
  }
}
