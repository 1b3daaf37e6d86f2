/** REPORTDATA carried as two prefixed base64url nonces in a Confidential Space token. */
module Nonces {
  import opened Wrappers
  import opened Utf8
  import opened Text
  import opened Base64

  const SPKI_PREFIX := "trr1s."
  const CONFIG_PREFIX := "trr1c."
  const REPORTDATA_LEN := 64
  const SPKI_LEN := 48

  type ReportData = r: seq<byte> | |r| == REPORTDATA_LEN witness seq(REPORTDATA_LEN, i => 0)

  datatype NonceClaim = One(nonce: string) | Many(nonces: seq<string>)

  datatype Kind = Spki | Config

  datatype NonceError =
    | NotBase64Url(kind: Kind)
    | WrongLength(kind: Kind, decoded: nat)
    | Missing(kind: Kind)

  function Prefix(kind: Kind): string { if kind.Spki? then SPKI_PREFIX else CONFIG_PREFIX }

  function Width(kind: Kind): nat { if kind.Spki? then SPKI_LEN else REPORTDATA_LEN - SPKI_LEN }

  function DecodeNoncePart(encoded: string, kind: Kind): (r: Result<seq<byte>, NonceError>)
    ensures r.Ok? ==> |r.value| == Width(kind)
  {
    match DecodeNoPad(UrlSafe, encoded)
    case None => Err(NotBase64Url(kind))
    case Some(bytes) => if |bytes| != Width(kind) then Err(WrongLength(kind, |bytes|)) else Ok(bytes)
  }

  function ReportdataNonces(rd: ReportData): (r: seq<string>)
    ensures |r| == 2
  {
    [SPKI_PREFIX + EncodeNoPad(UrlSafe, rd[..SPKI_LEN]), CONFIG_PREFIX + EncodeNoPad(UrlSafe, rd[SPKI_LEN..])]
  }

  function ReportdataNonce(rd: ReportData): string { Join(ReportdataNonces(rd), ',') }

  // ---- what a claim means ------------------------------------------------------------------

  function Parts(claim: NonceClaim): seq<string> {
    match claim
    case One(nonce) => Split(nonce, ',')
    case Many(nonces) => nonces
  }

  /** The kind whose prefix a nonce carries; other nonces are ignored. */
  function KindOf(nonce: string): Option<Kind> {
    if SPKI_PREFIX <= nonce then Some(Spki)
    else if CONFIG_PREFIX <= nonce then Some(Config)
    else None
  }

  function DecodeNonce(nonce: string, kind: Kind): Result<seq<byte>, NonceError>
    requires KindOf(nonce) == Some(kind)
  {
    DecodeNoncePart(nonce[|Prefix(kind)|..], kind)
  }

  /** The error of the first prefixed nonce that does not decode. */
  function FirstError(nonces: seq<string>): Option<NonceError> {
    if nonces == [] then None
    else match KindOf(nonces[0])
      case Some(kind) =>
        (match DecodeNonce(nonces[0], kind) case Err(e) => Some(e) case Ok(_) => FirstError(nonces[1..]))
      case None => FirstError(nonces[1..])
  }

  /** The last nonce that carries `kind`: later ones replace earlier ones. */
  function Last(nonces: seq<string>, kind: Kind): (r: Option<string>)
    ensures r.Some? ==> r.value in nonces && KindOf(r.value) == Some(kind)
  {
    if nonces == [] then None
    else if KindOf(nonces[|nonces| - 1]) == Some(kind) then Some(nonces[|nonces| - 1])
    else Last(nonces[..|nonces| - 1], kind)
  }

  /** The REPORTDATA that a claim stands for. */
  function Claimed(claim: NonceClaim): Result<ReportData, NonceError> {
    var nonces := Parts(claim);
    match FirstError(nonces)
    case Some(e) => Err(e)
    case None =>
      match (Last(nonces, Spki), Last(nonces, Config))
      case (None, _) => Err(Missing(Spki))
      case (_, None) => Err(Missing(Config))
      case (Some(s), Some(c)) =>
        NoErrorDecodes(nonces, s);
        NoErrorDecodes(nonces, c);
        Ok(DecodeNonce(s, Spki).value + DecodeNonce(c, Config).value)
  }

  lemma {:induction false} NoErrorDecodes(nonces: seq<string>, nonce: string)
    requires FirstError(nonces) == None && nonce in nonces
    ensures KindOf(nonce).Some? ==> DecodeNonce(nonce, KindOf(nonce).value).Ok?
  {
    if nonce != nonces[0] {
      assert nonce in nonces[1..];
      NoErrorDecodes(nonces[1..], nonce);
    }
  }

  lemma {:induction false} FirstErrorAppend(a: seq<string>, b: seq<string>)
    ensures FirstError(a + b) == if FirstError(a).Some? then FirstError(a) else FirstError(b)
  {
    if a == [] {
      assert a + b == b;
    } else {
      assert (a + b)[0] == a[0] && (a + b)[1..] == a[1..] + b;
      FirstErrorAppend(a[1..], b);
    }
  }

  // ---- the loop ----------------------------------------------------------------------------

  /** The decoded form of the last nonce with a kind among those already read. */
  ghost predicate Holds(slot: Option<seq<byte>>, read: seq<string>, kind: Kind) {
    match Last(read, kind)
    case None => slot == None
    case Some(nonce) => DecodeNonce(nonce, kind).Ok? && slot == Some(DecodeNonce(nonce, kind).value)
  }

  lemma ReadOne(nonces: seq<string>, i: nat)
    requires i < |nonces| && FirstError(nonces[..i]) == None
    ensures FirstError(nonces[..i + 1]) == FirstError([nonces[i]])
    ensures FirstError([nonces[i]]).Some? ==> FirstError(nonces) == FirstError([nonces[i]])
    ensures forall k :: Last(nonces[..i + 1], k) ==
              if KindOf(nonces[i]) == Some(k) then Some(nonces[i]) else Last(nonces[..i], k)
  {
    hide FirstError, KindOf;
    assert nonces[..i + 1] == nonces[..i] + [nonces[i]];
    FirstErrorAppend(nonces[..i], [nonces[i]]);
    assert nonces == nonces[..i + 1] + nonces[i + 1..];
    FirstErrorAppend(nonces[..i + 1], nonces[i + 1..]);
    assert nonces[..i + 1][..i] == nonces[..i];
  }

  lemma OneError(nonce: string)
    ensures KindOf(nonce) == None ==> FirstError([nonce]) == None
    ensures KindOf(nonce).Some? ==>
              match DecodeNonce(nonce, KindOf(nonce).value)
              case Ok(_) => FirstError([nonce]) == None
              case Err(e) => FirstError([nonce]) == Some(e)
  {
    assert [nonce][1..] == [];
  }

  lemma NothingRead()
    ensures FirstError([]) == None && forall kind :: Last([], kind) == None
  {}

  method NonceReportdata(claim: NonceClaim) returns (r: Result<ReportData, NonceError>)
    ensures r == Claimed(claim)
  {
    hide FirstError, Last, DecodeNoncePart, Split;
    var nonces := Parts(claim);
    assert FirstError(nonces[..0]) == None && Holds(None, nonces[..0], Spki) && Holds(None, nonces[..0], Config) by {
      NothingRead();
    }
    var spki: Option<seq<byte>> := None;
    var config: Option<seq<byte>> := None;
    for i := 0 to |nonces|
      invariant FirstError(nonces[..i]) == None
      invariant Holds(spki, nonces[..i], Spki)
      invariant Holds(config, nonces[..i], Config)
    {
      ReadOne(nonces, i);
      OneError(nonces[i]);
      if SPKI_PREFIX <= nonces[i] {
        var part := DecodeNoncePart(nonces[i][|SPKI_PREFIX|..], Spki);
        if part.Err? { return Err(part.error); }
        spki := Some(part.value);
      } else if CONFIG_PREFIX <= nonces[i] {
        var part := DecodeNoncePart(nonces[i][|CONFIG_PREFIX|..], Config);
        if part.Err? { return Err(part.error); }
        config := Some(part.value);
      }
    }
    assert nonces[..|nonces|] == nonces;
    if spki.None? { return Err(Missing(Spki)); }
    if config.None? { return Err(Missing(Config)); }
    var reportdata := new byte[REPORTDATA_LEN](i => 0);
    forall i | 0 <= i < SPKI_LEN { reportdata[i] := spki.value[i]; }
    forall i | SPKI_LEN <= i < REPORTDATA_LEN { reportdata[i] := config.value[i - SPKI_LEN]; }
    assert reportdata[..] == spki.value + config.value;
    r := Ok(reportdata[..]);
  }

  // ---- round trips -------------------------------------------------------------------------

  lemma NonceDecodes(kind: Kind, bytes: seq<byte>)
    requires |bytes| == Width(kind)
    ensures var nonce := Prefix(kind) + EncodeNoPad(UrlSafe, bytes);
            KindOf(nonce) == Some(kind) && DecodeNonce(nonce, kind) == Ok(bytes)
  {
    var nonce := Prefix(kind) + EncodeNoPad(UrlSafe, bytes);
    assert nonce[4] == Prefix(kind)[4] && CONFIG_PREFIX[4] != SPKI_PREFIX[4];
    assert nonce[|Prefix(kind)|..] == EncodeNoPad(UrlSafe, bytes);
    Base64.DecodeEncode(UrlSafe, bytes);
  }

  lemma DecodedNonce(kind: Kind, nonce: string)
    requires KindOf(nonce) == Some(kind) && DecodeNonce(nonce, kind).Ok?
    ensures nonce == Prefix(kind) + EncodeNoPad(UrlSafe, DecodeNonce(nonce, kind).value)
  {
    hide EncodeNoPad, DecodeNoPad;
    Base64.EncodeDecode(UrlSafe, nonce[|Prefix(kind)|..]);
  }

  /** A claim is accepted as `rd` exactly when all its prefixed nonces decode to their widths and
      the last of each kind is the nonce that `rd` prints. */
  lemma AcceptedIff(claim: NonceClaim, rd: ReportData)
    ensures Claimed(claim) == Ok(rd) <==>
            && FirstError(Parts(claim)) == None
            && Last(Parts(claim), Spki) == Some(ReportdataNonces(rd)[0])
            && Last(Parts(claim), Config) == Some(ReportdataNonces(rd)[1])
  {
    var nonces := Parts(claim);
    assert rd == rd[..SPKI_LEN] + rd[SPKI_LEN..];
    NonceDecodes(Spki, rd[..SPKI_LEN]);
    NonceDecodes(Config, rd[SPKI_LEN..]);
    match (FirstError(nonces), Last(nonces, Spki), Last(nonces, Config)) {
      case (None, Some(s), Some(c)) =>
        NoErrorDecodes(nonces, s);
        NoErrorDecodes(nonces, c);
        DecodedNonce(Spki, s);
        DecodedNonce(Config, c);
        var x, y := DecodeNonce(s, Spki).value, DecodeNonce(c, Config).value;
        assert (x + y)[..SPKI_LEN] == x && (x + y)[SPKI_LEN..] == y;
      case _ =>
    }
  }

  /** A nonce that stands for `width` bytes behind `prefix`, if it starts with it at all. */
  ghost predicate Spells(nonce: string, prefix: string, width: nat) {
    prefix <= nonce ==> exists bytes :: |bytes| == width && nonce == prefix + EncodeNoPad(UrlSafe, bytes)
  }

  lemma SpellsIff(nonce: string)
    ensures FirstError([nonce]) == None <==> Spells(nonce, "trr1s.", 48) && Spells(nonce, "trr1c.", 16)
  {
    hide EncodeNoPad, DecodeNoPad;
    OneError(nonce);
    assert "trr1s."[4] != "trr1c."[4];
    match KindOf(nonce) {
      case None =>
      case Some(kind) =>
        var prefix, width := Prefix(kind), Width(kind);
        if DecodeNonce(nonce, kind).Ok? {
          DecodedNonce(kind, nonce);
          assert Spells(nonce, prefix, width);
        }
        if Spells(nonce, prefix, width) {
          var bytes :| |bytes| == width && nonce == prefix + EncodeNoPad(UrlSafe, bytes);
          NonceDecodes(kind, bytes);
        }
    }
  }

  lemma {:induction false} NoErrorIff(nonces: seq<string>)
    ensures FirstError(nonces) == None <==>
            forall i :: 0 <= i < |nonces| ==> Spells(nonces[i], "trr1s.", 48) && Spells(nonces[i], "trr1c.", 16)
  {
    hide Spells;
    if nonces != [] {
      FirstErrorAppend([nonces[0]], nonces[1..]);
      assert [nonces[0]] + nonces[1..] == nonces;
      SpellsIff(nonces[0]);
      NoErrorIff(nonces[1..]);
      assert forall i :: 0 < i < |nonces| ==> nonces[i] == nonces[1..][i - 1];
    } else {
      NothingRead();
    }
  }

  /** `nonce` is the last one that starts with `prefix`. */
  ghost predicate IsLast(nonces: seq<string>, prefix: string, nonce: string) {
    exists i :: 0 <= i < |nonces| && nonces[i] == nonce && prefix <= nonce
                && forall j :: i < j < |nonces| ==> !(prefix <= nonces[j])
  }

  lemma KindIff(nonce: string)
    ensures KindOf(nonce) == Some(Spki) <==> "trr1s." <= nonce
    ensures KindOf(nonce) == Some(Config) <==> "trr1c." <= nonce
  {
    assert "trr1s."[4] != "trr1c."[4];
  }

  lemma {:induction false} LastIff(nonces: seq<string>, kind: Kind, prefix: string, nonce: string)
    requires forall n :: n in nonces ==> (KindOf(n) == Some(kind) <==> prefix <= n)
    ensures Last(nonces, kind) == Some(nonce) <==> IsLast(nonces, prefix, nonce)
    ensures Last(nonces, kind) == None <==> forall i :: 0 <= i < |nonces| ==> !(prefix <= nonces[i])
  {
    hide KindOf;
    if nonces != [] {
      var init, last := nonces[..|nonces| - 1], nonces[|nonces| - 1];
      assert nonces == init + [last];
      LastIff(init, kind, prefix, nonce);
      if prefix <= last {
        assert nonces[|init|] == last;
      } else {
        assert forall i :: 0 <= i < |init| ==> nonces[i] == init[i];
        assert IsLast(nonces, prefix, nonce) == IsLast(init, prefix, nonce);
      }
    }
  }

  lemma LastOfKinds(nonces: seq<string>, spki: string, config: string)
    ensures Last(nonces, Spki) == Some(spki) <==> IsLast(nonces, "trr1s.", spki)
    ensures Last(nonces, Config) == Some(config) <==> IsLast(nonces, "trr1c.", config)
    ensures Last(nonces, Spki) == None <==> forall i :: 0 <= i < |nonces| ==> !("trr1s." <= nonces[i])
    ensures Last(nonces, Config) == None <==> forall i :: 0 <= i < |nonces| ==> !("trr1c." <= nonces[i])
  {
    hide KindOf, IsLast, Last;
    forall n | n in nonces
      ensures (KindOf(n) == Some(Spki) <==> "trr1s." <= n) && (KindOf(n) == Some(Config) <==> "trr1c." <= n)
    {
      KindIff(n);
    }
    LastIff(nonces, Spki, "trr1s.", spki);
    LastIff(nonces, Config, "trr1c.", config);
  }

  /** In the text of the nonces: every one that starts with a prefix is that prefix and the unpadded
      URL-safe form of 48 or 16 bytes, and the last ones spell the two parts of `rd`. */
  lemma ClaimInText(claim: NonceClaim, rd: ReportData)
    ensures Claimed(claim) == Ok(rd) <==>
            && (forall i :: 0 <= i < |Parts(claim)| ==> Spells(Parts(claim)[i], "trr1s.", 48) && Spells(Parts(claim)[i], "trr1c.", 16))
            && IsLast(Parts(claim), "trr1s.", "trr1s." + EncodeNoPad(UrlSafe, rd[..48]))
            && IsLast(Parts(claim), "trr1c.", "trr1c." + EncodeNoPad(UrlSafe, rd[48..]))
  {
    hide Claimed, FirstError, Last, Parts, EncodeNoPad, Spells, IsLast;
    AcceptedIff(claim, rd);
    NoErrorIff(Parts(claim));
    LastOfKinds(Parts(claim), ReportdataNonces(rd)[0], ReportdataNonces(rd)[1]);
  }

  /** The error is that of the first nonce that has one; without one, of the part that is missing. */
  lemma RefusedClaim(claim: NonceClaim, e: NonceError)
    ensures Claimed(claim) == Err(e) <==>
            if e.Missing? then
              && (forall i :: 0 <= i < |Parts(claim)| ==> Spells(Parts(claim)[i], "trr1s.", 48) && Spells(Parts(claim)[i], "trr1c.", 16))
              && (forall i :: 0 <= i < |Parts(claim)| ==> !((if e.kind.Spki? then "trr1s." else "trr1c.") <= Parts(claim)[i]))
              && (e.kind.Config? ==> exists i :: 0 <= i < |Parts(claim)| && "trr1s." <= Parts(claim)[i])
            else
              exists i :: 0 <= i < |Parts(claim)| && NonceFails(Parts(claim)[i], e)
                && forall j :: 0 <= j < i ==> Spells(Parts(claim)[j], "trr1s.", 48) && Spells(Parts(claim)[j], "trr1c.", 16)
  {
    hide FirstError, Last, Parts, EncodeNoPad, Spells;
    var nonces := Parts(claim);
    NoErrorIff(nonces);
    LastOfKinds(nonces, "", "");
    FirstErrorIff(nonces, e);
  }

  /** A nonce of a kind whose text behind the prefix is not base64, or spells a wrong number of bytes. */
  ghost predicate NonceFails(nonce: string, e: NonceError) {
    !e.Missing?
    && var prefix, width := if e.kind.Spki? then "trr1s." else "trr1c.", if e.kind.Spki? then 48 else 16;
    prefix <= nonce
    && match e
       case NotBase64Url(_) => forall bytes :: nonce != prefix + EncodeNoPad(UrlSafe, bytes)
       case WrongLength(_, decoded) =>
         decoded != width && exists bytes :: |bytes| == decoded && nonce == prefix + EncodeNoPad(UrlSafe, bytes)
       case Missing(_) => false
  }

  lemma NonceFailsIff(nonce: string, e: NonceError)
    ensures FirstError([nonce]) == Some(e) <==> NonceFails(nonce, e)
  {
    hide EncodeNoPad, DecodeNoPad;
    OneError(nonce);
    assert "trr1s."[4] != "trr1c."[4];
    if KindOf(nonce).Some? {
      var kind := KindOf(nonce).value;
      var rest := nonce[6..];
      assert nonce == Prefix(kind) + rest;
      forall bytes ensures nonce == Prefix(kind) + EncodeNoPad(UrlSafe, bytes) <==> DecodeNoPad(UrlSafe, rest) == Some(bytes) {
        if nonce == Prefix(kind) + EncodeNoPad(UrlSafe, bytes) {
          assert (Prefix(kind) + EncodeNoPad(UrlSafe, bytes))[6..] == EncodeNoPad(UrlSafe, bytes);
          Base64.DecodeEncode(UrlSafe, bytes);
        }
        if DecodeNoPad(UrlSafe, rest) == Some(bytes) { Base64.EncodeDecode(UrlSafe, rest); }
      }
    }
  }

  lemma {:induction false} FirstErrorIff(nonces: seq<string>, e: NonceError)
    ensures FirstError(nonces) == Some(e) <==>
            exists i :: 0 <= i < |nonces| && NonceFails(nonces[i], e)
              && forall j :: 0 <= j < i ==> Spells(nonces[j], "trr1s.", 48) && Spells(nonces[j], "trr1c.", 16)
  {
    hide Spells, NonceFails;
    if nonces != [] {
      var rest := nonces[1..];
      FirstErrorAppend([nonces[0]], rest);
      assert [nonces[0]] + rest == nonces;
      SpellsIff(nonces[0]);
      NonceFailsIff(nonces[0], e);
      FirstErrorIff(rest, e);
      assert forall i :: 0 < i < |nonces| ==> nonces[i] == rest[i - 1];
      if i :| 0 <= i < |rest| && NonceFails(rest[i], e) && forall j :: 0 <= j < i ==> Spells(rest[j], "trr1s.", 48) && Spells(rest[j], "trr1c.", 16) {
        assert nonces[i + 1] == rest[i];
      }
    } else {
      NothingRead();
    }
  }

  /** Both orders of the list form give the REPORTDATA back. */
  lemma ListRoundTrip(rd: ReportData)
    ensures var n := ReportdataNonces(rd);
            Claimed(Many(n)) == Ok(rd) && Claimed(Many([n[1], n[0]])) == Ok(rd)
  {
    var n := ReportdataNonces(rd);
    NonceDecodes(Spki, rd[..SPKI_LEN]);
    NonceDecodes(Config, rd[SPKI_LEN..]);
    PairAccepted(n[0], n[1]);
    PairAccepted(n[1], n[0]);
    AcceptedIff(Many(n), rd);
    AcceptedIff(Many([n[1], n[0]]), rd);
  }

  lemma PairAccepted(a: string, b: string)
    requires KindOf(a).Some? && KindOf(b).Some? && KindOf(a) != KindOf(b)
    requires DecodeNonce(a, KindOf(a).value).Ok? && DecodeNonce(b, KindOf(b).value).Ok?
    ensures FirstError([a, b]) == None
    ensures Last([a, b], KindOf(a).value) == Some(a) && Last([a, b], KindOf(b).value) == Some(b)
  {
    assert [a, b] == [a] + [b];
    FirstErrorAppend([a], [b]);
    OneError(a);
    OneError(b);
    assert [a, b][..1] == [a];
  }

  /** The comma-joined form gives the REPORTDATA back: no encoded part contains a comma. */
  lemma JoinedRoundTrip(rd: ReportData)
    ensures Claimed(One(ReportdataNonce(rd))) == Ok(rd)
  {
    var n := ReportdataNonces(rd);
    forall p | p in n ensures ',' !in p {
      if ',' in EncodeNoPad(UrlSafe, rd[..SPKI_LEN]) { EncodedSymbols(UrlSafe, rd[..SPKI_LEN], ','); }
      if ',' in EncodeNoPad(UrlSafe, rd[SPKI_LEN..]) { EncodedSymbols(UrlSafe, rd[SPKI_LEN..], ','); }
    }
    SplitJoin(n, ',');
    ListRoundTrip(rd);
  }
}
