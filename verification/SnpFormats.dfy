/** Byte formats of the SEV-SNP verifier: signature scalars and DER certificates. */
module SnpFormats {
  import opened Wrappers
  import opened Utf8

  // ---- numbers -----------------------------------------------------------------------------

  function Pow256(n: nat): (r: nat)
    ensures r >= 1
  {
    if n == 0 then 1 else 256 * Pow256(n - 1)
  }

  function LittleEndian(s: seq<byte>): nat {
    if s == [] then 0 else s[0] as nat + 256 * LittleEndian(s[1..])
  }

  lemma LowByte(s: seq<byte>)
    requires s != []
    ensures LittleEndian(s) == s[0] as nat + 256 * LittleEndian(s[1..])
  {}

  function BigEndian(s: seq<byte>): nat {
    if s == [] then 0 else 256 * BigEndian(s[..|s| - 1]) + s[|s| - 1] as nat
  }

  function Reversed(s: seq<byte>): seq<byte> {
    seq(|s|, i requires 0 <= i < |s| => s[|s| - 1 - i])
  }

  lemma {:induction false} ReversedValue(s: seq<byte>)
    ensures BigEndian(Reversed(s)) == LittleEndian(s)
  {
    if s != [] {
      var r := Reversed(s);
      assert r[..|r| - 1] == Reversed(s[1..]);
      ReversedValue(s[1..]);
    }
  }

  lemma {:induction false} LittleEndianBound(s: seq<byte>)
    ensures LittleEndian(s) < Pow256(|s|)
  {
    if s != [] { LittleEndianBound(s[1..]); }
  }

  lemma Scaled(x: nat, p: nat, y: nat)
    ensures 256 * (x + p * y) == 256 * x + (256 * p) * y
  {}

  lemma {:induction false} LittleEndianConcat(a: seq<byte>, b: seq<byte>)
    ensures LittleEndian(a + b) == LittleEndian(a) + Pow256(|a|) * LittleEndian(b)
  {
    if a == [] {
      assert a + b == b;
    } else {
      assert (a + b)[0] == a[0] && (a + b)[1..] == a[1..] + b;
      LittleEndianConcat(a[1..], b);
      Scaled(LittleEndian(a[1..]), Pow256(|a| - 1), LittleEndian(b));
    }
  }

  lemma {:induction false} MultipleIsLarge(m: nat, d: nat)
    ensures d == 0 || m * d >= m
  {
    if d > 1 {
      MultipleIsLarge(m, d - 1);
      assert m * d == m * (d - 1) + m;
    }
  }

  lemma RemainderOf(low: nat, m: nat, high: nat)
    requires low < m
    ensures (low + m * high) % m == low
  {
    var q, r := (low + m * high) / m, (low + m * high) % m;
    assert m * (q - high) == m * q - m * high == -(m * (high - q));
    MultipleIsLarge(m, if q >= high then q - high else high - q);
  }

  // ---- AMD signature fields ----------------------------------------------------------------

  const SCALAR_LEN := 48
  const AMD_SCALAR_LEN := 72

  datatype SignatureError = WrongLength(r: nat, s: nat) | InvalidScalars

  /** The two 72-byte little-endian fields as 96 big-endian bytes; `valid` is the library's check
      of the scalars. */
  method AmdSignatureToP384(sigR: seq<byte>, sigS: seq<byte>, valid: seq<byte> -> bool)
    returns (r: Result<seq<byte>, SignatureError>)
    ensures r == Err(WrongLength(|sigR|, |sigS|)) <==> |sigR| != AMD_SCALAR_LEN || |sigS| != AMD_SCALAR_LEN
    ensures |sigR| == AMD_SCALAR_LEN && |sigS| == AMD_SCALAR_LEN ==>
              var bytes := Reversed(sigR[..SCALAR_LEN]) + Reversed(sigS[..SCALAR_LEN]);
              r == if valid(bytes) then Ok(bytes) else Err(InvalidScalars)
  {
    if |sigR| != AMD_SCALAR_LEN || |sigS| != AMD_SCALAR_LEN { return Err(WrongLength(|sigR|, |sigS|)); }
    hide BigEndian, LittleEndian, Pow256;
    var signature := new byte[SCALAR_LEN * 2](i => 0);
    ghost var low, high := Reversed(sigR[..SCALAR_LEN]), Reversed(sigS[..SCALAR_LEN]);
    for i := 0 to SCALAR_LEN
      invariant signature[..i] == low[..i]
    {
      signature[i] := sigR[SCALAR_LEN - 1 - i];
      assert signature[..i + 1] == signature[..i] + [low[i]];
    }
    assert signature[..SCALAR_LEN] == low;
    for i := 0 to SCALAR_LEN
      invariant signature[..SCALAR_LEN + i] == low + high[..i]
    {
      signature[SCALAR_LEN + i] := sigS[SCALAR_LEN - 1 - i];
      assert signature[..SCALAR_LEN + i + 1] == signature[..SCALAR_LEN + i] + [high[i]];
    }
    assert signature[..] == low + high;
    r := if valid(signature[..]) then Ok(signature[..]) else Err(InvalidScalars);
  }

  /** Each output scalar is the AMD field modulo 2^384, and the field itself when its top bytes are zero. */
  lemma ScalarValue(field: seq<byte>)
    requires |field| == AMD_SCALAR_LEN
    ensures BigEndian(Reversed(field[..SCALAR_LEN])) == LittleEndian(field) % Pow256(SCALAR_LEN)
    ensures LittleEndian(field[SCALAR_LEN..]) == 0 ==>
              BigEndian(Reversed(field[..SCALAR_LEN])) == LittleEndian(field)
  {
    hide BigEndian, LittleEndian, Pow256, Reversed;
    var low, high := field[..SCALAR_LEN], field[SCALAR_LEN..];
    assert field == low + high;
    ReversedValue(low);
    LittleEndianBound(low);
    LittleEndianConcat(low, high);
    RemainderOf(LittleEndian(low), Pow256(SCALAR_LEN), LittleEndian(high));
  }

  // ---- DER ---------------------------------------------------------------------------------

  const U64_LIMIT := 0x1_0000_0000_0000_0000

  /** Header and content length of the element that `b` starts with (sections 8.1.2 and 8.1.3 of
      ITU-T X.690); indefinite lengths are refused (section 10.1). */
  function ParseHeader(b: seq<byte>): (r: Option<(nat, nat)>)
    ensures r.Some? ==> 2 <= r.value.0 <= |b| && r.value.1 < U64_LIMIT
  {
    if |b| < 2 || b[0] % 32 == 31 then None
    else if b[1] < 128 then Some((2, b[1] as nat))
    else if b[1] == 128 || b[1] == 255 then None
    else
      var k: int := b[1] - 128;
      if |b| < 2 + k || BigEndian(b[2..2 + k]) >= U64_LIMIT then None
      else Some((2 + k, BigEndian(b[2..2 + k])))
  }

  /** `Overflow` is not an error value of the source: a `usize` subtraction or addition leaves its range. */
  datatype DerError = BadOuterHeader | BadTbsHeader | TbsTooLong | Overflow

  /** The first element of `inner`, header included. */
  function FirstElement(inner: seq<byte>): Result<seq<byte>, DerError> {
    match ParseHeader(inner)
    case None => Err(BadTbsHeader)
    case Some((header, content)) =>
      if header + content >= U64_LIMIT then Err(Overflow)
      else if header + content > |inner| then Err(TbsTooLong)
      else Ok(inner[..header + content])
  }

  /** `tbs_certificate_der`: the content is taken from the end of the input. */
  function TbsCertificateDer(cert: seq<byte>): Result<seq<byte>, DerError> {
    match ParseHeader(cert)
    case None => Err(BadOuterHeader)
    case Some((_, outer)) => if outer > |cert| then Err(Overflow) else FirstElement(cert[|cert| - outer..])
  }

  function BigEndianBytes(n: nat): seq<byte> {
    if n == 0 then [] else BigEndianBytes(n / 256) + [n % 256]
  }

  /** DER length octets: short below 128, otherwise long with no leading zero. */
  function EncodeLength(n: nat): seq<byte>
    requires n < U64_LIMIT
  {
    if n < 128 then [n]
    else
      BytesWidth(n, 8);
      [128 + |BigEndianBytes(n)|] + BigEndianBytes(n)
  }

  function Tlv(tag: byte, content: seq<byte>): seq<byte>
    requires |content| < U64_LIMIT
  {
    [tag] + EncodeLength(|content|) + content
  }

  lemma {:induction false} BytesWidth(n: nat, width: nat)
    requires n < Pow256(width)
    ensures |BigEndianBytes(n)| <= width
  {
    if n > 0 {
      assert n / 256 < Pow256(width - 1);
      BytesWidth(n / 256, width - 1);
    }
  }

  lemma {:induction false} ValueOfBytes(n: nat)
    ensures BigEndian(BigEndianBytes(n)) == n
  {
    if n > 0 {
      var b := BigEndianBytes(n);
      assert b[..|b| - 1] == BigEndianBytes(n / 256);
      ValueOfBytes(n / 256);
    }
  }

  /** A DER header is read back, for short and long lengths, whatever follows. */
  lemma HeaderRoundTrip(tag: byte, n: nat, rest: seq<byte>)
    requires n < U64_LIMIT && tag % 32 != 31
    ensures ParseHeader([tag] + EncodeLength(n) + rest) == Some((1 + |EncodeLength(n)|, n))
  {
    var b := [tag] + EncodeLength(n) + rest;
    if n >= 128 {
      var bytes := BigEndianBytes(n);
      BytesWidth(n, 8);
      ValueOfBytes(n);
      assert bytes != [] by { assert BigEndian([]) == 0; }
      assert b[1] == 128 + |bytes|;
      assert b[2..2 + |bytes|] == bytes;
    }
  }

  /** `octets` give the length `n`: one below 128, or a count and at most 126 bytes, leading zeros allowed. */
  ghost predicate IsLength(octets: seq<byte>, n: nat) {
    n < U64_LIMIT
    && if |octets| == 1 then octets[0] < 128 && n == octets[0]
       else 2 <= |octets| <= 127 && octets[0] == 127 + |octets| && n == BigEndian(octets[1..])
  }

  /** A header is read exactly from a tag below the high-tag form and length octets. */
  lemma HeaderReadIff(b: seq<byte>, header: nat, n: nat)
    ensures ParseHeader(b) == Some((header, n)) <==>
            2 <= header <= |b| && b[0] % 32 != 31 && IsLength(b[1..header], n)
  {
    hide BigEndian;
    if 2 <= header <= |b| { assert b[1..header][1..] == b[2..header]; }
  }

  lemma FirstElementOfTlv(tag: byte, content: seq<byte>, rest: seq<byte>)
    requires |content| < U64_LIMIT - 16 && tag % 32 != 31
    ensures FirstElement(Tlv(tag, content) + rest) == Ok(Tlv(tag, content))
  {
    var e := Tlv(tag, content);
    HeaderRoundTrip(tag, |content|, content + rest);
    assert e + rest == [tag] + EncodeLength(|content|) + (content + rest);
    BytesWidth(|content|, 8);
    assert (e + rest)[..|e|] == e;
  }

  /** From a certificate without trailing bytes exactly the TBS element is cut out. */
  lemma TbsOfCertificate(outer: byte, tag: byte, content: seq<byte>, rest: seq<byte>)
    requires outer % 32 != 31 && tag % 32 != 31
    requires |content| < U64_LIMIT - 16 && |Tlv(tag, content) + rest| < U64_LIMIT
    ensures TbsCertificateDer(Tlv(outer, Tlv(tag, content) + rest)) == Ok(Tlv(tag, content))
  {
    TrailingShifts(outer, Tlv(tag, content) + rest, []);
    var inner := Tlv(tag, content) + rest;
    assert Tlv(outer, inner) + [] == Tlv(outer, inner);
    assert (inner + [])[0..] == inner;
    FirstElementOfTlv(tag, content, rest);
  }

  /** Trailing bytes shift the content by their number, so the element that is cut out is not the
      TBS element of the certificate but whatever starts there. */
  lemma TrailingShifts(outer: byte, inner: seq<byte>, trailing: seq<byte>)
    requires outer % 32 != 31 && |inner| < U64_LIMIT
    ensures TbsCertificateDer(Tlv(outer, inner) + trailing) == FirstElement((inner + trailing)[|trailing|..])
  {
    hide ParseHeader, EncodeLength, FirstElement;
    var cert := Tlv(outer, inner) + trailing;
    HeaderRoundTrip(outer, |inner|, inner + trailing);
    assert cert == [outer] + EncodeLength(|inner|) + (inner + trailing);
    assert cert[|cert| - |inner|..] == (inner + trailing)[|trailing|..];
  }

  /** What is cut out is a given element exactly if the bytes start with it. */
  lemma FirstElementIs(tag: byte, content: seq<byte>, s: seq<byte>)
    requires |content| < U64_LIMIT - 16 && tag % 32 != 31
    ensures FirstElement(s) == Ok(Tlv(tag, content)) <==> Tlv(tag, content) <= s
  {
    hide ParseHeader, EncodeLength;
    var e := Tlv(tag, content);
    if e <= s {
      assert s == e + s[|e|..];
      FirstElementOfTlv(tag, content, s[|e|..]);
    }
  }

  /** With any bytes after a certificate, its TBS element is still cut out exactly if it also starts
      that many bytes later. */
  lemma TbsDespiteTrailing(outer: byte, tag: byte, content: seq<byte>, rest: seq<byte>, trailing: seq<byte>)
    requires outer % 32 != 31 && tag % 32 != 31
    requires |content| < U64_LIMIT - 16 && |Tlv(tag, content) + rest| < U64_LIMIT
    ensures TbsCertificateDer(Tlv(outer, Tlv(tag, content) + rest) + trailing) == Ok(Tlv(tag, content)) <==>
            Tlv(tag, content) <= (Tlv(tag, content) + rest + trailing)[|trailing|..]
  {
    hide TbsCertificateDer, FirstElement;
    var inner := Tlv(tag, content) + rest;
    TrailingShifts(outer, inner, trailing);
    FirstElementIs(tag, content, (inner + trailing)[|trailing|..]);
  }

  /** One trailing byte is enough to lose a certificate's TBS element. */
  lemma TrailingByteRefused()
    ensures var inner := Tlv(0x30, [2]);
            && TbsCertificateDer(Tlv(0x30, inner)) == Ok(inner)
            && TbsCertificateDer(Tlv(0x30, inner) + [0]) == Err(TbsTooLong)
  {
    var inner := Tlv(0x30, [2]);
    TbsOfCertificate(0x30, 0x30, [2], []);
    assert inner + [] == inner;
    TrailingShifts(0x30, inner, [0]);
    assert (inner + [0])[1..] == [1, 2, 0];
  }
}
