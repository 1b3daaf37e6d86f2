/** base64 and base64url (sections 4 and 5 of RFC 4648), refusing non-zero trailing bits
    (section 3.5) as the `base64` crate's engines do. */
module Base64 {
  import opened Wrappers
  import opened Utf8

  datatype Alphabet = Standard | UrlSafe

  type Sextet = v: int | 0 <= v < 64

  function Symbol(a: Alphabet, v: Sextet): char {
    if v < 26 then (65 + v) as char
    else if v < 52 then (71 + v) as char
    else if v < 62 then (v - 4) as char
    else if v == 62 then (if a.Standard? then '+' else '-')
    else (if a.Standard? then '/' else '_')
  }

  /** The sextet that a character stands for, or None outside the alphabet. */
  function Value(a: Alphabet, c: char): Option<Sextet> {
    if 'A' <= c <= 'Z' then Some(c as int - 65)
    else if 'a' <= c <= 'z' then Some(c as int - 71)
    else if '0' <= c <= '9' then Some(c as int + 4)
    else if c == (if a.Standard? then '+' else '-') then Some(62)
    else if c == (if a.Standard? then '/' else '_') then Some(63)
    else None
  }

  function EncodeGroup(a: Alphabet, x: byte, y: byte, z: byte): string {
    [Symbol(a, x / 4), Symbol(a, x % 4 * 16 + y / 16), Symbol(a, y % 16 * 4 + z / 64), Symbol(a, z % 64)]
  }

  /** Unpadded encoding. */
  function EncodeNoPad(a: Alphabet, b: seq<byte>): string {
    if |b| == 0 then ""
    else if |b| == 1 then EncodeGroup(a, b[0], 0, 0)[..2]
    else if |b| == 2 then EncodeGroup(a, b[0], b[1], 0)[..3]
    else EncodeGroup(a, b[0], b[1], b[2]) + EncodeNoPad(a, b[3..])
  }

  /** The three bytes that four sextets spell. */
  function Octets(p: int, q: int, r: int, t: int): (b: seq<byte>)
    requires 0 <= p < 64 && 0 <= q < 64 && 0 <= r < 64 && 0 <= t < 64
    ensures |b| == 3
    ensures b[0] / 4 == p && b[0] % 4 * 16 + b[1] / 16 == q
    ensures b[1] % 16 * 4 + b[2] / 64 == r && b[2] % 64 == t
  {
    [p * 4 + q / 16, q % 16 * 16 + r / 4, r % 4 * 64 + t]
  }

  function DecodeGroup(a: Alphabet, s: string): Option<seq<byte>>
    requires |s| == 4
  {
    match (Value(a, s[0]), Value(a, s[1]), Value(a, s[2]), Value(a, s[3]))
    case (Some(p), Some(q), Some(r), Some(t)) =>
      Some(Octets(p, q, r, t))
    case _ => None
  }

  /** A final group of two or three symbols; the bits it does not use must be zero. */
  function DecodePartial(a: Alphabet, s: string): Option<seq<byte>>
    requires |s| == 2 || |s| == 3
  {
    match (Value(a, s[0]), Value(a, s[1]))
    case (Some(p), Some(q)) =>
      if |s| == 2 then
        if q % 16 == 0 then Some(Octets(p, q, 0, 0)[..1]) else None
      else (
        match Value(a, s[2])
        case Some(r) => if r % 4 == 0 then Some(Octets(p, q, r, 0)[..2]) else None
        case None => None
      )
    case _ => None
  }

  /** Decoding with padding forbidden (`URL_SAFE_NO_PAD`). */
  function DecodeNoPad(a: Alphabet, s: string): Option<seq<byte>> {
    if s == "" then Some([])
    else if |s| == 1 then None
    else if |s| < 4 then DecodePartial(a, s)
    else
      match (DecodeGroup(a, s[..4]), DecodeNoPad(a, s[4..]))
      case (Some(g), Some(rest)) => Some(g + rest)
      case _ => None
  }

  /** Decoding with canonical padding required (`STANDARD`). */
  function DecodePadded(a: Alphabet, s: string): Option<seq<byte>> {
    if s == "" then Some([])
    else if |s| < 4 then None
    else if |s| == 4 && s[3] == '=' then DecodePartial(a, if s[2] == '=' then s[..2] else s[..3])
    else
      match (DecodeGroup(a, s[..4]), DecodePadded(a, s[4..]))
      case (Some(g), Some(rest)) => Some(g + rest)
      case _ => None
  }

  lemma ValueOfSymbol(a: Alphabet, v: Sextet)
    ensures Value(a, Symbol(a, v)) == Some(v)
  {}

  lemma SymbolOfValue(a: Alphabet, c: char)
    ensures Value(a, c).Some? ==> Symbol(a, Value(a, c).value) == c
  {}

  /** The four sextets of three bytes spell them again. */
  lemma OctetsOfSextets(x: byte, y: byte, z: byte)
    ensures Octets(x / 4, x % 4 * 16 + y / 16, y % 16 * 4 + z / 64, z % 64) == [x, y, z]
  {}

  lemma DecodeEncodeGroup(a: Alphabet, x: byte, y: byte, z: byte)
    ensures DecodeGroup(a, EncodeGroup(a, x, y, z)) == Some([x, y, z])
  {
    hide Symbol, Value, Octets;
    var p, q, r, t := x / 4, x % 4 * 16 + y / 16, y % 16 * 4 + z / 64, z % 64;
    ValueOfSymbol(a, p);
    ValueOfSymbol(a, q);
    ValueOfSymbol(a, r);
    ValueOfSymbol(a, t);
    OctetsOfSextets(x, y, z);
  }

  lemma DecodeEncodePartial(a: Alphabet, b: seq<byte>)
    requires |b| == 1 || |b| == 2
    ensures DecodePartial(a, EncodeNoPad(a, b)) == Some(b)
  {
    var x: byte, y: byte := b[0], if |b| == 2 then b[1] else 0;
    var p, q, r := x / 4, x % 4 * 16 + y / 16, y % 16 * 4;
    ValueOfSymbol(a, p);
    ValueOfSymbol(a, q);
    ValueOfSymbol(a, r);
    var e := EncodeGroup(a, x, y, 0);
    assert e == [Symbol(a, p), Symbol(a, q), Symbol(a, r), Symbol(a, 0)];
    var o := Octets(p, q, r, 0);
    assert o[0] == x && o[1] == y;
    if |b| == 1 {
      assert EncodeNoPad(a, b) == e[..2] && o[..1] == b;
      assert q % 16 == 0 && Octets(p, q, 0, 0)[..1] == o[..1];
    } else {
      assert EncodeNoPad(a, b) == e[..3] && o[..2] == b;
    }
  }

  /** Every byte string decodes back from its encoding. */
  lemma {:induction false} DecodeEncode(a: Alphabet, b: seq<byte>)
    ensures DecodeNoPad(a, EncodeNoPad(a, b)) == Some(b)
  {
    hide Symbol, Value, Octets, DecodeGroup, DecodePartial;
    if 1 <= |b| <= 2 {
      DecodeEncodePartial(a, b);
    } else if |b| >= 3 {
      var g := EncodeGroup(a, b[0], b[1], b[2]);
      var s := EncodeNoPad(a, b);
      assert s[..4] == g && s[4..] == EncodeNoPad(a, b[3..]);
      DecodeEncodeGroup(a, b[0], b[1], b[2]);
      DecodeEncode(a, b[3..]);
      assert b == [b[0], b[1], b[2]] + b[3..];
    }
  }

  lemma EncodeDecodeGroup(a: Alphabet, s: string)
    requires |s| == 4 && DecodeGroup(a, s).Some?
    ensures var g := DecodeGroup(a, s).value; |g| == 3 && EncodeGroup(a, g[0], g[1], g[2]) == s
  {
    SymbolOfValue(a, s[0]);
    SymbolOfValue(a, s[1]);
    SymbolOfValue(a, s[2]);
    SymbolOfValue(a, s[3]);
  }

  lemma EncodeDecodePartial(a: Alphabet, s: string)
    requires |s| == 2 || |s| == 3
    requires DecodePartial(a, s).Some?
    ensures EncodeNoPad(a, DecodePartial(a, s).value) == s
  {
    SymbolOfValue(a, s[0]);
    SymbolOfValue(a, s[1]);
    if |s| == 3 { SymbolOfValue(a, s[2]); }
  }

  /** The encoding is canonical: every accepted text re-encodes to itself. */
  lemma {:induction false} EncodeDecode(a: Alphabet, s: string)
    requires DecodeNoPad(a, s).Some?
    ensures EncodeNoPad(a, DecodeNoPad(a, s).value) == s
  {
    if 2 <= |s| < 4 {
      EncodeDecodePartial(a, s);
    } else if |s| >= 4 {
      var g := DecodeGroup(a, s[..4]).value;
      var rest := DecodeNoPad(a, s[4..]).value;
      EncodeDecodeGroup(a, s[..4]);
      EncodeDecode(a, s[4..]);
      assert (g + rest)[3..] == rest;
      assert s == s[..4] + s[4..];
    }
  }

  /** An encoding uses only its alphabet. */
  lemma {:induction false} EncodedSymbols(a: Alphabet, b: seq<byte>, c: char)
    requires c in EncodeNoPad(a, b)
    ensures Value(a, c).Some?
  {
    if |b| >= 3 && c in EncodeNoPad(a, b[3..]) {
      EncodedSymbols(a, b[3..], c);
    } else {
      assert forall v: Sextet :: Value(a, Symbol(a, v)).Some?;
    }
  }

  // ---- the encoding, bit by bit ------------------------------------------------------------

  const UPPER := "ABCDEFGHIJKLMNOPQRSTUVWXYZ"
  const LOWER := "abcdefghijklmnopqrstuvwxyz"
  const DIGITS := "0123456789"

  /** The tables of sections 4 and 5 of RFC 4648. */
  function Table(a: Alphabet): string { UPPER + LOWER + DIGITS + (if a.Standard? then "+/" else "-_") }

  lemma UpperAt(i: nat)
    ensures i < 26 ==> UPPER[i] == (65 + i) as char
  {}

  lemma LowerAt(i: nat)
    ensures i < 26 ==> LOWER[i] == (97 + i) as char
  {}

  lemma TableAt(a: Alphabet, v: Sextet)
    ensures |Table(a)| == 64 && Symbol(a, v) == Table(a)[v]
  {
    UpperAt(v);
    if v >= 26 { LowerAt(v - 26); }
  }

  /** Bit `k` of a byte string, most significant first; zero behind its end. */
  function Bit(b: seq<byte>, k: nat): nat {
    if k / 8 >= |b| then 0 else BitOfByte(b[k / 8], k % 8)
  }

  function BitOfByte(x: byte, k: nat): (r: nat)
    requires k < 8
    ensures r < 2
  {
    x / [128, 64, 32, 16, 8, 4, 2, 1][k] % 2
  }

  /** Six bits as a number. */
  function SixBits(b: seq<byte>, k: nat): (r: nat)
    ensures r < 64
  {
    32 * Bit(b, k) + 16 * Bit(b, k + 1) + 8 * Bit(b, k + 2) + 4 * Bit(b, k + 3) + 2 * Bit(b, k + 4) + Bit(b, k + 5)
  }

  /** A number below 16 from its four bits. */
  lemma FourBits(y: int)
    requires 0 <= y < 16
    ensures y == 8 * (y / 8) + 4 * (y / 4 % 2) + 2 * (y / 2 % 2) + y % 2
  {}

  lemma HighBits(x: byte)
    ensures BitOfByte(x, 0) == x / 16 / 8 && BitOfByte(x, 1) == x / 16 / 4 % 2
    ensures BitOfByte(x, 2) == x / 16 / 2 % 2 && BitOfByte(x, 3) == x / 16 % 2
  {}

  lemma LowBits(x: byte)
    ensures BitOfByte(x, 4) == x % 16 / 8 && BitOfByte(x, 5) == x % 16 / 4 % 2
    ensures BitOfByte(x, 6) == x % 16 / 2 % 2 && BitOfByte(x, 7) == x % 16 % 2
  {
    LowBit(x / 16, x % 16);
  }

  lemma LowBit(q: int, y: int)
    requires 0 <= q < 16 && 0 <= y < 16
    ensures var x := 16 * q + y;
            x / 8 % 2 == y / 8 && x / 4 % 2 == y / 4 % 2 && x / 2 % 2 == y / 2 % 2 && x % 2 == y % 2
  {
    var x := 16 * q + y;
    assert x / 8 == 2 * q + y / 8;
    assert x / 4 == 4 * q + y / 4;
    assert x / 2 == 8 * q + y / 2;
  }

  lemma ByteBits(x: byte)
    ensures x == 128 * BitOfByte(x, 0) + 64 * BitOfByte(x, 1) + 32 * BitOfByte(x, 2) + 16 * BitOfByte(x, 3)
                 + 8 * BitOfByte(x, 4) + 4 * BitOfByte(x, 5) + 2 * BitOfByte(x, 6) + BitOfByte(x, 7)
  {
    hide BitOfByte;
    HighBits(x);
    LowBits(x);
    FourBits(x / 16);
    FourBits(x % 16);
  }

  /** The parts of a byte that base64 cuts it into. */
  lemma ByteParts(x: byte)
    ensures x / 4 == 32 * BitOfByte(x, 0) + 16 * BitOfByte(x, 1) + 8 * BitOfByte(x, 2) + 4 * BitOfByte(x, 3) + 2 * BitOfByte(x, 4) + BitOfByte(x, 5)
    ensures x % 4 == 2 * BitOfByte(x, 6) + BitOfByte(x, 7)
    ensures x / 16 == 8 * BitOfByte(x, 0) + 4 * BitOfByte(x, 1) + 2 * BitOfByte(x, 2) + BitOfByte(x, 3)
    ensures x % 16 == 8 * BitOfByte(x, 4) + 4 * BitOfByte(x, 5) + 2 * BitOfByte(x, 6) + BitOfByte(x, 7)
    ensures x / 64 == 2 * BitOfByte(x, 0) + BitOfByte(x, 1)
    ensures x % 64 == 32 * BitOfByte(x, 2) + 16 * BitOfByte(x, 3) + 8 * BitOfByte(x, 4) + 4 * BitOfByte(x, 5) + 2 * BitOfByte(x, 6) + BitOfByte(x, 7)
  {
    hide BitOfByte;
    ByteBits(x);
  }

  /** The first four groups of six bits are the sextets of the first three bytes. */
  lemma FirstSextets(b: seq<byte>)
    requires b != []
    ensures var x, y, z := b[0], if |b| > 1 then b[1] else 0, if |b| > 2 then b[2] else 0;
            && SixBits(b, 0) == x / 4 && SixBits(b, 6) == x % 4 * 16 + y / 16
            && SixBits(b, 12) == y % 16 * 4 + z / 64 && SixBits(b, 18) == z % 64
  {
    var x, y, z := b[0], if |b| > 1 then b[1] else 0, if |b| > 2 then b[2] else 0;
    hide BitOfByte;
    forall k | 0 <= k < 8
      ensures Bit(b, k) == BitOfByte(x, k) && Bit(b, k + 8) == BitOfByte(y, k) && Bit(b, k + 16) == BitOfByte(z, k)
    {
      ZeroBits();
    }
    BitsGroup(b, x, y, z);
  }

  lemma BitsGroup(b: seq<byte>, x: byte, y: byte, z: byte)
    requires forall k :: 0 <= k < 8 ==>
               Bit(b, k) == BitOfByte(x, k) && Bit(b, k + 8) == BitOfByte(y, k) && Bit(b, k + 16) == BitOfByte(z, k)
    ensures SixBits(b, 0) == x / 4 && SixBits(b, 6) == x % 4 * 16 + y / 16
    ensures SixBits(b, 12) == y % 16 * 4 + z / 64 && SixBits(b, 18) == z % 64
  {
    hide BitOfByte, Bit;
    ByteParts(x);
    ByteParts(y);
    ByteParts(z);
    assert Bit(b, 0 + 8) == BitOfByte(y, 0) && Bit(b, 1 + 8) == BitOfByte(y, 1);
    assert Bit(b, 2 + 8) == BitOfByte(y, 2) && Bit(b, 3 + 8) == BitOfByte(y, 3);
    assert Bit(b, 4 + 8) == BitOfByte(y, 4) && Bit(b, 5 + 8) == BitOfByte(y, 5);
    assert Bit(b, 6 + 8) == BitOfByte(y, 6) && Bit(b, 7 + 8) == BitOfByte(y, 7);
    assert Bit(b, 0 + 16) == BitOfByte(z, 0) && Bit(b, 1 + 16) == BitOfByte(z, 1);
    assert Bit(b, 2 + 16) == BitOfByte(z, 2) && Bit(b, 3 + 16) == BitOfByte(z, 3);
    assert Bit(b, 4 + 16) == BitOfByte(z, 4) && Bit(b, 5 + 16) == BitOfByte(z, 5);
    assert Bit(b, 6 + 16) == BitOfByte(z, 6) && Bit(b, 7 + 16) == BitOfByte(z, 7);
  }

  lemma ZeroBits()
    ensures forall k :: 0 <= k < 8 ==> BitOfByte(0, k) == 0
  {}

  lemma LaterBits(b: seq<byte>, k: nat)
    requires |b| >= 3
    ensures SixBits(b, k + 24) == SixBits(b[3..], k)
  {
    hide BitOfByte;
    assert forall j: nat :: (j + 24) / 8 == j / 8 + 3 && (j + 24) % 8 == j % 8;
    assert forall j: nat :: Bit(b, j + 24) == Bit(b[3..], j);
  }

  /** Symbol `i` is the one in the table for bits `6 * i` to `6 * i + 5`, as many symbols as it takes. */
  lemma {:induction false} EncodedBits(a: Alphabet, b: seq<byte>, i: nat)
    ensures |EncodeNoPad(a, b)| == (8 * |b| + 5) / 6
    ensures i < |EncodeNoPad(a, b)| ==> EncodeNoPad(a, b)[i] == Table(a)[SixBits(b, 6 * i)]
  {
    hide SixBits, Symbol, Table;
    if b != [] {
      FirstSextets(b);
      var x, y, z := b[0], if |b| > 1 then b[1] else 0, if |b| > 2 then b[2] else 0;
      TableAt(a, x / 4);
      TableAt(a, x % 4 * 16 + y / 16);
      TableAt(a, y % 16 * 4 + z / 64);
      TableAt(a, z % 64);
    }
    if |b| >= 3 {
      EncodedBits(a, b[3..], if i < 4 then 0 else i - 4);
      if i >= 4 { LaterBits(b, 6 * (i - 4)); }
    }
  }
}
