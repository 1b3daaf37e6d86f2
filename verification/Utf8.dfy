/** Bytes, and the UTF-8 encoding form (section 3 of RFC 3629) that Rust's `str` guarantees. */
module Utf8 {
  import opened Wrappers

  type byte = x: int | 0 <= x < 256

  predicate IsContinuation(b: byte) { 0x80 <= b < 0xC0 }

  predicate IsScalar(cp: int) { 0 <= cp < 0xD800 || 0xE000 <= cp < 0x11_0000 }

  function EncodeChar(c: char): (r: seq<byte>)
    ensures 1 <= |r| <= 4
  {
    var cp := c as int;
    if cp < 0x80 then [cp]
    else if cp < 0x800 then [0xC0 + cp / 64, 0x80 + cp % 64]
    else if cp < 0x1_0000 then [0xE0 + cp / 4096, 0x80 + cp / 64 % 64, 0x80 + cp % 64]
    else [0xF0 + cp / 262144, 0x80 + cp / 4096 % 64, 0x80 + cp / 64 % 64, 0x80 + cp % 64]
  }

  function Encode(t: string): seq<byte> {
    if t == "" then [] else EncodeChar(t[0]) + Encode(t[1..])
  }

  function TwoBytes(b: seq<byte>): (r: (int, nat))
    requires b != [] && 0xC2 <= b[0] < 0xE0
    ensures r == (-1, 1) || (IsScalar(r.0) && r.1 == 2 <= |b|)
  {
    if |b| >= 2 && IsContinuation(b[1]) then
      var x: int, y: int := b[0], b[1];
      ((x - 0xC0) * 64 + (y - 0x80), 2)
    else (-1, 1)
  }

  function ThreeBytes(b: seq<byte>): (r: (int, nat))
    requires b != [] && 0xE0 <= b[0] < 0xF0
    ensures r == (-1, 1) || (IsScalar(r.0) && r.1 == 3 <= |b|)
  {
    if |b| >= 3 && IsContinuation(b[1]) && IsContinuation(b[2]) then
      var x: int, y: int, z: int := b[0], b[1], b[2];
      var cp := (x - 0xE0) * 4096 + (y - 0x80) * 64 + (z - 0x80);
      if 0x800 <= cp && IsScalar(cp) then (cp, 3) else (-1, 1)
    else (-1, 1)
  }

  function FourBytes(b: seq<byte>): (r: (int, nat))
    requires b != [] && 0xF0 <= b[0] < 0xF5
    ensures r == (-1, 1) || (IsScalar(r.0) && r.1 == 4 <= |b|)
  {
    if |b| >= 4 && IsContinuation(b[1]) && IsContinuation(b[2]) && IsContinuation(b[3]) then
      var x: int, y: int, z: int, w: int := b[0], b[1], b[2], b[3];
      var cp := (x - 0xF0) * 262144 + (y - 0x80) * 4096 + (z - 0x80) * 64 + (w - 0x80);
      if 0x1_0000 <= cp && IsScalar(cp) then (cp, 4) else (-1, 1)
    else (-1, 1)
  }

  /** The code point spelled by the first bytes of `b`, or -1 where they are not well formed. */
  function FirstScalar(b: seq<byte>): (r: (int, nat))
    requires b != []
    ensures r.0 == -1 || IsScalar(r.0)
    ensures 1 <= r.1 <= 4 && (r.0 != -1 ==> r.1 <= |b|)
  {
    if b[0] < 0x80 then (b[0], 1)
    else if b[0] < 0xC2 then (-1, 1)
    else if b[0] < 0xE0 then TwoBytes(b)
    else if b[0] < 0xF0 then ThreeBytes(b)
    else if b[0] < 0xF5 then FourBytes(b)
    else (-1, 1)
  }

  /** `str::from_utf8`: the text, or None where the bytes are not UTF-8. */
  function Decode(b: seq<byte>): Option<string> {
    if b == [] then Some("")
    else
      var (cp, n) := FirstScalar(b);
      if cp == -1 then None
      else match Decode(b[n..])
        case None => None
        case Some(t) => Some([cp as char] + t)
  }

  lemma FirstScalarOfTwo(c: char, rest: seq<byte>)
    requires 0x80 <= c as int < 0x800
    ensures var b := EncodeChar(c) + rest; 0xC2 <= b[0] < 0xE0 && TwoBytes(b) == (c as int, 2)
  {
    var b, cp := EncodeChar(c) + rest, c as int;
    var b0: int, b1: int := b[0], b[1];
    assert b0 == 0xC0 + cp / 64 && b1 == 0x80 + cp % 64;
  }

  lemma FirstScalarOfThree(c: char, rest: seq<byte>)
    requires 0x800 <= c as int < 0x1_0000
    ensures var b := EncodeChar(c) + rest; 0xE0 <= b[0] < 0xF0 && ThreeBytes(b) == (c as int, 3)
  {
    var b, cp := EncodeChar(c) + rest, c as int;
    var b0: int, b1: int, b2: int := b[0], b[1], b[2];
    assert b0 == 0xE0 + cp / 4096 && b1 == 0x80 + cp / 64 % 64 && b2 == 0x80 + cp % 64;
    assert cp / 4096 * 4096 + cp / 64 % 64 * 64 + cp % 64 == cp;
  }

  lemma FourDigits(n: nat)
    requires n < 0x11_0000
    ensures n / 262144 * 262144 + n / 4096 % 64 * 4096 + n / 64 % 64 * 64 + n % 64 == n
    ensures 0 <= n / 262144 <= 4
  {
    assert n / 64 / 64 == n / 4096 && n / 4096 / 64 == n / 262144;
  }

  lemma FirstScalarOfFour(c: char, rest: seq<byte>)
    requires 0x1_0000 <= c as int
    ensures var b := EncodeChar(c) + rest; 0xF0 <= b[0] < 0xF5 && FourBytes(b) == (c as int, 4)
  {
    var b, cp := EncodeChar(c) + rest, c as int;
    var x, y, z := cp / 262144, cp / 4096 % 64, cp / 64 % 64;
    assert [b[0], b[1], b[2], b[3]] == [0xF0 + x, 0x80 + y, 0x80 + z, 0x80 + cp % 64];
    FourDigits(cp);
  }

  lemma FirstScalarOfEncoded(c: char, rest: seq<byte>)
    ensures FirstScalar(EncodeChar(c) + rest) == (c as int, |EncodeChar(c)|)
  {
    hide TwoBytes, ThreeBytes, FourBytes;
    var cp := c as int;
    if cp < 0x80 {
    } else if cp < 0x800 {
      FirstScalarOfTwo(c, rest);
    } else if cp < 0x1_0000 {
      FirstScalarOfThree(c, rest);
    } else {
      FirstScalarOfFour(c, rest);
    }
  }

  lemma DecodeHead(c: char, rest: seq<byte>)
    ensures Decode(EncodeChar(c) + rest) ==
            match Decode(rest) case None => None case Some(u) => Some([c] + u)
  {
    var e := EncodeChar(c);
    FirstScalarOfEncoded(c, rest);
    assert (e + rest)[|e|..] == rest;
  }

  /** Decoding inverts encoding, and what follows an encoded text is decoded after it. */
  lemma {:induction false} DecodeAfterEncoded(t: string, rest: seq<byte>)
    ensures Decode(Encode(t) + rest) ==
            match Decode(rest) case None => None case Some(u) => Some(t + u)
  {
    hide Decode, EncodeChar;
    if t == "" {
      assert Encode(t) + rest == rest;
      match Decode(rest) { case None => case Some(u) => assert t + u == u; }
    } else {
      var tail := Encode(t[1..]) + rest;
      assert Encode(t) + rest == EncodeChar(t[0]) + tail;
      DecodeHead(t[0], tail);
      DecodeAfterEncoded(t[1..], rest);
      match Decode(rest) { case None => case Some(u) => assert t + u == [t[0]] + (t[1..] + u); }
    }
  }

  lemma DecodeEncode(t: string)
    ensures Decode(Encode(t)) == Some(t)
  {
    DecodeAfterEncoded(t, []);
    assert Encode(t) + [] == Encode(t) && t + "" == t;
  }

  lemma TwoDigits(hi: int, lo: int)
    requires 0 <= lo < 64
    ensures (hi * 64 + lo) / 64 == hi && (hi * 64 + lo) % 64 == lo
  {}

  lemma FirstScalarIsEncoded(b: seq<byte>)
    requires b != [] && FirstScalar(b).0 != -1
    ensures EncodeChar(FirstScalar(b).0 as char) == b[..FirstScalar(b).1]
  {
    hide ThreeBytes, FourBytes;
    var n := FirstScalar(b).1;
    if n == 2 {
      TwoDigits(b[0] - 0xC0, b[1] - 0x80);
    } else if n == 3 {
      ThreeAreEncoded(b);
    } else if n == 4 {
      FourAreEncoded(b);
    }
  }

  lemma ThreeAreEncoded(b: seq<byte>)
    requires b != [] && 0xE0 <= b[0] < 0xF0 && ThreeBytes(b).0 != -1
    ensures EncodeChar(ThreeBytes(b).0 as char) == b[..3]
  {
    var hi: int, mid: int := b[0] - 0xE0, b[1] - 0x80;
    TwoDigits(hi, mid);
    TwoDigits(hi * 64 + mid, b[2] - 0x80);
  }

  lemma FourAreEncoded(b: seq<byte>)
    requires b != [] && 0xF0 <= b[0] < 0xF5 && FourBytes(b).0 != -1
    ensures EncodeChar(FourBytes(b).0 as char) == b[..4]
  {
    var top: int, hi: int, mid: int := b[0] - 0xF0, b[1] - 0x80, b[2] - 0x80;
    TwoDigits(top, hi);
    TwoDigits(top * 64 + hi, mid);
    TwoDigits((top * 64 + hi) * 64 + mid, b[3] - 0x80);
  }

  /** UTF-8 has one spelling for each text: accepted bytes re-encode to themselves. */
  lemma {:induction false} EncodeDecode(b: seq<byte>)
    requires Decode(b).Some?
    ensures Encode(Decode(b).value) == b
  {
    hide FirstScalar, EncodeChar;
    if b != [] {
      var (cp, n) := FirstScalar(b);
      FirstScalarIsEncoded(b);
      EncodeDecode(b[n..]);
      assert b == b[..n] + b[n..];
      assert Decode(b).value[1..] == Decode(b[n..]).value;
    }
  }

  lemma EncodeInjective(s: string, t: string)
    requires Encode(s) == Encode(t)
    ensures s == t
  {
    DecodeEncode(s);
    DecodeEncode(t);
  }

  lemma {:induction false} EncodeConcat(s: string, t: string)
    ensures Encode(s + t) == Encode(s) + Encode(t)
  {
    if s == "" {
      assert s + t == t;
    } else {
      assert (s + t)[0] == s[0] && (s + t)[1..] == s[1..] + t;
      EncodeConcat(s[1..], t);
    }
  }

  /** A byte below 0x80 appears in the encoding exactly where that character appears in the text. */
  lemma {:induction false} AsciiByteInEncoded(t: string, a: byte)
    requires a < 0x80
    ensures a in Encode(t) <==> (a as char) in t
  {
    if t != "" {
      AsciiByteInEncoded(t[1..], a);
      assert Encode(t) == EncodeChar(t[0]) + Encode(t[1..]);
      assert t == [t[0]] + t[1..];
      assert a in EncodeChar(t[0]) <==> t[0] == a as char;
    }
  }
}
