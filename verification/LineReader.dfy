/** A buffered reader that hands out lines, over a byte channel that it reads in pieces of any size. */
module LineReader {
  import opened Wrappers
  import opened Utf8
  import opened Text

  type Bytes = seq<byte>

  const LF: byte := 10

  /** `line` is what the pending `read_line` has collected, `buf` what has been read ahead. */
  datatype Reader = Reader(line: Bytes, buf: Bytes)

  const Fresh := Reader([], [])

  /** What one look at the buffer gives: the next line, or more of it. */
  function Consume(r: Reader): (Option<Bytes>, Reader) {
    match Find(r.buf, [LF])
    case None => (None, Reader(r.line + r.buf, []))
    case Some(i) => (Some(r.line + r.buf[..i + 1]), Reader([], r.buf[i + 1..]))
  }

  ghost predicate IsLine(b: Bytes) {
    b != [] && b[|b| - 1] == LF && LF !in b[..|b| - 1]
  }

  /** The bytes of some lines of text. */
  function Lines(texts: seq<string>): Bytes {
    if texts == [] then [] else Encode(texts[0]) + Lines(texts[1..])
  }

  /** Cutting a text into lines keeps its bytes. */
  lemma {:induction false} LinesOfCut(s: string)
    ensures Lines(CutLines(s)) == Encode(s)
    decreases |s|
  {
    hide Encode;
    match SplitOnce(s, '\n') {
      case None =>
        if s == "" { NothingEncoded(); } else { OneLine(s); }
      case Some((a, b)) =>
        LinesOfCut(b);
        assert s == (a + "\n") + b;
        EncodeConcat(a + "\n", b);
        assert ([a + "\n"] + CutLines(b))[1..] == CutLines(b);
    }
  }

  lemma {:induction false} LinesConcat(a: seq<string>, b: seq<string>)
    ensures Lines(a + b) == Lines(a) + Lines(b)
  {
    hide Encode;
    if a == [] {
      assert a + b == b;
    } else {
      assert (a + b)[1..] == a[1..] + b;
      LinesConcat(a[1..], b);
    }
  }

  lemma NothingEncoded()
    ensures Encode("") == []
  {}

  lemma OneLine(s: string)
    ensures Lines([s]) == Encode(s)
  {
    assert [s][1..] == [];
  }

  lemma TextLine(t: string)
    requires '\n' !in t
    ensures IsLine(Encode(t + "\n"))
  {
    EncodeConcat(t, "\n");
    AsciiByteInEncoded(t, LF);
    var b := Encode(t + "\n");
    assert Encode("\n") == [LF] by { assert "\n"[1..] == ""; }
    assert b[..|b| - 1] == Encode(t);
  }

  lemma BytesFindLf(b: Bytes)
    ensures match Find(b, [LF])
            case None => LF !in b
            case Some(i) => i < |b| && b[i] == LF && LF !in b[..i]
  {
    SingletonOccurrence(b, LF);
    match Find(b, [LF]) {
      case None =>
      case Some(i) =>
        assert b[i..i + 1] == [LF];
        SingletonNotBefore(b, LF, i);
    }
  }

  /** Where the collected, buffered and not yet read bytes together are `first` and `more`, the
      reader hands out exactly `first`, or needs more bytes, which are there. */
  lemma NextLine(r: Reader, rest: Bytes, first: Bytes, more: Bytes)
    requires LF !in r.line && IsLine(first)
    requires r.line + r.buf + rest == first + more
    ensures var (line, r') := Consume(r);
            && LF !in r'.line
            && match line
               case Some(l) => l == first && r'.line == [] && r'.buf + rest == more
               case None => r'.line + r'.buf + rest == first + more && r'.buf == [] && rest != []
  {
    BytesFindLf(r.buf);
    SingletonOccurrence(first[..|first| - 1], LF);
    match Find(r.buf, [LF]) {
      case Some(i) =>
        var a, b := r.line + r.buf[..i], r.buf[i + 1..] + rest;
        SingletonOccurrence(a, LF);
        assert r.line + r.buf + rest == a + [LF] + b;
        assert first + more == first[..|first| - 1] + [LF] + more;
        SeparatorInjective(a, b, first[..|first| - 1], more, [LF]);
        assert r.line + r.buf[..i + 1] == a + [LF] == first;
      case None =>
        assert LF in first + more by { assert (first + more)[|first| - 1] == LF; }
        assert LF in r.line + r.buf + rest;
    }
  }
}
