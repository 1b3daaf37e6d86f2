/** The launcher's chunked transfer coding (section 7.1 of RFC 9112). */
module ChunkedBody {
  import opened Wrappers
  import opened Utf8
  import opened Text

  const CRLF: seq<byte> := [13, 10]

  /** One more than the largest 64-bit `usize`. */
  const USIZE_LIMIT := 0x1_0000_0000_0000_0000

  /** `Panics` is not an error value of the source: its end-of-chunk addition leaves `usize` there,
      and the body is then sliced out of range. */
  datatype ChunkError =
    | UnterminatedHeader
    | HeaderNotUtf8
    | InvalidSize
    | SizeOverflow
    | Truncated
    | Panics

  // ---- chunk headers -----------------------------------------------------------------------

  function HexDigit(c: char): Option<nat> {
    if '0' <= c <= '9' then Some(c as int - 48)
    else if 'a' <= c <= 'f' then Some(c as int - 87)
    else if 'A' <= c <= 'F' then Some(c as int - 55)
    else None
  }

  function HexValue(s: string): Option<nat> {
    if s == "" then Some(0)
    else
      match (HexValue(s[..|s| - 1]), HexDigit(s[|s| - 1]))
      case (Some(hi), Some(lo)) => Some(hi * 16 + lo)
      case _ => None
  }

  /** `usize::from_str_radix(s, 16)`, which accepts one leading plus sign. */
  function ParseUsize16(s: string): Option<nat> {
    var digits := if "+" <= s then s[1..] else s;
    if digits == "" then None
    else match HexValue(digits)
      case Some(n) => if n < USIZE_LIMIT then Some(n) else None
      case None => None
  }

  /** The size that a chunk header line announces. */
  function HeaderSize(header: seq<byte>): (r: Result<nat, ChunkError>)
    ensures r.Err? ==> r.error == HeaderNotUtf8 || r.error == InvalidSize
  {
    match Decode(header)
    case None => Err(HeaderNotUtf8)
    case Some(line) =>
      match ParseUsize16(Trim(Split(line, ';')[0]))
      case None => Err(InvalidSize)
      case Some(size) => Ok(size)
  }

  lemma EmptyHeader()
    ensures HeaderSize([]) == Err(InvalidSize)
  {
    assert SplitOnce("", ';').None?;
    assert Trim("") == "";
  }

  // ---- the decoder -------------------------------------------------------------------------

  datatype Step = Done | Next(data: seq<byte>, pos: nat) | Fail(error: ChunkError)

  /** What one round of the loop finds at `pos`. */
  function StepAt(body: seq<byte>, pos: nat): (r: Step)
    requires pos <= |body|
    ensures r.Next? ==> pos + 5 <= r.pos <= |body| && r.data != []
  {
    match Find(body[pos..], CRLF)
    case None => Fail(UnterminatedHeader)
    case Some(index) =>
      match HeaderSize(body[pos..pos + index])
      case Err(e) => Fail(e)
      case Ok(size) =>
        var start := pos + index + 2;
        EmptyHeader();
        if size == 0 then Done
        else if start + size >= USIZE_LIMIT then Fail(SizeOverflow)
        else if start + size + 2 >= USIZE_LIMIT then Fail(Panics)
        else if |body| < start + size + 2 || body[start + size..start + size + 2] != CRLF then Fail(Truncated)
        else Next(body[start..start + size], start + size + 2)
  }

  function Prepend(a: seq<byte>, r: Result<seq<byte>, ChunkError>): Result<seq<byte>, ChunkError> {
    match r case Ok(b) => Ok(a + b) case Err(e) => Err(e)
  }

  function DecodeFrom(body: seq<byte>, pos: nat): Result<seq<byte>, ChunkError>
    requires pos <= |body|
    decreases |body| - pos
  {
    match StepAt(body, pos)
    case Done => Ok([])
    case Fail(e) => Err(e)
    case Next(data, next) => Prepend(data, DecodeFrom(body, next))
  }

  method DecodeChunkedBody(body: seq<byte>) returns (r: Result<seq<byte>, ChunkError>)
    ensures r == DecodeFrom(body, 0)
  {
    hide HeaderSize, Find, Contains;
    var out: seq<byte> := [];
    var pos := 0;
    PrependNothing(DecodeFrom(body, 0));
    while true
      invariant pos <= |body|
      invariant DecodeFrom(body, 0) == Prepend(out, DecodeFrom(body, pos))
      decreases |body| - pos
    {
      ghost var step := StepAt(body, pos);
      var lineEnd := Find(body[pos..], CRLF);
      if lineEnd.None? { return Err(UnterminatedHeader); }
      var size := HeaderSize(body[pos..pos + lineEnd.value]);
      if size.Err? { return Err(size.error); }
      var start := pos + lineEnd.value + 2;
      if size.value == 0 { break; }
      var chunkEnd := start + size.value;
      if chunkEnd >= USIZE_LIMIT { return Err(SizeOverflow); }
      if chunkEnd + 2 >= USIZE_LIMIT { return Err(Panics); }
      if |body| < chunkEnd + 2 || body[chunkEnd..chunkEnd + 2] != CRLF { return Err(Truncated); }
      assert step == Next(body[start..chunkEnd], chunkEnd + 2);
      PrependTwice(out, body[start..chunkEnd], DecodeFrom(body, chunkEnd + 2));
      out := out + body[start..chunkEnd];
      pos := chunkEnd + 2;
    }
    assert out + [] == out;
    r := Ok(out);
  }

  lemma PrependNothing(r: Result<seq<byte>, ChunkError>)
    ensures Prepend([], r) == r
  {
    match r { case Ok(c) => assert [] + c == c; case Err(_) => }
  }

  lemma PrependTwice(a: seq<byte>, b: seq<byte>, r: Result<seq<byte>, ChunkError>)
    ensures Prepend(a, Prepend(b, r)) == Prepend(a + b, r)
  {
    match r { case Ok(c) => assert a + (b + c) == a + b + c; case Err(_) => }
  }

  // ---- the grammar -------------------------------------------------------------------------

  datatype Chunk = Chunk(header: seq<byte>, data: seq<byte>)

  ghost predicate Framed(c: Chunk) {
    !Contains(c.header, CRLF) && HeaderSize(c.header) == Ok(|c.data|) && c.data != []
  }

  ghost predicate AllFramed(chunks: seq<Chunk>) { forall c :: c in chunks ==> Framed(c) }

  ghost predicate IsLastHeader(header: seq<byte>) {
    !Contains(header, CRLF) && HeaderSize(header) == Ok(0)
  }

  function PrintChunk(c: Chunk): seq<byte> { c.header + CRLF + c.data + CRLF }

  function PrintChunks(chunks: seq<Chunk>): seq<byte> {
    if chunks == [] then [] else PrintChunk(chunks[0]) + PrintChunks(chunks[1..])
  }

  function Payload(chunks: seq<Chunk>): seq<byte> {
    if chunks == [] then [] else chunks[0].data + Payload(chunks[1..])
  }

  /** `body` is framed chunks, a zero-size header line, and bytes that are not looked at. */
  ghost predicate Parses(body: seq<byte>, chunks: seq<Chunk>, last: seq<byte>, trailer: seq<byte>) {
    && AllFramed(chunks) && IsLastHeader(last)
    && body == PrintChunks(chunks) + (last + CRLF + trailer)
  }

  /** The line that starts at `pos` ends at its first CRLF. */
  lemma LineAt(body: seq<byte>, pos: nat, header: seq<byte>, rest: seq<byte>)
    requires pos <= |body| && body[pos..] == header + CRLF + rest && !Contains(header, CRLF)
    ensures Find(body[pos..], CRLF) == Some(|header|)
    ensures body[pos..pos + |header|] == header
  {
    assert BorderFree(CRLF) by { assert CRLF[1..] != CRLF[..1] by { assert CRLF[1..][0] != CRLF[..1][0]; } }
    FindSeparator(header, CRLF, rest);
    assert body[pos..pos + |header|] == body[pos..][..|header|];
  }

  /** A last header or an overflowing one decides the round by itself. */
  lemma StepAtLine(body: seq<byte>, pos: nat, header: seq<byte>, rest: seq<byte>)
    requires pos <= |body| && body[pos..] == header + CRLF + rest && !Contains(header, CRLF)
    ensures HeaderSize(header) == Ok(0) ==> StepAt(body, pos) == Done
    ensures HeaderSize(header).Ok? && HeaderSize(header).value > 0
            && USIZE_LIMIT - 2 <= pos + |header| + 2 + HeaderSize(header).value < USIZE_LIMIT
            ==> StepAt(body, pos) == Fail(Panics)
  {
    hide HeaderSize;
    LineAt(body, pos, header, rest);
  }

  lemma StepOverChunk(body: seq<byte>, pos: nat, c: Chunk, rest: seq<byte>)
    requires |body| < USIZE_LIMIT / 2 && pos <= |body|
    requires Framed(c) && body[pos..] == PrintChunk(c) + rest
    ensures StepAt(body, pos) == Next(c.data, pos + |PrintChunk(c)|)
    ensures body[pos + |PrintChunk(c)|..] == rest
  {
    hide HeaderSize, Find, Contains, StepAt;
    assert PrintChunk(c) + rest == c.header + CRLF + (c.data + CRLF + rest);
    LineAt(body, pos, c.header, c.data + CRLF + rest);
    SliceAfter(body, pos, c.header + CRLF, c.data, CRLF + rest);
    SliceAfter(body, pos, c.header + CRLF + c.data, CRLF, rest);
    StepParts(body, pos, |c.header|, |c.data|);
  }

  lemma StepParts(body: seq<byte>, pos: nat, index: nat, size: nat)
    requires pos + index + 2 + size + 2 <= |body| < USIZE_LIMIT / 2 && size > 0
    requires Find(body[pos..], CRLF) == Some(index) && HeaderSize(body[pos..pos + index]) == Ok(size)
    requires body[pos + index + 2 + size..pos + index + 2 + size + 2] == CRLF
    ensures StepAt(body, pos) == Next(body[pos + index + 2..pos + index + 2 + size], pos + index + 2 + size + 2)
  {
    hide HeaderSize, Find, Contains;
  }

  lemma SliceAfter(body: seq<byte>, pos: nat, before: seq<byte>, part: seq<byte>, rest: seq<byte>)
    requires pos <= |body| && body[pos..] == before + part + rest
    ensures var start, end := pos + |before|, pos + |before| + |part|;
            end <= |body| && body[start..end] == part && body[end..] == rest
  {
    var tail := body[pos..];
    assert body[pos + |before|..pos + |before| + |part|] == tail[|before|..|before| + |part|];
    assert body[pos + |before| + |part|..] == tail[|before| + |part|..];
  }

  /** Framed chunks are decoded one after another, whatever follows them. */
  lemma {:induction false} DecodeOverChunks(body: seq<byte>, pos: nat, chunks: seq<Chunk>, rest: seq<byte>)
    requires |body| < USIZE_LIMIT / 2 && pos <= |body|
    requires AllFramed(chunks) && body[pos..] == PrintChunks(chunks) + rest
    ensures var next := pos + |PrintChunks(chunks)|;
            && next <= |body| && body[next..] == rest
            && DecodeFrom(body, pos) == Prepend(Payload(chunks), DecodeFrom(body, next))
    decreases |chunks|
  {
    hide HeaderSize, StepAt, PrintChunk, Framed, Find, Contains;
    if chunks == [] {
      PrependNothing(DecodeFrom(body, pos));
    } else {
      var tail := PrintChunks(chunks[1..]) + rest;
      assert PrintChunks(chunks) + rest == PrintChunk(chunks[0]) + tail;
      StepOverChunk(body, pos, chunks[0], tail);
      var next := pos + |PrintChunk(chunks[0])|;
      DecodeOverChunks(body, next, chunks[1..], rest);
      PrependTwice(chunks[0].data, Payload(chunks[1..]), DecodeFrom(body, next + |PrintChunks(chunks[1..])|));
    }
  }

  lemma StepIsFramed(body: seq<byte>, pos: nat) returns (c: Chunk)
    requires pos <= |body| && StepAt(body, pos).Next?
    ensures Framed(c) && c.data == StepAt(body, pos).data
    ensures body[pos..StepAt(body, pos).pos] == PrintChunk(c)
  {
    hide HeaderSize;
    var index := Find(body[pos..], CRLF).value;
    var next := StepAt(body, pos).pos;
    c := Chunk(body[pos..pos + index], StepAt(body, pos).data);
    LineBeforeCrlf(body, pos);
    assert body[pos..next] == body[pos..pos + index + 2] + c.data + body[next - 2..next];
  }

  lemma LineBeforeCrlf(body: seq<byte>, pos: nat)
    requires pos <= |body| && Find(body[pos..], CRLF).Some?
    ensures var index := Find(body[pos..], CRLF).value;
            && pos + index + 2 <= |body| && !Contains(body[pos..pos + index], CRLF)
            && body[pos..pos + index + 2] == body[pos..pos + index] + CRLF
  {
    var tail := body[pos..];
    var index := Find(tail, CRLF).value;
    assert tail[index..index + 2] == body[pos + index..pos + index + 2];
    var header := body[pos..pos + index];
    assert header == tail[..index];
    forall j: nat | OccursAt(header, CRLF, j) ensures OccursAt(tail, CRLF, j) {
      assert tail[j..j + 2] == header[j..j + 2];
    }
  }

  /** Where decoding stops, everything passed over is framed chunks. */
  lemma {:induction false} Follow(body: seq<byte>, pos: nat) returns (chunks: seq<Chunk>, stop: nat)
    requires pos <= |body|
    ensures AllFramed(chunks) && pos <= stop <= |body| && body[pos..stop] == PrintChunks(chunks)
    ensures !StepAt(body, stop).Next?
    ensures DecodeFrom(body, pos) == if StepAt(body, stop).Done? then Ok(Payload(chunks)) else Err(StepAt(body, stop).error)
    decreases |body| - pos
  {
    hide HeaderSize;
    match StepAt(body, pos)
    case Next(data, next) =>
      var c := StepIsFramed(body, pos);
      var rest;
      rest, stop := Follow(body, next);
      chunks := [c] + rest;
      assert body[pos..stop] == body[pos..next] + body[next..stop];
      assert chunks[1..] == rest;
    case _ =>
      chunks, stop := [], pos;
  }

  /** Exactly the bodies of the grammar are accepted, and the output is their payload. */
  lemma AcceptedIff(body: seq<byte>, out: seq<byte>)
    requires |body| < USIZE_LIMIT / 2
    ensures DecodeFrom(body, 0) == Ok(out) <==>
            exists chunks, last, trailer :: Parses(body, chunks, last, trailer) && Payload(chunks) == out
  {
    forall chunks, last, trailer | Parses(body, chunks, last, trailer)
      ensures DecodeFrom(body, 0) == Ok(Payload(chunks))
    {
      ParsedIsAccepted(body, chunks, last, trailer);
    }
    if DecodeFrom(body, 0) == Ok(out) {
      var chunks, last, trailer := AcceptedParses(body);
    }
  }

  lemma ParsedIsAccepted(body: seq<byte>, chunks: seq<Chunk>, last: seq<byte>, trailer: seq<byte>)
    requires |body| < USIZE_LIMIT / 2 && Parses(body, chunks, last, trailer)
    ensures DecodeFrom(body, 0) == Ok(Payload(chunks))
  {
    hide HeaderSize;
    assert body[0..] == body;
    DecodeOverChunks(body, 0, chunks, last + CRLF + trailer);
    StepAtLine(body, |PrintChunks(chunks)|, last, trailer);
    assert Payload(chunks) + [] == Payload(chunks);
  }

  lemma AcceptedParses(body: seq<byte>) returns (chunks: seq<Chunk>, last: seq<byte>, trailer: seq<byte>)
    requires DecodeFrom(body, 0).Ok?
    ensures Parses(body, chunks, last, trailer) && DecodeFrom(body, 0) == Ok(Payload(chunks))
  {
    hide HeaderSize, DecodeFrom, PrintChunks, Payload, AllFramed, Contains, Find;
    var stop;
    chunks, stop := Follow(body, 0);
    LineBeforeCrlf(body, stop);
    var index := Find(body[stop..], CRLF).value;
    last, trailer := body[stop..stop + index], body[stop + index + 2..];
    assert body == body[0..stop] + (body[stop..stop + index + 2] + trailer);
  }

  /** `rest` begins with the line `header`. */
  ghost predicate IsLine(rest: seq<byte>, header: seq<byte>, tail: seq<byte>) {
    rest == header + CRLF + tail && !Contains(header, CRLF)
  }

  /** A chunk of `size` bytes stands complete at the start of `tail`. */
  ghost predicate IsComplete(tail: seq<byte>, size: nat) {
    |tail| >= size + 2 && tail[size] == 13 && tail[size + 1] == 10
  }

  /** What `e` says of the text `rest` that stands at `pos` behind whole chunks. */
  ghost predicate Rejected(pos: nat, rest: seq<byte>, e: ChunkError) {
    if e.UnterminatedHeader? then !Contains(rest, CRLF)
    else exists header, tail :: IsLine(rest, header, tail) && RejectedLine(pos + |header| + 2, header, tail, e)
  }

  ghost predicate RejectedLine(start: nat, header: seq<byte>, tail: seq<byte>, e: ChunkError) {
    match HeaderSize(header)
    case Err(why) => e == why
    case Ok(size) =>
      && size > 0
      && match e
         case SizeOverflow => start + size >= USIZE_LIMIT
         case Panics => USIZE_LIMIT - 2 <= start + size < USIZE_LIMIT
         case Truncated => start + size < USIZE_LIMIT - 2 && !IsComplete(tail, size)
         case _ => false
  }

  lemma StepFails(body: seq<byte>, pos: nat, e: ChunkError)
    requires pos <= |body|
    ensures StepAt(body, pos) == Fail(e) <==> Rejected(pos, body[pos..], e)
  {
    hide HeaderSize, Contains, StepAt, IsLine, IsComplete;
    var rest := body[pos..];
    FirstLine(body, pos);
    match Find(rest, CRLF) {
      case None => NoLine(body, pos);
      case Some(index) =>
        LineFound(rest, index);
        StepFailsLine(body, pos, index, e);
    }
  }

  lemma NoLine(body: seq<byte>, pos: nat)
    requires pos <= |body| && Find(body[pos..], CRLF) == None
    ensures StepAt(body, pos) == Fail(UnterminatedHeader) && !Contains(body[pos..], CRLF)
  {}

  /** There is at most one line at a position, the one up to the first CRLF. */
  lemma FirstLine(body: seq<byte>, pos: nat)
    requires pos <= |body|
    ensures forall h, t :: IsLine(body[pos..], h, t) ==>
              Find(body[pos..], CRLF) == Some(|h|) && h == body[pos..pos + |h|] && t == body[pos + |h| + 2..]
    ensures Find(body[pos..], CRLF).Some? ==>
              var index := Find(body[pos..], CRLF).value;
              pos + index + 2 <= |body| && IsLine(body[pos..], body[pos..pos + index], body[pos + index + 2..])
  {
    hide Contains;
    forall h, t | IsLine(body[pos..], h, t)
      ensures Find(body[pos..], CRLF) == Some(|h|) && h == body[pos..pos + |h|] && t == body[pos + |h| + 2..]
    {
      LineAt(body, pos, h, t);
      SliceAfter(body, pos, h, CRLF, t);
    }
    if Find(body[pos..], CRLF).Some? {
      LineBeforeCrlf(body, pos);
      var index := Find(body[pos..], CRLF).value;
      assert body[pos..] == body[pos..pos + index + 2] + body[pos + index + 2..];
    }
  }

  lemma LineFound(rest: seq<byte>, index: nat)
    requires Find(rest, CRLF) == Some(index)
    ensures Contains(rest, CRLF)
  {}

  lemma StepFailsLine(body: seq<byte>, pos: nat, index: nat, e: ChunkError)
    requires pos <= |body| && Find(body[pos..], CRLF) == Some(index)
    ensures pos + index + 2 <= |body|
    ensures StepAt(body, pos) == Fail(e) <==>
            RejectedLine(pos + index + 2, body[pos..pos + index], body[pos + index + 2..], e)
  {
    hide HeaderSize, Contains, Find;
    LineBeforeCrlf(body, pos);
    match HeaderSize(body[pos..pos + index]) {
      case Err(_) =>
      case Ok(size) =>
        var start := pos + index + 2;
        var tail := body[start..];
        if |body| >= start + size + 2 {
          var end := body[start + size..start + size + 2];
          assert end[0] == tail[size] && end[1] == tail[size + 1];
          assert end == CRLF <==> end[0] == 13 && end[1] == 10;
        }
    }
  }

  /** Each error, and the panic, exactly where whole chunks are followed by what it names. */
  lemma RejectedIff(body: seq<byte>, e: ChunkError)
    requires |body| < USIZE_LIMIT / 2
    ensures DecodeFrom(body, 0) == Err(e) <==>
            exists chunks, rest :: AllFramed(chunks) && body == PrintChunks(chunks) + rest && Rejected(|PrintChunks(chunks)|, rest, e)
  {
    hide HeaderSize, DecodeFrom, StepAt, PrintChunks, Payload, AllFramed, Contains, Find, Rejected;
    forall chunks, rest | AllFramed(chunks) && body == PrintChunks(chunks) + rest && Rejected(|PrintChunks(chunks)|, rest, e)
      ensures DecodeFrom(body, 0) == Err(e)
    {
      assert body[0..] == body;
      DecodeOverChunks(body, 0, chunks, rest);
      StepFails(body, |PrintChunks(chunks)|, e);
      FailedHere(body, |PrintChunks(chunks)|, e);
    }
    if DecodeFrom(body, 0) == Err(e) {
      var chunks, stop := Follow(body, 0);
      StepFails(body, stop, e);
      assert body[0..stop] == body[..stop] == PrintChunks(chunks);
      assert body == PrintChunks(chunks) + body[stop..];
    }
  }

  lemma FailedHere(body: seq<byte>, pos: nat, e: ChunkError)
    requires pos <= |body| && StepAt(body, pos) == Fail(e)
    ensures DecodeFrom(body, pos) == Err(e)
  {}

  /** Framing costs at least five bytes a chunk and three for the end. */
  lemma AcceptedSize(body: seq<byte>, chunks: seq<Chunk>, last: seq<byte>, trailer: seq<byte>)
    requires Parses(body, chunks, last, trailer)
    ensures |Payload(chunks)| + 5 * |chunks| + 3 <= |body|
  {
    EmptyHeader();
    ChunksSize(chunks);
  }

  lemma {:induction false} ChunksSize(chunks: seq<Chunk>)
    requires AllFramed(chunks)
    ensures |Payload(chunks)| + 5 * |chunks| <= |PrintChunks(chunks)|
  {
    if chunks != [] {
      EmptyHeader();
      assert Framed(chunks[0]);
      ChunksSize(chunks[1..]);
    }
  }

  /** A header line `header` after framed chunks announces a chunk that ends in the last two
      positions a `usize` can hold. */
  ghost predicate EndsAtUsizeLimit(body: seq<byte>, chunks: seq<Chunk>, header: seq<byte>, rest: seq<byte>) {
    && AllFramed(chunks) && !Contains(header, CRLF) && body == PrintChunks(chunks) + (header + CRLF + rest)
    && HeaderSize(header).Ok? && HeaderSize(header).value > 0
    && USIZE_LIMIT - 2 <= |PrintChunks(chunks)| + |header| + 2 + HeaderSize(header).value < USIZE_LIMIT
  }

  /** The decoder is total except on such headers: exactly there it panics instead of answering. */
  lemma PanicsIff(body: seq<byte>)
    requires |body| < USIZE_LIMIT / 2
    ensures DecodeFrom(body, 0) == Err(Panics) <==>
            exists chunks, header, rest :: EndsAtUsizeLimit(body, chunks, header, rest)
  {
    hide HeaderSize;
    forall chunks, header, rest | EndsAtUsizeLimit(body, chunks, header, rest)
      ensures DecodeFrom(body, 0) == Err(Panics)
    {
      OverflowPanics(body, chunks, header, rest);
    }
    if DecodeFrom(body, 0) == Err(Panics) {
      var chunks, header, rest := PanicOverflows(body);
    }
  }

  lemma {:induction false} AllF(k: nat)
    ensures HexValue(seq(k, _ => 'f')) == Some(Power16(k) - 1)
  {
    var s := seq(k, _ => 'f');
    if k > 0 {
      assert s[..k - 1] == seq(k - 1, _ => 'f');
      AllF(k - 1);
    }
  }

  function Power16(k: nat): (r: nat)
    ensures r >= 1
  {
    if k == 0 then 1 else 16 * Power16(k - 1)
  }

  const LIMIT_DIGITS := seq(14, _ => 'f') + "ec"

  lemma LimitDigits()
    ensures LIMIT_DIGITS == "ffffffffffffffec"
    ensures ParseUsize16(LIMIT_DIGITS) == Some(USIZE_LIMIT - 20)
  {
    var s := LIMIT_DIGITS;
    AllF(14);
    assert Power16(14) == 0x100_0000_0000_0000;
    assert s[..15][..14] == seq(14, _ => 'f') && s[..15][14] == 'e' && s[15] == 'c';
    assert HexValue(s[..15]) == Some((Power16(14) - 1) * 16 + 14);
    assert HexValue(s) == Some(((Power16(14) - 1) * 16 + 14) * 16 + 12);
    assert s[0] == 'f' && !("+" <= s);
  }

  /** Eighteen bytes that make the decoder panic. */
  lemma PanicExample()
    ensures var header := Encode(LIMIT_DIGITS);
            && EndsAtUsizeLimit(header + CRLF, [], header, [])
            && |header + CRLF| == 18 && DecodeFrom(header + CRLF, 0) == Err(Panics)
  {
    hide ParseUsize16, Encode, Decode, DecodeFrom, TrimBy, Split;
    var header := Encode(LIMIT_DIGITS);
    LimitDigits();
    EncodeAscii(LIMIT_DIGITS);
    DecodeEncode(LIMIT_DIGITS);
    SplitHeader(LIMIT_DIGITS, "");
    assert LIMIT_DIGITS + "" == LIMIT_DIGITS;
    TrimPadded("", LIMIT_DIGITS, "", IsWhitespace);
    assert "" + LIMIT_DIGITS + "" == LIMIT_DIGITS;
    ContainsElements(header, CRLF, 13);
    assert PrintChunks([]) + (header + CRLF + []) == header + CRLF;
    OverflowPanics(header + CRLF, [], header, []);
  }

  lemma OverflowPanics(body: seq<byte>, chunks: seq<Chunk>, header: seq<byte>, rest: seq<byte>)
    requires |body| < USIZE_LIMIT / 2 && EndsAtUsizeLimit(body, chunks, header, rest)
    ensures DecodeFrom(body, 0) == Err(Panics)
  {
    hide HeaderSize;
    assert body[0..] == body;
    DecodeOverChunks(body, 0, chunks, header + CRLF + rest);
    StepAtLine(body, |PrintChunks(chunks)|, header, rest);
  }

  lemma PanicOverflows(body: seq<byte>) returns (chunks: seq<Chunk>, header: seq<byte>, rest: seq<byte>)
    requires DecodeFrom(body, 0) == Err(Panics)
    ensures EndsAtUsizeLimit(body, chunks, header, rest)
  {
    hide HeaderSize, DecodeFrom, PrintChunks, Payload, AllFramed, Contains, Find;
    var stop;
    chunks, stop := Follow(body, 0);
    LineBeforeCrlf(body, stop);
    var index := Find(body[stop..], CRLF).value;
    header, rest := body[stop..stop + index], body[stop + index + 2..];
    assert body == body[0..stop] + (body[stop..stop + index + 2] + rest);
  }

  // ---- printed chunked bodies --------------------------------------------------------------

  function HexChar(d: nat, upper: bool): char
    requires d < 16
  {
    if d < 10 then (48 + d) as char else if upper then (55 + d) as char else (87 + d) as char
  }

  function Hex(n: nat, upper: bool): (r: string)
    ensures r != ""
  {
    if n < 16 then [HexChar(n, upper)] else Hex(n / 16, upper) + [HexChar(n % 16, upper)]
  }

  predicate IsHexText(s: string) { forall i :: 0 <= i < |s| ==> HexDigit(s[i]).Some? }

  lemma {:induction false} HexValueOfHex(n: nat, upper: bool)
    ensures HexValue(Hex(n, upper)) == Some(n) && IsHexText(Hex(n, upper))
  {
    var r := Hex(n, upper);
    if n < 16 {
      assert r[..0] == "";
    } else {
      HexValueOfHex(n / 16, upper);
      assert r[..|r| - 1] == Hex(n / 16, upper);
    }
  }

  // ---- what a header announces -------------------------------------------------------------

  function Zeros(k: nat): string { seq(k, _ => '0') }

  lemma {:induction false} LowerDigits(s: string)
    ensures HexValue(Lower(s)) == HexValue(s)
  {
    if s != "" {
      LowerDigits(s[..|s| - 1]);
      assert Lower(s)[..|s| - 1] == Lower(s[..|s| - 1]);
    }
  }

  lemma {:induction false} LeadingZeros(k: nat, s: string)
    ensures HexValue(Zeros(k) + s) == HexValue(s)
  {
    var t := Zeros(k) + s;
    if s != "" {
      LeadingZeros(k, s[..|s| - 1]);
      assert t[..|t| - 1] == Zeros(k) + s[..|s| - 1];
    } else if k > 0 {
      LeadingZeros(k - 1, "");
      assert t[..k - 1] == Zeros(k - 1) + "";
    }
  }

  lemma DigitRead(c: char, d: nat)
    ensures HexDigit(c) == Some(d) ==> d < 16 && LowerChar(c) == HexChar(d, false)
  {}

  lemma OneMore(t: string, zeros: nat, hi: nat, d: nat) returns (k: nat)
    requires d < 16 && t == Zeros(zeros) + Hex(hi, false)
    ensures t + [HexChar(d, false)] == Zeros(k) + Hex(hi * 16 + d, false)
  {
    if hi == 0 {
      k := zeros + 1;
      assert Zeros(zeros) + "0" == Zeros(k);
      assert Hex(0, false) == "0" && Hex(d, false) == [HexChar(d, false)];
    } else {
      k := zeros;
      assert Hex(hi * 16 + d, false) == Hex(hi, false) + [HexChar(d, false)];
    }
  }

  lemma {:induction false} DigitsRead(s: string, n: nat) returns (k: nat)
    requires s != "" && HexValue(s) == Some(n)
    ensures Lower(s) == Zeros(k) + Hex(n, false)
  {
    var t, c := s[..|s| - 1], s[|s| - 1];
    var hi, d := HexValue(t).value, HexDigit(c).value;
    DigitRead(c, d);
    assert Lower(s) == Lower(t) + [HexChar(d, false)];
    k := 0;
    if t == "" {
      assert Zeros(0) + Hex(n, false) == [HexChar(d, false)];
    } else {
      k := DigitsRead(t, hi);
      k := OneMore(Lower(t), k, hi, d);
    }
  }

  /** Digits of either case with leading zeros stand for the number whose hexadecimal form they are. */
  lemma DigitsIff(s: string, n: nat)
    ensures s != "" && HexValue(s) == Some(n) <==> exists k: nat :: Lower(s) == Zeros(k) + Hex(n, false)
  {
    if s != "" && HexValue(s) == Some(n) {
      var k := DigitsRead(s, n);
    }
    if k: nat :| Lower(s) == Zeros(k) + Hex(n, false) {
      LowerDigits(s);
      LeadingZeros(k, Hex(n, false));
      HexValueOfHex(n, false);
    }
  }

  /** A header text: padding, at most one plus sign, digits, padding, and what a semicolon starts. */
  ghost predicate Announces(text: string, n: nat, pre: string, plus: string, digits: string, suf: string, ext: string) {
    && text == pre + (plus + digits) + suf + ext
    && (forall i :: 0 <= i < |pre| ==> IsWhitespace(pre[i])) && (forall i :: 0 <= i < |suf| ==> IsWhitespace(suf[i]))
    && plus in {"", "+"} && (exists k: nat :: Lower(digits) == Zeros(k) + Hex(n, false))
    && (ext == "" || ext[0] == ';')
  }

  lemma {:induction false} DigitsAreHex(s: string)
    requires HexValue(s).Some?
    ensures IsHexText(s)
  {
    if s != "" { DigitsAreHex(s[..|s| - 1]); }
  }

  /** A header announces `n` exactly if its text has that form and `n` fits a `usize`. */
  lemma HeaderSizeIff(header: seq<byte>, n: nat)
    ensures HeaderSize(header) == Ok(n) <==>
            && Decode(header).Some? && n < USIZE_LIMIT
            && exists pre, plus, digits, suf, ext :: Announces(Decode(header).value, n, pre, plus, digits, suf, ext)
  {
    hide Decode, Announces, ParseUsize16, TrimBy, Split;
    if Decode(header).Some? {
      var text := Decode(header).value;
      if HeaderSize(header) == Ok(n) { AnnouncedForm(text, n); }
      forall pre, plus, digits, suf, ext | n < USIZE_LIMIT && Announces(text, n, pre, plus, digits, suf, ext)
        ensures HeaderSize(header) == Ok(n)
      {
        FormAnnounces(text, n, pre, plus, digits, suf, ext);
      }
    }
  }

  lemma AnnouncedForm(text: string, n: nat)
    requires ParseUsize16(Trim(Split(text, ';')[0])) == Some(n)
    ensures n < USIZE_LIMIT && exists pre, plus, digits, suf, ext :: Announces(text, n, pre, plus, digits, suf, ext)
  {
    hide HexValue, TrimBy, Hex, Split, ParseUsize16;
    var first, ext := BeforeSemicolon(text);
    var pre, suf := TrimShape(first, IsWhitespace);
    var plus, digits := SignAndDigits(Trim(first), n);
    DigitsIff(digits, n);
    assert text == pre + (plus + digits) + suf + ext;
    assert Announces(text, n, pre, plus, digits, suf, ext);
  }

  lemma BeforeSemicolon(text: string) returns (first: string, ext: string)
    ensures text == first + ext && first == Split(text, ';')[0] && (ext == "" || ext[0] == ';')
  {
    hide SplitOnce;
    match SplitOnce(text, ';') {
      case None => first, ext := text, "";
      case Some((a, b)) => first, ext := a, [';'] + b;
    }
  }

  lemma SignAndDigits(size: string, n: nat) returns (plus: string, digits: string)
    requires ParseUsize16(size) == Some(n)
    ensures size == plus + digits && plus in {"", "+"} && digits != "" && HexValue(digits) == Some(n) && n < USIZE_LIMIT
  {
    hide HexValue;
    plus := if "+" <= size then "+" else "";
    digits := if "+" <= size then size[1..] else size;
  }

  lemma FormAnnounces(text: string, n: nat, pre: string, plus: string, digits: string, suf: string, ext: string)
    requires n < USIZE_LIMIT && Announces(text, n, pre, plus, digits, suf, ext)
    ensures ParseUsize16(Trim(Split(text, ';')[0])) == Some(n)
  {
    hide HexValue, TrimBy, Hex, Split, ParseUsize16, Trimmed;
    DigitsIff(digits, n);
    SizeText(plus, digits, n);
    assert ';' !in pre + (plus + digits) + suf;
    SplitHeader(pre + (plus + digits) + suf, ext);
    TrimPadded(pre, plus + digits, suf, IsWhitespace);
  }

  lemma SizeText(plus: string, digits: string, n: nat)
    requires n < USIZE_LIMIT && plus in {"", "+"} && digits != "" && HexValue(digits) == Some(n)
    ensures ParseUsize16(plus + digits) == Some(n)
    ensures Trimmed(plus + digits, IsWhitespace) && ';' !in plus + digits
  {
    hide HexValue;
    DigitsAreHex(digits);
    assert HexDigit(digits[0]).Some? && HexDigit(digits[|digits| - 1]).Some?;
    assert forall c :: c in digits ==> HexDigit(c).Some?;
    if plus == "" {
      assert plus + digits == digits;
    } else {
      assert (plus + digits)[1..] == digits && (plus + digits)[0] == '+';
    }
  }

  /** An optional chunk extension: nothing, or UTF-8 text after a semicolon, without a line end. */
  ghost predicate IsExtension(ext: seq<byte>) {
    ext == [] || (ext[0] == 59 && Decode(ext).Some? && !Contains(ext, CRLF))
  }

  function PrintHeader(size: nat, upper: bool, ext: seq<byte>): seq<byte> { Encode(Hex(size, upper)) + ext }

  lemma SplitHeader(hex: string, ext: string)
    requires ';' !in hex && (ext == "" || ext[0] == ';')
    ensures Split(hex + ext, ';')[0] == hex
  {
    if ext == "" {
      assert hex + ext == hex;
    } else {
      assert hex + ext == hex + [';'] + ext[1..];
      SplitOnceAt(hex, ';', ext[1..]);
    }
  }

  lemma {:induction false} EncodeAscii(t: string)
    requires forall i :: 0 <= i < |t| ==> t[i] < 128 as char
    ensures |Encode(t)| == |t| && forall i :: 0 <= i < |t| ==> Encode(t)[i] == t[i] as int
  {
    if t != "" { EncodeAscii(t[1..]); }
  }

  /** A printed header is read back, in either case and with any extension. */
  lemma PrintedHeaderSize(size: nat, upper: bool, ext: seq<byte>)
    requires size < USIZE_LIMIT && IsExtension(ext)
    ensures HeaderSize(PrintHeader(size, upper, ext)) == Ok(size)
  {
    hide Decode, ParseUsize16, TrimBy, Split;
    var hex := Hex(size, upper);
    HexIsParsed(size, upper);
    DecodeAfterEncoded(hex, ext);
    ExtensionText(ext);
    var text := Decode(ext).value;
    SplitHeader(hex, text);
    TrimPadded("", hex, "", IsWhitespace);
    assert "" + hex + "" == hex;
  }

  lemma HexIsParsed(size: nat, upper: bool)
    requires size < USIZE_LIMIT
    ensures var hex := Hex(size, upper);
            ParseUsize16(hex) == Some(size) && Trimmed(hex, IsWhitespace) && ';' !in hex
  {
    var hex := Hex(size, upper);
    HexValueOfHex(size, upper);
    assert HexDigit(hex[0]).Some? && HexDigit(hex[|hex| - 1]).Some?;
    assert hex[0] != '+';
  }

  lemma ExtensionText(ext: seq<byte>)
    requires IsExtension(ext)
    ensures Decode(ext).Some? && (Decode(ext).value == "" || Decode(ext).value[0] == ';')
  {
    if ext != [] { assert FirstScalar(ext) == (59, 1); }
  }

  lemma PrintedHeaderIsLine(size: nat, upper: bool, ext: seq<byte>)
    requires IsExtension(ext)
    ensures !Contains(PrintHeader(size, upper, ext), CRLF)
  {
    hide Encode, Decode;
    var hex := Hex(size, upper);
    HexValueOfHex(size, upper);
    AsciiByteInEncoded(hex, 13);
    ContainsAfter(Encode(hex), ext, CRLF);
    ContainsElements([], CRLF, 13);
  }

  datatype Piece = Piece(data: seq<byte>, upper: bool, ext: seq<byte>)

  ghost predicate IsPiece(p: Piece) { p.data != [] && IsExtension(p.ext) }

  function ToChunk(p: Piece): Chunk { Chunk(PrintHeader(|p.data|, p.upper, p.ext), p.data) }

  function ToChunks(pieces: seq<Piece>): seq<Chunk> {
    seq(|pieces|, i requires 0 <= i < |pieces| => ToChunk(pieces[i]))
  }

  /** The pieces as chunks, a last chunk and a trailer. */
  function ChunkedText(pieces: seq<Piece>, last: Piece, trailer: seq<byte>): seq<byte> {
    PrintChunks(ToChunks(pieces)) + (PrintHeader(0, last.upper, last.ext) + CRLF + trailer)
  }

  lemma PrintedSize(last: Piece)
    ensures |PrintHeader(0, last.upper, last.ext)| == 1 + |last.ext|
  {
    HexValueOfHex(0, last.upper);
    EncodeAscii(Hex(0, last.upper));
  }

  /** Any way of cutting a payload into pieces, printed as a chunked body, decodes to the payload. */
  lemma ChunkedRoundTrip(pieces: seq<Piece>, last: Piece, trailer: seq<byte>)
    requires forall p :: p in pieces ==> IsPiece(p)
    requires IsExtension(last.ext)
    requires |PrintChunks(ToChunks(pieces))| + |last.ext| + 3 + |trailer| < USIZE_LIMIT / 2
    ensures DecodeFrom(ChunkedText(pieces, last, trailer), 0) == Ok(Payload(ToChunks(pieces)))
  {
    var chunks := ToChunks(pieces);
    forall i | 0 <= i < |pieces| ensures Framed(chunks[i]) {
      assert pieces[i] in pieces;
      DataWithin(chunks, i);
      PrintedHeaderSize(|pieces[i].data|, pieces[i].upper, pieces[i].ext);
      PrintedHeaderIsLine(|pieces[i].data|, pieces[i].upper, pieces[i].ext);
    }
    var header := PrintHeader(0, last.upper, last.ext);
    PrintedHeaderSize(0, last.upper, last.ext);
    PrintedHeaderIsLine(0, last.upper, last.ext);
    HexValueOfHex(0, last.upper);
    EncodeAscii(Hex(0, last.upper));
    ParsedIsAccepted(PrintChunks(chunks) + (header + CRLF + trailer), chunks, header, trailer);
  }

  lemma {:induction false} DataWithin(chunks: seq<Chunk>, i: nat)
    requires i < |chunks|
    ensures |chunks[i].data| <= |PrintChunks(chunks)|
  {
    if i > 0 { DataWithin(chunks[1..], i - 1); }
  }
}
