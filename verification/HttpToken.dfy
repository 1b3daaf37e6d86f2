/** The launcher's HTTP response and the token it carries. */
module HttpToken {
  import opened Wrappers
  import opened Utf8
  import opened Text
  import opened ChunkedBody

  const HEAD_END: seq<byte> := CRLF + CRLF

  datatype TokenError =
    | NoHeaders
    | HeadersNotUtf8
    | StatusNotOk
    | BadBody(error: ChunkError)
    | EmptyToken

  // ---- the head ----------------------------------------------------------------------------

  function StripCr(line: string): string {
    if line != "" && line[|line| - 1] == '\r' then line[..|line| - 1] else line
  }

  /** `str::lines`. */
  function Lines(s: string): seq<string>
    decreases |s|
  {
    if s == "" then []
    else match SplitOnce(s, '\n')
      case None => [s]
      case Some((line, rest)) => [StripCr(line)] + Lines(rest)
  }

  predicate IsOkStatus(line: string) { Find(line, " 200 ").Some? }

  lemma OkStatusIff(line: string)
    ensures IsOkStatus(line) <==> Contains(line, " 200 ")
  {
    if Contains(line, " 200 ") { var i: nat :| OccursAt(line, " 200 ", i); }
  }

  predicate StatusOk(headers: string) { Lines(headers) != [] && IsOkStatus(Lines(headers)[0]) }

  predicate IsChunkedLine(line: string) {
    match SplitOnce(line, ':')
    case None => false
    case Some((name, value)) => Lower(name) == "transfer-encoding" && Find(Lower(value), "chunked").Some?
  }

  /** A header line that names `chunked` as transfer coding, in any letter case. */
  ghost predicate SaysChunked(line: string) {
    exists name, value :: IsHeader(line, name, value)
                          && Lower(name) == "transfer-encoding" && Contains(Lower(value), "chunked")
  }

  ghost predicate IsHeader(line: string, name: string, value: string) {
    line == name + ":" + value && ':' !in name
  }

  lemma ChunkedLineIff(line: string)
    ensures IsChunkedLine(line) <==> SaysChunked(line)
  {
    hide SplitOnce;
    match SplitOnce(line, ':') {
      case None =>
      case Some((name, value)) =>
        assert IsHeader(line, name, value);
        forall n, v | IsHeader(line, n, v) ensures n == name && v == value { SplitOnceAt(n, ':', v); }
        if Contains(Lower(value), "chunked") { var i: nat :| OccursAt(Lower(value), "chunked", i); }
    }
  }

  predicate IsChunked(headers: string) {
    exists i :: 0 <= i < |Lines(headers)| && IsChunkedLine(Lines(headers)[i])
  }

  // ---- trimming ----------------------------------------------------------------------------

  predicate IsAsciiWhitespace(b: byte) { b == 9 || b == 10 || b == 12 || b == 13 || b == 32 }

  method TrimAscii(bytes: seq<byte>) returns (r: seq<byte>)
    ensures r == TrimBy(bytes, IsAsciiWhitespace)
  {
    hide TrimStart, TrimEnd;
    var start, end := 0, |bytes|;
    while start < end && IsAsciiWhitespace(bytes[start])
      invariant start <= end
      invariant TrimStart(bytes[start..], IsAsciiWhitespace) == TrimStart(bytes, IsAsciiWhitespace)
    {
      TrimStartRound(bytes[start..], IsAsciiWhitespace);
      assert bytes[start..][1..] == bytes[start + 1..];
      start := start + 1;
    }
    TrimStartRound(bytes[start..], IsAsciiWhitespace);
    assert bytes[start..end] == bytes[start..];
    while end > start && IsAsciiWhitespace(bytes[end - 1])
      invariant start <= end <= |bytes|
      invariant TrimEnd(bytes[start..end], IsAsciiWhitespace) == TrimBy(bytes, IsAsciiWhitespace)
    {
      TrimEndRound(bytes[start..end], IsAsciiWhitespace);
      assert bytes[start..end][..end - start - 1] == bytes[start..end - 1];
      end := end - 1;
    }
    TrimEndRound(bytes[start..end], IsAsciiWhitespace);
    r := bytes[start..end];
  }

  // ---- the response ------------------------------------------------------------------------

  function PayloadOf(headers: string, body: seq<byte>): Result<seq<byte>, ChunkError> {
    if IsChunked(headers) then DecodeFrom(body, 0) else Ok(body)
  }

  /** The token that a response carries. */
  function TokenOf(response: seq<byte>): Result<seq<byte>, TokenError> {
    match Find(response, HEAD_END)
    case None => Err(NoHeaders)
    case Some(index) =>
      match Decode(response[..index + 4])
      case None => Err(HeadersNotUtf8)
      case Some(headers) =>
        if !StatusOk(headers) then Err(StatusNotOk)
        else
          match PayloadOf(headers, response[index + 4..])
          case Err(e) => Err(BadBody(e))
          case Ok(payload) =>
            var token := TrimBy(payload, IsAsciiWhitespace);
            if token == [] then Err(EmptyToken) else Ok(token)
  }

  method ParseHttpTokenResponse(response: seq<byte>) returns (r: Result<seq<byte>, TokenError>)
    ensures r == TokenOf(response)
  {
    hide Decode, StatusOk, IsChunkedLine, TrimBy, DecodeFrom, Find;
    var index := Find(response, HEAD_END);
    if index.None? { return Err(NoHeaders); }
    var headerEnd := index.value + 4;
    var headers := Decode(response[..headerEnd]);
    if headers.None? { return Err(HeadersNotUtf8); }
    if !StatusOk(headers.value) { return Err(StatusNotOk); }
    var body := response[headerEnd..];
    if IsChunked(headers.value) {
      var decoded := DecodeChunkedBody(body);
      if decoded.Err? { return Err(BadBody(decoded.error)); }
      body := decoded.value;
    }
    body := TrimAscii(body);
    if body == [] { return Err(EmptyToken); }
    r := Ok(body);
  }

  // ---- framing does not show ---------------------------------------------------------------

  /** A UTF-8 head with a 200 status, ended by its first empty line. */
  predicate IsOkHead(head: seq<byte>) {
    && Find(head, HEAD_END) == Some(|head| - 4)
    && Decode(head).Some? && StatusOk(Decode(head).value)
  }

  /** `body` carries `payload` under the framing that `head` announces. */
  ghost predicate Carries(head: seq<byte>, body: seq<byte>, payload: seq<byte>)
    requires IsOkHead(head)
  {
    if IsChunked(Decode(head).value) then
      exists chunks, last, trailer :: Parses(body, chunks, last, trailer) && Payload(chunks) == payload
    else body == payload
  }

  lemma CarriesIff(head: seq<byte>, body: seq<byte>, payload: seq<byte>)
    requires IsOkHead(head) && |body| < USIZE_LIMIT / 2
    ensures Carries(head, body, payload) <==> PayloadOf(Decode(head).value, body) == Ok(payload)
  {
    hide Decode, StatusOk, IsChunked, DecodeFrom, Parses, Payload;
    if IsChunked(Decode(head).value) { AcceptedIff(body, payload); }
  }

  lemma TokenAfterHead(head: seq<byte>, body: seq<byte>)
    requires IsOkHead(head)
    ensures TokenOf(head + body) ==
            match PayloadOf(Decode(head).value, body)
            case Err(e) => Err(BadBody(e))
            case Ok(payload) =>
              var token := TrimBy(payload, IsAsciiWhitespace);
              if token == [] then Err(EmptyToken) else Ok(token)
  {
    hide Decode, StatusOk, TrimBy, PayloadOf, Find;
    FindStable(head, body, HEAD_END);
    assert (head + body)[..|head|] == head && (head + body)[|head|..] == body;
  }

  /** Tabs, line feeds, form feeds, carriage returns and spaces. */
  ghost predicate Pads(s: seq<byte>) { forall i :: 0 <= i < |s| ==> s[i] in {9, 10, 12, 13, 32} }

  ghost predicate IsToken(s: seq<byte>) {
    s != [] && s[0] !in {9, 10, 12, 13, 32} && s[|s| - 1] !in {9, 10, 12, 13, 32}
  }

  /** The token comes back whatever the framing and the whitespace around it. */
  lemma FramingDoesNotShow(head: seq<byte>, body: seq<byte>, pre: seq<byte>, token: seq<byte>, suf: seq<byte>)
    requires IsOkHead(head) && |body| < USIZE_LIMIT / 2
    requires Pads(pre) && Pads(suf) && IsToken(token)
    requires Carries(head, body, pre + token + suf)
    ensures TokenOf(head + body) == Ok(token)
  {
    hide IsOkHead, Carries, TokenOf, TrimBy;
    CarriesIff(head, body, pre + token + suf);
    TokenAfterHead(head, body);
    TrimPadded(pre, token, suf, IsAsciiWhitespace);
  }

  /** Conversely an accepted response is such a head and body. */
  lemma AcceptedToken(response: seq<byte>, token: seq<byte>)
    returns (head: seq<byte>, body: seq<byte>, pre: seq<byte>, suf: seq<byte>)
    requires |response| < USIZE_LIMIT / 2 && TokenOf(response) == Ok(token)
    ensures response == head + body && IsOkHead(head) && Carries(head, body, pre + token + suf)
    ensures Pads(pre) && Pads(suf) && IsToken(token)
  {
    hide Decode, StatusOk, TrimBy, PayloadOf, Carries;
    var index := Find(response, HEAD_END).value;
    head, body := response[..index + 4], response[index + 4..];
    assert response == head + body;
    HeadAlone(head, body, index);
    var payload := PayloadOf(Decode(head).value, body).value;
    pre, suf := TrimShape(payload, IsAsciiWhitespace);
    CarriesIff(head, body, payload);
  }

  lemma HeadAlone(head: seq<byte>, body: seq<byte>, index: nat)
    requires |head| == index + 4 && Find(head + body, HEAD_END) == Some(index)
    ensures Find(head, HEAD_END) == Some(index)
  {
    assert head[index..index + 4] == (head + body)[index..index + 4];
    assert OccursAt(head, HEAD_END, index);
    FindStable(head, body, HEAD_END);
  }

  // ---- refusals ----------------------------------------------------------------------------

  lemma NoHeadersIff(response: seq<byte>)
    ensures TokenOf(response) == Err(NoHeaders) <==> !Contains(response, [13, 10, 13, 10])
  {
    hide Decode, StatusOk, PayloadOf, TrimBy;
    var index := Find(response, HEAD_END);
    assert HEAD_END == [13, 10, 13, 10];
    if Contains(response, HEAD_END) { var i: nat :| OccursAt(response, HEAD_END, i); }
  }

  /** A head that is not UTF-8 is refused whatever it says. */
  lemma NotUtf8Head(head: seq<byte>, body: seq<byte>)
    requires Find(head, HEAD_END) == Some(|head| - 4)
    ensures TokenOf(head + body) == Err(HeadersNotUtf8) <==> Decode(head).None?
  {
    hide Decode, StatusOk, PayloadOf, TrimBy, Find;
    FindStable(head, body, HEAD_END);
    assert (head + body)[..|head|] == head;
  }

  /** Padding alone is not a token. */
  lemma NoToken(head: seq<byte>, body: seq<byte>, pad: seq<byte>)
    requires IsOkHead(head) && |body| < USIZE_LIMIT / 2 && Carries(head, body, pad) && Pads(pad)
    ensures TokenOf(head + body) == Err(EmptyToken)
  {
    hide IsOkHead, Carries, TokenOf, TrimBy;
    CarriesIff(head, body, pad);
    TokenAfterHead(head, body);
    TrimPadded(pad, [], [], IsAsciiWhitespace);
    assert pad + [] + [] == pad;
  }

  // ---- printed heads -----------------------------------------------------------------------

  ghost predicate IsHeadLine(line: string) { line != "" && '\r' !in line && '\n' !in line }

  function HeadText(lines: seq<string>): string {
    if lines == [] then "\r\n" else lines[0] + "\r\n" + HeadText(lines[1..])
  }

  /** The lines of a head with a 200 status. */
  ghost predicate IsOkLines(lines: seq<string>) {
    lines != [] && (forall l :: l in lines ==> IsHeadLine(l)) && Contains(lines[0], " 200 ")
  }

  ghost predicate SayChunked(lines: seq<string>) { exists i :: 0 <= i < |lines| && SaysChunked(lines[i]) }

  /** Any status line with a 200 and any header lines print as a head, chunked exactly when one
      of the lines names that coding. */
  lemma PrintedHead(lines: seq<string>)
    requires IsOkLines(lines)
    ensures IsOkHead(Encode(HeadText(lines))) && Decode(Encode(HeadText(lines))) == Some(HeadText(lines))
    ensures IsChunked(HeadText(lines)) <==> SayChunked(lines)
  {
    hide IsOkStatus, Find, IsChunkedLine, SaysChunked, Lines, HeadText, Encode, Decode, IsHeadLine, Contains;
    Utf8.DecodeEncode(HeadText(lines));
    HeadLines(lines);
    HeadEnds(lines);
    NotChunkedLine();
    OkStatusIff(lines[0]);
    var ls := Lines(HeadText(lines));
    forall i | 0 <= i < |lines| ensures ls[i] == lines[i] && IsChunkedLine(ls[i]) == SaysChunked(lines[i]) {
      ChunkedLineIff(lines[i]);
    }
  }

  /** Whatever follows a head with another status is refused. */
  lemma OtherStatus(lines: seq<string>, body: seq<byte>)
    requires lines != [] && (forall l :: l in lines ==> IsHeadLine(l)) && !Contains(lines[0], " 200 ")
    ensures TokenOf(Encode(HeadText(lines)) + body) == Err(StatusNotOk)
  {
    hide IsOkStatus, Find, Lines, HeadText, Encode, Decode, IsHeadLine, Contains, PayloadOf, TrimBy;
    var head := Encode(HeadText(lines));
    Utf8.DecodeEncode(HeadText(lines));
    HeadLines(lines);
    HeadEnds(lines);
    OkStatusIff(lines[0]);
    FindStable(head, body, HEAD_END);
    assert (head + body)[..|head|] == head;
  }

  /** A response whose head does not name the coding: the padded token is the body. */
  lemma PlainResponse(lines: seq<string>, pre: seq<byte>, token: seq<byte>, suf: seq<byte>)
    requires IsOkLines(lines) && !SayChunked(lines)
    requires Pads(pre) && Pads(suf) && IsToken(token) && |pre + token + suf| < USIZE_LIMIT / 2
    ensures TokenOf(Encode(HeadText(lines)) + (pre + token + suf)) == Ok(token)
  {
    hide IsOkLines, SayChunked, IsOkHead, IsChunked, HeadText, Encode, Decode, TokenOf, Pads, IsToken;
    PrintedHead(lines);
    FramingDoesNotShow(Encode(HeadText(lines)), pre + token + suf, pre, token, suf);
  }

  /** A response whose head does, with the padded token cut and printed as chunks in any way. */
  lemma ChunkedResponse(lines: seq<string>, pieces: seq<Piece>, last: Piece, trailer: seq<byte>,
                        pre: seq<byte>, token: seq<byte>, suf: seq<byte>)
    requires IsOkLines(lines) && SayChunked(lines)
    requires Pads(pre) && Pads(suf) && IsToken(token) && Payload(ToChunks(pieces)) == pre + token + suf
    requires (forall p :: p in pieces ==> IsPiece(p)) && IsExtension(last.ext)
    requires |PrintChunks(ToChunks(pieces))| + |last.ext| + 3 + |trailer| < USIZE_LIMIT / 2
    ensures TokenOf(Encode(HeadText(lines)) + ChunkedText(pieces, last, trailer)) == Ok(token)
  {
    hide IsOkLines, SayChunked, IsOkHead, IsChunked, HeadText, Encode, Decode, TokenOf, Pads, IsToken;
    hide DecodeFrom, Payload, PrintChunks, ToChunks, PrintHeader, Carries;
    var head, body := Encode(HeadText(lines)), ChunkedText(pieces, last, trailer);
    PrintedHead(lines);
    ChunkedRoundTrip(pieces, last, trailer);
    PrintedSize(last);
    CarriesIff(head, body, pre + token + suf);
    FramingDoesNotShow(head, body, pre, token, suf);
  }

  /** Such a header line may hold other codings before and after. */
  lemma ChunkedHeader(name: string, value: string, before: string, after: string)
    requires Lower(name) == "transfer-encoding" && Lower(value) == "chunked"
    ensures SaysChunked(name + ":" + before + value + after)
  {
    var v := before + value + after;
    assert IsHeader(name + ":" + before + value + after, name, v);
    assert Lower(v)[|before|..|before| + 7] == Lower(value);
    assert OccursAt(Lower(v), "chunked", |before|);
    assert ':' !in name by {
      forall i | 0 <= i < |name| ensures name[i] != ':' {
        assert Lower(name)[i] == LowerChar(name[i]) && Lower(name)[i] in "transfer-encoding";
      }
    }
  }

  lemma StatusLine(version: string, reason: string)
    ensures Contains(version + " 200 " + reason, " 200 ")
  {
    assert OccursAt(" 200 ", " 200 ", 0);
    PartContains(version, " 200 ", reason, " 200 ");
  }

  lemma LowerLauncher()
    ensures Lower("Transfer-Encoding") == "transfer-encoding" && Lower("chunked") == "chunked"
  {}

  lemma LauncherChunked()
    ensures SaysChunked("Transfer-Encoding: chunked")
  {
    hide SaysChunked, Lower, IsHeader;
    LowerLauncher();
    ChunkedHeader("Transfer-Encoding", "chunked", " ", "");
    assert "Transfer-Encoding" + ":" + " " + "chunked" + "" == "Transfer-Encoding: chunked";
  }

  lemma TwoLines(a: string, b: string)
    requires IsHeadLine(a) && IsHeadLine(b) && Contains(a, " 200 ") && SaysChunked(b)
    ensures IsOkLines([a, b]) && SayChunked([a, b])
  {
    hide SaysChunked, Contains;
    assert [a, b][1] == b;
  }

  lemma LauncherLines()
    ensures IsHeadLine("HTTP/1.1 200 OK") && IsHeadLine("Transfer-Encoding: chunked")
  {}

  /** The head of a chunked answer as the launcher sends it. */
  lemma LauncherHead()
    ensures IsOkLines(["HTTP/1.1 200 OK", "Transfer-Encoding: chunked"])
    ensures SayChunked(["HTTP/1.1 200 OK", "Transfer-Encoding: chunked"])
  {
    hide SaysChunked, Contains, IsOkLines, SayChunked, IsHeadLine;
    LauncherLines();
    StatusLine("HTTP/1.1", "OK");
    assert "HTTP/1.1" + " 200 " + "OK" == "HTTP/1.1 200 OK";
    LauncherChunked();
    TwoLines("HTTP/1.1 200 OK", "Transfer-Encoding: chunked");
  }

  lemma NotChunkedLine()
    ensures !IsChunkedLine("")
  {
    assert SplitOnce("", ':').None?;
  }

  lemma LinesCons(line: string, rest: string)
    requires '\r' !in line && '\n' !in line
    ensures Lines(line + "\r\n" + rest) == [line] + Lines(rest)
  {
    assert line + "\r\n" + rest == (line + "\r") + ['\n'] + rest;
    SplitOnceAt(line + "\r", '\n', rest);
    assert StripCr(line + "\r") == line;
  }

  lemma {:induction false} HeadLines(lines: seq<string>)
    requires forall l :: l in lines ==> IsHeadLine(l)
    ensures Lines(HeadText(lines)) == lines + [""]
  {
    hide Lines;
    if lines == [] {
      LinesCons("", "");
      assert "" + "\r\n" + "" == "\r\n";
      NoLines();
    } else {
      assert IsHeadLine(lines[0]) by { assert lines[0] in lines; }
      LinesCons(lines[0], HeadText(lines[1..]));
      HeadLines(lines[1..]);
      assert lines + [""] == [lines[0]] + (lines[1..] + [""]);
    }
  }

  lemma NoLines()
    ensures Lines("") == []
  {}

  lemma LineBytes(line: string)
    requires IsHeadLine(line)
    ensures Encode(line) != [] && 13 !in Encode(line) && 10 !in Encode(line)
  {
    AsciiByteInEncoded(line, 13);
    AsciiByteInEncoded(line, 10);
  }

  /** The first empty line of a printed head is its last. */
  lemma HeadCons(lines: seq<string>)
    requires lines != []
    ensures Encode(HeadText(lines)) == Encode(lines[0]) + CRLF + Encode(HeadText(lines[1..]))
    ensures Encode(HeadText([])) == CRLF
  {
    EncodeConcat(lines[0] + "\r\n", HeadText(lines[1..]));
    EncodeConcat(lines[0], "\r\n");
    assert Encode("\r\n") == CRLF by { assert "\r\n"[1..] == "\n" && "\n"[1..] == ""; }
  }

  lemma {:induction false} HeadEnds(lines: seq<string>)
    requires lines != [] && forall l :: l in lines ==> IsHeadLine(l)
    ensures var head := Encode(HeadText(lines));
            |head| >= 4 && head[0] != 13 && Find(head, HEAD_END) == Some(|head| - 4)
  {
    hide Encode, HeadText, Find;
    var line, rest := Encode(lines[0]), Encode(HeadText(lines[1..]));
    HeadCons(lines);
    LineBytes(lines[0]);
    if |lines| == 1 {
      assert lines[1..] == [];
    } else {
      HeadEnds(lines[1..]);
    }
    EndOfHead(line, rest);
  }

  lemma EndOfHead(line: seq<byte>, rest: seq<byte>)
    requires line != [] && 13 !in line && 10 !in line
    requires rest == CRLF || (|rest| >= 4 && rest[0] != 13 && Find(rest, HEAD_END) == Some(|rest| - 4))
    ensures var head := line + CRLF + rest; Find(head, HEAD_END) == Some(|head| - 4)
  {
    hide Find;
    var head := line + CRLF + rest;
    LastFour(line + CRLF, rest);
    assert OccursAt(head, HEAD_END, |head| - 4) by {
      if rest == CRLF { assert head[|line|..|line| + 4] == CRLF + CRLF; }
    }
    var i := Find(head, HEAD_END).value;
    OccurrenceInRest(line, rest, i);
  }

  lemma LastFour(before: seq<byte>, rest: seq<byte>)
    ensures |rest| >= 4 && OccursAt(rest, HEAD_END, |rest| - 4) ==> OccursAt(before + rest, HEAD_END, |before + rest| - 4)
  {
    if |rest| >= 4 {
      var n := |rest| - 4;
      assert (before + rest)[|before| + n..|before| + n + 4] == rest[n..n + 4];
    }
  }

  lemma OccurrenceInRest(line: seq<byte>, rest: seq<byte>, i: nat)
    requires 13 !in line && 10 !in line && OccursAt(line + CRLF + rest, HEAD_END, i)
    ensures i >= |line| && i != |line| + 1
    ensures i == |line| ==> rest != [] && rest[0] == 13
    ensures i >= |line| + 2 ==> OccursAt(rest, HEAD_END, i - |line| - 2)
  {
    var head := line + CRLF + rest;
    var w := head[i..i + 4];
    assert head[i] == w[0] == 13 && head[i + 1] == w[1] == 10 && head[i + 2] == w[2] == 13;
    if i >= |line| + 2 {
      assert rest[i - |line| - 2..][..4] == w;
    }
  }
}
