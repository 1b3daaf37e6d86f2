/** The text of the CONNECT handshake (section 9.3.6 of RFC 9110) between local proxy and gateway. */
module ConnectText {
  import opened Wrappers
  import opened Text
  import opened Urls

  // ---- what the local proxy writes ---------------------------------------------------------

  /** `relay_authority`: a URL's host and explicit or default port. */
  function RelayAuthority(url: Url): Option<string> {
    match (url.host, url.port)
    case (Some(host), Some(port)) => Some(host + ":" + Decimal(port))
    case _ => None
  }

  /** An authority determines host and port, and is what the URL's origin names behind its scheme. */
  lemma AuthorityMeaning(a: Url, b: Url)
    ensures RelayAuthority(a).Some? <==> a.host.Some? && a.port.Some?
    ensures RelayAuthority(a).Some? && RelayAuthority(a) == RelayAuthority(b) ==> a.host == b.host && a.port == b.port
    ensures RelayAuthority(a).Some? && Lower(a.host.value) == a.host.value ==>
              OriginText(a.scheme, Lower(a.host.value), a.port.value) == a.scheme + "://" + RelayAuthority(a).value
  {
    hide Decimal, Lower;
    if RelayAuthority(a).Some? && RelayAuthority(a) == RelayAuthority(b) {
      HostPortInjective(a.host.value, a.port.value, b.host.value, b.port.value);
    }
  }

  function RequestText(authority: string, token: string): string {
    "CONNECT " + authority + " HTTP/1.1\r\n" + "Host: " + authority + "\r\n"
    + "Authorization: Bearer " + token + "\r\n" + "\r\n"
  }

  /** The lines that a line reader finds in it: more than four where authority or token contain
      line feeds. */
  function RequestLines(authority: string, token: string): seq<string> { CutLines(RequestText(authority, token)) }

  // ---- how the gateway reads it ------------------------------------------------------------

  datatype Settings = Settings(relayAddr: string, token: string)

  datatype Verdict = NotConnect | BadToken | BadTarget | Dial

  function IsEol(c: char): bool { c == '\r' || c == '\n' }

  function Unterminated(line: string): string { TrimEnd(line, IsEol) }

  /** The characters before the first whitespace. */
  function Word(s: string): (w: string)
    ensures w <= s && forall c :: c in w ==> !IsWhitespace(c)
  {
    if s == "" || IsWhitespace(s[0]) then "" else [s[0]] + Word(s[1..])
  }

  /** The first two items of `split_whitespace`, empty where there are fewer. */
  function TwoWords(s: string): (string, string) {
    var t := TrimStart(s, IsWhitespace);
    var first := Word(t);
    (first, Word(TrimStart(t[|first|..], IsWhitespace)))
  }

  function RequestLine(line: string): (string, string) { TwoWords(Unterminated(line)) }

  /** What an Authorization line says about the token; None for any other line. */
  function Authorization(line: string, expected: string): Option<bool> {
    match SplitOnce(Unterminated(line), ':')
    case None => None
    case Some((name, value)) =>
      if Lower(name) == "authorization" then Some(Trim(value) == "Bearer " + expected) else None
  }

  predicate IsBlank(line: string) { Unterminated(line) == "" }

  lemma {:induction false} BlankIff(line: string)
    ensures IsBlank(line) <==> forall c :: c in line ==> c in {'\r', '\n'}
  {
    if line != "" {
      var init := line[..|line| - 1];
      assert line == init + [line[|line| - 1]];
      TrimEndRound(line, IsEol);
      assert line[|line| - 1] in line;
      if IsEol(line[|line| - 1]) {
        BlankIff(init);
        assert forall c :: c in line <==> c in init || c == line[|line| - 1];
      }
    } else {
      TrimEndRound(line, IsEol);
    }
  }

  /** The last Authorization line among `headers` decides. */
  function Authorized(headers: seq<string>, expected: string): bool {
    if headers == [] then false
    else match Authorization(headers[|headers| - 1], expected)
      case Some(b) => b
      case None => Authorized(headers[..|headers| - 1], expected)
  }

  /** Let in are headers with an Authorization line of which the last one has the token. */
  lemma {:induction false} AuthorizedIff(headers: seq<string>, expected: string)
    ensures Authorized(headers, expected) <==>
            exists i :: 0 <= i < |headers| && Authorization(headers[i], expected) == Some(true)
              && forall j :: i < j < |headers| ==> Authorization(headers[j], expected) == None
  {
    hide Authorization;
    if headers != [] {
      var init := headers[..|headers| - 1];
      AuthorizedIff(init, expected);
      if i :| 0 <= i < |init| && Authorization(init[i], expected) == Some(true)
              && forall j :: i < j < |init| ==> Authorization(init[j], expected) == None {
        assert headers[i] == init[i];
      }
    }
  }

  lemma AuthorizedNext(headers: seq<string>, line: string, expected: string)
    ensures Authorized(headers + [line], expected) ==
            match Authorization(line, expected) case Some(b) => b case None => Authorized(headers, expected)
  {
    assert (headers + [line])[..|headers|] == headers;
  }

  /** The header block: the lines before the first blank one, or None where there is no blank one. */
  function Headers(lines: seq<string>): (r: Option<seq<string>>)
    ensures r.Some? ==>
              && r.value < lines && IsBlank(lines[|r.value|])
              && forall i :: 0 <= i < |r.value| ==> !IsBlank(lines[i])
  {
    if lines == [] then None
    else if IsBlank(lines[0]) then Some([])
    else match Headers(lines[1..])
      case None => None
      case Some(rest) => Some([lines[0]] + rest)
  }

  function VerdictOn(authority: string, authorized: bool, settings: Settings): Verdict {
    if !authorized then BadToken
    else if authority != settings.relayAddr then BadTarget
    else Dial
  }

  /** What the gateway decides on the lines of a connection that then ends; None: it closes silently. */
  function Decided(lines: seq<string>, settings: Settings): Option<Verdict> {
    if lines == [] then None
    else
      var (verb, authority) := RequestLine(lines[0]);
      if verb != "CONNECT" then Some(NotConnect)
      else match Headers(lines[1..])
        case None => None
        case Some(headers) => Some(VerdictOn(authority, Authorized(headers, settings.token), settings))
  }

  lemma {:induction false} HeadersFrom(lines: seq<string>, i: nat)
    requires i <= |lines| && forall j :: 0 <= j < i ==> !IsBlank(lines[j])
    ensures i == |lines| ==> Headers(lines) == None
    ensures i < |lines| && IsBlank(lines[i]) ==> Headers(lines) == Some(lines[..i])
  {
    if i > 0 {
      HeadersFrom(lines[1..], i - 1);
      if i < |lines| { assert lines[..i] == [lines[0]] + lines[1..][..i - 1]; }
    }
  }

  /** The reading part of `handle_connection`, over the lines that arrive. */
  method ReadHead(lines: seq<string>, settings: Settings) returns (r: Option<Verdict>)
    ensures r == Decided(lines, settings)
  {
    hide RequestLine, Authorization, IsBlank;
    if lines == [] { return None; }
    var (verb, authority) := RequestLine(lines[0]);
    if verb != "CONNECT" { return Some(NotConnect); }
    var authorized := false;
    var i := 1;
    ghost var rest := lines[1..];
    while true
      invariant 1 <= i <= |lines|
      invariant forall j :: 0 <= j < i - 1 ==> !IsBlank(rest[j])
      invariant authorized == Authorized(rest[..i - 1], settings.token)
      decreases |lines| - i
    {
      HeadersFrom(rest, i - 1);
      if i == |lines| { return None; }
      if IsBlank(lines[i]) { break; }
      var says := Authorization(lines[i], settings.token);
      if says.Some? { authorized := says.value; }
      assert rest[..i][..i - 1] == rest[..i - 1];
      i := i + 1;
    }
    r := Some(VerdictOn(authority, authorized, settings));
  }

  // ---- what it answers ---------------------------------------------------------------------

  function Rejection(status: string, body: string): seq<string> {
    ["HTTP/1.1 " + status + "\r\n", "Content-Length: " + Decimal(|body|) + "\r\n", "Connection: close\r\n", "\r\n", body]
  }

  lemma TwoDigits()
    ensures Decimal(16) == "16" && Decimal(20) == "20" && Decimal(24) == "24"
  {
    assert Decimal(1) == "1" && Decimal(2) == "2";
  }

  /** The rejections as they are written. */
  lemma Rejections()
    ensures Answer(NotConnect) ==
            ["HTTP/1.1 405 Method Not Allowed\r\n", "Content-Length: 16\r\n", "Connection: close\r\n", "\r\n", "CONNECT required"]
    ensures Answer(BadToken) ==
            ["HTTP/1.1 403 Forbidden\r\n", "Content-Length: 20\r\n", "Connection: close\r\n", "\r\n", "invalid tunnel token"]
    ensures Answer(BadTarget) ==
            ["HTTP/1.1 403 Forbidden\r\n", "Content-Length: 24\r\n", "Connection: close\r\n", "\r\n", "relay target not allowed"]
  {
    TwoDigits();
    assert Rejection("405 Method Not Allowed", "CONNECT required")[0] == "HTTP/1.1 405 Method Not Allowed\r\n";
    assert Rejection("403 Forbidden", "invalid tunnel token")[0] == "HTTP/1.1 403 Forbidden\r\n";
    assert Rejection("403 Forbidden", "relay target not allowed")[0] == "HTTP/1.1 403 Forbidden\r\n";
    assert "Content-Length: " + "16" + "\r\n" == "Content-Length: 16\r\n";
    assert "Content-Length: " + "20" + "\r\n" == "Content-Length: 20\r\n";
    assert "Content-Length: " + "24" + "\r\n" == "Content-Length: 24\r\n";
  }

  /** The lines of the answer; after `Dial`, of the answer to a dial that succeeds. */
  function Answer(v: Verdict): (r: seq<string>)
    ensures |r| >= 2
  {
    match v
    case NotConnect => Rejection("405 Method Not Allowed", "CONNECT required")
    case BadToken => Rejection("403 Forbidden", "invalid tunnel token")
    case BadTarget => Rejection("403 Forbidden", "relay target not allowed")
    case Dial => ["HTTP/1.1 200 Connection Established\r\n", "\r\n"]
  }

  /** How the local proxy judges the status line. */
  ghost predicate StatusAccepted(line: string) { Contains(line, " 200 ") }

  predicate EndsAnswer(line: string) { line == "\r\n" || line == "\n" }

  /** The reading part of `connect_transport`: `used` lines are consumed when the tunnel is there. */
  method ReadAnswer(lines: seq<string>) returns (connected: bool, used: nat)
    ensures connected <==>
            lines != [] && Contains(lines[0], " 200 ") && exists j :: 1 <= j < |lines| && lines[j] in ["\r\n", "\n"]
    ensures connected ==> 2 <= used <= |lines| && lines[used - 1] in ["\r\n", "\n"]
    ensures connected ==> forall j :: 1 <= j < used - 1 ==> lines[j] !in ["\r\n", "\n"]
  {
    var status := if lines == [] then "" else lines[0];
    if Find(status, " 200 ").None? { return false, 0; }
    assert StatusAccepted(status);
    if lines == [] {
      ContainsElements(status, " 200 ", '2');
      assert false;
    }
    used := 1;
    while used < |lines|
      invariant 1 <= used <= |lines|
      invariant forall j :: 1 <= j < used ==> !EndsAnswer(lines[j])
    {
      used := used + 1;
      if EndsAnswer(lines[used - 1]) { return true, used; }
    }
    connected := false;
  }

  lemma RefusedStatus(status: string, body: string)
    requires '2' !in status && |status| > 0
    ensures var line := Rejection(status, body)[0]; !StatusAccepted(line) && !EndsAnswer(line)
  {
    var line := "HTTP/1.1 " + status + "\r\n";
    assert line == Rejection(status, body)[0];
    ContainsElements(line, " 200 ", '2');
  }

  lemma SelfContains(s: string)
    ensures Contains(s, s)
  {
    assert OccursAt(s, s, 0);
  }

  lemma AcceptedStatus()
    ensures StatusAccepted(Answer(Dial)[0]) && !EndsAnswer(Answer(Dial)[0]) && EndsAnswer(Answer(Dial)[1])
  {
    hide Rejection;
    var code, rest := " 200 ", "Connection Established\r\n";
    assert Answer(Dial)[0] == "HTTP/1.1" + code + rest;
    SelfContains(code);
    PartContains("HTTP/1.1", code, rest, code);
  }

  /** Every rejection is refused on its status line, and only the answer to a dial is accepted. */
  lemma OnlyDialAccepted(v: Verdict)
    ensures StatusAccepted(Answer(v)[0]) <==> v.Dial?
    ensures !EndsAnswer(Answer(v)[0])
  {
    hide StatusAccepted, EndsAnswer, Rejection;
    match v {
      case Dial => AcceptedStatus();
      case NotConnect => RefusedStatus("405 Method Not Allowed", "CONNECT required");
      case BadToken => RefusedStatus("403 Forbidden", "invalid tunnel token");
      case BadTarget => RefusedStatus("403 Forbidden", "relay target not allowed");
    }
  }

  // ---- the request read back ---------------------------------------------------------------

  lemma {:induction false} TrimEndTwice<T>(s: seq<T>, p: T -> bool, q: T -> bool)
    requires forall c :: p(c) ==> q(c)
    ensures TrimEnd(TrimEnd(s, p), q) == TrimEnd(s, q)
  {
    if s != [] { TrimEndTwice(s[..|s| - 1], p, q); }
  }

  lemma LineUnterminated(pre: string, s: string)
    requires pre != "" && !IsEol(pre[|pre| - 1])
    ensures Unterminated(pre + s + "\r\n") == pre + Unterminated(s)
  {
    assert pre + s + "\r\n" == pre + (s + "\r\n");
    TrimEndAfter(pre, s + "\r\n", IsEol);
    TrimEndPadding(s, "\r\n", IsEol);
  }

  lemma {:induction false} WordThen(w: string, rest: string)
    requires forall c :: c in w ==> !IsWhitespace(c)
    requires rest == "" || IsWhitespace(rest[0])
    ensures Word(w + rest) == w
  {
    if w == "" {
      assert w + rest == rest;
    } else {
      assert (w + rest)[1..] == w[1..] + rest;
      WordThen(w[1..], rest);
    }
  }

  predicate IsAuthority(s: string) { s != "" && forall c :: c in s ==> !IsWhitespace(c) }

  /** Whatever authority and token are: lines that begin with a CONNECT and hold a blank one. */
  lemma RequestShape(authority: string, token: string)
    ensures var l := RequestLines(authority, token);
            && |l| >= 2 && (forall k :: k in l ==> IsTextLine(k))
            && RequestLine(l[0]).0 == "CONNECT" && Headers(l[1..]).Some?
  {
    hide Headers, RequestLine, CutLines, IsTextLine, IsBlank;
    var headers := " HTTP/1.1\r\n" + "Host: " + authority + "\r\n" + "Authorization: Bearer " + token + "\r\n";
    var text := RequestText(authority, token);
    assert text == "CONNECT " + (authority + headers + "\r\n");
    assert text == ("CONNECT " + (authority + headers)) + "\r\n";
    EndsBlank("CONNECT " + (authority + headers));
    CutIsLines(text);
    BlankEnds(RequestLines(authority, token)[1..]);
    FirstVerb(authority + headers + "\r\n");
  }

  lemma EndsBlank(most: string)
    requires most != "" && most[|most| - 1] == '\n'
    ensures var l := CutLines(most + "\r\n"); |l| >= 2 && l[|l| - 1] == "\r\n"
  {
    hide CutLines;
    CutAppend(most, "\r\n");
    BlankCut();
  }

  lemma BlankCut()
    ensures CutLines("\r\n") == ["\r\n"]
  {
    CutFirst("\r", "");
    SplitOnceNone("", '\n');
    assert "\r" + "\n" + "" == "\r\n" && "\r" + "\n" == "\r\n";
  }

  lemma {:induction false} BlankEnds(lines: seq<string>)
    requires lines != [] && lines[|lines| - 1] == "\r\n"
    ensures Headers(lines).Some?
  {
    if |lines| == 1 {
      TrimEndRound("\r\n", IsEol);
      assert "\r\n"[..1] == "\r";
      TrimEndRound("\r", IsEol);
      assert "\r"[..0] == "";
    } else {
      BlankEnds(lines[1..]);
    }
  }

  lemma FirstVerb(rest: string)
    ensures CutLines("CONNECT " + rest) != [] && RequestLine(CutLines("CONNECT " + rest)[0]).0 == "CONNECT"
  {
    hide CutLines, RequestLine;
    CutStart("CONNECT ", rest);
    var line := CutLines("CONNECT " + rest)[0];
    assert line == "CONNECT " + line[8..];
    VerbOf(line[8..]);
  }

  lemma VerbOf(tail: string)
    ensures RequestLine("CONNECT " + tail).0 == "CONNECT"
  {
    hide TrimEnd, TrimStart;
    TrimEndAfter("CONNECT ", tail, IsEol);
    var u := " " + TrimEnd(tail, IsEol);
    assert Unterminated("CONNECT " + tail) == "CONNECT" + u;
    TrimStartRound("CONNECT" + u, IsWhitespace);
    WordThen("CONNECT", u);
  }

  /** The lines up to and including the first blank header. */
  function HeadLength(authority: string, token: string): (n: nat)
    ensures 2 <= n <= |RequestLines(authority, token)|
  {
    RequestShape(authority, token);
    |Headers(RequestLines(authority, token)[1..]).value| + 2
  }

  /** The lines behind that: the gateway takes them for the client's first bytes. */
  function Leftover(authority: string, token: string): seq<string> {
    RequestLines(authority, token)[HeadLength(authority, token)..]
  }

  /** The gateway's verdict on the request, for any authority and token. */
  lemma RequestDecided(authority: string, token: string, settings: Settings)
    ensures var l, n := RequestLines(authority, token), HeadLength(authority, token);
            && (forall k :: 1 <= k < n - 1 ==> !IsBlank(l[k])) && IsBlank(l[n - 1])
            && Decided(l, settings) == Some(VerdictOn(RequestLine(l[0]).1, Authorized(l[1..n - 1], settings.token), settings))
  {
    hide RequestLine, IsBlank, Authorized, RequestText;
    var l, n := RequestLines(authority, token), HeadLength(authority, token);
    RequestShape(authority, token);
    var headers := Headers(l[1..]).value;
    assert headers == l[1..n - 1];
    forall k | 1 <= k < n - 1 ensures !IsBlank(l[k]) { assert l[1..][k - 1] == l[k]; }
  }

  lemma TwoWordsOf(a: string, b: string, rest: string)
    requires IsAuthority(a) && IsAuthority(b) && (rest == "" || IsWhitespace(rest[0]))
    ensures TwoWords(a + " " + b + rest) == (a, b)
  {
    hide TrimStart, Word;
    var tail := " " + (b + rest);
    assert a + " " + b + rest == a + tail;
    TrimStartRound(a + tail, IsWhitespace);
    WordThen(a, tail);
    assert (a + tail)[|a|..] == tail && tail[1..] == b + rest;
    TrimStartRound(tail, IsWhitespace);
    TrimStartRound(b + rest, IsWhitespace);
    WordThen(b, rest);
  }

  lemma HeaderValue(name: string, value: string, line: string, expected: string)
    requires ':' !in name && line == name + ":" + value + "\r\n"
    ensures Authorization(line, expected) ==
            if Lower(name) == "authorization" then Some(Trim(Unterminated(value)) == "Bearer " + expected) else None
  {
    assert line == (name + ":") + value + "\r\n";
    LineUnterminated(name + ":", value);
    assert (name + ":") + Unterminated(value) == name + [':'] + Unterminated(value);
    SplitOnceAt(name, ':', Unterminated(value));
  }

  /** Whatever follows "Bearer " is compared without its trailing whitespace; where nothing is left,
      not even the space before it is, and no token matches. */
  lemma BearerReadBack(token: string, expected: string)
    ensures Trim(Unterminated(" Bearer " + token)) == "Bearer " + expected
            <==> expected != "" && TrimEnd(token, IsWhitespace) == expected
  {
    hide TrimEnd, Trim;
    BearerTrimmed(token);
    SpaceTrimmed(token);
    var v := TrimEnd(" " + token, IsWhitespace);
    assert "Bearer " + expected == "Bearer" + (" " + expected);
    SamePrefix("Bearer", v, " " + expected);
    SamePrefix(" ", TrimEnd(token, IsWhitespace), expected);
  }

  lemma SamePrefix(a: string, x: string, y: string)
    ensures a + x == a + y <==> x == y
  {
    if a + x == a + y { assert x == (a + x)[|a|..] == (a + y)[|a|..] == y; }
  }

  lemma BearerTrimmed(token: string)
    ensures Trim(Unterminated(" Bearer " + token)) == "Bearer" + TrimEnd(" " + token, IsWhitespace)
  {
    hide TrimEnd, TrimStart;
    assert " Bearer" + (" " + token) == " Bearer " + token;
    TrimEndAfter(" Bearer", " " + token, IsEol);
    var u := TrimEnd(" " + token, IsEol);
    TrimStartRound(" Bearer" + u, IsWhitespace);
    assert (" Bearer" + u)[1..] == "Bearer" + u;
    TrimStartRound("Bearer" + u, IsWhitespace);
    TrimEndAfter("Bearer", u, IsWhitespace);
    TrimEndTwice(" " + token, IsEol, IsWhitespace);
  }

  lemma {:induction false} SpaceTrimmed(s: string)
    ensures TrimEnd(" " + s, IsWhitespace) ==
            if TrimEnd(s, IsWhitespace) == "" then "" else " " + TrimEnd(s, IsWhitespace)
  {
    var t := " " + s;
    if s == "" {
      TrimEndRound(t, IsWhitespace);
      assert t[..0] == "";
    } else {
      assert t[..|t| - 1] == " " + s[..|s| - 1];
      if IsWhitespace(s[|s| - 1]) { SpaceTrimmed(s[..|s| - 1]); }
    }
  }

  // ---- the request of one word and any token -----------------------------------------------

  /** The pieces of the token as header lines. */
  function TokenLines(pre: string, pieces: seq<string>): seq<string>
    requires pieces != []
    decreases |pieces|
  {
    if |pieces| == 1 then [pre + pieces[0] + "\r\n"]
    else [pre + pieces[0] + "\n"] + TokenLines("", pieces[1..])
  }

  lemma {:induction false} CutToken(pre: string, token: string)
    requires '\n' !in pre
    ensures CutLines(pre + token + "\r\n" + "\r\n") == TokenLines(pre, Split(token, '\n')) + ["\r\n"]
    decreases |token|
  {
    hide CutLines, SplitOnce;
    var text := pre + token + "\r\n" + "\r\n";
    match SplitOnce(token, '\n') {
      case None =>
        assert text == (pre + token + "\r") + "\n" + "\r\n";
        CutFirst(pre + token + "\r", "\r\n");
        BlankCut();
        assert pre + token + "\r" + "\n" == pre + token + "\r\n";
      case Some((a, b)) =>
        var rest := "" + b + "\r\n" + "\r\n";
        assert text == (pre + a) + "\n" + rest;
        CutFirst(pre + a, rest);
        CutToken("", b);
        assert Split(token, '\n')[1..] == Split(b, '\n');
    }
  }

  const BEARER := "Authorization: Bearer "

  /** For an authority without line feeds: the request line, the Host line, the pieces of the token
      and a blank line. */
  lemma RequestCut(authority: string, token: string)
    requires '\n' !in authority
    ensures RequestLines(authority, token) ==
            ["CONNECT " + authority + " HTTP/1.1\r\n", "Host: " + authority + "\r\n"]
            + (TokenLines(BEARER, Split(token, '\n')) + ["\r\n"])
  {
    hide CutLines, TokenLines, Split;
    var rest := BEARER + token + "\r\n" + "\r\n";
    var host := "Host: " + authority + "\r";
    var first := "CONNECT " + authority + " HTTP/1.1\r";
    assert RequestText(authority, token) == first + "\n" + (host + "\n" + rest);
    CutFirst(first, host + "\n" + rest);
    CutFirst(host, rest);
    CutToken(BEARER, token);
    assert first + "\n" == "CONNECT " + authority + " HTTP/1.1\r\n" && host + "\n" == "Host: " + authority + "\r\n";
  }

  /** What a reader of lines makes of a line depends only on what is before its end. */
  ghost predicate SameText(a: seq<string>, b: seq<string>) {
    |a| == |b| && forall i :: 0 <= i < |a| ==> Unterminated(a[i]) == Unterminated(b[i])
  }

  lemma {:induction false} SameAuthorized(a: seq<string>, b: seq<string>, expected: string)
    requires SameText(a, b)
    ensures Authorized(a, expected) == Authorized(b, expected)
  {
    hide Unterminated;
    if a != [] {
      var n := |a| - 1;
      assert Unterminated(a[n]) == Unterminated(b[n]);
      SameAuthorized(a[..n], b[..n], expected);
    }
  }

  /** The lines before the first blank one, or all of them. */
  function BeforeBlank(lines: seq<string>): seq<string> {
    if lines == [] || IsBlank(lines[0]) then [] else [lines[0]] + BeforeBlank(lines[1..])
  }

  lemma {:induction false} TokenHeaders(pre: string, pieces: seq<string>)
    requires pieces != []
    ensures var h := Headers(TokenLines(pre, pieces) + ["\r\n"]);
            h.Some? && SameText(h.value, BeforeBlank([pre + pieces[0]] + pieces[1..]))
    ensures |TokenLines(pre, pieces)| == |pieces|
    decreases |pieces|
  {
    hide Unterminated;
    var lines, plain := TokenLines(pre, pieces) + ["\r\n"], [pre + pieces[0]] + pieces[1..];
    TerminatorsTrimmed(pre + pieces[0]);
    TerminatorsTrimmed("");
    assert "" + "\r\n" == "\r\n" && Unterminated("") == "" by { TrimEndRound("", IsEol); EmptyUnterminated(); }
    assert Unterminated(lines[0]) == Unterminated(plain[0]);
    assert plain[1..] == pieces[1..];
    if |pieces| == 1 {
      assert lines[1..] == ["\r\n"] && Headers(["\r\n"]) == Some([]);
    } else {
      var rest := pieces[1..];
      TokenHeaders("", rest);
      assert "" + rest[0] == rest[0] && [rest[0]] + rest[1..] == rest;
      assert lines[1..] == TokenLines("", rest) + ["\r\n"];
    }
  }

  lemma EmptyUnterminated()
    ensures Unterminated("") == ""
  {}

  lemma TerminatorsTrimmed(s: string)
    ensures Unterminated(s + "\n") == Unterminated(s) && Unterminated(s + "\r\n") == Unterminated(s)
  {
    TrimEndPadding(s, "\n", IsEol);
    TrimEndPadding(s, "\r\n", IsEol);
  }

  /** The header lines that the token makes, as far as the gateway reads them. */
  function TokenHead(token: string): seq<string> {
    var pieces := Split(token, '\n');
    BeforeBlank([BEARER + pieces[0]] + pieces[1..])
  }

  lemma HostLine(authority: string, expected: string)
    ensures var host := "Host: " + authority + "\r\n"; !IsBlank(host) && Authorization(host, expected) == None
  {
    hide Unterminated;
    var host := "Host: " + authority + "\r\n";
    assert host == "Host" + ":" + (" " + authority) + "\r\n";
    HeaderValue("Host", " " + authority, host, expected);
    assert Lower("Host")[0] == 'h' && "authorization"[0] == 'a';
    LineUnterminated("Host: ", authority);
  }

  lemma {:induction false} AuthorizedAfter(line: string, headers: seq<string>, expected: string)
    requires Authorization(line, expected) == None
    ensures Authorized([line] + headers, expected) == Authorized(headers, expected)
  {
    hide Authorization;
    var all := [line] + headers;
    if headers == [] {
      assert all[..0] == [];
    } else {
      assert all[..|all| - 1] == [line] + headers[..|headers| - 1];
      AuthorizedAfter(line, headers[..|headers| - 1], expected);
    }
  }

  /** The header block of a request with a one-line authority, and what is left behind it. */
  lemma HeaderBlock(authority: string, token: string)
    requires '\n' !in authority
    ensures var headers := Headers(RequestLines(authority, token)[1..]);
            headers.Some? && headers.value != []
            && headers.value[0] == "Host: " + authority + "\r\n" && SameText(headers.value[1..], TokenHead(token))
    ensures |RequestLines(authority, token)| == |Split(token, '\n')| + 3
  {
    hide CutLines, TokenLines, Split, Unterminated, RequestText, BeforeBlank;
    var pieces := Split(token, '\n');
    var host, lines := "Host: " + authority + "\r\n", TokenLines(BEARER, pieces) + ["\r\n"];
    RequestCut(authority, token);
    TokenHeaders(BEARER, pieces);
    HostLine(authority, "");
    assert RequestLines(authority, token)[1..] == [host] + lines;
    assert ([host] + lines)[1..] == lines;
    assert ([host] + Headers(lines).value)[1..] == Headers(lines).value;
  }

  /** The gateway takes bytes of the request for the client's exactly if, after the token's first
      line feed, some piece of it is nothing but carriage returns. */
  lemma LeftoverIff(authority: string, token: string)
    requires '\n' !in authority
    ensures var pieces := Split(token, '\n');
            Leftover(authority, token) == [] <==> forall i :: 1 <= i < |pieces| ==> !IsBlank(pieces[i])
  {
    hide Split, RequestLines, Unterminated, BeforeBlank, IsBlank, Headers;
    var pieces := Split(token, '\n');
    var plain := [BEARER + pieces[0]] + pieces[1..];
    HeaderBlock(authority, token);
    BearerNotBlank(pieces[0]);
    AllBeforeBlank(plain);
    assert forall i :: 1 <= i < |pieces| ==> plain[i] == pieces[i];
  }

  lemma BearerNotBlank(piece: string)
    ensures !IsBlank(BEARER + piece)
  {
    TrimEndAfter(BEARER, piece, IsEol);
  }

  lemma {:induction false} AllBeforeBlank(lines: seq<string>)
    ensures |BeforeBlank(lines)| <= |lines|
    ensures |BeforeBlank(lines)| == |lines| <==> forall i :: 0 <= i < |lines| ==> !IsBlank(lines[i])
  {
    hide IsBlank;
    if lines != [] && !IsBlank(lines[0]) {
      AllBeforeBlank(lines[1..]);
      assert forall i :: 1 <= i < |lines| ==> lines[i] == lines[1..][i - 1];
    }
  }

  // ---- who is let in -----------------------------------------------------------------------

  lemma RequestLineReadBack(authority: string, token: string)
    requires IsAuthority(authority)
    ensures '\n' !in authority && RequestLine(RequestLines(authority, token)[0]) == ("CONNECT", authority)
  {
    hide TwoWords, RequestLines, TokenLines, TrimEnd;
    assert IsWhitespace('\n');
    RequestCut(authority, token);
    var line := "CONNECT " + authority + " HTTP/1.1";
    assert RequestLines(authority, token)[0] == "CONNECT " + authority + " HTTP/1.1\r\n" == line + "" + "\r\n";
    LineUnterminated(line, "");
    EmptyUnterminated();
    assert line + "" == line == "CONNECT" + " " + authority + " HTTP/1.1";
    TwoWordsOf("CONNECT", authority, " HTTP/1.1");
  }

  /** For any token: the gateway dials exactly if the authority is its relay's and the last
      Authorization line among those that the token makes carries its own token. */
  lemma DialsIff(authority: string, token: string, settings: Settings)
    requires IsAuthority(authority)
    ensures var d := Decided(RequestLines(authority, token), settings);
            && d == Some(VerdictOn(authority, Authorized(TokenHead(token), settings.token), settings))
            && (d == Some(Dial) <==> LetsIn(authority, token, settings))
  {
    hide RequestLine, RequestLines, TokenHead, Authorized, Headers, IsBlank;
    RequestLineReadBack(authority, token);
    RequestShape(authority, token);
    HeaderBlock(authority, token);
    var headers := Headers(RequestLines(authority, token)[1..]).value;
    HostLine(authority, settings.token);
    assert headers == [headers[0]] + headers[1..];
    AuthorizedAfter(headers[0], headers[1..], settings.token);
    SameAuthorized(headers[1..], TokenHead(token), settings.token);
  }

  /** Why a proxy is not let in: first the token is judged, then the authority. */
  lemma RefusedIff(authority: string, token: string, settings: Settings)
    requires IsAuthority(authority)
    ensures var d := Decided(RequestLines(authority, token), settings);
            && (d == Some(BadToken) <==> !Authorized(TokenHead(token), settings.token))
            && (d == Some(BadTarget) <==> Authorized(TokenHead(token), settings.token) && authority != settings.relayAddr)
  {
    hide RequestLine, RequestLines, TokenHead, Authorized, Headers, IsBlank, Decided;
    DialsIff(authority, token, settings);
  }

  /** Any other method is answered as such, whatever follows. */
  lemma OtherMethod(verb: string, rest: string, lines: seq<string>, settings: Settings)
    requires IsAuthority(verb) && verb != "CONNECT" && (rest == "" || IsWhitespace(rest[0]))
    ensures Decided([verb + rest] + lines, settings) == Some(NotConnect)
  {
    hide TrimEnd, TrimStart;
    FirstWord(verb, rest);
  }

  lemma FirstWord(verb: string, rest: string)
    requires IsAuthority(verb) && (rest == "" || IsWhitespace(rest[0]))
    ensures RequestLine(verb + rest).0 == verb
  {
    hide TrimEnd, TrimStart;
    assert verb[|verb| - 1] in verb && !IsEol(verb[|verb| - 1]) by { assert IsWhitespace('\r') && IsWhitespace('\n'); }
    TrimEndAfter(verb, rest, IsEol);
    var u := TrimEnd(rest, IsEol);
    TrimEndPrefix(rest, IsEol);
    assert verb[0] in verb;
    TrimStartRound(verb + u, IsWhitespace);
    WordThen(verb, u);
  }

  /** The gateway's settings admit a proxy with this authority and token. */
  predicate LetsIn(authority: string, token: string, settings: Settings) {
    authority == settings.relayAddr && Authorized(TokenHead(token), settings.token)
  }

  /** What the first line of a token says, if no line feed follows. */
  lemma BearerAuthorizes(piece: string, expected: string)
    ensures Authorization(BEARER + piece, expected) == Some(expected != "" && TrimEnd(piece, IsWhitespace) == expected)
  {
    hide TrimEnd, SplitOnce;
    TrimEndAfter(BEARER, piece, IsEol);
    var u := Unterminated(piece);
    assert BEARER + u == "Authorization" + [':'] + (" Bearer " + u);
    SplitOnceAt("Authorization", ':', " Bearer " + u);
    TrimEndAfter(" Bearer ", piece, IsEol);
    assert Lower("Authorization") == "authorization";
    BearerReadBack(piece, expected);
  }

  ghost predicate Matches(authority: string, token: string, settings: Settings) {
    authority == settings.relayAddr && settings.token != "" && TrimEnd(token, IsWhitespace) == settings.token
  }

  /** What the gateway makes of the first three lines, whatever the token. */
  lemma LinesReadBack(authority: string, token: string, expected: string)
    requires IsAuthority(authority)
    ensures var l, first := RequestLines(authority, token), Split(token, '\n')[0];
            && |l| >= 4 && RequestLine(l[0]) == ("CONNECT", authority)
            && Authorization(l[1], expected) == None
            && Authorization(l[2], expected) == Some(expected != "" && TrimEnd(first, IsWhitespace) == expected)
  {
    hide TrimEnd, RequestLine, RequestLines, Split, TokenLines, Authorization;
    var pieces := Split(token, '\n');
    RequestLineReadBack(authority, token);
    RequestCut(authority, token);
    HostLine(authority, expected);
    FirstTokenLine(BEARER, pieces, expected);
    BearerAuthorizes(pieces[0], expected);
  }

  lemma FirstTokenLine(pre: string, pieces: seq<string>, expected: string)
    requires pieces != []
    ensures TokenLines(pre, pieces) != []
    ensures Authorization(TokenLines(pre, pieces)[0], expected) == Authorization(pre + pieces[0], expected)
  {
    hide Unterminated;
    TerminatorsTrimmed(pre + pieces[0]);
  }

  /** No line that a line feed in the token starts is an Authorization line. */
  predicate OneAuthorization(token: string) {
    forall i :: 1 <= i < |Split(token, '\n')| ==> Authorization(Split(token, '\n')[i], "").None?
  }

  lemma {:induction false} FirstDecides(first: string, rest: seq<string>, expected: string)
    requires forall l :: l in rest ==> Authorization(l, "").None?
    requires Authorization(first, expected).Some? && !IsBlank(first)
    ensures Authorized(BeforeBlank([first] + rest), expected) == Authorization(first, expected).value
  {
    hide Authorization, IsBlank;
    assert ([first] + rest)[1..] == rest;
    NoneAuthorize(BeforeBlank(rest), rest, expected);
    AuthorizedPrefix(first, BeforeBlank(rest), expected);
  }

  lemma {:induction false} NoneAuthorize(head: seq<string>, rest: seq<string>, expected: string)
    requires head == BeforeBlank(rest) && forall l :: l in rest ==> Authorization(l, "").None?
    ensures forall l :: l in head ==> Authorization(l, expected).None?
  {
    hide IsBlank;
    if head != [] {
      assert rest[0] in rest;
      NoneAuthorize(head[1..], rest[1..], expected);
      assert head == [rest[0]] + head[1..];
    }
  }

  lemma {:induction false} AuthorizedPrefix(first: string, rest: seq<string>, expected: string)
    requires Authorization(first, expected).Some? && forall l :: l in rest ==> Authorization(l, expected).None?
    ensures Authorized([first] + rest, expected) == Authorization(first, expected).value
  {
    hide Authorization;
    var all := [first] + rest;
    if rest == [] {
      assert all[..0] == [];
    } else {
      assert all[..|all| - 1] == [first] + rest[..|rest| - 1];
      assert rest[|rest| - 1] in rest;
      AuthorizedPrefix(first, rest[..|rest| - 1], expected);
    }
  }

  /** The gateway dials exactly where the authority and the token's first line match its settings,
      and the answer is one that the local proxy accepts exactly then. */
  lemma HandshakeDecides(authority: string, token: string, settings: Settings)
    requires IsAuthority(authority) && OneAuthorization(token)
    ensures var d := Decided(RequestLines(authority, token), settings);
            var first := Split(token, '\n')[0];
            && d.Some?
            && (d.value.Dial? <==> Matches(authority, first, settings))
            && (StatusAccepted(Answer(d.value)[0]) <==> Matches(authority, first, settings))
  {
    hide Authorization, RequestLines, IsBlank, Decided, Split;
    var pieces := Split(token, '\n');
    DialsIff(authority, token, settings);
    BearerAuthorizes(pieces[0], settings.token);
    BearerNotBlank(pieces[0]);
    FirstDecides(BEARER + pieces[0], pieces[1..], settings.token);
    OnlyDialAccepted(Decided(RequestLines(authority, token), settings).value);
  }

  /** For a token of one line without surrounding whitespace both must be equal. */
  lemma CleanHandshake(authority: string, token: string, settings: Settings)
    requires IsAuthority(authority) && '\n' !in token && Trimmed(token, IsWhitespace)
    ensures Decided(RequestLines(authority, token), settings) == Some(Dial) <==>
            authority == settings.relayAddr && token == settings.token && token != ""
  {
    hide Decided, RequestLines, StatusAccepted, Answer, Authorization;
    SplitOnceNone(token, '\n');
    HandshakeDecides(authority, token, settings);
    TrimEndRound(token, IsWhitespace);
  }

  /** A gateway whose token contains a line feed lets nobody in. */
  lemma LineFeedLetsNobodyIn(authority: string, token: string, settings: Settings)
    requires '\n' in settings.token
    ensures Decided(RequestLines(authority, token), settings) != Some(Dial)
  {
    hide RequestLine, IsBlank, Authorized, RequestLines;
    var l, n := RequestLines(authority, token), HeadLength(authority, token);
    RequestDecided(authority, token, settings);
    RequestShape(authority, token);
    NoLineFeedRead(l[1..n - 1], settings.token);
  }

  lemma {:induction false} NoLineFeedRead(lines: seq<string>, expected: string)
    requires '\n' in expected && forall l :: l in lines ==> IsTextLine(l)
    ensures !Authorized(lines, expected)
  {
    hide Authorization, IsTextLine;
    if lines != [] {
      var line := lines[|lines| - 1];
      NoLineFeedRead(lines[..|lines| - 1], expected);
      ValueHasNoLineFeed(line, expected);
    }
  }

  lemma ValueHasNoLineFeed(line: string, expected: string)
    requires '\n' in expected && IsTextLine(line)
    ensures Authorization(line, expected) != Some(true)
  {
    hide TrimEnd, TrimStart;
    var body := line[..|line| - 1];
    assert line == body + "\n";
    TrimEndPadding(body, "\n", IsEol);
    var suf := TrimEndShape(body, IsEol);
    assert '\n' !in Unterminated(line);
    match SplitOnce(Unterminated(line), ':') {
      case None =>
      case Some((name, value)) =>
        var p, q := TrimShape(value, IsWhitespace);
        assert '\n' !in Trim(value) && '\n' in "Bearer " + expected;
    }
  }

  /** The authority of a URL whose host is free of whitespace is one word. */
  lemma AuthorityIsWord(url: Url)
    requires RelayAuthority(url).Some? && forall c :: c in url.host.value ==> !IsWhitespace(c)
    ensures IsAuthority(RelayAuthority(url).value)
  {
    ValueOfDecimal(url.port.value);
  }
}
