/** Local proxy, gateway and relay as one state machine over byte channels: the CONNECT handshake
    with buffered readers, and the tunnel after both readers have been discarded. */
module Tunnel {
  import opened Wrappers
  import opened Utf8
  import opened Text
  import opened ConnectText
  import opened LineReader

  // ---- the machine -------------------------------------------------------------------------

  /** The proxy's relay authority and tunnel token, the gateway's settings, and whether the relay
      stays silent until it has received something (as a TLS server does). */
  datatype Setup = Setup(authority: string, token: string, settings: Settings, patient: bool)

  datatype ProxyPhase = AwaitStatus | AwaitBlank | Connected | Refused

  datatype GatewayPhase =
    | AwaitRequest
    | AwaitHeaders(authority: string, authorized: bool)
    | Dialling
    | Dialled
    | Answered
    | Copying
    | Closed

  /** Channels: `up` and `down` between proxy and gateway, `toRelay` and `fromRelay` behind it. The
      fields after them record the past; no step reads them except the relay's patience. */
  datatype State = State(
    proxy: ProxyPhase, pread: Reader,
    gateway: GatewayPhase, gread: Reader,
    up: Bytes, down: Bytes, toRelay: Bytes, fromRelay: Bytes,
    linesRead: nat, answer: Option<Verdict>, failed: bool,
    appSent: Bytes, relayGot: Bytes, relaySent: Bytes, relayed: Bytes, appGot: Bytes,
    lostUp: Bytes, lostDown: Bytes)

  datatype Step =
    | ProxyReceive(n: nat) | ProxyConsume | ProxyEof | ProxyStop
    | GatewayReceive(n: nat) | GatewayConsume | GatewayEof | GatewayStop
    | DialSucceeds | DialFails | WriteEstablished | DropReader
    | ForwardUp(n: nat) | ForwardDown(n: nat)
    | AppSend(bytes: Bytes) | AppReceive(n: nat)
    | RelaySend(bytes: Bytes) | RelayReceive(n: nat)

  /** The connection is open and the proxy has written its request. */
  function Init(c: Setup): State {
    State(AwaitStatus, Fresh, AwaitRequest, Fresh, Encode(RequestText(c.authority, c.token)), [], [], [],
          0, None, false, [], [], [], [], [], [], [])
  }

  /** The proxy has read a line; on the blank one it discards its reader. */
  ghost function ProxyLine(s: State, line: Bytes): State {
    match Decode(line)
    case None => s.(proxy := Refused, failed := true)
    case Some(text) =>
      if s.proxy.AwaitStatus? then s.(proxy := if StatusAccepted(text) then AwaitBlank else Refused)
      else if EndsAnswer(text) then s.(proxy := Connected, pread := Fresh, lostDown := s.lostDown + s.pread.buf)
      else s
  }

  function Rejected(s: State, v: Verdict): State {
    s.(gateway := Closed, answer := Some(v), down := s.down + Lines(Answer(v)))
  }

  /** The gateway has read a line of the request. */
  function GatewayLine(c: Setup, s: State, line: Bytes): State {
    match Decode(line)
    case None => s.(gateway := Closed, failed := true)
    case Some(text) =>
      var s' := s.(linesRead := s.linesRead + 1);
      match s.gateway
      case AwaitRequest =>
        var (verb, authority) := RequestLine(text);
        if verb != "CONNECT" then Rejected(s', NotConnect) else s'.(gateway := AwaitHeaders(authority, false))
      case AwaitHeaders(authority, authorized) =>
        if IsBlank(text) then
          var v := VerdictOn(authority, authorized, c.settings);
          if v.Dial? then s'.(gateway := Dialling) else Rejected(s', v)
        else
          s'.(gateway := AwaitHeaders(authority, match Authorization(text, c.settings.token) case Some(b) => b case None => authorized))
      case _ => s
  }

  predicate ProxyReads(s: State) { s.proxy.AwaitStatus? || s.proxy.AwaitBlank? }

  predicate GatewayReads(s: State) { s.gateway.AwaitRequest? || s.gateway.AwaitHeaders? }

  /** When a step is possible. A read takes at least one byte; a reader is filled only when empty. */
  ghost predicate Enabled(c: Setup, s: State, step: Step) {
    match step
    case ProxyReceive(n) => ProxyReads(s) && s.pread.buf == [] && 0 < n <= |s.down|
    case ProxyConsume => ProxyReads(s) && s.pread.buf != []
    case ProxyEof => ProxyReads(s) && s.pread.buf == [] && s.down == [] && s.gateway.Closed?
    case ProxyStop => ProxyReads(s)
    case GatewayReceive(n) => GatewayReads(s) && s.gread.buf == [] && 0 < n <= |s.up|
    case GatewayConsume => GatewayReads(s) && s.gread.buf != []
    case GatewayEof => GatewayReads(s) && s.gread.buf == [] && s.up == [] && s.proxy.Refused?
    case GatewayStop => !s.gateway.Closed?
    case DialSucceeds => s.gateway.Dialling?
    case DialFails => s.gateway.Dialling?
    case WriteEstablished => s.gateway.Dialled?
    case DropReader => s.gateway.Answered?
    case ForwardUp(n) => s.gateway.Copying? && 0 < n <= |s.up|
    case ForwardDown(n) => s.gateway.Copying? && 0 < n <= |s.fromRelay|
    case AppSend(bytes) => s.proxy.Connected?
    case AppReceive(n) => s.proxy.Connected? && 0 < n <= |s.down|
    case RelaySend(bytes) => (s.gateway.Dialled? || s.gateway.Answered? || s.gateway.Copying?) && (c.patient ==> s.relayGot != [])
    case RelayReceive(n) => 0 < n <= |s.toRelay|
  }

  ghost function Apply(c: Setup, s: State, step: Step): State
    requires Enabled(c, s, step)
  {
    match step
    case ProxyReceive(n) => s.(pread := s.pread.(buf := s.down[..n]), down := s.down[n..])
    case ProxyConsume =>
      var (line, rest) := Consume(s.pread);
      var s' := s.(pread := rest);
      if line.None? then s' else ProxyLine(s', line.value)
    case ProxyEof =>
      if s.proxy.AwaitBlank? && s.pread.line == [] then s.(proxy := Refused)
      else ProxyLine(s.(pread := Fresh), s.pread.line)
    case ProxyStop => s.(proxy := Refused, failed := true)
    case GatewayReceive(n) => s.(gread := s.gread.(buf := s.up[..n]), up := s.up[n..])
    case GatewayConsume =>
      var (line, rest) := Consume(s.gread);
      var s' := s.(gread := rest);
      if line.None? then s' else GatewayLine(c, s', line.value)
    case GatewayEof =>
      if s.gread.line == [] then s.(gateway := Closed, failed := true)
      else GatewayLine(c, s.(gread := Fresh), s.gread.line)
    case GatewayStop => s.(gateway := Closed, failed := true)
    case DialSucceeds => s.(gateway := Dialled)
    case DialFails => s.(gateway := Closed, failed := true)
    case WriteEstablished => s.(gateway := Answered, answer := Some(Dial), down := s.down + Lines(Answer(Dial)))
    case DropReader => s.(gateway := Copying, gread := Fresh, lostUp := s.lostUp + s.gread.line + s.gread.buf)
    case ForwardUp(n) => s.(toRelay := s.toRelay + s.up[..n], up := s.up[n..])
    case ForwardDown(n) =>
      s.(down := s.down + s.fromRelay[..n], fromRelay := s.fromRelay[n..], relayed := s.relayed + s.fromRelay[..n])
    case AppSend(bytes) => s.(up := s.up + bytes, appSent := s.appSent + bytes)
    case AppReceive(n) => s.(appGot := s.appGot + s.down[..n], down := s.down[n..])
    case RelaySend(bytes) => s.(fromRelay := s.fromRelay + bytes, relaySent := s.relaySent + bytes)
    case RelayReceive(n) => s.(relayGot := s.relayGot + s.toRelay[..n], toRelay := s.toRelay[n..])
  }

  /** The state after a run, or None where a step of it is not possible. */
  ghost function Run(c: Setup, s: State, steps: seq<Step>): Option<State>
    decreases |steps|
  {
    if steps == [] then Some(s)
    else if Enabled(c, s, steps[0]) then Run(c, Apply(c, s, steps[0]), steps[1..])
    else None
  }

  // ---- the texts as lines ------------------------------------------------------------------

  /** The lines of the proxy's request, as the gateway reads them. */
  function Request(c: Setup): seq<string> { RequestLines(c.authority, c.token) }

  function Head(c: Setup): nat { HeadLength(c.authority, c.token) }

  /** The bytes of the request behind its header block. */
  function Left(c: Setup): Bytes { Lines(Leftover(c.authority, c.token)) }

  lemma LineOfText(line: string)
    requires IsTextLine(line)
    ensures IsLine(Encode(line)) && Decode(Encode(line)) == Some(line)
  {
    hide Encode, Decode, IsLine;
    TextLine(line[..|line| - 1]);
    assert line == line[..|line| - 1] + "\n";
    DecodeEncode(line);
  }

  lemma RequestLineByLine(c: Setup, k: nat)
    requires k < |Request(c)|
    ensures IsLine(Encode(Request(c)[k])) && Decode(Encode(Request(c)[k])) == Some(Request(c)[k])
    ensures Lines(Request(c)[k..]) == Encode(Request(c)[k]) + Lines(Request(c)[k + 1..])
  {
    hide Encode, Decode, IsLine, RequestLines, IsTextLine;
    RequestShape(c.authority, c.token);
    LineOfText(Request(c)[k]);
    assert Request(c)[k..][1..] == Request(c)[k + 1..];
  }

  lemma StatusIsLine(status: string, body: string)
    requires '\n' !in status
    ensures var l := Rejection(status, body)[0]; IsLine(Encode(l)) && Decode(Encode(l)) == Some(l)
  {
    hide Encode, Decode, IsLine;
    var t := "HTTP/1.1 " + status + "\r";
    assert Rejection(status, body)[0] == t + "\n" && (t + "\n")[..|t|] == t;
    LineOfText(Rejection(status, body)[0]);
  }

  lemma DialAnswer()
    ensures Answer(Dial)[1..] == ["\r\n"]
    ensures IsLine(Encode(Answer(Dial)[0])) && Decode(Encode(Answer(Dial)[0])) == Some(Answer(Dial)[0])
    ensures IsLine(Encode("\r\n")) && Decode(Encode("\r\n")) == Some("\r\n")
  {
    hide Encode, Decode, IsLine;
    LineOfText("HTTP/1.1 200 Connection Established\r\n");
    LineOfText("\r\n");
  }

  lemma AnswerLineByLine(v: Verdict)
    ensures var a := Answer(v);
            && IsLine(Encode(a[0])) && Decode(Encode(a[0])) == Some(a[0])
            && Lines(a) == Encode(a[0]) + Lines(a[1..])
    ensures Lines(["\r\n"]) == Encode("\r\n") + []
  {
    hide Encode, Decode, IsLine, Rejection;
    match v {
      case Dial => DialAnswer();
      case NotConnect => StatusIsLine("405 Method Not Allowed", "CONNECT required");
      case BadToken => StatusIsLine("403 Forbidden", "invalid tunnel token");
      case BadTarget => StatusIsLine("403 Forbidden", "relay target not allowed");
    }
  }

  // ---- what every step keeps ---------------------------------------------------------------

  ghost predicate Reading(c: Setup, s: State) {
    && s.linesRead < Head(c)
    && LF !in s.gread.line
    && s.gread.line + s.gread.buf + s.up == Lines(Request(c)[s.linesRead..])
    && match s.gateway
       case AwaitRequest => s.linesRead == 0
       case AwaitHeaders(a, z) =>
         && 1 <= s.linesRead
         && RequestLine(Request(c)[0]) == ("CONNECT", a)
         && z == Authorized(Request(c)[1..s.linesRead], c.settings.token)
       case _ => true
  }

  ghost predicate GatewayInv(c: Setup, s: State) {
    && (match s.gateway
        case AwaitRequest => s.answer == None && Reading(c, s)
        case AwaitHeaders(_, _) => s.answer == None && Reading(c, s)
        case Dialling => s.answer == None && HeadRead(c, s)
        case Dialled => s.answer == None && HeadRead(c, s)
        case Answered => s.answer == Some(Dial)
        case Copying => s.answer == Some(Dial) && s.gread == Fresh
        case Closed => !s.failed ==> s.answer.Some?)
    && (s.answer.Some? ==> Decided(Request(c), c.settings) == s.answer)
    && (s.answer.Some? && s.answer != Some(Dial) ==> s.gateway.Closed?)
  }

  /** The gateway has read the header block and decided to dial. */
  ghost predicate HeadRead(c: Setup, s: State) {
    s.gread.line == [] && s.gread.buf + s.up == Left(c) && Decided(Request(c), c.settings) == Some(Dial)
  }

  ghost predicate ProxyInv(s: State) {
    match s.proxy
    case AwaitStatus =>
      && LF !in s.pread.line
      && s.pread.line + s.pread.buf + s.down == (if s.answer.Some? then Lines(Answer(s.answer.value)) else []) + s.relayed
    case AwaitBlank =>
      && s.answer == Some(Dial)
      && LF !in s.pread.line
      && s.pread.line + s.pread.buf + s.down == Lines(["\r\n"]) + s.relayed
    case Connected => s.answer == Some(Dial)
    case Refused => !s.failed ==> s.answer.Some? && s.answer != Some(Dial)
  }

  /** Towards the relay: what is left of the request and what the application sends, in order. */
  ghost predicate UpInv(c: Setup, s: State) {
    if s.answer == Some(Dial) then
      && s.gread.line == [] && s.lostUp + s.gread.buf <= Left(c)
      && (s.gread.buf != [] ==> s.lostUp == [] && s.relayGot == [] && s.toRelay == [])
      && s.lostUp + s.relayGot + s.toRelay + (s.gread.buf + s.up) == Left(c) + s.appSent
    else s.lostUp == [] && s.relayGot == [] && s.toRelay == []
  }

  /** Towards the application: what the relay sends, in order. */
  ghost predicate DownInv(c: Setup, s: State) {
    && s.relaySent == s.relayed + s.fromRelay
    && (c.patient && s.relayGot == [] ==> s.relaySent == [])
    && (s.answer != Some(Dial) ==> s.relayed == [])
    && if s.proxy.Connected? then
         s.lostDown + s.appGot + s.down == s.relayed && (c.patient && Left(c) == [] ==> s.lostDown == [])
       else s.lostDown == [] && s.appGot == [] && s.appSent == []
  }

  ghost predicate FlowInv(c: Setup, s: State) { UpInv(c, s) && DownInv(c, s) }

  ghost predicate Inv(c: Setup, s: State) { GatewayInv(c, s) && ProxyInv(s) && FlowInv(c, s) }

  lemma InitInv(c: Setup)
    ensures Inv(c, Init(c))
  {
    hide Encode, RequestText, Lines, CutLines;
    assert Request(c)[0..] == Request(c);
    LinesOfCut(RequestText(c.authority, c.token));
  }

  /** Within the header block the gateway always has something left to read. */
  lemma ReadingNeedsMore(c: Setup, s: State)
    requires Reading(c, s)
    ensures s.gread.buf != [] || s.up != []
  {
    hide RequestLines, Authorized, RequestLine, Encode;
    RequestLineByLine(c, s.linesRead);
    NextLine(s.gread, s.up, Encode(Request(c)[s.linesRead]), Lines(Request(c)[s.linesRead + 1..]));
  }

  lemma GatewaySame(c: Setup, s: State, t: State)
    requires GatewayInv(c, s) && t.gateway == s.gateway && t.gread == s.gread && t.answer == s.answer
    requires t.failed == s.failed && t.linesRead == s.linesRead && t.up == s.up
    ensures GatewayInv(c, t)
  {
    hide Decided, Lines, Request, Head, Left, Authorized, RequestLine;
  }

  lemma ProxySame(s: State, t: State)
    requires ProxyInv(s) && t.proxy == s.proxy && t.pread == s.pread && t.down == s.down && t.relayed == s.relayed
    requires t.answer == s.answer && t.failed == s.failed
    ensures ProxyInv(t)
  {
    hide Lines, Answer;
  }

  lemma UpSame(c: Setup, s: State, t: State)
    requires UpInv(c, s) && t.answer == s.answer && t.gread == s.gread && t.up == s.up && t.toRelay == s.toRelay
    requires t.lostUp == s.lostUp && t.relayGot == s.relayGot && t.appSent == s.appSent
    ensures UpInv(c, t)
  {
    hide Left;
  }

  lemma DownSame(c: Setup, s: State, t: State)
    requires DownInv(c, s) && t.proxy == s.proxy && t.down == s.down && t.fromRelay == s.fromRelay && t.relayed == s.relayed
    requires t.relaySent == s.relaySent && t.appGot == s.appGot && t.lostDown == s.lostDown && t.answer == s.answer
    requires t.relayGot == s.relayGot && t.appSent == s.appSent
    ensures DownInv(c, t)
  {
    hide Left;
  }

  /** What the proxy reads concerns neither the gateway nor the bytes towards the relay. */
  lemma ProxyMoves(c: Setup, s: State)
    requires GatewayInv(c, s) && UpInv(c, s) && Enabled(c, s, ProxyConsume)
    ensures var t := Apply(c, s, ProxyConsume);
            (t.failed == s.failed ==> GatewayInv(c, t)) && UpInv(c, t)
  {
    hide Consume, Decode, StatusAccepted, GatewayInv, UpInv, EndsAnswer;
    var t := Apply(c, s, ProxyConsume);
    if t.failed == s.failed { GatewaySame(c, s, t); }
    UpSame(c, s, t);
  }

  lemma StatusKeepsInv(c: Setup, s: State)
    requires Inv(c, s) && Enabled(c, s, ProxyConsume) && s.proxy.AwaitStatus?
    ensures Inv(c, Apply(c, s, ProxyConsume)) && Apply(c, s, ProxyConsume).failed == s.failed
  {
    hide Consume, Encode, Decode, IsLine, Lines, Answer, StatusAccepted, GatewayInv, UpInv, Left;
    var t := Apply(c, s, ProxyConsume);
    ProxyMoves(c, s);
    var v := s.answer.value;
    AnswerLineByLine(v);
    NextLine(s.pread, s.down, Encode(Answer(v)[0]), Lines(Answer(v)[1..]) + s.relayed);
    OnlyDialAccepted(v);
    DialAnswer();
  }

  /** When the proxy discards its reader, that holds what the gateway has relayed already. */
  lemma BlankLineKeepsInv(c: Setup, s: State)
    requires Inv(c, s) && Enabled(c, s, ProxyConsume) && s.proxy.AwaitBlank?
    ensures Inv(c, Apply(c, s, ProxyConsume)) && Apply(c, s, ProxyConsume).failed == s.failed
  {
    hide Consume, Encode, Decode, IsLine, Lines, Answer, StatusAccepted, GatewayInv, UpInv, Left;
    var t := Apply(c, s, ProxyConsume);
    ProxyMoves(c, s);
    AnswerLineByLine(Dial);
    DialAnswer();
    NextLine(s.pread, s.down, Encode("\r\n"), s.relayed);
    if c.patient && Left(c) == [] { QuietBefore(c, s); }
  }

  /** A patient relay that was sent nothing but the application's bytes is silent until then. */
  lemma QuietBefore(c: Setup, s: State)
    requires UpInv(c, s) && DownInv(c, s) && !s.proxy.Connected? && c.patient && Left(c) == []
    ensures s.relayGot == [] && s.relaySent == [] && s.relayed == []
  {
    hide Left;
  }

  lemma ProxyConsumeKeepsInv(c: Setup, s: State)
    requires Inv(c, s) && Enabled(c, s, ProxyConsume)
    ensures Inv(c, Apply(c, s, ProxyConsume)) && Apply(c, s, ProxyConsume).failed == s.failed
  {
    hide Inv, Apply;
    if s.proxy.AwaitStatus? { StatusKeepsInv(c, s); } else { BlankLineKeepsInv(c, s); }
  }

  /** Before its answer, progress of the gateway's reader does not concern proxy and traffic. */
  lemma ReaderMoves(c: Setup, s: State, r: Reader)
    requires ProxyInv(s) && FlowInv(c, s) && s.answer == None
    ensures ProxyInv(s.(gread := r)) && FlowInv(c, s.(gread := r))
  {
    hide Lines, Answer, Left;
  }

  lemma GatewayConsumeKeepsInv(c: Setup, s: State)
    requires Inv(c, s) && Enabled(c, s, GatewayConsume)
    ensures Inv(c, Apply(c, s, GatewayConsume)) && Apply(c, s, GatewayConsume).failed == s.failed
  {
    hide Consume, Encode, Decode, IsLine, Lines, RequestLines, RequestLine, Answer, Authorized, GatewayLine, ProxyInv, FlowInv, HeadRead, Decided;
    var (line, rest) := Consume(s.gread);
    var k, l := s.linesRead, Request(c);
    RequestLineByLine(c, k);
    NextLine(s.gread, s.up, Encode(l[k]), Lines(l[k + 1..]));
    ReaderMoves(c, s, rest);
    if line.Some? {
      LineKeepsInv(c, s.(gread := rest));
    }
  }

  /** The gateway is about to act on line `linesRead` of the request; only what follows is left. */
  ghost predicate HasLine(c: Setup, s: State) {
    var k := s.linesRead;
    && k < Head(c) && s.answer == None
    && s.gread.line == [] && s.gread.buf + s.up == Lines(Request(c)[k + 1..])
    && match s.gateway
       case AwaitRequest => k == 0
       case AwaitHeaders(a, z) => 1 <= k && RequestLine(Request(c)[0]) == ("CONNECT", a)
                                  && z == Authorized(Request(c)[1..k], c.settings.token)
       case _ => false
  }

  lemma RequestLineKeepsInv(c: Setup, s: State)
    requires HasLine(c, s) && s.linesRead == 0 && ProxyInv(s) && FlowInv(c, s)
    ensures var t := GatewayLine(c, s, Encode(Request(c)[0])); Inv(c, t) && t.failed == s.failed
  {
    hide Encode, Decode, IsLine, Lines, RequestLines, RequestLine, Answer, Decided, ProxyInv, FlowInv, HeadRead;
    RequestLineByLine(c, 0);
    RequestShape(c.authority, c.token);
    assert Request(c)[1..1] == [];
    LineMoves(c, s);
  }

  lemma HeaderKeepsInv(c: Setup, s: State)
    requires HasLine(c, s) && 1 <= s.linesRead < Head(c) - 1 && ProxyInv(s) && FlowInv(c, s)
    ensures var t := GatewayLine(c, s, Encode(Request(c)[s.linesRead])); Inv(c, t) && t.failed == s.failed
  {
    hide Encode, Decode, IsLine, Lines, RequestLines, RequestLine, IsBlank, Authorization, Answer, Decided;
    hide Authorized, ProxyInv, FlowInv, HeadLength, HeadRead;
    var k, l := s.linesRead, Request(c);
    RequestLineByLine(c, k);
    RequestDecided(c.authority, c.token, c.settings);
    assert l[1..k + 1] == l[1..k] + [l[k]];
    AuthorizedNext(l[1..k], l[k], c.settings.token);
    LineMoves(c, s);
  }

  /** A line before the blank one touches nothing but the gateway's progress. */
  lemma LineMoves(c: Setup, s: State)
    requires HasLine(c, s) && s.linesRead < Head(c) - 1 && ProxyInv(s) && FlowInv(c, s)
    ensures var t := GatewayLine(c, s, Encode(Request(c)[s.linesRead])); ProxyInv(t) && FlowInv(c, t)
  {
    hide Encode, Decode, IsLine, Lines, RequestLines, RequestLine, IsBlank, Authorization, Authorized, Answer, Decided, HeadLength, Left;
    RequestLineByLine(c, s.linesRead);
    RequestShape(c.authority, c.token);
    RequestDecided(c.authority, c.token, c.settings);
  }

  /** The verdict that the gateway reaches line by line is the one on the whole request. */
  lemma BlankKeepsInv(c: Setup, s: State)
    requires HasLine(c, s) && s.linesRead == Head(c) - 1 && ProxyInv(s) && FlowInv(c, s)
    ensures var t := GatewayLine(c, s, Encode(Request(c)[s.linesRead])); Inv(c, t) && t.failed == s.failed
  {
    hide Encode, Decode, IsLine, Lines, RequestLines, RequestLine, IsBlank, Authorized, Answer, Decided, Reading, HeadLength;
    RequestLineByLine(c, s.linesRead);
    RequestDecided(c.authority, c.token, c.settings);
  }

  lemma LineKeepsInv(c: Setup, s: State)
    requires HasLine(c, s) && ProxyInv(s) && FlowInv(c, s)
    ensures var t := GatewayLine(c, s, Encode(Request(c)[s.linesRead])); Inv(c, t) && t.failed == s.failed
  {
    hide Inv, GatewayLine;
    if s.linesRead == 0 { RequestLineKeepsInv(c, s); }
    else if s.linesRead == Head(c) - 1 { BlankKeepsInv(c, s); }
    else { HeaderKeepsInv(c, s); }
  }

  lemma ProxyEofKeepsInv(c: Setup, s: State)
    requires Inv(c, s) && Enabled(c, s, ProxyEof)
    ensures Inv(c, Apply(c, s, ProxyEof)) && Apply(c, s, ProxyEof).failed == s.failed
  {
    hide Lines, Answer, Decided, Reading, HeadRead, Left, UpInv;
    if s.answer.Some? {
      AnswerLeft(s);
      assert false;
    } else {
      assert s.pread.line == [];
      NothingRead();
      UpSame(c, s, Apply(c, s, ProxyEof));
    }
  }

  /** The end of the connection before any answer is refused. */
  lemma NothingRead()
    ensures Decode([]) == Some("") && !StatusAccepted("")
  {}

  /** Traffic in the channels does not concern a gateway that has answered. */
  lemma TrafficKeepsGateway(c: Setup, s: State, t: State)
    requires GatewayInv(c, s) && s.answer == Some(Dial)
    requires t.gateway == s.gateway && t.gread == s.gread && t.answer == s.answer && t.failed == s.failed
    ensures GatewayInv(c, t)
  {
    hide Decided, Reading, HeadRead;
  }

  lemma CopyingHasAnswered(c: Setup, s: State)
    requires GatewayInv(c, s) && s.gateway.Copying?
    ensures s.answer == Some(Dial) && s.gread == Fresh
  {
    hide Decided, Reading, HeadRead;
  }

  lemma ForwardUpKeepsInv(c: Setup, s: State, n: nat)
    requires Inv(c, s) && Enabled(c, s, ForwardUp(n))
    ensures Inv(c, Apply(c, s, ForwardUp(n)))
  {
    hide Lines, Answer, GatewayInv, GatewayLine, ProxyLine, Consume, Left;
    CopyingHasAnswered(c, s);
    Passed(s.lostUp + s.relayGot, s.toRelay, s.up, n);
    assert [] + s.up == s.up && [] + s.up[n..] == s.up[n..];
    TrafficKeepsGateway(c, s, Apply(c, s, ForwardUp(n)));
  }

  lemma AppSendKeepsInv(c: Setup, s: State, bytes: Bytes)
    requires Inv(c, s) && Enabled(c, s, AppSend(bytes))
    ensures Inv(c, Apply(c, s, AppSend(bytes)))
  {
    hide Lines, Answer, GatewayInv, GatewayLine, ProxyLine, Consume, Left;
    var before := s.lostUp + s.relayGot + s.toRelay;
    assert before + (s.gread.buf + (s.up + bytes)) == before + (s.gread.buf + s.up) + bytes;
    assert Left(c) + (s.appSent + bytes) == Left(c) + s.appSent + bytes;
    TrafficKeepsGateway(c, s, Apply(c, s, AppSend(bytes)));
  }

  lemma RelayReceiveKeepsInv(c: Setup, s: State, n: nat)
    requires Inv(c, s) && Enabled(c, s, RelayReceive(n))
    ensures Inv(c, Apply(c, s, RelayReceive(n)))
  {
    hide Lines, Answer, GatewayInv, GatewayLine, ProxyLine, Consume, Left;
    Reassociate(s.lostUp + s.relayGot, s.toRelay, n, s.gread.buf + s.up);
    assert s.lostUp + s.relayGot + s.toRelay[..n] == s.lostUp + (s.relayGot + s.toRelay[..n]);
    TrafficKeepsGateway(c, s, Apply(c, s, RelayReceive(n)));
  }

  lemma Reassociate(a: Bytes, b: Bytes, n: nat, rest: Bytes)
    requires n <= |b|
    ensures a + b + rest == (a + b[..n]) + b[n..] + rest
  {}

  lemma Passed(a: Bytes, b: Bytes, rest: Bytes, n: nat)
    requires n <= |rest|
    ensures a + b + rest == a + (b + rest[..n]) + rest[n..]
  {}

  lemma ForwardDownKeepsInv(c: Setup, s: State, n: nat)
    requires Inv(c, s) && Enabled(c, s, ForwardDown(n))
    ensures Inv(c, Apply(c, s, ForwardDown(n)))
  {
    hide GatewayInv, ProxyInv, UpInv, DownInv, Left;
    CopyingHasAnswered(c, s);
    var t := Apply(c, s, ForwardDown(n));
    TrafficKeepsGateway(c, s, t);
    UpSame(c, s, t);
    ForwardDownToProxy(s, t, s.fromRelay[..n]);
    ForwardDownKeepsOrder(c, s, n);
  }

  lemma ForwardDownToProxy(s: State, t: State, x: Bytes)
    requires ProxyInv(s) && s.answer == Some(Dial)
    requires t.proxy == s.proxy && t.pread == s.pread && t.down == s.down + x && t.relayed == s.relayed + x
    requires t.answer == s.answer && t.failed == s.failed
    ensures ProxyInv(t)
  {
    hide Lines, Answer;
    assert s.pread.line + s.pread.buf + (s.down + x) == s.pread.line + s.pread.buf + s.down + x;
    assert Lines(Answer(Dial)) + (s.relayed + x) == Lines(Answer(Dial)) + s.relayed + x;
    assert Lines(["\r\n"]) + (s.relayed + x) == Lines(["\r\n"]) + s.relayed + x;
  }

  lemma ForwardDownKeepsOrder(c: Setup, s: State, n: nat)
    requires DownInv(c, s) && s.answer == Some(Dial) && Enabled(c, s, ForwardDown(n))
    ensures DownInv(c, Apply(c, s, ForwardDown(n)))
  {
    hide Left;
    var x := s.fromRelay[..n];
    assert s.relayed + s.fromRelay == s.relayed + x + s.fromRelay[n..];
    assert s.lostDown + s.appGot + (s.down + x) == s.lostDown + s.appGot + s.down + x;
  }

  lemma AppReceiveKeepsInv(c: Setup, s: State, n: nat)
    requires Inv(c, s) && Enabled(c, s, AppReceive(n))
    ensures Inv(c, Apply(c, s, AppReceive(n)))
  {
    hide Lines, Answer, GatewayInv, GatewayLine, ProxyLine, Consume, UpInv, Left;
    var t := Apply(c, s, AppReceive(n));
    TrafficKeepsGateway(c, s, t);
    assert UpInv(c, t) by { UpSame(c, s, t); }
    assert s.lostDown + s.appGot + s.down == s.lostDown + (s.appGot + s.down[..n]) + s.down[n..];
  }

  lemma RelaySendKeepsInv(c: Setup, s: State, bytes: Bytes)
    requires Inv(c, s) && Enabled(c, s, RelaySend(bytes))
    ensures Inv(c, Apply(c, s, RelaySend(bytes)))
  {
    hide GatewayInv, ProxyInv, UpInv, Left;
    var t := Apply(c, s, RelaySend(bytes));
    GatewaySame(c, s, t);
    ProxySame(s, t);
    UpSame(c, s, t);
    assert s.relayed + s.fromRelay + bytes == s.relayed + (s.fromRelay + bytes);
  }

  lemma ProxyReceiveKeepsInv(c: Setup, s: State, n: nat)
    requires Inv(c, s) && Enabled(c, s, ProxyReceive(n))
    ensures Inv(c, Apply(c, s, ProxyReceive(n)))
  {
    hide Lines, Answer, GatewayInv, UpInv, Left;
    var t := Apply(c, s, ProxyReceive(n));
    GatewaySame(c, s, t);
    UpSame(c, s, t);
    assert s.pread.line + [] + s.down == s.pread.line + s.down[..n] + s.down[n..];
  }

  lemma GatewayReceiveKeepsInv(c: Setup, s: State, n: nat)
    requires Inv(c, s) && Enabled(c, s, GatewayReceive(n))
    ensures Inv(c, Apply(c, s, GatewayReceive(n)))
  {
    hide Lines, Answer, Decided, GatewayLine, ProxyLine, Consume, Request, RequestLine, Authorized, Head, Left;
    assert s.gread.line + [] + s.up == s.gread.line + s.up[..n] + s.up[n..];
  }

  /** The answer to a dial leaves the client's first bytes where they are. */
  lemma AnswerKeepsInv(c: Setup, s: State)
    requires Inv(c, s) && Enabled(c, s, WriteEstablished)
    ensures Inv(c, Apply(c, s, WriteEstablished))
  {
    hide Lines, Answer, Decided, Left, UpInv, ProxyInv, DownInv, GatewayInv;
    GatewayAnswers(c, s);
    UnansweredProxy(c, s);
    AnswerReachesProxy(s);
    AnswerKeepsOrder(c, s);
    AnswerKeepsUp(c, s);
  }

  lemma GatewayAnswers(c: Setup, s: State)
    requires GatewayInv(c, s) && Enabled(c, s, WriteEstablished)
    ensures s.answer == None && HeadRead(c, s) && GatewayInv(c, Apply(c, s, WriteEstablished))
  {
    hide Lines, Answer, Decided, Left, Reading;
  }

  lemma UnansweredProxy(c: Setup, s: State)
    requires ProxyInv(s) && DownInv(c, s) && s.answer == None
    ensures !s.proxy.Connected? && s.relayed == [] && s.appSent == []
  {
    hide Left, Lines, Answer;
  }

  lemma AnswerReachesProxy(s: State)
    requires ProxyInv(s) && s.answer == None && s.relayed == []
    ensures ProxyInv(s.(gateway := Answered, answer := Some(Dial), down := s.down + Lines(Answer(Dial))))
  {
    hide Lines, Answer;
    assert s.pread.line + s.pread.buf + (s.down + Lines(Answer(Dial))) == s.pread.line + s.pread.buf + s.down + Lines(Answer(Dial));
    assert [] + [] + Lines(Answer(Dial)) == Lines(Answer(Dial)) + [];
  }

  lemma AnswerKeepsOrder(c: Setup, s: State)
    requires DownInv(c, s) && s.answer == None && !s.proxy.Connected?
    ensures DownInv(c, s.(gateway := Answered, answer := Some(Dial), down := s.down + Lines(Answer(Dial))))
  {
    hide Left, Lines, Answer;
  }

  lemma AnswerKeepsUp(c: Setup, s: State)
    requires UpInv(c, s) && HeadRead(c, s) && s.answer == None && !s.proxy.Connected? && s.appSent == []
    requires Enabled(c, s, WriteEstablished)
    ensures UpInv(c, Apply(c, s, WriteEstablished))
  {
    hide Lines, Answer, Decided, Left;
    assert [] + [] + [] + (s.gread.buf + s.up) == Left(c) + [];
    assert [] + s.gread.buf == s.gread.buf;
  }

  /** When the gateway discards its reader, that holds nothing but what was left of the request. */
  lemma DropKeepsInv(c: Setup, s: State)
    requires Inv(c, s) && Enabled(c, s, DropReader)
    ensures Inv(c, Apply(c, s, DropReader))
  {
    hide Decided, Reading, HeadRead, Left, ProxyInv, DownInv, UpInv;
    var t := Apply(c, s, DropReader);
    ProxySame(s, t);
    DownSame(c, s, t);
    DropKeepsUp(c, s);
  }

  lemma DropKeepsUp(c: Setup, s: State)
    requires UpInv(c, s) && s.answer == Some(Dial) && Enabled(c, s, DropReader)
    ensures UpInv(c, Apply(c, s, DropReader))
  {
    hide Left;
    var t := Apply(c, s, DropReader);
    assert t.lostUp == s.lostUp + s.gread.buf == t.lostUp + [];
    Regroup(s.lostUp, s.gread.buf, s.up, s.relayGot, s.toRelay);
  }

  /** What is moved from the reader to the lost bytes keeps its place, as nothing is between them. */
  lemma Regroup(lost: Bytes, buf: Bytes, up: Bytes, got: Bytes, to: Bytes)
    requires buf != [] ==> lost == [] && got == [] && to == []
    ensures lost + got + to + (buf + up) == (lost + buf) + got + to + ([] + up)
  {}

  lemma StepKeepsInv(c: Setup, s: State, step: Step)
    requires Inv(c, s) && Enabled(c, s, step)
    ensures Inv(c, Apply(c, s, step))
  {
    hide Lines, Answer, Decided, RequestLines, GatewayLine, ProxyLine, Consume, Left;
    match step {
      case ProxyConsume => ProxyConsumeKeepsInv(c, s);
      case GatewayConsume => GatewayConsumeKeepsInv(c, s);
      case ProxyEof => ProxyEofKeepsInv(c, s);
      case GatewayEof => ReadingNeedsMore(c, s);
      case ProxyReceive(n) => ProxyReceiveKeepsInv(c, s, n);
      case GatewayReceive(n) => GatewayReceiveKeepsInv(c, s, n);
      case ForwardUp(n) => ForwardUpKeepsInv(c, s, n);
      case AppSend(bytes) => AppSendKeepsInv(c, s, bytes);
      case RelayReceive(n) => RelayReceiveKeepsInv(c, s, n);
      case ForwardDown(n) => ForwardDownKeepsInv(c, s, n);
      case AppReceive(n) => AppReceiveKeepsInv(c, s, n);
      case RelaySend(bytes) => RelaySendKeepsInv(c, s, bytes);
      case WriteEstablished => AnswerKeepsInv(c, s);
      case DropReader => DropKeepsInv(c, s);
      case _ =>
    }
  }

  lemma {:induction false} RunKeepsInv(c: Setup, s: State, steps: seq<Step>)
    requires Inv(c, s) && Run(c, s, steps).Some?
    ensures Inv(c, Run(c, s, steps).value)
    decreases |steps|
  {
    hide Inv, Enabled, Apply;
    if steps != [] {
      StepKeepsInv(c, s, steps[0]);
      RunKeepsInv(c, Apply(c, s, steps[0]), steps[1..]);
    }
  }

  // ---- the main results --------------------------------------------------------------------

  /** For every setup, in every interleaving and fragmentation: what the dropped readers held, what
      arrived and what is in the channels is, in order, what was sent. Towards the relay the rest of
      the request comes before the application's bytes. */
  lemma Conserved(c: Setup, steps: seq<Step>)
    requires Run(c, Init(c), steps).Some?
    ensures var s := Run(c, Init(c), steps).value;
            && (s.answer == Some(Dial) ==>
                  s.lostUp + s.relayGot + s.toRelay + (s.gread.buf + s.up) == Left(c) + s.appSent)
            && (s.proxy.Connected? ==> s.lostDown + s.appGot + s.down + s.fromRelay == s.relaySent)
            && (!s.proxy.Connected? ==> s.appSent == [] && s.appGot == [] && s.lostDown == [])
            && s.lostUp <= Left(c)
  {
    hide Run, GatewayInv, ProxyInv, Left;
    InitInv(c);
    RunKeepsInv(c, Init(c), steps);
  }

  /** Nothing is lost and nothing is added. */
  ghost predicate Intact(s: State) {
    s.lostUp == [] && s.lostDown == [] && s.relayGot <= s.appSent && s.appGot <= s.relaySent
  }

  /** With a patient relay and a request that ends with its header block, in every interleaving and
      fragmentation both readers are empty when they are discarded, and what arrives each way is a
      prefix of what was sent; the rest is still in the channels. */
  lemma NothingLost(c: Setup, steps: seq<Step>)
    requires c.patient && Leftover(c.authority, c.token) == [] && Run(c, Init(c), steps).Some?
    ensures var s := Run(c, Init(c), steps).value;
            && Intact(s)
            && (s.proxy.Connected? ==>
                  s.appSent == s.relayGot + s.toRelay + (s.gread.buf + s.up) && s.relaySent == s.appGot + s.down + s.fromRelay)
            && (!s.proxy.Connected? ==> s.appSent == [] && s.relaySent == [])
  {
    hide Run, Leftover;
    InitInv(c);
    RunKeepsInv(c, Init(c), steps);
    assert Left(c) == [];
    IntactInv(c, Run(c, Init(c), steps).value);
  }

  lemma IntactInv(c: Setup, s: State)
    requires Inv(c, s) && c.patient && Left(c) == []
    ensures Intact(s)
    ensures s.proxy.Connected? ==>
              s.appSent == s.relayGot + s.toRelay + (s.gread.buf + s.up) && s.relaySent == s.appGot + s.down + s.fromRelay
    ensures !s.proxy.Connected? ==> s.appSent == [] && s.relaySent == []
  {
    hide Left, GatewayInv, Lines, Answer;
    assert s.lostUp == [];
    assert s.lostUp + s.relayGot + s.toRelay == s.relayGot + s.toRelay;
    assert Left(c) + s.appSent == s.appSent;
    if s.proxy.Connected? {
      assert s.lostDown + s.appGot + s.down == s.appGot + s.down;
      assert s.relayGot <= s.relayGot + s.toRelay + (s.gread.buf + s.up);
    } else {
      QuietBefore(c, s);
    }
  }

  /** A connected proxy has been let in by its authority and token. */
  lemma ConnectedMatches(c: Setup, steps: seq<Step>)
    requires IsAuthority(c.authority) && Run(c, Init(c), steps).Some?
    requires Run(c, Init(c), steps).value.proxy.Connected?
    ensures LetsIn(c.authority, c.token, c.settings)
  {
    hide Run, Decided, Answer, LetsIn, UpInv, DownInv, Reading, RequestLines;
    InitInv(c);
    RunKeepsInv(c, Init(c), steps);
    DialsIff(c.authority, c.token, c.settings);
  }

  /** The steps of a handshake that nothing breaks. */
  predicate Handshakes(step: Step) {
    || step.ProxyReceive? || step.ProxyConsume? || step.ProxyEof?
    || step.GatewayReceive? || step.GatewayConsume? || step.GatewayEof?
    || step.DialSucceeds? || step.WriteEstablished? || step.DropReader?
  }

  ghost predicate Settled(c: Setup, s: State) {
    forall step :: Handshakes(step) ==> !Enabled(c, s, step)
  }

  /** While the proxy waits there is a step to take. */
  lemma NotStuck(c: Setup, s: State) returns (step: Step)
    requires Inv(c, s) && !s.failed && ProxyReads(s)
    ensures Handshakes(step) && Enabled(c, s, step)
  {
    hide Lines, Answer, Decided, RequestLines;
    if GatewayReads(s) {
      ReadingNeedsMore(c, s);
      step := if s.gread.buf != [] then GatewayConsume else GatewayReceive(1);
    } else if s.gateway.Dialling? {
      step := DialSucceeds;
    } else if s.gateway.Dialled? {
      step := WriteEstablished;
    } else {
      AnswerLeft(s);
      step := if s.pread.buf != [] then ProxyConsume else ProxyReceive(1);
    }
  }

  /** An answered proxy that still waits has part of the answer before it. */
  lemma AnswerLeft(s: State)
    requires ProxyInv(s) && ProxyReads(s) && s.answer.Some?
    ensures s.pread.buf != [] || s.down != []
  {
    hide Encode, Decode, IsLine, Lines, Answer;
    var v := s.answer.value;
    AnswerLineByLine(v);
    DialAnswer();
    if s.proxy.AwaitStatus? {
      NextLine(s.pread, s.down, Encode(Answer(v)[0]), Lines(Answer(v)[1..]) + s.relayed);
    } else {
      NextLine(s.pread, s.down, Encode("\r\n"), s.relayed);
    }
  }

  /** If the dial succeeds and nothing breaks, a handshake that cannot go on has ended, and the
      proxy has its tunnel exactly where authority and token match the gateway's settings. */
  lemma SettledOutcome(c: Setup, steps: seq<Step>)
    requires IsAuthority(c.authority) && Run(c, Init(c), steps).Some?
    requires var s := Run(c, Init(c), steps).value; !s.failed && Settled(c, s)
    ensures var s := Run(c, Init(c), steps).value;
            && (s.proxy.Connected? || s.proxy.Refused?)
            && (s.proxy.Connected? <==> LetsIn(c.authority, c.token, c.settings))
  {
    hide Run, Decided, Answer, StatusAccepted, LetsIn;
    InitInv(c);
    RunKeepsInv(c, Init(c), steps);
    var s := Run(c, Init(c), steps).value;
    if ProxyReads(s) { var step := NotStuck(c, s); }
    DialsIff(c.authority, c.token, c.settings);
  }

  // ---- the handshake ends ------------------------------------------------------------------

  function GatewayRank(g: GatewayPhase): nat {
    match g
    case AwaitRequest => 6
    case AwaitHeaders(_, _) => 5
    case Dialling => 4
    case Dialled => 3
    case Answered => 2
    case Copying => 1
    case Closed => 0
  }

  function ProxyRank(p: ProxyPhase): nat {
    match p
    case AwaitStatus => 2
    case AwaitBlank => 1
    case _ => 0
  }

  function Weight(r: Reader): nat { 2 * |r.buf| + |r.line| }

  function Unread(s: State): nat { 3 * |s.up| + 3 * |s.down| + Weight(s.pread) + Weight(s.gread) }

  ghost predicate Below(t: State, s: State) {
    var (g, g', p, p') := (GatewayRank(t.gateway), GatewayRank(s.gateway), ProxyRank(t.proxy), ProxyRank(s.proxy));
    || g < g'
    || (g == g' && p < p')
    || (g == g' && p == p' && Unread(t) < Unread(s))
  }

  lemma ConsumeShrinks(r: Reader)
    requires r.buf != []
    ensures Weight(Consume(r).1) < Weight(r)
  {
    BytesFindLf(r.buf);
  }

  lemma ProxyConsumeDescends(c: Setup, s: State)
    requires Enabled(c, s, ProxyConsume)
    ensures Below(Apply(c, s, ProxyConsume), s)
  {
    hide Decode, Consume, EndsAnswer, StatusAccepted;
    ConsumeShrinks(s.pread);
  }

  lemma GatewayConsumeDescends(c: Setup, s: State)
    requires Enabled(c, s, GatewayConsume)
    ensures Below(Apply(c, s, GatewayConsume), s)
  {
    hide Decode, Consume, RequestLine, Authorization, IsBlank, Lines, Answer;
    ConsumeShrinks(s.gread);
  }

  lemma EofDescends(c: Setup, s: State, step: Step)
    requires step.ProxyEof? || step.GatewayEof?
    requires Enabled(c, s, step)
    ensures Below(Apply(c, s, step), s)
  {
    hide Decode, RequestLine, Authorization, IsBlank, Lines, Answer, EndsAnswer, StatusAccepted;
  }

  /** Every step of the handshake brings its end closer, so it cannot go on for ever. */
  lemma HandshakeDescends(c: Setup, s: State, step: Step)
    requires Handshakes(step) && Enabled(c, s, step)
    ensures Below(Apply(c, s, step), s)
  {
    hide Consume, GatewayLine, ProxyLine, Lines, Answer;
    match step {
      case ProxyConsume => ProxyConsumeDescends(c, s);
      case GatewayConsume => GatewayConsumeDescends(c, s);
      case ProxyEof => EofDescends(c, s, step);
      case GatewayEof => EofDescends(c, s, step);
      case _ =>
    }
  }

  lemma HandshakeStaysWhole(c: Setup, s: State, step: Step)
    requires Inv(c, s) && Enabled(c, s, step) && Handshakes(step)
    ensures Apply(c, s, step).failed == s.failed
  {
    hide Lines, Answer, Decided, RequestLines, GatewayLine, ProxyLine, Consume;
    match step {
      case ProxyConsume => ProxyConsumeKeepsInv(c, s);
      case GatewayConsume => GatewayConsumeKeepsInv(c, s);
      case ProxyEof => ProxyEofKeepsInv(c, s);
      case GatewayEof => ReadingNeedsMore(c, s);
      case _ =>
    }
  }

  /** Every reachable state in which nothing broke can be run on to the end of the handshake. */
  lemma Completes(c: Setup, s: State) returns (steps: seq<Step>)
    requires Inv(c, s) && !s.failed
    ensures forall i :: 0 <= i < |steps| ==> Handshakes(steps[i])
    ensures Run(c, s, steps).Some? && Inv(c, Run(c, s, steps).value) && !Run(c, s, steps).value.failed
    ensures !ProxyReads(Run(c, s, steps).value)
    decreases GatewayRank(s.gateway), ProxyRank(s.proxy), Unread(s)
  {
    hide Inv, Enabled, Apply, GatewayRank, Unread;
    steps := [];
    if ProxyReads(s) {
      var step := NotStuck(c, s);
      StepKeepsInv(c, s, step);
      HandshakeDescends(c, s, step);
      HandshakeStaysWhole(c, s, step);
      var rest := Completes(c, Apply(c, s, step));
      steps := [step] + rest;
      assert steps[1..] == rest;
    }
  }

  lemma {:induction false} RunConcat(c: Setup, s: State, a: seq<Step>, b: seq<Step>)
    requires Run(c, s, a).Some?
    ensures Run(c, s, a + b) == Run(c, Run(c, s, a).value, b)
    decreases |a|
  {
    hide Enabled, Apply;
    if a == [] {
      assert a + b == b;
    } else {
      assert (a + b)[0] == a[0] && (a + b)[1..] == a[1..] + b;
      RunConcat(c, Apply(c, s, a[0]), a[1..], b);
    }
  }

  /** However far a handshake that nothing broke has come, it can be run on until the proxy has its
      tunnel or has been refused, and it gets the tunnel exactly on a match. */
  lemma HandshakeCompletes(c: Setup, steps: seq<Step>) returns (more: seq<Step>)
    requires IsAuthority(c.authority)
    requires Run(c, Init(c), steps).Some? && !Run(c, Init(c), steps).value.failed
    ensures Run(c, Init(c), steps + more).Some?
    ensures var s := Run(c, Init(c), steps + more).value;
            if LetsIn(c.authority, c.token, c.settings) then s.proxy.Connected? else s.proxy.Refused?
  {
    hide Decided, Answer, StatusAccepted, LetsIn, Run;
    InitInv(c);
    RunKeepsInv(c, Init(c), steps);
    more := Completes(c, Run(c, Init(c), steps).value);
    RunConcat(c, Init(c), steps, more);
    DialsIff(c.authority, c.token, c.settings);
  }

  lemma ProxyStepKeepsGateway(c: Setup, s: State, step: Step)
    requires (step.ProxyReceive? || step.ProxyConsume? || step.ProxyEof?) && Enabled(c, s, step)
    ensures Apply(c, s, step).gateway == s.gateway
  {
    hide Consume, StatusAccepted, EndsAnswer, Decode;
  }

  /** Whenever the gateway has closed, answered or not, a waiting proxy can read what is there and the
      end of the connection, and no longer waits. */
  lemma NobodyWaits(c: Setup, s: State) returns (steps: seq<Step>)
    requires Inv(c, s) && s.gateway.Closed?
    ensures forall i :: 0 <= i < |steps| ==> steps[i].ProxyReceive? || steps[i].ProxyConsume? || steps[i].ProxyEof?
    ensures Run(c, s, steps).Some? && !ProxyReads(Run(c, s, steps).value)
    decreases ProxyRank(s.proxy), Unread(s)
  {
    hide Inv, Apply, Unread;
    steps := [];
    if ProxyReads(s) {
      var step := if s.pread.buf != [] then ProxyConsume else if s.down != [] then ProxyReceive(1) else ProxyEof;
      StepKeepsInv(c, s, step);
      HandshakeDescends(c, s, step);
      ProxyStepKeepsGateway(c, s, step);
      var rest := NobodyWaits(c, Apply(c, s, step));
      steps := [step] + rest;
      assert steps[1..] == rest;
    }
  }

  // ---- the runs that lose or add bytes -----------------------------------------------------

  lemma GatewayConsumeFrame(c: Setup, s: State)
    requires Enabled(c, s, GatewayConsume) && s.answer == None
    ensures var t := Apply(c, s, GatewayConsume);
            && t == s.(gateway := t.gateway, gread := t.gread, linesRead := t.linesRead, answer := t.answer,
                       failed := t.failed, down := t.down)
            && t.answer != Some(Dial)
            && (t.answer == None ==> t.down == s.down && (GatewayReads(t) || t.gateway.Dialling? || t.failed))
            && |t.gread.buf| < |s.gread.buf|
  {
    hide Decode, RequestLine, Authorization, IsBlank, Lines, Answer;
    BytesFindLf(s.gread.buf);
  }

  /** Nothing but the gateway's reading has happened, and it reads byte by byte. */
  ghost predicate Untouched(s: State) {
    && s.proxy.AwaitStatus? && s.pread == Fresh && s.down == [] && s.toRelay == [] && s.fromRelay == []
    && s.appSent == [] && s.relayGot == [] && s.relaySent == [] && s.relayed == [] && s.appGot == []
    && s.lostUp == [] && s.lostDown == [] && !s.failed && s.answer == None && |s.gread.buf| <= 1
    && (GatewayReads(s) || (s.gateway.Dialling? && s.gread.buf == []))
  }

  /** Byte by byte the gateway reads the header block and nothing behind it. */
  lemma DiallingReached(c: Setup, s: State) returns (steps: seq<Step>)
    requires Inv(c, s) && Untouched(s) && Decided(Request(c), c.settings) == Some(Dial)
    ensures Run(c, s, steps).Some?
    ensures var t := Run(c, s, steps).value; Inv(c, t) && Untouched(t) && t.gateway.Dialling?
    decreases GatewayRank(s.gateway), Unread(s)
  {
    hide GatewayLine, Lines, Answer, Decided, RequestLines, Consume, Reading, GatewayRank, Unread, ProxyInv, FlowInv, HeadRead;
    steps := [];
    if GatewayReads(s) {
      assert Reading(c, s);
      ReadingNeedsMore(c, s);
      var step := if s.gread.buf != [] then GatewayConsume else GatewayReceive(1);
      StepKeepsInv(c, s, step);
      HandshakeStaysWhole(c, s, step);
      HandshakeDescends(c, s, step);
      if step.GatewayConsume? { GatewayConsumeFrame(c, s); }
      var rest := DiallingReached(c, Apply(c, s, step));
      steps := [step] + rest;
      assert steps[1..] == rest;
    }
  }

  lemma RunThen(c: Setup, s: State, steps: seq<Step>, step: Step)
    requires Run(c, s, steps).Some? && Enabled(c, Run(c, s, steps).value, step)
    ensures Run(c, s, steps + [step]) == Some(Apply(c, Run(c, s, steps).value, step))
  {
    hide Enabled, Apply;
    RunConcat(c, s, steps, [step]);
    assert [step][1..] == [];
  }

  lemma {:induction false} RunThrough(c: Setup, states: seq<State>, steps: seq<Step>)
    requires |states| == |steps| + 1
    requires forall i :: 0 <= i < |steps| ==> Enabled(c, states[i], steps[i]) && Apply(c, states[i], steps[i]) == states[i + 1]
    ensures Run(c, states[0], steps) == Some(states[|steps|])
    decreases |steps|
  {
    hide Enabled, Apply;
    if steps != [] { RunThrough(c, states[1..], steps[1..]); }
  }

  /** The gateway has answered and copies, the proxy has read nothing yet. */
  ghost predicate CopyingUnread(c: Setup, s: State) {
    && s.gateway.Copying? && s.proxy.AwaitStatus? && s.pread == Fresh && s.down == Lines(Answer(Dial))
    && s.up == Left(c) && s.toRelay == [] && s.appSent == [] && s.relayGot == [] && s.lostDown == [] && s.appGot == []
    && s.relayed == [] && s.fromRelay == s.relaySent
  }

  lemma DiallingState(c: Setup, s: State)
    requires Inv(c, s) && Untouched(s) && s.gateway.Dialling?
    ensures s.gread == Fresh && s.up == Left(c)
  {
    hide Left, Reading, Decided, ProxyInv, FlowInv;
    assert [] + s.up == s.up;
  }

  lemma PatientCopying(c: Setup, s: State)
    requires Untouched(s) && s.gateway.Dialling? && s.gread == Fresh && s.up == Left(c)
    ensures Run(c, s, [DialSucceeds, WriteEstablished, DropReader]) ==
            Some(s.(gateway := Copying, answer := Some(Dial), down := Lines(Answer(Dial))))
  {
    hide Lines, Answer, ProxyLine, GatewayLine, Consume, Left;
    var a := s.(gateway := Dialled);
    var b := a.(gateway := Answered, answer := Some(Dial), down := Lines(Answer(Dial)));
    assert a.down + Lines(Answer(Dial)) == Lines(Answer(Dial));
    RunThrough(c, [s, a, b, b.(gateway := Copying)], [DialSucceeds, WriteEstablished, DropReader]);
  }

  /** On the way there an eager relay sends `bytes`. */
  lemma EagerCopying(c: Setup, s: State, bytes: Bytes)
    requires Untouched(s) && s.gateway.Dialling? && s.gread == Fresh && s.up == Left(c) && !c.patient
    ensures Run(c, s, [DialSucceeds, RelaySend(bytes), WriteEstablished, DropReader]) ==
            Some(s.(gateway := Copying, answer := Some(Dial), down := Lines(Answer(Dial)), fromRelay := bytes, relaySent := bytes))
  {
    hide Lines, Answer, ProxyLine, GatewayLine, Consume, Left;
    var a := s.(gateway := Dialled);
    var b := a.(fromRelay := bytes, relaySent := bytes);
    var d := b.(gateway := Answered, answer := Some(Dial), down := Lines(Answer(Dial)));
    assert a.fromRelay + bytes == bytes && a.relaySent + bytes == bytes;
    assert b.down + Lines(Answer(Dial)) == Lines(Answer(Dial));
    RunThrough(c, [s, a, b, d, d.(gateway := Copying)], [DialSucceeds, RelaySend(bytes), WriteEstablished, DropReader]);
  }

  lemma CopyingReached(c: Setup, s: State, bytes: Bytes) returns (steps: seq<Step>)
    requires Inv(c, s) && Untouched(s) && s.gateway.Dialling? && (bytes != [] ==> !c.patient)
    ensures Run(c, s, steps).Some?
    ensures var t := Run(c, s, steps).value; CopyingUnread(c, t) && t.relaySent == bytes
  {
    hide Run, Inv, Left, Lines, Answer;
    DiallingState(c, s);
    if bytes == [] {
      PatientCopying(c, s);
      steps := [DialSucceeds, WriteEstablished, DropReader];
    } else {
      EagerCopying(c, s, bytes);
      steps := [DialSucceeds, RelaySend(bytes), WriteEstablished, DropReader];
    }
  }

  lemma FromInit(c: Setup, bytes: Bytes) returns (steps: seq<Step>)
    requires Decided(Request(c), c.settings) == Some(Dial) && (bytes != [] ==> !c.patient)
    ensures Run(c, Init(c), steps).Some?
    ensures var t := Run(c, Init(c), steps).value; CopyingUnread(c, t) && t.relaySent == bytes
  {
    hide Run, Inv, CopyingUnread, Decided;
    InitInv(c);
    steps := DiallingReached(c, Init(c));
    var t := Run(c, Init(c), steps).value;
    var more := CopyingReached(c, t, bytes);
    RunConcat(c, Init(c), steps, more);
    steps := steps + more;
  }

  /** What is left of the request behind its header block can reach the relay, though no
      application sent it, and before the proxy has its tunnel. */
  lemma LeftoverReachesRelay(c: Setup) returns (steps: seq<Step>)
    requires Decided(Request(c), c.settings) == Some(Dial) && Left(c) != []
    ensures Run(c, Init(c), steps).Some?
    ensures var t := Run(c, Init(c), steps).value; t.relayGot == Left(c) && t.appSent == [] && ProxyReads(t)
  {
    hide Run, CopyingUnread, Decided;
    steps := FromInit(c, []);
    var s := Run(c, Init(c), steps).value;
    var n := |Left(c)|;
    LeftoverSent(c, s);
    RunConcat(c, Init(c), steps, [ForwardUp(n), RelayReceive(n)]);
    steps := steps + [ForwardUp(n), RelayReceive(n)];
  }

  lemma LeftoverSent(c: Setup, s: State)
    requires CopyingUnread(c, s) && Left(c) != []
    ensures var n := |Left(c)|;
            Run(c, s, [ForwardUp(n), RelayReceive(n)]) == Some(s.(relayGot := Left(c), up := []))
    ensures ProxyReads(s) && s.appSent == []
  {
    hide Lines, Answer, Left, ProxyLine, GatewayLine, Consume;
    var n := |Left(c)|;
    var a := s.(toRelay := Left(c), up := []);
    assert s.toRelay + s.up[..n] == Left(c) && s.up[n..] == [];
    assert a.relayGot + a.toRelay[..n] == Left(c) && a.toRelay[n..] == [];
    RunThrough(c, [s, a, a.(relayGot := Left(c), toRelay := [])], [ForwardUp(n), RelayReceive(n)]);
  }

  /** The proxy reads the whole answer and the relay's bytes behind it in one piece, and drops them. */
  lemma ReadAhead(c: Setup, s: State, bytes: Bytes) returns (steps: seq<Step>)
    requires s.proxy.AwaitStatus? && s.pread == Fresh && s.lostDown == []
    requires s.down == Lines(Answer(Dial)) + bytes
    ensures Run(c, s, steps).Some?
    ensures var t := Run(c, s, steps).value; t == s.(proxy := Connected, pread := Fresh, down := [], lostDown := bytes)
  {
    hide Encode, Decode, Lines, Answer, StatusAccepted, Consume;
    var first, blank := Encode(Answer(Dial)[0]), Encode("\r\n");
    AnswerLineByLine(Dial);
    DialAnswer();
    OnlyDialAccepted(Dial);
    assert Run(c, s, []) == Some(s);
    steps := [ProxyReceive(|s.down|)];
    RunThen(c, s, [], steps[0]);
    assert [] + steps == steps;
    var a := Run(c, s, steps).value;
    assert a.pread.buf == s.down && a.down == [];
    assert a.pread.line + a.pread.buf + [] == first + (blank + bytes);
    NextLine(a.pread, [], first, blank + bytes);
    RunThen(c, s, steps, ProxyConsume);
    steps := steps + [ProxyConsume];
    var b := Run(c, s, steps).value;
    assert b.pread.line + b.pread.buf + [] == blank + bytes;
    NextLine(b.pread, [], blank, bytes);
    RunThen(c, s, steps, ProxyConsume);
    steps := steps + [ProxyConsume];
  }

  /** Bytes that the relay sends first can be read ahead by the proxy and dropped. */
  lemma EagerRelayLosesBytes(c: Setup, bytes: Bytes) returns (steps: seq<Step>)
    requires Decided(Request(c), c.settings) == Some(Dial) && !c.patient && bytes != []
    ensures Run(c, Init(c), steps).Some?
    ensures var t := Run(c, Init(c), steps).value;
            t.proxy.Connected? && t.relaySent == bytes && t.lostDown == bytes && t.down == t.fromRelay == t.appGot == []
  {
    hide Lines, Answer, Left, Decided, ProxyLine, GatewayLine, Consume;
    steps := FromInit(c, bytes);
    var s := Run(c, Init(c), steps).value;
    var n := |bytes|;
    assert s.fromRelay[..n] == bytes && s.fromRelay[n..] == [];
    RunThen(c, Init(c), steps, ForwardDown(n));
    steps := steps + [ForwardDown(n)];
    var read := ReadAhead(c, Run(c, Init(c), steps).value, bytes);
    RunConcat(c, Init(c), steps, read);
    steps := steps + read;
  }

  /** Exactly when the tunnel is sound: bytes are neither lost nor added in any run if and only if
      the gateway never dials, or the relay is patient and the request ends with its header block. */
  lemma IntactIff(c: Setup)
    ensures (forall steps :: Run(c, Init(c), steps).Some? ==> Intact(Run(c, Init(c), steps).value)) <==>
            Decided(Request(c), c.settings) != Some(Dial) || (c.patient && Leftover(c.authority, c.token) == [])
  {
    hide Run, Decided, Left, Inv, Leftover;
    InitInv(c);
    LeftBytes(c);
    if Decided(Request(c), c.settings) != Some(Dial) {
      forall steps | Run(c, Init(c), steps).Some? ensures Intact(Run(c, Init(c), steps).value) {
        RunKeepsInv(c, Init(c), steps);
        NoDialNoFlow(c, Run(c, Init(c), steps).value);
      }
    } else if c.patient && Left(c) == [] {
      forall steps | Run(c, Init(c), steps).Some? ensures Intact(Run(c, Init(c), steps).value) {
        RunKeepsInv(c, Init(c), steps);
        IntactInv(c, Run(c, Init(c), steps).value);
      }
    } else if c.patient {
      var steps := LeftoverReachesRelay(c);
      assert !Intact(Run(c, Init(c), steps).value);
    } else {
      var steps := EagerRelayLosesBytes(c, [0]);
      assert !Intact(Run(c, Init(c), steps).value);
    }
  }

  /** In terms of the token: with a patient relay and an authority of one word that is let in, the
      tunnel is sound exactly if after the token's first line feed no piece of it is only carriage
      returns. */
  lemma IntactToken(c: Setup)
    requires c.patient && IsAuthority(c.authority) && LetsIn(c.authority, c.token, c.settings)
    ensures var pieces := Split(c.token, '\n');
            (forall steps :: Run(c, Init(c), steps).Some? ==> Intact(Run(c, Init(c), steps).value)) <==>
            forall i :: 1 <= i < |pieces| ==> !IsBlank(pieces[i])
  {
    hide Run, Decided, Leftover, LetsIn, Split, RequestLines;
    RequestLineReadBack(c.authority, c.token);
    DialsIff(c.authority, c.token, c.settings);
    LeftoverIff(c.authority, c.token);
    IntactIff(c);
  }

  lemma NoDialNoFlow(c: Setup, s: State)
    requires Inv(c, s) && Decided(Request(c), c.settings) != Some(Dial)
    ensures Intact(s)
  {
    hide Decided, Left, Reading, Lines, Answer;
  }

  /** A token whose last line feed is followed by nothing, as a secret read from a file may be: the
      gateway lets it in and sends the end of the request to the relay. */
  lemma TrailingLineFeed(token: string, relayAddr: string) returns (c: Setup, steps: seq<Step>)
    requires IsAuthority(relayAddr) && '\n' !in token && Trimmed(token, IsWhitespace) && token != ""
    ensures c == Setup(relayAddr, token + "\n", Settings(relayAddr, token), true)
    ensures Run(c, Init(c), steps).Some?
    ensures var t := Run(c, Init(c), steps).value; t.relayGot == Left(c) != [] && t.appSent == []
  {
    c := Setup(relayAddr, token + "\n", Settings(relayAddr, token), true);
    TrailingDecided(token, relayAddr);
    LeftBytes(c);
    steps := LeftoverReachesRelay(c);
  }

  lemma TrailingDecided(token: string, relayAddr: string)
    requires IsAuthority(relayAddr) && '\n' !in token && Trimmed(token, IsWhitespace) && token != ""
    ensures Decided(RequestLines(relayAddr, token + "\n"), Settings(relayAddr, token)) == Some(Dial)
    ensures Leftover(relayAddr, token + "\n") != []
  {
    hide Decided, RequestLines, Leftover, Split, IsBlank, OneAuthorization, TrimEnd;
    TrailingPieces(token);
    assert '\n' !in relayAddr by { assert IsWhitespace('\n'); }
    LeftoverIff(relayAddr, token + "\n");
    assert Split(token + "\n", '\n')[1] == "" && Split(token + "\n", '\n')[0] == token;
    HandshakeDecides(relayAddr, token + "\n", Settings(relayAddr, token));
    TrimEndRound(token, IsWhitespace);
  }

  lemma TrailingPieces(token: string)
    requires '\n' !in token
    ensures Split(token + "\n", '\n') == [token, ""] && IsBlank("") && OneAuthorization(token + "\n")
  {
    hide SplitOnce;
    assert token + "\n" == token + ['\n'] + "";
    SplitOnceAt(token, '\n', "");
    SplitOnceNone("", '\n');
    assert Split("", '\n') == [""];
    assert Split(token + "\n", '\n') == [token] + Split("", '\n');
    EmptyUnterminated();
    SplitOnceNone("", ':');
  }

  lemma LeftBytes(c: Setup)
    ensures Left(c) == [] <==> Leftover(c.authority, c.token) == []
  {
    hide RequestLines, HeadLength, Encode, Decode;
    var l, n := Request(c), Head(c);
    assert Leftover(c.authority, c.token) == l[n..];
    if n < |l| {
      RequestLineByLine(c, n);
      assert Left(c) == Encode(l[n]) + Lines(l[n + 1..]);
    }
  }

  // ---- what is sent arrives ----------------------------------------------------------------

  /** Forwarding and receiving everything that is on its way to the relay. */
  lemma DrainUp(c: Setup, s: State) returns (steps: seq<Step>)
    requires s.gateway.Copying?
    ensures Run(c, s, steps) == Some(s.(up := [], toRelay := [], relayGot := s.relayGot + s.toRelay + s.up))
  {
    hide ProxyLine, GatewayLine, Consume, Lines, Answer;
    var all := s.toRelay + s.up;
    var a := s.(toRelay := all, up := []);
    var b := a.(relayGot := s.relayGot + all, toRelay := []);
    assert s.relayGot + all == s.relayGot + s.toRelay + s.up;
    assert s.up[..|s.up|] == s.up && s.up[|s.up|..] == [] && all[..|all|] == all && all[|all|..] == [];
    if all == [] {
      assert s.relayGot + s.toRelay + s.up == s.relayGot;
      steps := [];
    } else if s.up == [] {
      assert a == s;
      steps := [RelayReceive(|all|)];
      RunThrough(c, [s, b], steps);
    } else {
      steps := [ForwardUp(|s.up|), RelayReceive(|all|)];
      RunThrough(c, [s, a, b], steps);
    }
  }

  /** The same towards the application. */
  lemma DrainDown(c: Setup, s: State) returns (steps: seq<Step>)
    requires s.gateway.Copying? && s.proxy.Connected?
    ensures Run(c, s, steps) ==
            Some(s.(fromRelay := [], down := [], relayed := s.relayed + s.fromRelay, appGot := s.appGot + s.down + s.fromRelay))
  {
    hide ProxyLine, GatewayLine, Consume, Lines, Answer;
    var x, all := s.fromRelay, s.down + s.fromRelay;
    var a := s.(down := all, fromRelay := [], relayed := s.relayed + x);
    var b := a.(appGot := s.appGot + all, down := []);
    assert s.appGot + all == s.appGot + s.down + x;
    assert x[..|x|] == x && x[|x|..] == [] && all[..|all|] == all && all[|all|..] == [];
    if all == [] {
      assert s.appGot + s.down + x == s.appGot && s.relayed + x == s.relayed;
      steps := [];
    } else if x == [] {
      assert a == s by { assert s.relayed + x == s.relayed && s.down + x == s.down; }
      steps := [AppReceive(|all|)];
      RunThrough(c, [s, b], steps);
    } else {
      steps := [ForwardDown(|x|), AppReceive(|all|)];
      RunThrough(c, [s, a, b], steps);
    }
  }

  lemma CopyingFollows(c: Setup, s: State) returns (steps: seq<Step>)
    requires s.gateway.Answered? || s.gateway.Copying?
    ensures Run(c, s, steps).Some?
    ensures var t := Run(c, s, steps).value;
            t.gateway.Copying? && t.proxy == s.proxy && t.appSent == s.appSent && t.relaySent == s.relaySent
  {
    hide ProxyLine, GatewayLine, Consume, Lines, Answer;
    if s.gateway.Answered? {
      steps := [DropReader];
      RunThrough(c, [s, Apply(c, s, DropReader)], steps);
    } else {
      steps := [];
    }
  }

  /** The tunnel is open at both ends, and all that was sent has arrived or was in a dropped reader. */
  ghost predicate Delivered(c: Setup, s: State) {
    && s.gateway.Copying? && s.proxy.Connected?
    && s.lostUp + s.relayGot == Left(c) + s.appSent && s.lostDown + s.appGot == s.relaySent
  }

  lemma DeliveredFrom(c: Setup, s: State) returns (more: seq<Step>)
    requires Inv(c, s) && s.proxy.Connected? && (s.gateway.Answered? || s.gateway.Copying?)
    ensures Run(c, s, more).Some?
    ensures var t := Run(c, s, more).value;
            Inv(c, t) && Delivered(c, t) && t.appSent == s.appSent && t.relaySent == s.relaySent
  {
    hide Run, Inv, Left, Apply, Enabled;
    var a := CopyingFollows(c, s);
    var s1 := Run(c, s, a).value;
    var b := DrainUp(c, s1);
    var s2 := Run(c, s1, b).value;
    var d := DrainDown(c, s2);
    var t := Run(c, s2, d).value;
    RunConcat(c, s, a, b);
    RunConcat(c, s, a + b, d);
    more := a + b + d;
    RunKeepsInv(c, s, more);
    EmptyChannels(c, t);
  }

  lemma EmptyChannels(c: Setup, t: State)
    requires Inv(c, t) && t.gateway.Copying? && t.proxy.Connected?
    requires t.up == [] && t.toRelay == [] && t.down == [] && t.fromRelay == []
    ensures Delivered(c, t)
  {
    hide Left, ProxyInv;
    CopyingHasAnswered(c, t);
    assert t.lostUp + t.relayGot + [] + ([] + []) == t.lostUp + t.relayGot;
    assert t.lostDown + t.appGot + [] == t.lostDown + t.appGot && t.relayed + [] == t.relayed;
  }

  /** From every reachable state with an open tunnel, all that was sent can be made to arrive. */
  lemma SentArrives(c: Setup, steps: seq<Step>) returns (more: seq<Step>)
    requires Run(c, Init(c), steps).Some?
    requires var s := Run(c, Init(c), steps).value; s.proxy.Connected? && (s.gateway.Answered? || s.gateway.Copying?)
    ensures Run(c, Init(c), steps + more).Some?
    ensures var s, t := Run(c, Init(c), steps).value, Run(c, Init(c), steps + more).value;
            && t.lostUp + t.relayGot == Left(c) + s.appSent && t.lostDown + t.appGot == s.relaySent
            && t.appSent == s.appSent && t.relaySent == s.relaySent && t.proxy.Connected? && t.gateway.Copying?
  {
    hide Run, Left;
    InitInv(c);
    RunKeepsInv(c, Init(c), steps);
    more := DeliveredFrom(c, Run(c, Init(c), steps).value);
    RunConcat(c, Init(c), steps, more);
  }

  /** In such a state the application can send any bytes, and the relay can once it has received
      something or is not patient. */
  lemma CanSend(c: Setup, s: State, x: Bytes, y: Bytes)
    requires s.proxy.Connected? && (s.gateway.Answered? || s.gateway.Copying?)
    ensures Run(c, s, [AppSend(x)]) == Some(s.(up := s.up + x, appSent := s.appSent + x))
    ensures s.relayGot != [] || !c.patient ==>
              Run(c, s, [RelaySend(y)]) == Some(s.(fromRelay := s.fromRelay + y, relaySent := s.relaySent + y))
  {
    hide ProxyLine, GatewayLine, Consume, Lines, Answer;
    RunThrough(c, [s, Apply(c, s, AppSend(x))], [AppSend(x)]);
    if s.relayGot != [] || !c.patient { RunThrough(c, [s, Apply(c, s, RelaySend(y))], [RelaySend(y)]); }
  }

  /** End to end: a proxy that is let in can have any bytes reach the relay, and the relay any answer
      reach the application. */
  lemma Exchange(c: Setup, x: Bytes, y: Bytes) returns (steps: seq<Step>)
    requires IsAuthority(c.authority) && LetsIn(c.authority, c.token, c.settings) && x != []
    requires c.patient && Leftover(c.authority, c.token) == []
    ensures Run(c, Init(c), steps).Some?
    ensures var t := Run(c, Init(c), steps).value; t.appSent == t.relayGot == x && t.relaySent == t.appGot == y
  {
    hide Run, LetsIn, Leftover, Left;
    steps := OpenTunnel(c);
    steps := SendAndDeliver(c, steps, AppSend(x));
    steps := SendAndDeliver(c, steps, RelaySend(y));
  }

  lemma OpenTunnel(c: Setup) returns (steps: seq<Step>)
    requires IsAuthority(c.authority) && LetsIn(c.authority, c.token, c.settings)
    ensures Run(c, Init(c), steps).Some?
    ensures var s := Run(c, Init(c), steps).value;
            s.proxy.Connected? && s.gateway.Copying? && s.appSent == [] && s.relaySent == []
  {
    hide Run, LetsIn, Decided, Left, Lines, Answer;
    DialsIff(c.authority, c.token, c.settings);
    steps := FromInit(c, []);
    var s := Run(c, Init(c), steps).value;
    assert s.down + [] == s.down;
    var read := ReadAhead(c, s, []);
    RunConcat(c, Init(c), steps, read);
    steps := steps + read;
  }

  /** One side sends and everything is delivered. */
  lemma SendAndDeliver(c: Setup, steps: seq<Step>, step: Step) returns (all: seq<Step>)
    requires c.patient && Leftover(c.authority, c.token) == [] && Run(c, Init(c), steps).Some?
    requires step.AppSend? || step.RelaySend?
    requires var s := Run(c, Init(c), steps).value;
      && s.proxy.Connected? && (s.gateway.Answered? || s.gateway.Copying?) && (step.RelaySend? ==> s.relayGot != [])
    ensures Run(c, Init(c), all).Some?
    ensures var s, t := Run(c, Init(c), steps).value, Run(c, Init(c), all).value;
            && t.relayGot == t.appSent == s.appSent + (if step.AppSend? then step.bytes else [])
            && t.appGot == t.relaySent == s.relaySent + (if step.RelaySend? then step.bytes else [])
            && t.proxy.Connected? && t.gateway.Copying?
  {
    hide Run, Leftover, Left;
    var s := Run(c, Init(c), steps).value;
    CanSend(c, s, step.bytes, step.bytes);
    RunConcat(c, Init(c), steps, [step]);
    all := steps + [step];
    assert s.appSent + [] == s.appSent && s.relaySent + [] == s.relaySent;
    var more := SentArrives(c, all);
    NothingLost(c, all + more);
    all := all + more;
    LeftBytes(c);
    assert Left(c) == [];
    var t := Run(c, Init(c), all).value;
    assert t.lostUp + t.relayGot == t.relayGot && t.lostDown + t.appGot == t.appGot && Left(c) + t.appSent == t.appSent;
  }

  // ---- the runs include every fragmentation and every failure ------------------------------

  /** Any number of the bytes that are there may come in one read. */
  lemma EveryPiece(c: Setup, s: State, n: nat)
    requires n > 0
    ensures ProxyReads(s) && s.pread.buf == [] && n <= |s.down| ==>
              Run(c, s, [ProxyReceive(n)]) == Some(s.(pread := Reader(s.pread.line, s.down[..n]), down := s.down[n..]))
    ensures GatewayReads(s) && s.gread.buf == [] && n <= |s.up| ==>
              Run(c, s, [GatewayReceive(n)]) == Some(s.(gread := Reader(s.gread.line, s.up[..n]), up := s.up[n..]))
    ensures s.gateway.Copying? && n <= |s.up| ==>
              Run(c, s, [ForwardUp(n)]) == Some(s.(toRelay := s.toRelay + s.up[..n], up := s.up[n..]))
    ensures s.gateway.Copying? && n <= |s.fromRelay| ==>
              Run(c, s, [ForwardDown(n)]) == Some(s.(down := s.down + s.fromRelay[..n], fromRelay := s.fromRelay[n..],
                                                     relayed := s.relayed + s.fromRelay[..n]))
    ensures s.proxy.Connected? && n <= |s.down| ==>
              Run(c, s, [AppReceive(n)]) == Some(s.(appGot := s.appGot + s.down[..n], down := s.down[n..]))
    ensures n <= |s.toRelay| ==>
              Run(c, s, [RelayReceive(n)]) == Some(s.(relayGot := s.relayGot + s.toRelay[..n], toRelay := s.toRelay[n..]))
  {
    hide ProxyLine, GatewayLine, Consume, Lines, Answer;
    assert forall step: Step :: [step][1..] == [];
  }

  /** Either side may break off, and a dial may fail. */
  lemma EveryFailure(c: Setup, s: State)
    ensures ProxyReads(s) ==> Run(c, s, [ProxyStop]) == Some(s.(proxy := Refused, failed := true))
    ensures !s.gateway.Closed? ==> Run(c, s, [GatewayStop]) == Some(s.(gateway := Closed, failed := true))
    ensures s.gateway.Dialling? ==> Run(c, s, [DialFails]) == Some(s.(gateway := Closed, failed := true))
  {
    hide ProxyLine, GatewayLine, Consume, Lines, Answer;
    assert forall step: Step :: [step][1..] == [];
  }
}
