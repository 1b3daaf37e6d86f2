/** Requests to the relay: each takes a snapshot of the credential store and is forwarded later,
    while credentials are being injected. */
module Proxy {
  import opened Wrappers
  import opened Text
  import opened Urls
  import opened Config
  import opened Credentials

  // ---- one request -------------------------------------------------------------------------

  datatype AppError = PayloadTooLarge(limit: nat) | UpstreamBlocked(reason: Blocked) | MissingProviderCredential | BadCredential

  datatype UpstreamRequest = UpstreamRequest(url: string, headers: map<string, string>)

  /** The credential that a request goes on with, if it may go on. */
  function Snapshot(required: bool, inner: Option<ProviderCredential>): Result<Option<ProviderCredential>, AppError> {
    if required && inner.None? then Err(MissingProviderCredential) else Ok(inner)
  }

  /** The headers that a request with that snapshot is sent with. */
  function Forwarded(client: ClientHeaders, credential: Option<ProviderCredential>): Result<map<string, string>, AppError> {
    match credential
    case None => Ok(UpstreamHeaders(client, None))
    case Some(c) =>
      match AuthorizationValue(c)
      case None => Err(BadCredential)
      case Some(auth) => Ok(UpstreamHeaders(client, Some(auth)))
  }

  function UpstreamUrl(up: Upstream): string {
    WithoutSlashes(up.baseUrl) + PathOf(up)
  }

  function PathOf(up: Upstream): string { if up.path.Some? then up.path.value else "/v1/chat/completions" }

  /** The base URL loses its slashes at the end, and the path is the route's or that of the API. */
  lemma UpstreamUrlText(base: string, slashes: string, path: Option<string>)
    requires (base == "" || base[|base| - 1] != '/') && forall c :: c in slashes ==> c == '/'
    ensures UpstreamUrl(Upstream(base + slashes, path)) ==
            base + match path case Some(p) => p case None => "/v1/chat/completions"
  {
    SlashesRemoved(base, slashes);
  }

  /** The allowlist is checked on the base URL. Where the path is absent or starts with a slash, the
      URL that is sent is allowed too, or is no URL with an origin. */
  lemma SentUrlAllowed(parse: Parser, allowed: seq<string>, up: Upstream)
    requires PathsStay(parse) && Allowed(parse, allowed, up.baseUrl) && (up.path.Some? ==> "/" <= up.path.value)
    ensures UrlOrigin(parse, UpstreamUrl(up)).Some? ==> Allowed(parse, allowed, UpstreamUrl(up))
    ensures UrlOrigin(parse, UpstreamUrl(up)).Some? && UrlOrigin(parse, up.baseUrl).Some? ==>
              UrlOrigin(parse, UpstreamUrl(up)) == UrlOrigin(parse, up.baseUrl)
  {
    hide UrlOrigin, WithoutSlashes;
    assert UpstreamUrl(up) == WithoutSlashes(up.baseUrl) + PathOf(up);
    assert "/" <= PathOf(up);
  }

  ghost predicate IsBlocked(parse: Parser, config: RelayConfig, model: string) {
    exists up :: RoutesTo(config, model, up) && !Allowed(parse, config.allowedUpstreams, up.baseUrl)
  }

  /** `proxy_chat_completions` up to the moment the upstream request is sent. */
  method ProxyChatCompletions(parse: Parser, config: RelayConfig, store: ProviderCredentialStore, required: bool,
                              client: ClientHeaders, bodyLen: nat, model: string)
    returns (r: Result<UpstreamRequest, AppError>)
    ensures r == Err(PayloadTooLarge(config.maxRequestBytes)) <==> bodyLen > config.maxRequestBytes
    ensures r.Err? && r.error.PayloadTooLarge? ==> r.error.limit == config.maxRequestBytes
    ensures r.Err? && r.error.UpstreamBlocked? <==>
              bodyLen <= config.maxRequestBytes && IsBlocked(parse, config, model)
    ensures r == Err(MissingProviderCredential) <==>
              bodyLen <= config.maxRequestBytes && !IsBlocked(parse, config, model) && required && store.inner == None
    ensures r.Ok? ==>
              && Snapshot(required, store.inner).Ok?
              && Forwarded(client, store.inner) == Ok(r.value.headers)
              && exists up :: RoutesTo(config, model, up) && r.value.url == UpstreamUrl(up)
                              && Allowed(parse, config.allowedUpstreams, up.baseUrl)
    ensures bodyLen <= config.maxRequestBytes && !IsBlocked(parse, config, model) ==>
              (r.Ok? <==> Snapshot(required, store.inner).Ok? && Forwarded(client, store.inner).Ok?)
  {
    hide RoutesTo, Allowed, UpstreamHeaders, AuthorizationValue;
    if bodyLen > config.maxRequestBytes { return Err(PayloadTooLarge(config.maxRequestBytes)); }
    var up := ChooseUpstream(parse, config, model);
    if up.Err? { return Err(UpstreamBlocked(up.error)); }
    var credential := store.Get();
    if required && credential.None? { return Err(MissingProviderCredential); }
    var headers := BuildUpstreamHeaders(client, credential);
    if headers.None? { return Err(BadCredential); }
    r := Ok(UpstreamRequest(UpstreamUrl(up.value), headers.value));
  }

  // ---- concurrent requests and injections --------------------------------------------------

  /** Whether a credential is required, and the one that start-up loads without validating it. */
  datatype Setup = Setup(required: bool, startup: Option<ProviderCredential>)

  datatype Phase =
    | Refused
    | Snapped(credential: Option<ProviderCredential>)
    | Failed
    | Sent(headers: map<string, string>)

  datatype Request = Request(client: ClientHeaders, phase: Phase)

  /** `answers` records the injections and their answers; no step reads it. */
  datatype State = State(
    inner: Option<ProviderCredential>,
    requests: map<nat, Request>,
    answers: seq<(ProviderCredential, Status)>)

  datatype Step =
    | Inject(credential: ProviderCredential)
    | Snap(id: nat, client: ClientHeaders)
    | Forward(id: nat)

  function Init(c: Setup): State { State(c.startup, map[], []) }

  function Apply(c: Setup, s: State, step: Step): Option<State> {
    match step
    case Inject(credential) =>
      var status := InjectionStatus(s.inner, credential);
      Some(s.(inner := if status.NoContent? then Some(credential) else s.inner,
              answers := s.answers + [(credential, status)]))
    case Snap(id, client) =>
      if id in s.requests then None
      else
        var phase := match Snapshot(c.required, s.inner) case Ok(credential) => Snapped(credential) case Err(_) => Refused;
        Some(s.(requests := s.requests[id := Request(client, phase)]))
    case Forward(id) =>
      if id !in s.requests || !s.requests[id].phase.Snapped? then None
      else
        var request := s.requests[id];
        var phase := match Forwarded(request.client, request.phase.credential) case Ok(headers) => Sent(headers) case Err(_) => Failed;
        Some(s.(requests := s.requests[id := request.(phase := phase)]))
  }

  function Run(c: Setup, s: State, steps: seq<Step>): Option<State>
    decreases |steps|
  {
    if steps == [] then Some(s)
    else match Apply(c, s, steps[0])
      case None => None
      case Some(next) => Run(c, next, steps[1..])
  }

  /** The credentials whose injection succeeded. */
  function Accepted(answers: seq<(ProviderCredential, Status)>): seq<ProviderCredential> {
    if answers == [] then []
    else
      var last := answers[|answers| - 1];
      Accepted(answers[..|answers| - 1]) + (if last.1.NoContent? then [last.0] else [])
  }

  // ---- what every step keeps ---------------------------------------------------------------

  ghost predicate StoreInv(c: Setup, s: State) {
    if c.startup.Some? then s.inner == c.startup && Accepted(s.answers) == []
    else match s.inner
      case None => Accepted(s.answers) == []
      case Some(credential) => Accepted(s.answers) == [credential] && Credentials.Validate(credential).Ok?
  }

  /** Where a sent request's headers come from: the stored credential, or, only where none is
      required, the client. */
  ghost predicate HeadersFrom(c: Setup, s: State, client: ClientHeaders, headers: map<string, string>) {
    || (!c.required && c.startup.None? && headers == UpstreamHeaders(client, None))
    || (s.inner.Some? && Forwarded(client, s.inner) == Ok(headers))
  }

  ghost predicate RequestInv(c: Setup, s: State, request: Request) {
    match request.phase
    case Refused => c.required
    case Snapped(None) => !c.required && c.startup.None?
    case Snapped(Some(credential)) => s.inner == Some(credential)
    case Failed => s.inner.Some? && AuthorizationValue(s.inner.value).None?
    case Sent(headers) => HeadersFrom(c, s, request.client, headers)
  }

  ghost predicate Inv(c: Setup, s: State) {
    StoreInv(c, s) && forall id :: id in s.requests ==> RequestInv(c, s, s.requests[id])
  }

  lemma InjectKeepsStore(c: Setup, s: State, credential: ProviderCredential)
    requires StoreInv(c, s)
    ensures var t := Apply(c, s, Inject(credential)).value;
            StoreInv(c, t) && (s.inner.Some? ==> t.inner == s.inner)
  {
    hide Credentials.Validate;
    var t := Apply(c, s, Inject(credential)).value;
    assert t.answers[..|t.answers| - 1] == s.answers;
  }

  lemma StepKeepsInv(c: Setup, s: State, step: Step)
    requires Inv(c, s) && Apply(c, s, step).Some?
    ensures var t := Apply(c, s, step).value; Inv(c, t) && (s.inner.Some? ==> t.inner == s.inner)
  {
    hide Credentials.Validate, AuthorizationValue, UpstreamHeaders, Accepted;
    if step.Inject? { InjectKeepsStore(c, s, step.credential); }
  }

  lemma {:induction false} RunKeepsInv(c: Setup, s: State, steps: seq<Step>)
    requires Inv(c, s) && Run(c, s, steps).Some?
    ensures var t := Run(c, s, steps).value; Inv(c, t) && (s.inner.Some? ==> t.inner == s.inner)
    decreases |steps|
  {
    hide Inv, Apply;
    if steps != [] {
      StepKeepsInv(c, s, steps[0]);
      RunKeepsInv(c, Apply(c, s, steps[0]).value, steps[1..]);
    }
  }

  lemma {:induction false} RunConcat(c: Setup, s: State, a: seq<Step>, b: seq<Step>)
    requires Run(c, s, a).Some?
    ensures Run(c, s, a + b) == Run(c, Run(c, s, a).value, b)
    decreases |a|
  {
    hide Apply;
    if a == [] {
      assert a + b == b;
    } else {
      assert (a + b)[0] == a[0] && (a + b)[1..] == a[1..] + b;
      RunConcat(c, Apply(c, s, a[0]).value, a[1..], b);
    }
  }

  // ---- the main results --------------------------------------------------------------------

  /** In every run at most one injection succeeds, none after a start-up credential, and the store
      holds exactly the credential that came first. */
  lemma OneInjection(c: Setup, steps: seq<Step>)
    requires Run(c, Init(c), steps).Some?
    ensures var s := Run(c, Init(c), steps).value;
            var accepted := Accepted(s.answers);
            && |accepted| <= (if c.startup.Some? then 0 else 1)
            && s.inner == if c.startup.Some? then c.startup else if accepted == [] then None else Some(accepted[0])
  {
    hide Run;
    RunKeepsInv(c, Init(c), steps);
  }

  /** A loaded credential never changes or disappears, however the run goes on. */
  lemma LoadedStays(c: Setup, steps: seq<Step>, more: seq<Step>)
    requires Run(c, Init(c), steps + more).Some? && Run(c, Init(c), steps).Some?
    requires Run(c, Init(c), steps).value.inner.Some?
    ensures Run(c, Init(c), steps + more).value.inner == Run(c, Init(c), steps).value.inner
  {
    hide Run;
    RunKeepsInv(c, Init(c), steps);
    RunConcat(c, Init(c), steps, more);
    RunKeepsInv(c, Run(c, Init(c), steps).value, more);
  }

  /** Where a credential is required, every request that is sent carries the Authorization of the
      credential in the store, whatever Authorization the client sent. */
  lemma OnlyCredentialSent(c: Setup, steps: seq<Step>, id: nat)
    requires c.required && Run(c, Init(c), steps).Some?
    requires var s := Run(c, Init(c), steps).value; id in s.requests && s.requests[id].phase.Sent?
    ensures var s := Run(c, Init(c), steps).value;
            var headers := s.requests[id].phase.headers;
            && s.inner.Some? && AUTHORIZATION in headers
            && headers[AUTHORIZATION] == s.inner.value.authScheme + " " + s.inner.value.token
  {
    hide Run, Credentials.Validate;
    RunKeepsInv(c, Init(c), steps);
    DistinctNames();
    var s := Run(c, Init(c), steps).value;
    assert RequestInv(c, s, s.requests[id]);
    assert HeaderSource(s.requests[id].client, AuthorizationValue(s.inner.value), AUTHORIZATION) == AuthorizationValue(s.inner.value);
  }

  /** Where none is required, a sent request carries either that or exactly the client's own. */
  lemma SentAuthorization(c: Setup, steps: seq<Step>, id: nat)
    requires Run(c, Init(c), steps).Some?
    requires var s := Run(c, Init(c), steps).value; id in s.requests && s.requests[id].phase.Sent?
    ensures var s := Run(c, Init(c), steps).value;
            var headers := s.requests[id].phase.headers;
            var sent := if AUTHORIZATION in headers then Some(headers[AUTHORIZATION]) else None;
            || (!c.required && sent == First(s.requests[id].client, AUTHORIZATION))
            || (s.inner.Some? && sent == Some(s.inner.value.authScheme + " " + s.inner.value.token))
  {
    hide Run, Credentials.Validate;
    RunKeepsInv(c, Init(c), steps);
    DistinctNames();
    var s := Run(c, Init(c), steps).value;
    assert RequestInv(c, s, s.requests[id]);
    AuthorizationIsForwarded();
    assert HeaderSource(s.requests[id].client, None, AUTHORIZATION) == First(s.requests[id].client, AUTHORIZATION);
    if s.inner.Some? && AuthorizationValue(s.inner.value).Some? {
      assert HeaderSource(s.requests[id].client, AuthorizationValue(s.inner.value), AUTHORIZATION) == AuthorizationValue(s.inner.value);
    }
  }

  lemma AuthorizationIsForwarded()
    ensures AUTHORIZATION in FORWARDED_REQUEST_HEADERS
  {
    assert FORWARDED_REQUEST_HEADERS[3] == AUTHORIZATION;
  }

  /** Only a start-up credential that is no header value can make forwarding fail, and with one that
      is not, nothing is ever sent: an injected credential has been validated. */
  lemma FailsOnlyFromStartup(c: Setup, steps: seq<Step>, id: nat)
    requires Run(c, Init(c), steps).Some? && id in Run(c, Init(c), steps).value.requests
    ensures var phase := Run(c, Init(c), steps).value.requests[id].phase;
            && (phase.Failed? ==> c.startup.Some? && AuthorizationValue(c.startup.value).None?)
            && (c.startup.Some? && AuthorizationValue(c.startup.value).None? ==> !phase.Sent?)
  {
    hide Run, AuthorizationValue;
    RunKeepsInv(c, Init(c), steps);
    var s := Run(c, Init(c), steps).value;
    assert RequestInv(c, s, s.requests[id]);
  }

  // ---- what can happen ---------------------------------------------------------------------

  lemma RunTwo(c: Setup, s: State, a: Step, b: Step)
    requires Apply(c, s, a).Some?
    ensures Run(c, s, [a]) == Apply(c, s, a)
    ensures Run(c, s, [a, b]) == Apply(c, Apply(c, s, a).value, b)
  {
    hide Apply;
    var t := Apply(c, s, a).value;
    assert [a][1..] == [] && [a, b][1..] == [b] && [b][1..] == [];
    assert Run(c, t, [b]) == match Apply(c, t, b) case None => None case Some(next) => Run(c, next, [b][1..]);
  }

  /** From every reachable state of a relay without a start-up credential a new request is refused where
      one is required and none is there; otherwise it can be sent, with the headers that it should have. */
  lemma RequestGoes(c: Setup, steps: seq<Step>, id: nat, client: ClientHeaders)
    requires c.startup.None? && Run(c, Init(c), steps).Some? && id !in Run(c, Init(c), steps).value.requests
    ensures var s := Run(c, Init(c), steps).value;
            if c.required && s.inner.None? then
              Run(c, s, [Snap(id, client)]) == Some(s.(requests := s.requests[id := Request(client, Refused)]))
            else
              var auth := match s.inner case None => None case Some(x) => Some(x.authScheme + " " + x.token);
              Run(c, s, [Snap(id, client), Forward(id)]) ==
              Some(s.(requests := s.requests[id := Request(client, Sent(UpstreamHeaders(client, auth)))]))
  {
    hide Run, Credentials.Validate, UpstreamHeaders, AuthorizationValue;
    RunKeepsInv(c, Init(c), steps);
    var s := Run(c, Init(c), steps).value;
    RunTwo(c, s, Snap(id, client), Forward(id));
    if s.inner.Some? {
      ValidIff(s.inner.value);
      assert AuthorizationValue(s.inner.value).Some?;
    }
    if !(c.required && s.inner.None?) {
      var snapped := Apply(c, s, Snap(id, client)).value;
      assert snapped.requests[id] == Request(client, Snapped(s.inner));
      var sent := Forwarded(client, s.inner).value;
      assert snapped.requests[id := Request(client, Sent(sent))] == s.requests[id := Request(client, Sent(sent))];
    }
  }

  /** An injection between a request's snapshot and its forwarding does not concern the request. */
  lemma SnapshotHolds(c: Setup, s: State, id: nat, credential: ProviderCredential)
    requires id in s.requests && s.requests[id].phase.Snapped?
    ensures Run(c, s, [Inject(credential), Forward(id)]).Some?
    ensures Run(c, s, [Inject(credential), Forward(id)]).value.requests == Apply(c, s, Forward(id)).value.requests
  {
    hide InjectionStatus, Forwarded;
    RunTwo(c, s, Inject(credential), Forward(id));
  }

  /** A valid credential can be injected as long as none is there, and is then the one that is used. */
  lemma InjectionLoads(c: Setup, s: State, credential: ProviderCredential)
    requires s.inner.None? && IsWord(credential.token) && IsWord(TrimBy(credential.authScheme, IsPad))
    ensures Run(c, s, [Inject(credential)]) ==
            Some(s.(inner := Some(credential), answers := s.answers + [(credential, NoContent)]))
  {
    hide Credentials.Validate, IsWord, TrimBy;
    ValidIff(credential);
    RunTwo(c, s, Inject(credential), Inject(credential));
  }
}
