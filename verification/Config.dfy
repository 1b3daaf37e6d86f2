/** The relay configuration, routing, the upstream allowlist and start-up validation. */
module Config {
  import opened Wrappers
  import opened Utf8
  import opened Text
  import opened Ordering
  import opened Urls
  import opened TlsPins

  datatype ProviderConfig = ProviderConfig(baseUrl: string, path: Option<string>)

  datatype RuntimeConfig = RuntimeConfig(
    allowClientProviderAuth: bool,
    privateAdminEnabled: bool,
    providerAuthScheme: string,
    bodyLogPolicy: string)

  datatype RelayConfig = RelayConfig(
    listenAddr: string,
    runtime: RuntimeConfig,
    defaultUpstream: string,
    routes: map<string, ProviderConfig>,
    allowedUpstreams: seq<string>,
    maxRequestBytes: nat,
    releaseArtifactDigest: Option<string>,
    upstreamTimeoutSecs: nat,
    upstreamTlsLeafSha256: PinTable)

  // ---- routing -----------------------------------------------------------------------------

  /** `str::len`. */
  function ByteLength(s: string): nat { |Encode(s)| }

  /** `order` holds exactly the route prefixes, longest first; ties may come in any order. */
  ghost predicate LongestFirst(order: seq<string>, keys: set<string>) {
    (forall k :: k in keys <==> k in order) && Descending(order)
  }

  function InsertByLength(x: string, s: seq<string>): seq<string> {
    if s == [] then [x]
    else if ByteLength(x) >= ByteLength(s[0]) then [x] + s
    else [s[0]] + InsertByLength(x, s[1..])
  }

  /** `sort_by` on descending key length, keeping the order of equal lengths. */
  function SortByLength(s: seq<string>): seq<string> {
    if s == [] then [] else InsertByLength(s[0], SortByLength(s[1..]))
  }

  ghost predicate Descending(s: seq<string>) {
    forall i, j :: 0 <= i < j < |s| ==> ByteLength(s[i]) >= ByteLength(s[j])
  }

  lemma {:induction false} InsertByLengthKeeps(x: string, s: seq<string>)
    ensures multiset(InsertByLength(x, s)) == multiset(s) + multiset{x}
  {
    hide ByteLength;
    if s != [] {
      InsertByLengthKeeps(x, s[1..]);
      assert s == [s[0]] + s[1..];
    }
  }

  lemma {:induction false} InsertByLengthOrders(x: string, s: seq<string>)
    requires Descending(s)
    ensures Descending(InsertByLength(x, s))
  {
    hide ByteLength;
    if s != [] && ByteLength(x) < ByteLength(s[0]) {
      InsertByLengthOrders(x, s[1..]);
      InsertByLengthKeeps(x, s[1..]);
      var r := InsertByLength(x, s[1..]);
      forall j | 0 <= j < |r| ensures ByteLength(s[0]) >= ByteLength(r[j]) {
        assert r[j] in multiset(r);
        if r[j] != x { assert r[j] in s[1..]; }
      }
    }
  }

  lemma {:induction false} SortByLengthOrders(s: seq<string>)
    ensures Descending(SortByLength(s)) && multiset(SortByLength(s)) == multiset(s)
  {
    if s != [] {
      SortByLengthOrders(s[1..]);
      InsertByLengthOrders(s[0], SortByLength(s[1..]));
      InsertByLengthKeeps(s[0], SortByLength(s[1..]));
      assert s == [s[0]] + s[1..];
    }
  }

  /** The key that routes a model: the longest that is a prefix of it. */
  ghost predicate IsBestRoute(routes: map<string, ProviderConfig>, model: string, key: string) {
    && key in routes && key <= model
    && forall k :: k in routes && k <= model ==> |k| <= |key|
  }

  datatype Upstream = Upstream(baseUrl: string, path: Option<string>)

  ghost predicate RoutesTo(config: RelayConfig, model: string, up: Upstream) {
    || (exists k :: IsBestRoute(config.routes, model, k)
                    && up == Upstream(config.routes[k].baseUrl, config.routes[k].path))
    || ((forall k :: k in config.routes ==> !(k <= model)) && up == Upstream(config.defaultUpstream, None))
  }

  /** Of two prefixes of one text, the one with more characters has more bytes. */
  lemma LongerIsLonger(a: string, b: string, text: string)
    requires a <= text && b <= text && |a| < |b|
    ensures ByteLength(a) < ByteLength(b)
  {
    assert b == a + b[|a|..];
    EncodeConcat(a, b[|a|..]);
  }

  /** The scan, over any longest-first order of the prefixes. */
  method ScanRoutes(config: RelayConfig, model: string, order: seq<string>) returns (up: Upstream)
    requires LongestFirst(order, config.routes.Keys)
    ensures RoutesTo(config, model, up)
  {
    for i := 0 to |order|
      invariant forall j :: 0 <= j < i ==> !(order[j] <= model)
    {
      if order[i] <= model {
        var route := config.routes[order[i]];
        forall k | k in config.routes && k <= model ensures |k| <= |order[i]| {
          var j :| 0 <= j < |order| && order[j] == k;
          if |order[i]| < |k| { LongerIsLonger(order[i], k, model); }
        }
        assert IsBestRoute(config.routes, model, order[i]);
        return Upstream(route.baseUrl, route.path);
      }
    }
    up := Upstream(config.defaultUpstream, None);
  }

  method ResolveUpstream(config: RelayConfig, model: string) returns (up: Upstream)
    ensures RoutesTo(config, model, up)
  {
    InOrderElements(config.routes.Keys);
    var keys := InOrder(config.routes.Keys);
    SortByLengthOrders(keys);
    assert forall k :: k in SortByLength(keys) <==> k in multiset(keys);
    up := ScanRoutes(config, model, SortByLength(keys));
  }

  /** Two matching prefixes of one length are equal, so the route does not depend on tie order. */
  lemma RouteUnique(config: RelayConfig, model: string, a: Upstream, b: Upstream)
    requires RoutesTo(config, model, a) && RoutesTo(config, model, b)
    ensures a == b
  {
    forall k, l | IsBestRoute(config.routes, model, k) && IsBestRoute(config.routes, model, l) ensures k == l {
      assert k == model[..|k|] && l == model[..|l|];
    }
  }

  // ---- the allowlist -----------------------------------------------------------------------

  datatype Blocked = NotAUrl | NotInList(origin: string)

  ghost predicate Allowed(parse: Parser, allowed: seq<string>, url: string) {
    allowed != [] ==>
      && UrlOrigin(parse, url).Some?
      && exists a :: a in allowed && UrlOrigin(parse, a) == UrlOrigin(parse, url)
  }

  /** Why a URL is refused, if it is. */
  ghost function Refusal(parse: Parser, allowed: seq<string>, url: string): Option<Blocked> {
    if Allowed(parse, allowed, url) then None
    else match UrlOrigin(parse, url)
      case None => Some(NotAUrl)
      case Some(origin) => Some(NotInList(origin))
  }

  method CheckUpstreamAllowed(parse: Parser, allowed: seq<string>, url: string) returns (r: Result<(), Blocked>)
    ensures r.Ok? <==> Allowed(parse, allowed, url)
    ensures r.Err? ==> Refusal(parse, allowed, url) == Some(r.error)
  {
    if allowed == [] { return Ok(()); }
    var candidate := UrlOrigin(parse, url);
    if candidate.None? { return Err(NotAUrl); }
    for i := 0 to |allowed|
      invariant forall j :: 0 <= j < i ==> UrlOrigin(parse, allowed[j]) != candidate
    {
      var origin := UrlOrigin(parse, allowed[i]);
      if origin.Some? && candidate.value == origin.value { return Ok(()); }
    }
    r := Err(NotInList(candidate.value));
  }

  // ---- validation --------------------------------------------------------------------------

  predicate IsHttpTchar(c: char) {
    || '0' <= c <= '9' || 'a' <= c <= 'z' || 'A' <= c <= 'Z'
    || c in "!#$%&'*+-.^_`|~"
  }

  /** Section 5.6.2 of RFC 9110: any visible ASCII character that is not a delimiter. */
  lemma TcharIff(c: char)
    ensures IsHttpTchar(c) <==> '!' <= c <= '~' && c !in "\"(),/:;<=>?@[\\]{}"
  {}

  predicate IsHttpToken(s: string) { s != "" && forall i :: 0 <= i < |s| ==> IsHttpTchar(s[i]) }

  predicate RuntimeValid(runtime: RuntimeConfig) {
    IsHttpToken(runtime.providerAuthScheme) && runtime.bodyLogPolicy == "metadata-only"
  }

  /** A scheme of one or more such characters, and the one body log policy. */
  lemma RuntimeValidIff(runtime: RuntimeConfig)
    ensures RuntimeValid(runtime) <==>
            && runtime.bodyLogPolicy == "metadata-only" && runtime.providerAuthScheme != ""
            && forall c :: c in runtime.providerAuthScheme ==> '!' <= c <= '~' && c !in "\"(),/:;<=>?@[\\]{}"
  {
    hide IsHttpTchar;
    forall c: char ensures IsHttpTchar(c) <==> '!' <= c <= '~' && c !in "\"(),/:;<=>?@[\\]{}" { TcharIff(c); }
    var scheme := runtime.providerAuthScheme;
    assert forall i :: 0 <= i < |scheme| ==> scheme[i] in scheme;
  }

  function StripDigestPrefix(digest: string): string {
    if "sha256:" <= digest then digest[7..] else if "SHA256:" <= digest then digest[7..] else digest
  }

  predicate DigestValid(raw: string) { IsHex64(StripDigestPrefix(Trim(raw))) }

  lemma DigestPrefix(clean: string) returns (prefix: string)
    ensures clean == prefix + StripDigestPrefix(clean) && prefix in {"", "sha256:", "SHA256:"}
  {
    if "sha256:" <= clean {
      prefix := "sha256:";
      assert clean == clean[..7] + clean[7..];
    } else if "SHA256:" <= clean {
      prefix := "SHA256:";
      assert clean == clean[..7] + clean[7..];
    } else {
      prefix := "";
      assert clean == "" + clean;
    }
  }

  lemma StripsPrefix(prefix: string, hex: string)
    requires prefix in {"", "sha256:", "SHA256:"} && IsHex64(hex)
    ensures StripDigestPrefix(prefix + hex) == hex
  {
    var clean := prefix + hex;
    if prefix == "" {
      assert clean == hex && IsHexDigit(hex[1]) && "sha256:"[1] == 'h' && "SHA256:"[1] == 'H';
    } else {
      assert clean[0] == prefix[0] && "sha256:"[0] != "SHA256:"[0];
      assert clean[7..] == hex;
    }
  }

  /** A release digest: padding, a prefix in one letter case or none, and 64 hexadecimal digits. */
  lemma DigestValidIff(raw: string)
    ensures DigestValid(raw) <==>
            exists prefix, hex :: Trim(raw) == prefix + hex && prefix in {"", "sha256:", "SHA256:"} && IsHex64(hex)
  {
    hide TrimBy;
    var clean := Trim(raw);
    if DigestValid(raw) {
      var prefix := DigestPrefix(clean);
    }
    if prefix, hex :| clean == prefix + hex && prefix in {"", "sha256:", "SHA256:"} && IsHex64(hex) {
      StripsPrefix(prefix, hex);
    }
  }

  predicate DigestFine(config: RelayConfig) {
    config.releaseArtifactDigest.Some? ==> DigestValid(config.releaseArtifactDigest.value)
  }

  datatype ConfigError =
    | BadRuntime
    | BadDigest
    | BadPins(error: PinError)
    | DefaultNotAllowed(reason: Blocked)
    | RouteNotAllowed(prefix: string, reason: Blocked)

  /** What start-up accepts. */
  ghost predicate ConfigValid(parse: Parser, config: RelayConfig) {
    && RuntimeValid(config.runtime)
    && DigestFine(config)
    && Normalized(parse, config.upstreamTlsLeafSha256).Ok?
    && Allowed(parse, config.allowedUpstreams, config.defaultUpstream)
    && forall k :: k in config.routes ==> Allowed(parse, config.allowedUpstreams, config.routes[k].baseUrl)
  }

  lemma EarlierKey(keys: seq<string>, i: nat, k: string)
    requires StrictlySorted(keys) && i < |keys| && k in keys && Less(k, keys[i])
    ensures exists j :: 0 <= j < i && keys[j] == k
  {
    var j :| 0 <= j < |keys| && keys[j] == k;
    LessIrreflexive(k);
    if i < j { LessTransitive(k, keys[i], k); }
  }

  method Validate(parse: Parser, config: RelayConfig) returns (r: Result<(), ConfigError>)
    ensures r.Ok? <==> ConfigValid(parse, config)
    ensures r == Err(BadRuntime) <==> !RuntimeValid(config.runtime)
    ensures r == Err(BadDigest) <==> RuntimeValid(config.runtime) && !DigestFine(config)
    ensures r.Err? && r.error.BadPins? <==>
              RuntimeValid(config.runtime) && DigestFine(config) && Normalized(parse, config.upstreamTlsLeafSha256).Err?
    ensures r.Err? && r.error.BadPins? ==> Normalized(parse, config.upstreamTlsLeafSha256) == Err(r.error.error)
    ensures r.Err? && r.error.DefaultNotAllowed? ==>
              Refusal(parse, config.allowedUpstreams, config.defaultUpstream) == Some(r.error.reason)
    ensures r.Err? && r.error.RouteNotAllowed? ==>
              && Allowed(parse, config.allowedUpstreams, config.defaultUpstream)
              && r.error.prefix in config.routes
              && Refusal(parse, config.allowedUpstreams, config.routes[r.error.prefix].baseUrl) == Some(r.error.reason)
              && forall k :: k in config.routes && Less(k, r.error.prefix) ==>
                   Allowed(parse, config.allowedUpstreams, config.routes[k].baseUrl)
  {
    hide RuntimeValid, DigestValid, Normalized, InOrder, UrlOrigin;
    if !RuntimeValid(config.runtime) { return Err(BadRuntime); }
    if !DigestFine(config) { return Err(BadDigest); }
    var pins := NormalizeUpstreamTlsPins(parse, config.upstreamTlsLeafSha256);
    if pins.Err? { return Err(BadPins(pins.error)); }
    if config.allowedUpstreams != [] {
      var ok := CheckUpstreamAllowed(parse, config.allowedUpstreams, config.defaultUpstream);
      if ok.Err? { return Err(DefaultNotAllowed(ok.error)); }
      InOrderElements(config.routes.Keys);
      var keys := InOrder(config.routes.Keys);
      for i := 0 to |keys|
        invariant forall j :: 0 <= j < i ==> Allowed(parse, config.allowedUpstreams, config.routes[keys[j]].baseUrl)
      {
        ok := CheckUpstreamAllowed(parse, config.allowedUpstreams, config.routes[keys[i]].baseUrl);
        if ok.Err? {
          forall k | k in config.routes && Less(k, keys[i])
            ensures Allowed(parse, config.allowedUpstreams, config.routes[k].baseUrl)
          {
            EarlierKey(keys, i, k);
          }
          return Err(RouteNotAllowed(keys[i], ok.error));
        }
      }
    }
    r := Ok(());
  }

  /** With a validated configuration no model is routed to a refused upstream. */
  lemma ValidatedNeverBlocked(parse: Parser, config: RelayConfig, model: string, up: Upstream)
    requires ConfigValid(parse, config) && RoutesTo(config, model, up)
    ensures Allowed(parse, config.allowedUpstreams, up.baseUrl)
  {
    hide Allowed;
  }

  /** The upstream of one request: resolved, then checked again against the allowlist. With a
      validated configuration the check never refuses, whatever the model. */
  method ChooseUpstream(parse: Parser, config: RelayConfig, model: string) returns (r: Result<Upstream, Blocked>)
    ensures r.Ok? ==> RoutesTo(config, model, r.value) && Allowed(parse, config.allowedUpstreams, r.value.baseUrl)
    ensures r.Err? <==> exists up :: RoutesTo(config, model, up) && !Allowed(parse, config.allowedUpstreams, up.baseUrl)
    ensures forall up :: r.Err? && RoutesTo(config, model, up) ==>
              Refusal(parse, config.allowedUpstreams, up.baseUrl) == Some(r.error)
    ensures ConfigValid(parse, config) ==> r.Ok?
  {
    var up := ResolveUpstream(config, model);
    var ok := CheckUpstreamAllowed(parse, config.allowedUpstreams, up.baseUrl);
    forall other | RoutesTo(config, model, other) ensures other == up { RouteUnique(config, model, up, other); }
    r := if ok.Ok? then Ok(up) else Err(ok.error);
  }
}
