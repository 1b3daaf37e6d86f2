/** The text that `config_hash` feeds to SHA-256: canonical, and injective on configurations whose
    fields do not contain the delimiters. */
module ConfigHash {
  import opened Wrappers
  import opened Utf8
  import opened Text
  import opened Ordering
  import opened Urls
  import opened TlsPins
  import opened Config

  // ---- the lines ---------------------------------------------------------------------------

  function Unlines(lines: seq<string>): string {
    if lines == [] then "" else lines[0] + "\n" + Unlines(lines[1..])
  }

  function BoolText(b: bool): string { if b then "true" else "false" }

  function RouteLine(prefix: string, route: ProviderConfig): string {
    "route:" + (prefix + "=>" + (route.baseUrl +
    match route.path case None => "" case Some(path) => "|path:" + path))
  }

  function CommaEnded(pins: seq<string>): string {
    if pins == [] then "" else pins[0] + "," + CommaEnded(pins[1..])
  }

  function PinLine(origin: string, pins: seq<string>): string {
    "upstream_tls_leaf_sha256:" + (origin + "=>" + CommaEnded(pins))
  }

  /** The release digest as it is fed: trimmed and lower-case. */
  function DigestText(digest: Option<string>): Option<string> {
    match digest case None => None case Some(d) => Some(Lower(Trim(d)))
  }

  function RuntimeLines(config: RelayConfig): seq<string> {
    ["config_hash_schema:v2",
     "runtime.allow_client_provider_auth:" + BoolText(config.runtime.allowClientProviderAuth),
     "runtime.private_admin_enabled:" + BoolText(config.runtime.privateAdminEnabled),
     "runtime.provider_auth_scheme:" + config.runtime.providerAuthScheme,
     "runtime.body_log_policy:" + config.runtime.bodyLogPolicy,
     "default_upstream:" + config.defaultUpstream]
  }

  ghost function RouteLines(routes: map<string, ProviderConfig>): seq<string> {
    InOrderElements(routes.Keys);
    var keys := InOrder(routes.Keys);
    seq(|keys|, i requires 0 <= i < |keys| => assert keys[i] in keys; RouteLine(keys[i], routes[keys[i]]))
  }

  function AllowedLines(allowed: seq<string>): seq<string> {
    var sorted := Sort(allowed);
    seq(|sorted|, i requires 0 <= i < |sorted| => "allowed:" + sorted[i])
  }

  function DigestLines(digest: Option<string>): seq<string> {
    match DigestText(digest) case None => [] case Some(d) => ["release_artifact_digest:" + d]
  }

  ghost function PinLines(table: PinTable): seq<string> {
    InOrderElements(table.Keys);
    var keys := InOrder(table.Keys);
    seq(|keys|, i requires 0 <= i < |keys| => assert keys[i] in keys; PinLine(keys[i], table[keys[i]]))
  }

  ghost function TailLines(config: RelayConfig, table: PinTable): seq<string> {
    DigestLines(config.releaseArtifactDigest) +
    (["upstream_timeout_secs:" + Decimal(config.upstreamTimeoutSecs)] + PinLines(table))
  }

  ghost function ConfigLines(config: RelayConfig, table: PinTable): seq<string> {
    RuntimeLines(config) +
    (RouteLines(config.routes) +
     (AllowedLines(config.allowedUpstreams) +
      (["max_request_bytes:" + Decimal(config.maxRequestBytes)] + TailLines(config, table))))
  }

  /** The pre-image, or None where the pins do not normalise and the source panics. */
  ghost function Preimage(parse: Parser, config: RelayConfig): Option<string> {
    match Normalized(parse, config.upstreamTlsLeafSha256)
    case Err(_) => None
    case Ok(table) => Some(Unlines(ConfigLines(config, table)))
  }

  // ---- the loops that feed it --------------------------------------------------------------

  lemma {:induction false} UnlinesConcat(a: seq<string>, b: seq<string>)
    ensures Unlines(a + b) == Unlines(a) + Unlines(b)
  {
    if a == [] {
      assert a + b == b;
    } else {
      assert (a + b)[0] == a[0] && (a + b)[1..] == a[1..] + b;
      UnlinesConcat(a[1..], b);
    }
  }

  lemma UnlinesNext(lines: seq<string>, i: nat)
    requires i < |lines|
    ensures Unlines(lines[..i + 1]) == Unlines(lines[..i]) + lines[i] + "\n"
  {
    assert lines[..i + 1] == lines[..i] + [lines[i]];
    UnlinesConcat(lines[..i], [lines[i]]);
    assert Unlines([lines[i]]) == lines[i] + "\n" by { assert [lines[i]][1..] == []; }
  }

  /** The schema line and the two flags. */
  method FeedFlags(config: RelayConfig) returns (fed: string)
    ensures fed == Unlines(RuntimeLines(config)[..3])
  {
    hide Unlines;
    ghost var lines := RuntimeLines(config);
    UnlinesNone(lines);
    UnlinesNext(lines, 0);
    fed := "config_hash_schema:v2\n";
    assert fed == "" + lines[0] + "\n";
    UnlinesNext(lines, 1);
    ghost var before := fed;
    fed := fed + "runtime.allow_client_provider_auth:";
    fed := fed + (if config.runtime.allowClientProviderAuth then "true" else "false");
    fed := fed + "\n";
    assert fed == before + lines[1] + "\n";
    UnlinesNext(lines, 2);
    before := fed;
    fed := fed + "runtime.private_admin_enabled:";
    fed := fed + (if config.runtime.privateAdminEnabled then "true" else "false");
    fed := fed + "\n";
    assert fed == before + lines[2] + "\n";
  }

  method FeedRuntime(config: RelayConfig) returns (fed: string)
    ensures fed == Unlines(RuntimeLines(config))
  {
    hide Unlines, BoolText;
    ghost var lines := RuntimeLines(config);
    fed := FeedFlags(config);
    UnlinesNext(lines, 3);
    ghost var before := fed;
    fed := fed + "runtime.provider_auth_scheme:" + config.runtime.providerAuthScheme + "\n";
    assert fed == before + lines[3] + "\n";
    UnlinesNext(lines, 4);
    before := fed;
    fed := fed + "runtime.body_log_policy:" + config.runtime.bodyLogPolicy + "\n";
    assert fed == before + lines[4] + "\n";
    UnlinesNext(lines, 5);
    before := fed;
    fed := fed + "default_upstream:" + config.defaultUpstream + "\n";
    assert fed == before + lines[5] + "\n";
    assert lines[..6] == lines;
  }

  lemma UnlinesNone(lines: seq<string>)
    ensures Unlines(lines[..0]) == ""
  {}

  method FeedRoutes(routes: map<string, ProviderConfig>) returns (fed: string)
    ensures fed == Unlines(RouteLines(routes))
  {
    hide Unlines, InOrder;
    InOrderElements(routes.Keys);
    var keys := InOrder(routes.Keys);
    ghost var lines := RouteLines(routes);
    UnlinesNone(lines);
    fed := "";
    for i := 0 to |keys|
      invariant fed == Unlines(lines[..i])
    {
      assert keys[i] in keys;
      var route := routes[keys[i]];
      ghost var before := fed;
      fed := fed + "route:" + keys[i] + "=>" + route.baseUrl;
      if route.path.Some? { fed := fed + "|path:" + route.path.value; }
      fed := fed + "\n";
      assert fed == before + RouteLine(keys[i], route) + "\n";
      UnlinesNext(lines, i);
    }
    assert lines[..|keys|] == lines;
  }

  method FeedAllowed(allowed: seq<string>) returns (fed: string)
    ensures fed == Unlines(AllowedLines(allowed))
  {
    var sorted := Sort(allowed);
    ghost var lines := AllowedLines(allowed);
    fed := "";
    for i := 0 to |sorted|
      invariant fed == Unlines(lines[..i])
    {
      ghost var before := fed;
      fed := fed + "allowed:" + sorted[i] + "\n";
      assert fed == before + lines[i] + "\n";
      UnlinesNext(lines, i);
    }
    assert lines[..|sorted|] == lines;
  }

  lemma {:induction false} CommaEndedNext(pins: seq<string>, i: nat)
    requires i < |pins|
    ensures CommaEnded(pins[..i + 1]) == CommaEnded(pins[..i]) + pins[i] + ","
  {
    if i == 0 {
      assert pins[..1] == [pins[0]] && pins[..1][1..] == [];
    } else {
      CommaEndedNext(pins[1..], i - 1);
      assert pins[..i + 1][1..] == pins[1..][..i] && pins[..i][1..] == pins[1..][..i - 1];
    }
  }

  method FeedPinLine(origin: string, pins: seq<string>) returns (fed: string)
    ensures fed == PinLine(origin, pins) + "\n"
  {
    var head := "upstream_tls_leaf_sha256:" + origin + "=>";
    fed := head;
    for j := 0 to |pins|
      invariant fed == head + CommaEnded(pins[..j])
    {
      CommaEndedNext(pins, j);
      fed := fed + pins[j] + ",";
    }
    assert pins[..|pins|] == pins;
    fed := fed + "\n";
  }

  method FeedPins(table: PinTable) returns (fed: string)
    ensures fed == Unlines(PinLines(table))
  {
    hide Unlines, InOrder, PinLine;
    InOrderElements(table.Keys);
    var keys := InOrder(table.Keys);
    ghost var lines := PinLines(table);
    UnlinesNone(lines);
    fed := "";
    for i := 0 to |keys|
      invariant fed == Unlines(lines[..i])
    {
      assert keys[i] in keys;
      UnlinesNext(lines, i);
      var line := FeedPinLine(keys[i], table[keys[i]]);
      fed := fed + line;
    }
    assert lines[..|keys|] == lines;
  }

  /** Everything `config_hash` feeds to the hasher, in order; its bytes are `Encode` of the text. */
  method ConfigPreimage(parse: Parser, config: RelayConfig) returns (fed: Option<string>)
    ensures fed == Preimage(parse, config)
  {
    hide RuntimeLines, RouteLines, AllowedLines, PinLines, Decimal, Normalized;
    var runtime := FeedRuntime(config);
    var routes := FeedRoutes(config.routes);
    var allowed := FeedAllowed(config.allowedUpstreams);
    var max := "max_request_bytes:" + Decimal(config.maxRequestBytes) + "\n";
    var digest := match config.releaseArtifactDigest
      case None => ""
      case Some(d) => "release_artifact_digest:" + Lower(Trim(d)) + "\n";
    var timeout := "upstream_timeout_secs:" + Decimal(config.upstreamTimeoutSecs) + "\n";
    var table := NormalizeUpstreamTlsPins(parse, config.upstreamTlsLeafSha256);
    if table.Err? { return None; }
    var pins := FeedPins(table.value);
    TailText(config, table.value);
    ConfigText(config, table.value);
    fed := Some(runtime + (routes + (allowed + (max + (digest + (timeout + pins))))));
  }

  lemma OneLine(line: string)
    ensures Unlines([line]) == line + "\n"
  {
    assert [line][1..] == [];
  }

  lemma TailText(config: RelayConfig, table: PinTable)
    ensures Unlines(TailLines(config, table)) ==
            (match config.releaseArtifactDigest
             case None => ""
             case Some(d) => "release_artifact_digest:" + Lower(Trim(d)) + "\n")
            + ("upstream_timeout_secs:" + Decimal(config.upstreamTimeoutSecs) + "\n" + Unlines(PinLines(table)))
  {
    hide PinLines, Decimal, TrimBy;
    var timeout := "upstream_timeout_secs:" + Decimal(config.upstreamTimeoutSecs);
    UnlinesConcat(DigestLines(config.releaseArtifactDigest), [timeout] + PinLines(table));
    UnlinesConcat([timeout], PinLines(table));
    OneLine(timeout);
    match config.releaseArtifactDigest {
      case None =>
      case Some(d) => OneLine("release_artifact_digest:" + Lower(Trim(d)));
    }
  }

  lemma ConfigText(config: RelayConfig, table: PinTable)
    ensures Unlines(ConfigLines(config, table)) ==
            Unlines(RuntimeLines(config)) + (Unlines(RouteLines(config.routes)) +
            (Unlines(AllowedLines(config.allowedUpstreams)) +
            ("max_request_bytes:" + Decimal(config.maxRequestBytes) + "\n" + Unlines(TailLines(config, table)))))
  {
    hide RuntimeLines, RouteLines, AllowedLines, TailLines, Decimal;
    var max := "max_request_bytes:" + Decimal(config.maxRequestBytes);
    var d := [max] + TailLines(config, table);
    var c := AllowedLines(config.allowedUpstreams) + d;
    var b := RouteLines(config.routes) + c;
    UnlinesConcat(RuntimeLines(config), b);
    UnlinesConcat(RouteLines(config.routes), c);
    UnlinesConcat(AllowedLines(config.allowedUpstreams), d);
    UnlinesConcat([max], TailLines(config, table));
    OneLine(max);
  }

  // ---- the text of one line of each kind ---------------------------------------------------

  lemma OneKey(k: string)
    ensures InOrder({k}) == [k]
  {
    SortOfDistinct([k]);
    assert (set x | x in [k]) == {k};
    assert Sort([k]) == [k] by { assert [k][1..] == []; }
  }

  lemma RuntimeText(config: RelayConfig)
    ensures Unlines(RuntimeLines(config)) ==
            "config_hash_schema:v2\n"
            + ("runtime.allow_client_provider_auth:" + (if config.runtime.allowClientProviderAuth then "true" else "false") + "\n"
            + ("runtime.private_admin_enabled:" + (if config.runtime.privateAdminEnabled then "true" else "false") + "\n"
            + ("runtime.provider_auth_scheme:" + config.runtime.providerAuthScheme + "\n"
            + ("runtime.body_log_policy:" + config.runtime.bodyLogPolicy + "\n"
            + ("default_upstream:" + config.defaultUpstream + "\n")))))
  {
    var l := RuntimeLines(config);
    SixLines(l[0], l[1], l[2], l[3], l[4], l[5]);
    assert l == [l[0], l[1], l[2], l[3], l[4], l[5]];
    assert l[0] + "\n" == "config_hash_schema:v2\n";
  }

  lemma SixLines(a: string, b: string, c: string, d: string, e: string, f: string)
    ensures Unlines([a, b, c, d, e, f]) == a + "\n" + (b + "\n" + (c + "\n" + (d + "\n" + (e + "\n" + (f + "\n")))))
  {
    hide Unlines;
    OneLine(f);
    UnlinesConcat([e], [f]);
    OneLine(e);
    UnlinesConcat([d], [e, f]);
    OneLine(d);
    UnlinesConcat([c], [d, e, f]);
    OneLine(c);
    UnlinesConcat([b], [c, d, e, f]);
    OneLine(b);
    UnlinesConcat([a], [b, c, d, e, f]);
    OneLine(a);
    assert [e] + [f] == [e, f] && [d] + [e, f] == [d, e, f] && [c] + [d, e, f] == [c, d, e, f];
    assert [b] + [c, d, e, f] == [b, c, d, e, f] && [a] + [b, c, d, e, f] == [a, b, c, d, e, f];
  }

  lemma RouteText(k: string, route: ProviderConfig)
    ensures Unlines(RouteLines(map[k := route])) ==
            "route:" + (k + "=>" + (route.baseUrl + match route.path case None => "" case Some(path) => "|path:" + path)) + "\n"
  {
    OneKey(k);
    assert map[k := route].Keys == {k};
    assert RouteLines(map[k := route]) == [RouteLine(k, route)];
    OneLine(RouteLine(k, route));
  }

  lemma AllowedText(a: string)
    ensures Unlines(AllowedLines([a])) == "allowed:" + a + "\n"
  {
    assert Sort([a]) == [a] by { assert [a][1..] == []; }
    assert AllowedLines([a]) == ["allowed:" + a];
    OneLine("allowed:" + a);
  }

  lemma PinText(origin: string, p: string, q: string)
    ensures Unlines(PinLines(map[origin := [p, q]])) == "upstream_tls_leaf_sha256:" + (origin + "=>" + (p + "," + (q + ","))) + "\n"
  {
    OneKey(origin);
    var table := map[origin := [p, q]];
    assert table.Keys == {origin};
    assert PinLines(table) == [PinLine(origin, [p, q])];
    assert [p, q][1..] == [q] && [q][1..] == [];
    assert CommaEnded([q]) == q + "," + CommaEnded([q][1..]) == q + ",";
    assert CommaEnded([p, q]) == p + "," + CommaEnded([p, q][1..]) == p + "," + (q + ",");
    OneLine(PinLine(origin, [p, q]));
  }

  /** What is hashed for a configuration with one route, one allowed upstream, a release digest and two
      pins for one origin. */
  lemma SampleText(parse: Parser, config: RelayConfig, k: string, route: ProviderConfig, allowed: string, digest: string,
                   origin: string, p: string, q: string)
    requires config.routes == map[k := route] && config.allowedUpstreams == [allowed]
    requires config.releaseArtifactDigest == Some(digest)
    requires Normalized(parse, config.upstreamTlsLeafSha256) == Ok(map[origin := [p, q]])
    ensures Preimage(parse, config) == Some(
              "config_hash_schema:v2\n"
              + ("runtime.allow_client_provider_auth:" + (if config.runtime.allowClientProviderAuth then "true" else "false") + "\n"
              + ("runtime.private_admin_enabled:" + (if config.runtime.privateAdminEnabled then "true" else "false") + "\n"
              + ("runtime.provider_auth_scheme:" + config.runtime.providerAuthScheme + "\n"
              + ("runtime.body_log_policy:" + config.runtime.bodyLogPolicy + "\n"
              + ("default_upstream:" + config.defaultUpstream + "\n")))))
              + ("route:" + (k + "=>" + (route.baseUrl + match route.path case None => "" case Some(path) => "|path:" + path)) + "\n"
              + ("allowed:" + allowed + "\n"
              + ("max_request_bytes:" + Decimal(config.maxRequestBytes) + "\n"
              + ("release_artifact_digest:" + Lower(Trim(digest)) + "\n"
              + ("upstream_timeout_secs:" + Decimal(config.upstreamTimeoutSecs) + "\n"
              + ("upstream_tls_leaf_sha256:" + (origin + "=>" + (p + "," + (q + ","))) + "\n")))))))
  {
    hide RuntimeLines, RouteLines, AllowedLines, TailLines, PinLines, Decimal, Normalized, TrimBy, Unlines, ConfigLines;
    RuntimeText(config);
    RouteText(k, route);
    AllowedText(allowed);
    PinText(origin, p, q);
    TailText(config, map[origin := [p, q]]);
    ConfigText(config, map[origin := [p, q]]);
  }
}
