/** Why the delimiters matter: validated configurations that route differently and share a pre-image. */
module ConfigCollisions {
  import opened Wrappers
  import opened Text
  import opened Ordering
  import opened Urls
  import opened HttpsGrammar
  import opened TlsPins
  import opened Config
  import opened ConfigHash
  import opened ConfigCanonical

  // ---- the two families --------------------------------------------------------------------

  /** An arrow can move from the base URL into the route prefix. */
  lemma ArrowCollides(parse: Parser, config: RelayConfig, prefix: string, x: string, y: string)
    ensures var a := config.(routes := map[prefix := ProviderConfig(x + "=>" + y, None)]);
            var b := config.(routes := map[prefix + "=>" + x := ProviderConfig(y, None)]);
            && Preimage(parse, a) == Preimage(parse, b) && !SameSecurity(parse, a, b)
            && (Preimage(parse, a).Some? <==> Normalized(parse, config.upstreamTlsLeafSha256).Ok?)
  {
    hide Unlines, Normalized, AllowedLines, PinLines, DigestLines, RouteLines, Decimal, BoolText;
    var p, q := ProviderConfig(x + "=>" + y, None), ProviderConfig(y, None);
    OneRoute(prefix, p);
    OneRoute(prefix + "=>" + x, q);
    assert prefix + "=>" + ((x + "=>" + y) + "") == (prefix + "=>" + x) + "=>" + (y + "");
    assert RouteLine(prefix, p) == RouteLine(prefix + "=>" + x, q);
    assert prefix in map[prefix := p] && prefix !in map[prefix + "=>" + x := q];
  }

  /** A path can hide in the base URL. */
  lemma PathCollides(parse: Parser, config: RelayConfig, prefix: string, x: string, path: string)
    ensures var a := config.(routes := map[prefix := ProviderConfig(x + "|path:" + path, None)]);
            var b := config.(routes := map[prefix := ProviderConfig(x, Some(path))]);
            && Preimage(parse, a) == Preimage(parse, b) && !SameSecurity(parse, a, b)
            && (Preimage(parse, a).Some? <==> Normalized(parse, config.upstreamTlsLeafSha256).Ok?)
  {
    hide Unlines, Normalized, AllowedLines, PinLines, DigestLines, RouteLines, Decimal, BoolText;
    var p, q := ProviderConfig(x + "|path:" + path, None), ProviderConfig(x, Some(path));
    OneRoute(prefix, p);
    OneRoute(prefix, q);
    assert (x + "|path:" + path) + "" == x + ("|path:" + path);
    assert map[prefix := p][prefix] != map[prefix := q][prefix];
  }

  /** An entry of the allowlist with a line end can stand for two: the hash does not pin the allowlist. */
  lemma LineEndCollides(parse: Parser, config: RelayConfig, x: string, y: string)
    requires AtMost(x, y)
    ensures var a := config.(allowedUpstreams := [x, y]);
            var b := config.(allowedUpstreams := [x + "\nallowed:" + y]);
            && Preimage(parse, a) == Preimage(parse, b) && !SameSecurity(parse, a, b)
            && (Preimage(parse, a).Some? <==> Normalized(parse, config.upstreamTlsLeafSha256).Ok?)
  {
    hide Normalized, PinLines, DigestLines, RouteLines, Decimal, BoolText, Unlines, AllowedLines;
    var a, b := config.(allowedUpstreams := [x, y]), config.(allowedUpstreams := [x + "\nallowed:" + y]);
    TwoAllowed(x, y);
    if Normalized(parse, config.upstreamTlsLeafSha256).Ok? {
      var table := Normalized(parse, config.upstreamTlsLeafSha256).value;
      var before, after := RuntimeLines(config) + RouteLines(config.routes),
                           ["max_request_bytes:" + Decimal(config.maxRequestBytes)] + TailLines(config, table);
      assert ConfigLines(a, table) == before + (AllowedLines([x, y]) + after);
      assert ConfigLines(b, table) == before + (AllowedLines([x + "\nallowed:" + y]) + after);
      UnlinesConcat(before, AllowedLines([x, y]) + after);
      UnlinesConcat(before, AllowedLines([x + "\nallowed:" + y]) + after);
      UnlinesConcat(AllowedLines([x, y]), after);
      UnlinesConcat(AllowedLines([x + "\nallowed:" + y]), after);
    }
    assert |multiset([x, y])| == 2 && |multiset([x + "\nallowed:" + y])| == 1;
  }

  lemma TwoAllowed(x: string, y: string)
    requires AtMost(x, y)
    ensures Unlines(AllowedLines([x, y])) == Unlines(AllowedLines([x + "\nallowed:" + y]))
  {
    hide AtMost;
    var z := x + "\nallowed:" + y;
    assert [x, y][1..] == [y] && [y][1..] == [] && [z][1..] == [];
    assert Sort([]) == [] && Sort([y]) == [y] && Sort([z]) == [z] && Sort([x, y]) == [x, y];
    assert AllowedLines([x, y]) == ["allowed:" + x, "allowed:" + y] && AllowedLines([z]) == ["allowed:" + z];
    TwoLines("allowed:" + x, "allowed:" + y);
    OneLine("allowed:" + z);
    assert "allowed:" + x + "\n" + ("allowed:" + y + "\n") == "allowed:" + z + "\n";
  }

  lemma TwoLines(a: string, b: string)
    ensures Unlines([a, b]) == a + "\n" + (b + "\n")
  {
    assert [a, b][1..] == [b];
    OneLine(b);
  }

  lemma OneRoute(k: string, r: ProviderConfig)
    ensures RouteLines(map[k := r]) == [RouteLine(k, r)]
  {
    var keys := map[k := r].Keys;
    assert keys == set x | x in [k];
    StrictlySortedIsInOrder([k]);
  }

  // ---- validated members -------------------------------------------------------------------

  const BASE := SCHEME + "a" + "/"

  function Origin(): string { OriginText("https", "a", 443) }

  function SamplePin(): string { PIN_PREFIX + seq(64, _ => '0') }

  function SinglePin(origin: string): PinTable { map[origin := [SamplePin()]] }

  function SamplePins(): PinTable { SinglePin(Origin()) }

  function Sample(routes: map<string, ProviderConfig>): RelayConfig {
    RelayConfig("", RuntimeConfig(false, false, "Bearer", "metadata-only"), BASE, routes, [BASE], 0, None, 0, SamplePins())
  }

  lemma SingleNormalizes(parse: Parser, origin: string)
    requires parse(origin).Some? && UrlOrigin(parse, origin) == Some(origin) && parse(origin).value.scheme == "https"
    ensures Normalized(parse, SinglePin(origin)) == Ok(SinglePin(origin))
  {
    hide UrlOrigin, TableOf, InOrder;
    var table := SinglePin(origin);
    SamplePinIsNormal();
    assert StrictlySorted([SamplePin()]);
    assert IsNormalTable(parse, table);
    InOrderElements(table.Keys);
    NormalTableIsFixed(parse, table, InOrder(table.Keys));
    assert (map k | k in InOrder(table.Keys) :: table[k]) == table;
  }

  lemma SamplePinIsNormal()
    ensures IsNormalPin(SamplePin())
  {
    assert SamplePin()[|PIN_PREFIX|..] == seq(64, _ => '0');
  }

  /** The parser of the grammar reads origins, and a table that is not empty normalises with it. */
  lemma SampleNormalizes()
    ensures ReadsOrigins(ParseHttps) && SamplePins() != map[]
    ensures Normalized(ParseHttps, SamplePins()) == Ok(SamplePins())
  {
    hide ReadsOrigins, Normalized;
    GrammarReadsOrigins();
    OriginRead("a", 443);
    assert Lower("a") == "a";
    SingleNormalizes(ParseHttps, Origin());
    assert Origin() in SamplePins();
  }

  lemma SampleValid(routes: map<string, ProviderConfig>)
    requires forall k :: k in routes ==> exists path :: routes[k].baseUrl == BASE + path
    ensures ConfigValid(ParseHttps, Sample(routes))
  {
    hide Allowed, Normalized, SamplePins, RuntimeValid;
    SampleNormalizes();
    SampleRuntimeValid();
    SampleAllowed("");
    assert BASE + "" == BASE;
    forall k | k in routes ensures Allowed(ParseHttps, [BASE], routes[k].baseUrl) {
      var path :| routes[k].baseUrl == BASE + path;
      SampleAllowed(path);
    }
  }

  lemma SampleRuntimeValid()
    ensures RuntimeValid(Sample(map[]).runtime)
  {
    var scheme := "Bearer";
    forall i | 0 <= i < |scheme| ensures IsHttpTchar(scheme[i]) {}
  }

  lemma SampleAllowed(path: string)
    ensures Allowed(ParseHttps, [BASE], BASE + path)
  {
    PathRead("a", path);
    PathRead("a", "");
    assert BASE + "" == BASE;
    assert BASE in [BASE];
  }

  const OTHER := SCHEME + "b" + "/"

  /** The same for the allowlist: one member also allows a second upstream. */
  lemma ValidatedAllowlists()
    ensures var a := Sample(map[]).(allowedUpstreams := [BASE, OTHER]);
            var b := Sample(map[]).(allowedUpstreams := [BASE + "\nallowed:" + OTHER]);
            && ConfigValid(ParseHttps, a) && ConfigValid(ParseHttps, b)
            && Preimage(ParseHttps, a).Some? && Preimage(ParseHttps, a) == Preimage(ParseHttps, b)
            && Allowed(ParseHttps, a.allowedUpstreams, OTHER) && !Allowed(ParseHttps, b.allowedUpstreams, OTHER)
  {
    hide ConfigValid, Allowed, Preimage, SameSecurity, Normalized;
    SampleNormalizes();
    BaseBeforeOther();
    LineEndCollides(ParseHttps, Sample(map[]), BASE, OTHER);
    AllowlistFacts();
    ValidWithAllowlist([BASE, OTHER]);
    ValidWithAllowlist([BASE + "\nallowed:" + OTHER]);
  }

  lemma ValidWithAllowlist(allowed: seq<string>)
    requires Allowed(ParseHttps, allowed, BASE)
    ensures ConfigValid(ParseHttps, Sample(map[]).(allowedUpstreams := allowed))
  {
    hide Allowed, Normalized, SamplePins, RuntimeValid;
    SampleNormalizes();
    SampleRuntimeValid();
  }

  lemma AllowlistFacts()
    ensures Allowed(ParseHttps, [BASE, OTHER], BASE) && Allowed(ParseHttps, [BASE, OTHER], OTHER)
    ensures Allowed(ParseHttps, [BASE + "\nallowed:" + OTHER], BASE)
    ensures !Allowed(ParseHttps, [BASE + "\nallowed:" + OTHER], OTHER)
  {
    hide UrlOrigin, ParseHttps;
    OriginsOfBoth();
    var both := BASE + "\nallowed:" + OTHER;
    assert BASE in [BASE, OTHER] && OTHER in [BASE, OTHER] && both in [both];
  }

  lemma OriginsOfBoth()
    ensures UrlOrigin(ParseHttps, BASE).Some? && UrlOrigin(ParseHttps, OTHER).Some?
    ensures UrlOrigin(ParseHttps, BASE + "\nallowed:" + OTHER) == UrlOrigin(ParseHttps, BASE) != UrlOrigin(ParseHttps, OTHER)
  {
    hide UrlOrigin, ParseHttps, Decimal;
    PathRead("a", "");
    PathRead("b", "");
    PathRead("a", "\nallowed:" + OTHER);
    assert BASE + "" == BASE && OTHER + "" == OTHER && BASE + "\nallowed:" + OTHER == BASE + ("\nallowed:" + OTHER);
    assert OriginText("https", Lower("a"), 443)[8] == 'a' && OriginText("https", Lower("b"), 443)[8] == 'b';
  }

  lemma BaseBeforeOther()
    ensures AtMost(BASE, OTHER)
  {
    PrefixLess(SCHEME, "a/", "b/");
    assert BASE == SCHEME + "a/" && OTHER == SCHEME + "b/";
  }

  lemma {:induction false} PrefixLess(p: string, x: string, y: string)
    requires Less(x, y)
    ensures Less(p + x, p + y)
  {
    if p == "" {
      assert p + x == x && p + y == y;
    } else {
      assert (p + x)[1..] == p[1..] + x && (p + y)[1..] == p[1..] + y;
      PrefixLess(p[1..], x, y);
    }
  }

  /** Start-up accepts both members of such a pair, under one allowlist, and they share a pre-image. */
  lemma ValidatedCollisions()
    ensures var a := Sample(map["m" := ProviderConfig(BASE + "=>" + BASE, None)]);
            var b := Sample(map["m" + "=>" + BASE := ProviderConfig(BASE, None)]);
            && ConfigValid(ParseHttps, a) && ConfigValid(ParseHttps, b)
            && Preimage(ParseHttps, a).Some? && Preimage(ParseHttps, a) == Preimage(ParseHttps, b)
            && !SameSecurity(ParseHttps, a, b)
    ensures var a := Sample(map["m" := ProviderConfig(BASE + "|path:" + "/x", None)]);
            var b := Sample(map["m" := ProviderConfig(BASE, Some("/x"))]);
            && ConfigValid(ParseHttps, a) && ConfigValid(ParseHttps, b)
            && Preimage(ParseHttps, a).Some? && Preimage(ParseHttps, a) == Preimage(ParseHttps, b)
            && !SameSecurity(ParseHttps, a, b)
  {
    hide ConfigValid, Preimage, SameSecurity, Normalized;
    var config := Sample(map[]);
    SampleNormalizes();
    assert BASE + "=>" + BASE == BASE + ("=>" + BASE) && BASE == BASE + "" && BASE + "|path:" + "/x" == BASE + ("|path:" + "/x");
    SampleValid(map["m" := ProviderConfig(BASE + "=>" + BASE, None)]);
    SampleValid(map["m" + "=>" + BASE := ProviderConfig(BASE, None)]);
    ArrowCollides(ParseHttps, config, "m", BASE, BASE);
    SampleValid(map["m" := ProviderConfig(BASE + "|path:" + "/x", None)]);
    SampleValid(map["m" := ProviderConfig(BASE, Some("/x"))]);
    PathCollides(ParseHttps, config, "m", BASE, "/x");
  }
}
