/** The pre-image determines the security-relevant configuration, and nothing else determines it. */
module ConfigCanonical {
  import opened Wrappers
  import opened Utf8
  import opened Text
  import opened Ordering
  import opened Urls
  import opened TlsPins
  import opened Config
  import opened ConfigHash

  /** The fields that clients verify agree. Listen addresses and the order of the allowlist do not
      matter, nor do the case and padding of the digest and of the pins. */
  ghost predicate SameSecurity(parse: Parser, a: RelayConfig, b: RelayConfig) {
    && a.runtime == b.runtime
    && a.defaultUpstream == b.defaultUpstream
    && a.routes == b.routes
    && multiset(a.allowedUpstreams) == multiset(b.allowedUpstreams)
    && a.maxRequestBytes == b.maxRequestBytes
    && DigestText(a.releaseArtifactDigest) == DigestText(b.releaseArtifactDigest)
    && a.upstreamTimeoutSecs == b.upstreamTimeoutSecs
    && Normalized(parse, a.upstreamTlsLeafSha256) == Normalized(parse, b.upstreamTlsLeafSha256)
  }

  ghost predicate RouteDelimited(prefix: string, route: ProviderConfig) {
    && '\n' !in prefix && !Contains(prefix, "=>")
    && '\n' !in route.baseUrl && !Contains(route.baseUrl, "|path:")
    && (route.path.Some? ==> '\n' !in route.path.value)
  }

  /** No field contains a line end, no route prefix `=>` and no base URL `|path:`. */
  ghost predicate Delimited(config: RelayConfig) {
    && '\n' !in config.runtime.providerAuthScheme && '\n' !in config.runtime.bodyLogPolicy
    && '\n' !in config.defaultUpstream
    && (forall k :: k in config.routes ==> RouteDelimited(k, config.routes[k]))
    && (forall u :: u in config.allowedUpstreams ==> '\n' !in u)
    && (DigestText(config.releaseArtifactDigest).Some? ==> '\n' !in DigestText(config.releaseArtifactDigest).value)
  }

  // ---- lines -------------------------------------------------------------------------------

  ghost predicate AreLines(lines: seq<string>) { forall l :: l in lines ==> '\n' !in l }

  /** Line-free texts are determined by their lines. */
  lemma {:induction false} UnlinesInjective(a: seq<string>, b: seq<string>)
    requires AreLines(a) && AreLines(b) && Unlines(a) == Unlines(b)
    ensures a == b
  {
    if a != [] && b != [] {
      SingletonOccurrence(a[0], '\n');
      SingletonOccurrence(b[0], '\n');
      SeparatorInjective(a[0], Unlines(a[1..]), b[0], Unlines(b[1..]), ['\n']);
      UnlinesInjective(a[1..], b[1..]);
      assert a == [a[0]] + a[1..] && b == [b[0]] + b[1..];
    }
  }

  lemma RunGoesOn(a: seq<string>, x: seq<string>, b: seq<string>, y: seq<string>, tag: string)
    requires a + x == b + y && |a| < |b| && forall l :: l in b ==> tag <= l
    ensures x != [] && tag <= x[0]
  {
    assert (a + x)[|a|] == x[0] && (b + y)[|a|] == b[|a|];
    assert b[|a|] in b;
  }

  /** A run of tagged lines ends where the tag ends. */
  lemma RunSplit(a: seq<string>, x: seq<string>, b: seq<string>, y: seq<string>, tag: string)
    requires a + x == b + y
    requires forall l :: l in a || l in b ==> tag <= l
    requires (x != [] ==> !(tag <= x[0])) && (y != [] ==> !(tag <= y[0]))
    ensures a == b && x == y
  {
    if |a| < |b| { RunGoesOn(a, x, b, y, tag); }
    if |b| < |a| { RunGoesOn(b, y, a, x, tag); }
    assert a == (a + x)[..|a|] && b == (b + y)[..|a|];
    assert x == (a + x)[|a|..] && y == (b + y)[|a|..];
  }

  lemma SplitAt(a: seq<string>, x: seq<string>, b: seq<string>, y: seq<string>)
    requires a + x == b + y && |a| == |b|
    ensures a == b && x == y
  {
    assert a == (a + x)[..|a|] && b == (b + y)[..|a|];
    assert x == (a + x)[|a|..] && y == (b + y)[|a|..];
  }

  lemma TagCancels(tag: string, x: string, y: string)
    requires tag + x == tag + y
    ensures x == y
  {
    assert x == (tag + x)[|tag|..] && y == (tag + y)[|tag|..];
  }

  // ---- line contents -----------------------------------------------------------------------

  lemma RouteLineInjective(k: string, r: ProviderConfig, k': string, r': ProviderConfig)
    requires RouteDelimited(k, r) && RouteDelimited(k', r') && RouteLine(k, r) == RouteLine(k', r')
    ensures k == k' && r == r'
  {
    var t := r.baseUrl + match r.path case None => "" case Some(p) => "|path:" + p;
    var t' := r'.baseUrl + match r'.path case None => "" case Some(p) => "|path:" + p;
    TagCancels("route:", k + "=>" + t, k' + "=>" + t');
    assert BorderFree("=>") by { assert "=>"[1..] == ">" && "=>"[..1] == "="; }
    SeparatorInjective(k, t, k', t', "=>");
    PathInjective(r, r');
  }

  lemma PathBorder()
    ensures BorderFree("|path:")
  {
    var sep := "|path:";
    forall k | 0 < k < |sep| ensures sep[k..] != sep[..|sep| - k] {
      assert sep[k..][0] == sep[k] && sep[..|sep| - k][0] == '|';
    }
  }

  lemma PathInjective(r: ProviderConfig, r': ProviderConfig)
    requires !Contains(r.baseUrl, "|path:") && !Contains(r'.baseUrl, "|path:")
    requires r.baseUrl + (match r.path case None => "" case Some(p) => "|path:" + p) ==
             r'.baseUrl + (match r'.path case None => "" case Some(p) => "|path:" + p)
    ensures r == r'
  {
    PathBorder();
    match (r.path, r'.path) {
      case (Some(p), Some(p')) =>
        assert r.baseUrl + ("|path:" + p) == r.baseUrl + "|path:" + p;
        assert r'.baseUrl + ("|path:" + p') == r'.baseUrl + "|path:" + p';
        SeparatorInjective(r.baseUrl, p, r'.baseUrl, p', "|path:");
      case (Some(p), None) =>
        PathShows(r.baseUrl, p, r'.baseUrl);
      case (None, Some(p')) =>
        PathShows(r'.baseUrl, p', r.baseUrl);
      case (None, None) =>
        assert r.baseUrl + "" == r.baseUrl && r'.baseUrl + "" == r'.baseUrl;
    }
  }

  lemma PathShows(base: string, path: string, other: string)
    requires other + "" == base + ("|path:" + path)
    ensures Contains(other, "|path:")
  {
    assert other == other + "";
    assert base + ("|path:" + path) == base + "|path:" + path;
    assert OccursAt("|path:", "|path:", 0);
    PartContains(base, "|path:", path, "|path:");
  }

  lemma {:induction false} CommaEndedInjective(a: seq<string>, b: seq<string>)
    requires (forall p :: p in a ==> ',' !in p) && (forall p :: p in b ==> ',' !in p)
    requires CommaEnded(a) == CommaEnded(b)
    ensures a == b
  {
    if a != [] && b != [] {
      SingletonOccurrence(a[0], ',');
      SingletonOccurrence(b[0], ',');
      SeparatorInjective(a[0], CommaEnded(a[1..]), b[0], CommaEnded(b[1..]), [',']);
      CommaEndedInjective(a[1..], b[1..]);
      assert a == [a[0]] + a[1..] && b == [b[0]] + b[1..];
    }
  }

  /** What normalisation promises of a table entry, as far as printing needs it. */
  ghost predicate PinsDelimited(origin: string, pins: seq<string>) {
    && '\n' !in origin && !Contains(origin, "=>")
    && forall p :: p in pins ==> ',' !in p && '\n' !in p
  }

  lemma PinLineInjective(o: string, p: seq<string>, o': string, p': seq<string>)
    requires PinsDelimited(o, p) && PinsDelimited(o', p') && PinLine(o, p) == PinLine(o', p')
    ensures o == o' && p == p'
  {
    TagCancels("upstream_tls_leaf_sha256:", o + "=>" + CommaEnded(p), o' + "=>" + CommaEnded(p'));
    assert BorderFree("=>") by { assert "=>"[1..] == ">" && "=>"[..1] == "="; }
    SeparatorInjective(o, CommaEnded(p), o', CommaEnded(p'), "=>");
    CommaEndedInjective(p, p');
  }

  lemma OriginDelimited(parse: Parser, o: string)
    requires ReadsOrigins(parse) && UrlOrigin(parse, o) == Some(o) && parse(o).value.scheme == "https"
    ensures '\n' !in o && !Contains(o, "=>")
  {
    var u := parse(o).value;
    var host := Lower(u.host.value);
    ValueOfDecimal(u.port.value);
    assert o == "https" + "://" + host + ":" + Decimal(u.port.value);
    assert '>' !in o;
    ArrowShows(o);
  }

  lemma ArrowShows(s: string)
    ensures Contains(s, "=>") ==> '>' in s
  {
    if Contains(s, "=>") {
      var i: nat :| OccursAt(s, "=>", i);
      assert s[i + 1] == s[i..i + 2][1] == '>';
    }
  }

  lemma NormalTableDelimited(parse: Parser, table: PinTable)
    requires ReadsOrigins(parse) && IsNormalTable(parse, table)
    ensures forall o :: o in table ==> PinsDelimited(o, table[o])
  {
    forall o | o in table ensures PinsDelimited(o, table[o]) {
      OriginDelimited(parse, o);
      forall p | p in table[o] ensures ',' !in p && '\n' !in p {
        assert IsNormalPin(p);
        assert forall i :: 0 <= i < 7 ==> p[i] == PIN_PREFIX[i];
      }
    }
  }

  lemma {:induction false} CommaEndedIsLine(pins: seq<string>)
    requires forall p :: p in pins ==> '\n' !in p
    ensures '\n' !in CommaEnded(pins)
  {
    if pins != [] { CommaEndedIsLine(pins[1..]); }
  }

  // ---- sections ----------------------------------------------------------------------------

  lemma RouteLinesInjective(a: map<string, ProviderConfig>, b: map<string, ProviderConfig>)
    requires forall k :: k in a ==> RouteDelimited(k, a[k])
    requires forall k :: k in b ==> RouteDelimited(k, b[k])
    requires RouteLines(a) == RouteLines(b)
    ensures a == b
  {
    hide RouteDelimited, RouteLine, InOrder;
    InOrderElements(a.Keys);
    InOrderElements(b.Keys);
    var ka, kb := InOrder(a.Keys), InOrder(b.Keys);
    assert |ka| == |RouteLines(a)| == |kb|;
    forall i | 0 <= i < |ka| ensures ka[i] == kb[i] && a[ka[i]] == b[kb[i]] {
      assert ka[i] in ka && kb[i] in kb;
      assert RouteLines(a)[i] == RouteLine(ka[i], a[ka[i]]);
      assert RouteLines(b)[i] == RouteLine(kb[i], b[kb[i]]);
      RouteLineInjective(ka[i], a[ka[i]], kb[i], b[kb[i]]);
    }
    assert ka == kb;
    forall k ensures k in a <==> k in b { assert k in ka <==> k in kb; }
    forall k | k in a ensures a[k] == b[k] {
      assert k in ka;
      var i :| 0 <= i < |ka| && ka[i] == k;
    }
  }

  lemma PinLinesInjective(a: PinTable, b: PinTable)
    requires forall o :: o in a ==> PinsDelimited(o, a[o])
    requires forall o :: o in b ==> PinsDelimited(o, b[o])
    requires PinLines(a) == PinLines(b)
    ensures a == b
  {
    hide PinsDelimited, PinLine, InOrder;
    InOrderElements(a.Keys);
    InOrderElements(b.Keys);
    var ka, kb := InOrder(a.Keys), InOrder(b.Keys);
    assert |ka| == |PinLines(a)| == |kb|;
    forall i | 0 <= i < |ka| ensures ka[i] == kb[i] && a[ka[i]] == b[kb[i]] {
      assert ka[i] in ka && kb[i] in kb;
      assert PinLines(a)[i] == PinLine(ka[i], a[ka[i]]);
      assert PinLines(b)[i] == PinLine(kb[i], b[kb[i]]);
      PinLineInjective(ka[i], a[ka[i]], kb[i], b[kb[i]]);
    }
    assert ka == kb;
    forall o ensures o in a <==> o in b { assert o in ka <==> o in kb; }
    forall o | o in a ensures a[o] == b[o] {
      assert o in ka;
      var i :| 0 <= i < |ka| && ka[i] == o;
    }
  }

  lemma AllowedLinesInjective(a: seq<string>, b: seq<string>)
    requires AllowedLines(a) == AllowedLines(b)
    ensures multiset(a) == multiset(b)
  {
    hide Sort;
    var x, y := Sort(a), Sort(b);
    assert |x| == |AllowedLines(a)| == |y|;
    forall i | 0 <= i < |x| ensures x[i] == y[i] {
      assert AllowedLines(a)[i] == "allowed:" + x[i] && AllowedLines(b)[i] == "allowed:" + y[i];
      TagCancels("allowed:", x[i], y[i]);
    }
    assert x == y;
    SortCanonical(a, b);
  }

  lemma RuntimeLinesInjective(a: RelayConfig, b: RelayConfig)
    requires RuntimeLines(a) == RuntimeLines(b)
    ensures a.runtime == b.runtime && a.defaultUpstream == b.defaultUpstream
  {
    var x, y := RuntimeLines(a), RuntimeLines(b);
    assert forall i :: 0 <= i < 6 ==> x[i] == y[i];
    TagCancels("runtime.allow_client_provider_auth:", BoolText(a.runtime.allowClientProviderAuth), BoolText(b.runtime.allowClientProviderAuth));
    TagCancels("runtime.private_admin_enabled:", BoolText(a.runtime.privateAdminEnabled), BoolText(b.runtime.privateAdminEnabled));
    TagCancels("runtime.provider_auth_scheme:", a.runtime.providerAuthScheme, b.runtime.providerAuthScheme);
    TagCancels("runtime.body_log_policy:", a.runtime.bodyLogPolicy, b.runtime.bodyLogPolicy);
    TagCancels("default_upstream:", a.defaultUpstream, b.defaultUpstream);
    assert |BoolText(true)| != |BoolText(false)|;
  }

  lemma TailLinesInjective(a: RelayConfig, ta: PinTable, b: RelayConfig, tb: PinTable)
    requires TailLines(a, ta) == TailLines(b, tb)
    ensures DigestText(a.releaseArtifactDigest) == DigestText(b.releaseArtifactDigest)
    ensures a.upstreamTimeoutSecs == b.upstreamTimeoutSecs && PinLines(ta) == PinLines(tb)
  {
    hide PinLines, Decimal, DigestText;
    var ua, ub := "upstream_timeout_secs:" + Decimal(a.upstreamTimeoutSecs), "upstream_timeout_secs:" + Decimal(b.upstreamTimeoutSecs);
    assert ua[0] == 'u' && ub[0] == 'u';
    RunSplit(DigestLines(a.releaseArtifactDigest), [ua] + PinLines(ta), DigestLines(b.releaseArtifactDigest), [ub] + PinLines(tb), "release_artifact_digest:");
    SplitAt([ua], PinLines(ta), [ub], PinLines(tb));
    TagCancels("upstream_timeout_secs:", Decimal(a.upstreamTimeoutSecs), Decimal(b.upstreamTimeoutSecs));
    DecimalInjective(a.upstreamTimeoutSecs, b.upstreamTimeoutSecs);
    match (DigestText(a.releaseArtifactDigest), DigestText(b.releaseArtifactDigest)) {
      case (Some(d), Some(e)) =>
        assert DigestLines(a.releaseArtifactDigest)[0] == DigestLines(b.releaseArtifactDigest)[0];
        TagCancels("release_artifact_digest:", d, e);
      case _ =>
    }
  }

  lemma SectionTags(config: RelayConfig)
    ensures forall l :: l in RouteLines(config.routes) ==> "route:" <= l
    ensures forall l :: l in AllowedLines(config.allowedUpstreams) ==> "allowed:" <= l && !("route:" <= l)
  {
    hide InOrder, Sort;
    InOrderElements(config.routes.Keys);
    forall l | l in AllowedLines(config.allowedUpstreams) ensures "allowed:" <= l && !("route:" <= l) {
      assert l[0] == 'a';
    }
  }

  /** Equal lines have equal sections. */
  lemma ConfigLinesInjective(a: RelayConfig, ta: PinTable, b: RelayConfig, tb: PinTable)
    requires ConfigLines(a, ta) == ConfigLines(b, tb)
    ensures RuntimeLines(a) == RuntimeLines(b) && RouteLines(a.routes) == RouteLines(b.routes)
    ensures AllowedLines(a.allowedUpstreams) == AllowedLines(b.allowedUpstreams)
    ensures a.maxRequestBytes == b.maxRequestBytes && TailLines(a, ta) == TailLines(b, tb)
  {
    hide RouteLines, AllowedLines, TailLines, Decimal;
    var ma, mb := "max_request_bytes:" + Decimal(a.maxRequestBytes), "max_request_bytes:" + Decimal(b.maxRequestBytes);
    assert ma[0] == 'm' && mb[0] == 'm';
    var xa, xb := [ma] + TailLines(a, ta), [mb] + TailLines(b, tb);
    var ya, yb := AllowedLines(a.allowedUpstreams) + xa, AllowedLines(b.allowedUpstreams) + xb;
    SectionTags(a);
    SectionTags(b);
    SplitAt(RuntimeLines(a), RouteLines(a.routes) + ya, RuntimeLines(b), RouteLines(b.routes) + yb);
    FirstOf(AllowedLines(a.allowedUpstreams), ma, TailLines(a, ta));
    FirstOf(AllowedLines(b.allowedUpstreams), mb, TailLines(b, tb));
    RunSplit(RouteLines(a.routes), ya, RouteLines(b.routes), yb, "route:");
    RunSplit(AllowedLines(a.allowedUpstreams), xa, AllowedLines(b.allowedUpstreams), xb, "allowed:");
    SplitAt([ma], TailLines(a, ta), [mb], TailLines(b, tb));
    TagCancels("max_request_bytes:", Decimal(a.maxRequestBytes), Decimal(b.maxRequestBytes));
    DecimalInjective(a.maxRequestBytes, b.maxRequestBytes);
  }

  lemma FirstOf(a: seq<string>, m: string, rest: seq<string>)
    ensures (a + ([m] + rest))[0] == m || (a + ([m] + rest))[0] in a
  {}

  // ---- newline-free lines ------------------------------------------------------------------

  lemma RouteLinesAreLines(routes: map<string, ProviderConfig>)
    requires forall k :: k in routes ==> RouteDelimited(k, routes[k])
    ensures AreLines(RouteLines(routes))
  {
    hide InOrder;
    InOrderElements(routes.Keys);
    var keys := InOrder(routes.Keys);
    forall l | l in RouteLines(routes) ensures '\n' !in l {
      var i :| 0 <= i < |keys| && l == RouteLines(routes)[i];
      assert keys[i] in keys;
      RouteLineIsLine(keys[i], routes[keys[i]]);
    }
  }

  lemma RouteLineIsLine(k: string, r: ProviderConfig)
    requires RouteDelimited(k, r)
    ensures '\n' !in RouteLine(k, r)
  {}

  lemma AllowedLinesAreLines(allowed: seq<string>)
    requires forall u :: u in allowed ==> '\n' !in u
    ensures AreLines(AllowedLines(allowed))
  {
    hide Sort;
    SortSorts(allowed);
    var sorted := Sort(allowed);
    forall l | l in AllowedLines(allowed) ensures '\n' !in l {
      var i :| 0 <= i < |sorted| && l == AllowedLines(allowed)[i];
      assert sorted[i] in multiset(sorted);
    }
  }

  lemma PinLineIsLine(origin: string, pins: seq<string>)
    requires PinsDelimited(origin, pins)
    ensures '\n' !in PinLine(origin, pins)
  {
    CommaEndedIsLine(pins);
  }

  lemma PinLinesAreLines(table: PinTable)
    requires forall o :: o in table ==> PinsDelimited(o, table[o])
    ensures AreLines(PinLines(table))
  {
    hide InOrder, PinsDelimited, PinLine;
    InOrderElements(table.Keys);
    var keys := InOrder(table.Keys);
    forall l | l in PinLines(table) ensures '\n' !in l {
      var i :| 0 <= i < |keys| && l == PinLines(table)[i];
      assert keys[i] in keys;
      PinLineIsLine(keys[i], table[keys[i]]);
    }
  }

  lemma NumberIsLine(tag: string, n: nat)
    requires '\n' !in tag
    ensures AreLines([tag + Decimal(n)])
  {
    ValueOfDecimal(n);
  }

  lemma LinesConcat(a: seq<string>, b: seq<string>)
    requires AreLines(a) && AreLines(b)
    ensures AreLines(a + b)
  {}

  lemma ConfigLinesAreLines(config: RelayConfig, table: PinTable)
    requires Delimited(config) && forall o :: o in table ==> PinsDelimited(o, table[o])
    ensures AreLines(ConfigLines(config, table))
  {
    hide PinsDelimited, RouteLines, AllowedLines, PinLines, Decimal, RouteDelimited, DigestText, AreLines;
    RouteLinesAreLines(config.routes);
    AllowedLinesAreLines(config.allowedUpstreams);
    PinLinesAreLines(table);
    NumberIsLine("max_request_bytes:", config.maxRequestBytes);
    NumberIsLine("upstream_timeout_secs:", config.upstreamTimeoutSecs);
    FixedLinesAreLines(config);
    var max, timeout := ["max_request_bytes:" + Decimal(config.maxRequestBytes)], ["upstream_timeout_secs:" + Decimal(config.upstreamTimeoutSecs)];
    var e := timeout + PinLines(table);
    var d := DigestLines(config.releaseArtifactDigest) + e;
    var c := max + d;
    var b := AllowedLines(config.allowedUpstreams) + c;
    LinesConcat(timeout, PinLines(table));
    LinesConcat(DigestLines(config.releaseArtifactDigest), e);
    LinesConcat(max, d);
    LinesConcat(AllowedLines(config.allowedUpstreams), c);
    LinesConcat(RouteLines(config.routes), b);
    LinesConcat(RuntimeLines(config), RouteLines(config.routes) + b);
  }

  lemma FixedLinesAreLines(config: RelayConfig)
    requires Delimited(config)
    ensures AreLines(RuntimeLines(config)) && AreLines(DigestLines(config.releaseArtifactDigest))
  {
    hide DigestText, RouteDelimited, RuntimeLines, DigestLines;
    RuntimeLinesAreLines(config);
    DigestLinesAreLines(config.releaseArtifactDigest);
  }

  lemma TaggedIsLine(tag: string, text: string)
    requires '\n' !in tag && '\n' !in text
    ensures '\n' !in tag + text
  {}

  lemma FlagLinesAreLines(config: RelayConfig)
    ensures AreLines(RuntimeLines(config)[..3])
  {
    var lines := RuntimeLines(config)[..3];
    assert lines == [RuntimeLines(config)[0], RuntimeLines(config)[1], RuntimeLines(config)[2]];
    TaggedIsLine("runtime.allow_client_provider_auth:", BoolText(config.runtime.allowClientProviderAuth));
    TaggedIsLine("runtime.private_admin_enabled:", BoolText(config.runtime.privateAdminEnabled));
  }

  lemma PolicyLinesAreLines(config: RelayConfig)
    requires '\n' !in config.runtime.providerAuthScheme && '\n' !in config.runtime.bodyLogPolicy
    requires '\n' !in config.defaultUpstream
    ensures AreLines(RuntimeLines(config)[3..])
  {
    hide BoolText;
    var lines := RuntimeLines(config)[3..];
    assert lines == [RuntimeLines(config)[3], RuntimeLines(config)[4], RuntimeLines(config)[5]];
    TaggedIsLine("runtime.provider_auth_scheme:", config.runtime.providerAuthScheme);
    TaggedIsLine("runtime.body_log_policy:", config.runtime.bodyLogPolicy);
    TaggedIsLine("default_upstream:", config.defaultUpstream);
  }

  lemma RuntimeLinesAreLines(config: RelayConfig)
    requires '\n' !in config.runtime.providerAuthScheme && '\n' !in config.runtime.bodyLogPolicy
    requires '\n' !in config.defaultUpstream
    ensures AreLines(RuntimeLines(config))
  {
    hide AreLines, BoolText;
    FlagLinesAreLines(config);
    PolicyLinesAreLines(config);
    LinesConcat(RuntimeLines(config)[..3], RuntimeLines(config)[3..]);
    assert RuntimeLines(config) == RuntimeLines(config)[..3] + RuntimeLines(config)[3..];
  }

  lemma DigestLinesAreLines(digest: Option<string>)
    requires DigestText(digest).Some? ==> '\n' !in DigestText(digest).value
    ensures AreLines(DigestLines(digest))
  {
    hide DigestText;
  }

  // ---- the theorem -------------------------------------------------------------------------

  lemma NormalizedDelimited(parse: Parser, pins: PinTable)
    requires ReadsOrigins(parse) && Normalized(parse, pins).Ok?
    ensures forall o :: o in Normalized(parse, pins).value ==> PinsDelimited(o, Normalized(parse, pins).value[o])
  {
    InOrderElements(pins.Keys);
    TableIsNormal(parse, pins, InOrder(pins.Keys));
    NormalTableDelimited(parse, Normalized(parse, pins).value);
  }

  /** Two delimited configurations feed the hasher the same bytes exactly when they agree on
      everything that clients verify. */
  lemma PreimageCanonical(parse: Parser, a: RelayConfig, b: RelayConfig)
    requires ReadsOrigins(parse) && Delimited(a) && Delimited(b)
    requires Preimage(parse, a).Some? && Preimage(parse, b).Some?
    ensures Encode(Preimage(parse, a).value) == Encode(Preimage(parse, b).value) <==> SameSecurity(parse, a, b)
  {
    hide Delimited, Unlines, ConfigLines, PinsDelimited, Normalized, ReadsOrigins;
    if Encode(Preimage(parse, a).value) == Encode(Preimage(parse, b).value) {
      SamePreimage(parse, a, b);
    }
    if SameSecurity(parse, a, b) { SameSecuritySamePreimage(parse, a, b); }
  }

  lemma SamePreimage(parse: Parser, a: RelayConfig, b: RelayConfig)
    requires ReadsOrigins(parse) && Delimited(a) && Delimited(b)
    requires Preimage(parse, a).Some? && Preimage(parse, b).Some?
    requires Encode(Preimage(parse, a).value) == Encode(Preimage(parse, b).value)
    ensures SameSecurity(parse, a, b)
  {
    hide Unlines, ConfigLines, PinsDelimited, Normalized, ReadsOrigins, RouteDelimited, DigestText;
    var ta := Normalized(parse, a.upstreamTlsLeafSha256).value;
    var tb := Normalized(parse, b.upstreamTlsLeafSha256).value;
    EncodeInjective(Preimage(parse, a).value, Preimage(parse, b).value);
    NormalizedDelimited(parse, a.upstreamTlsLeafSha256);
    NormalizedDelimited(parse, b.upstreamTlsLeafSha256);
    ConfigLinesAreLines(a, ta);
    ConfigLinesAreLines(b, tb);
    UnlinesInjective(ConfigLines(a, ta), ConfigLines(b, tb));
    ConfigLinesInjective(a, ta, b, tb);
    RuntimeLinesInjective(a, b);
    RouteLinesInjective(a.routes, b.routes);
    AllowedLinesInjective(a.allowedUpstreams, b.allowedUpstreams);
    TailLinesInjective(a, ta, b, tb);
    PinLinesInjective(ta, tb);
  }

  /** The other direction needs no condition on the fields. */
  lemma SameSecuritySamePreimage(parse: Parser, a: RelayConfig, b: RelayConfig)
    requires SameSecurity(parse, a, b)
    ensures Preimage(parse, a) == Preimage(parse, b)
  {
    hide Unlines, Normalized, RouteLines, PinLines, DigestText, Sort;
    SortCanonical(a.allowedUpstreams, b.allowedUpstreams);
  }
}
