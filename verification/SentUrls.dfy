/** Inputs that leave what the checks are made on: a path that changes the host that is asked, and a
    host whose pins are looked up under another name. */
module SentUrls {
  import opened Wrappers
  import opened Text
  import opened Ordering
  import opened Urls
  import opened HttpsGrammar
  import opened TlsPins
  import opened Config
  import opened ConfigCollisions
  import opened Proxy

  // ---- a path without a slash --------------------------------------------------------------

  const PATH := ".b/x"

  function Leaving(): RelayConfig { Sample(map["m" := ProviderConfig(BASE, Some(PATH))]) }

  /** A validated configuration whose requests for one model leave the allowlist. */
  lemma PathLeavesAllowlist()
    ensures var up := Upstream(BASE, Some(PATH));
            && ConfigValid(ParseHttps, Leaving()) && RoutesTo(Leaving(), "m", up)
            && Allowed(ParseHttps, Leaving().allowedUpstreams, up.baseUrl)
            && UpstreamUrl(up) == "https://a.b/x" && !Allowed(ParseHttps, Leaving().allowedUpstreams, UpstreamUrl(up))
  {
    hide ConfigValid, UrlOrigin, UpstreamUrl, Sample, OriginText;
    assert BASE == BASE + "";
    SampleValid(map["m" := ProviderConfig(BASE, Some(PATH))]);
    LeavingRoute();
    SentUrl();
    SentOrigin();
    LeavingAllowlist();
  }

  lemma LeavingRoute()
    ensures RoutesTo(Leaving(), "m", Upstream(BASE, Some(PATH)))
  {
    assert IsBestRoute(Leaving().routes, "m", "m");
  }

  lemma LeavingAllowlist()
    ensures Leaving().allowedUpstreams == [BASE] && BASE in [BASE]
    ensures Leaving().upstreamTlsLeafSha256 == SamplePins()
  {}

  lemma SentOrigin()
    ensures UrlOrigin(ParseHttps, BASE) == Some(Origin())
    ensures UrlOrigin(ParseHttps, UpstreamUrl(Upstream(BASE, Some(PATH)))) == Some(OriginText("https", "a.b", 443))
    ensures Origin() != OriginText("https", "a.b", 443)
  {
    hide ParseHttps, UrlOrigin, UpstreamUrl, OriginText;
    assert BASE == BASE + "";
    SentUrl();
    PathRead("a", "");
    PathRead("a.b", "x");
    OriginsDiffer();
  }

  /** They leave the pins as well. */
  lemma PathLeavesPins()
    ensures var up, pins := Upstream(BASE, Some(PATH)), Leaving().upstreamTlsLeafSha256;
            && PinsFor(ParseHttps, pins, up.baseUrl).Pinned?
            && PinsFor(ParseHttps, pins, UpstreamUrl(up)) == Unpinned
  {
    hide Normalized, SamplePins, UrlOrigin, UpstreamUrl, Sample, Origin, OriginText;
    SampleNormalizes();
    LeavingAllowlist();
    SentOrigin();
    PinnedOrigins();
  }

  lemma SentUrl()
    ensures UpstreamUrl(Upstream(BASE, Some(PATH))) == SCHEME + "a.b" + "/" + "x" == "https://a.b/x"
  {
    SlashesRemoved(SCHEME + "a", "/");
    assert SCHEME + "a" + "/" == BASE;
  }

  lemma OriginsDiffer()
    ensures Lower("a") == "a" && Lower("a.b") == "a.b" && IsHost("a") && IsHost("a.b")
    ensures OriginText("https", "a", 443) != OriginText("https", "a.b", 443)
  {
    assert OriginText("https", "a", 443)[9] == ':' && OriginText("https", "a.b", 443)[9] == '.';
  }

  lemma PinnedOrigins()
    ensures Origin() in SamplePins() && OriginText("https", "a.b", 443) !in SamplePins()
  {
    OriginsDiffer();
  }

  // ---- a host in brackets ------------------------------------------------------------------

  const LOOPBACK := "[::1]"

  function LoopbackPins(): PinTable { SinglePin(OriginText("https", LOOPBACK, 443)) }

  /** A parser that knows one URL. */
  function ParseLoopback(raw: string): Option<Url> {
    if raw == OriginText("https", LOOPBACK, 443) then Some(HttpsUrl(LOOPBACK, 443)) else None
  }

  /** The pins of a bracketed host are never checked: every leaf is accepted for its server name. */
  lemma BracketedNeverChecked(hosts: PinTable, leaf: string)
    requires IsHostTable(ParseLoopback, LoopbackPins(), hosts)
    ensures ReadsOrigins(ParseLoopback)
    ensures PinsFor(ParseLoopback, LoopbackPins(), OriginText("https", LOOPBACK, 443)).Pinned?
    ensures ServerName(LOOPBACK) == "::1" && HandshakeAccepts(hosts, ServerName(LOOPBACK), leaf)
  {
    hide IsHostTable, HandshakeAccepts, TableOf;
    LoopbackNormalizes();
    assert LOOPBACK[1..4] == "::1" && Lower(ServerName(LOOPBACK)) == "::1" && Lower(LOOPBACK) == LOOPBACK;
    assert "::1" != LOOPBACK;
    HandshakeAcceptsIff(ParseLoopback, LoopbackPins(), hosts, ServerName(LOOPBACK), leaf);
  }

  lemma LoopbackNormalizes()
    ensures ReadsOrigins(ParseLoopback) && Normalized(ParseLoopback, LoopbackPins()) == Ok(LoopbackPins())
    ensures UrlOrigin(ParseLoopback, OriginText("https", LOOPBACK, 443)) == Some(OriginText("https", LOOPBACK, 443))
  {
    hide TableOf, InOrder, SinglePin, Decimal, Normalized;
    assert Lower(LOOPBACK) == LOOPBACK;
    SingleNormalizes(ParseLoopback, OriginText("https", LOOPBACK, 443));
  }
}
