/** URL origins, over any URL parser. */
module Urls {
  import opened Wrappers
  import opened Text

  /** The parts of a parsed URL that the source reads; `port` is the explicit or default one. */
  datatype Url = Url(
    scheme: string,
    username: string,
    password: Option<string>,
    host: Option<string>,
    port: Option<nat>)

  type Parser = string -> Option<Url>

  // ---- decimal text ------------------------------------------------------------------------

  /** `to_string` on an unsigned integer. */
  function Decimal(n: nat): (r: string)
    ensures r != ""
  {
    if n < 10 then [(48 + n) as char] else Decimal(n / 10) + [(48 + n % 10) as char]
  }

  function DecimalValue(s: string): int {
    if s == "" then 0 else DecimalValue(s[..|s| - 1]) * 10 + (s[|s| - 1] as int - 48)
  }

  lemma {:induction false} ValueOfDecimal(n: nat)
    ensures DecimalValue(Decimal(n)) == n
    ensures forall c :: c in Decimal(n) ==> '0' <= c <= '9'
  {
    var r := Decimal(n);
    if n < 10 {
      assert r[..0] == "";
    } else {
      ValueOfDecimal(n / 10);
      assert r[..|r| - 1] == Decimal(n / 10);
    }
  }

  lemma DecimalInjective(m: nat, n: nat)
    ensures Decimal(m) == Decimal(n) ==> m == n
  {
    ValueOfDecimal(m);
    ValueOfDecimal(n);
  }

  // ---- origins -----------------------------------------------------------------------------

  predicate IsLocalHttp(url: Url) {
    && url.scheme == "http" && url.host.Some?
    && Lower(url.host.value) in ["localhost", "127.0.0.1", "::1"]
  }

  function OriginText(scheme: string, host: string, port: nat): string {
    scheme + "://" + host + ":" + Decimal(port)
  }

  /** The origin of a URL, always with its port, or None where the source refuses the URL. */
  function UrlOrigin(parse: Parser, raw: string): Option<string> {
    match parse(raw)
    case None => None
    case Some(url) =>
      if url.scheme != "https" && !IsLocalHttp(url) then None
      else if url.username != "" || url.password.Some? then None
      else
        match (url.host, url.port)
        case (Some(host), Some(port)) => Some(OriginText(url.scheme, Lower(host), port))
        case _ => None
  }

  /** A URL has an origin exactly if it is https, or http on the machine itself, without user or
      password, and has a host and a port. */
  lemma HasOriginIff(parse: Parser, raw: string)
    ensures UrlOrigin(parse, raw).Some? <==>
            && parse(raw).Some?
            && var url := parse(raw).value;
            && url.username == "" && url.password == None && url.host.Some? && url.port.Some?
            && (url.scheme == "https"
                || (url.scheme == "http" && (Lower(url.host.value) == "localhost" || Lower(url.host.value) == "127.0.0.1"
                                             || Lower(url.host.value) == "::1")))
  {}

  /** Origins are equal exactly if schemes, hosts in lower case and ports are. */
  lemma SameOriginIff(parse: Parser, a: string, b: string)
    requires UrlOrigin(parse, a).Some? && UrlOrigin(parse, b).Some?
    ensures UrlOrigin(parse, a) == UrlOrigin(parse, b) <==>
            var x, y := parse(a).value, parse(b).value;
            x.scheme == y.scheme && Lower(x.host.value) == Lower(y.host.value) && x.port == y.port
  {
    hide Lower, Decimal;
    var x, y := parse(a).value, parse(b).value;
    if UrlOrigin(parse, a) == UrlOrigin(parse, b) {
      OriginInjective(x.scheme, Lower(x.host.value), x.port.value, y.scheme, Lower(y.host.value), y.port.value);
    }
  }

  lemma OriginInjective(scheme: string, host: string, port: nat, scheme': string, host': string, port': nat)
    requires scheme in {"http", "https"} && scheme' in {"http", "https"}
    requires OriginText(scheme, host, port) == OriginText(scheme', host', port')
    ensures scheme == scheme' && host == host' && port == port'
  {
    hide Decimal;
    var text := OriginText(scheme, host, port);
    assert text[4] == (if scheme == "http" then ':' else 's');
    assert text[4] == (if scheme' == "http" then ':' else 's');
    assert scheme == scheme';
    var n := |scheme| + 3;
    assert text[n..] == host + ":" + Decimal(port) == host' + ":" + Decimal(port');
    HostPortInjective(host, port, host', port');
  }

  /** The port is what follows the last colon, so a host may hold colons. */
  lemma HostPortInjective(host: string, port: nat, host': string, port': nat)
    requires host + ":" + Decimal(port) == host' + ":" + Decimal(port')
    ensures host == host' && port == port'
  {
    hide Decimal;
    ValueOfDecimal(port);
    ValueOfDecimal(port');
    var text := host + ":" + Decimal(port);
    assert text[|host|] == ':' && text[|host'|] == ':';
    forall i | |host| < i < |text| ensures text[i] != ':' { assert text[i] == Decimal(port)[i - |host| - 1] && text[i] in Decimal(port); }
    forall i | |host'| < i < |text| ensures text[i] != ':' { assert text[i] == Decimal(port')[i - |host'| - 1] && text[i] in Decimal(port'); }
    assert |host| == |host'|;
    assert host == text[..|host|] && host' == text[..|host|];
    assert Decimal(port) == text[|host| + 1..] && Decimal(port') == text[|host| + 1..];
  }

  function IsSlash(c: char): bool { c == '/' }

  function WithoutSlashes(base: string): string { TrimEnd(base, IsSlash) }

  lemma SlashesRemoved(base: string, slashes: string)
    requires (base == "" || base[|base| - 1] != '/') && forall c :: c in slashes ==> c == '/'
    ensures WithoutSlashes(base + slashes) == base
  {
    forall i | 0 <= i < |slashes| ensures IsSlash(slashes[i]) { assert slashes[i] in slashes; }
    TrimEndPadding(base, slashes, IsSlash);
    TrimEndRound(base, IsSlash);
  }

  /** A path that starts with a slash, appended to a URL, does not move its origin elsewhere; the
      result may be no URL. */
  ghost predicate PathsStay(parse: Parser) {
    forall base, path {:trigger WithoutSlashes(base) + path} ::
      UrlOrigin(parse, base).Some? && "/" <= path ==>
        UrlOrigin(parse, WithoutSlashes(base) + path) in [None, UrlOrigin(parse, base)]
  }

  /** What the pin tables need of a URL parser, of https URLs only: their hosts hold no line end and
      no `>` (both forbidden in hosts), and their origins parse back to their own parts. */
  ghost predicate ReadsOrigins(parse: Parser) {
    forall raw {:trigger parse(raw)} ::
      parse(raw).Some? && parse(raw).value.scheme == "https" && parse(raw).value.host.Some? ==>
      var url := parse(raw).value;
      var host := Lower(url.host.value);
      && '\n' !in host && '>' !in host
      && (url.port.Some? ==>
            parse(OriginText("https", host, url.port.value)) == Some(Url("https", "", None, Some(host), url.port)))
  }

  /** An https origin is its own origin. */
  lemma OriginOfOrigin(parse: Parser, raw: string)
    requires ReadsOrigins(parse)
    requires UrlOrigin(parse, raw).Some? && parse(raw).value.scheme == "https"
    ensures var origin := UrlOrigin(parse, raw).value;
            && UrlOrigin(parse, origin) == Some(origin)
            && parse(origin).Some? && parse(origin).value.scheme == "https"
            && parse(origin).value.host == Some(Lower(parse(raw).value.host.value))
  {
    LowerIdempotent(parse(raw).value.host.value);
  }
}
