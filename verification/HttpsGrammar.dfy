/** A URL parser for a small grammar, `https://` host [`:` port] [`/` anything], with a host of
    letters and dots. It shows that what is asked of a parser elsewhere can be met. */
module HttpsGrammar {
  import opened Wrappers
  import opened Text
  import opened Urls

  const SCHEME := "https://"

  predicate IsHost(s: string) {
    s != "" && forall i :: 0 <= i < |s| ==> 'a' <= s[i] <= 'z' || 'A' <= s[i] <= 'Z' || s[i] == '.'
  }

  function ParsePort(s: string): Option<nat> {
    if s != "" && (forall i :: 0 <= i < |s| ==> '0' <= s[i] <= '9') && 0 <= DecimalValue(s) < 65536
    then Some(DecimalValue(s)) else None
  }

  function HttpsUrl(host: string, port: nat): Url { Url("https", "", None, Some(Lower(host)), Some(port)) }

  function ParseAuthority(authority: string): Option<Url> {
    match SplitOnce(authority, ':')
    case None => if IsHost(authority) then Some(HttpsUrl(authority, 443)) else None
    case Some((host, port)) =>
      if !IsHost(host) then None
      else match ParsePort(port)
        case None => None
        case Some(n) => Some(HttpsUrl(host, n))
  }

  function ParseHttps(raw: string): Option<Url> {
    if !(SCHEME <= raw) then None
    else match SplitOnce(raw[|SCHEME|..], '/')
      case None => ParseAuthority(raw[|SCHEME|..])
      case Some((authority, _)) => ParseAuthority(authority)
  }

  lemma AuthorityShape(authority: string)
    ensures var url := ParseAuthority(authority);
            url.Some? ==>
              && url.value.host.Some? && IsHost(url.value.host.value) && Lower(url.value.host.value) == url.value.host.value
              && url.value == HttpsUrl(url.value.host.value, url.value.port.value)
              && url.value.port.Some? && url.value.port.value < 65536
  {}

  /** An origin is read back to its parts. */
  lemma OriginRead(host: string, port: nat)
    requires IsHost(host) && Lower(host) == host && port < 65536
    ensures ParseHttps(OriginText("https", host, port)) == Some(HttpsUrl(host, port))
  {
    hide DecimalValue, Decimal;
    var digits := Decimal(port);
    ValueOfDecimal(port);
    var authority := host + [':'] + digits;
    assert OriginText("https", host, port) == SCHEME + authority;
    assert (SCHEME + authority)[|SCHEME|..] == authority;
    forall i | 0 <= i < |digits| ensures '0' <= digits[i] <= '9' { assert digits[i] in digits; }
    assert '/' !in authority;
    SplitOnceNone(authority, '/');
    SplitOnceAt(host, ':', digits);
  }

  /** This parser reads origins. */
  lemma GrammarReadsOrigins()
    ensures ReadsOrigins(ParseHttps)
  {
    forall raw {:trigger ParseHttps(raw)} | ParseHttps(raw).Some?
      ensures var url := ParseHttps(raw).value;
              && url.host.Some? && '\n' !in Lower(url.host.value) && '>' !in Lower(url.host.value) && url.port.Some?
              && ParseHttps(OriginText("https", Lower(url.host.value), url.port.value)) ==
                 Some(Url("https", "", None, Some(Lower(url.host.value)), url.port))
    {
      var rest := raw[|SCHEME|..];
      var authority := match SplitOnce(rest, '/') case None => rest case Some((a, _)) => a;
      AuthorityShape(authority);
      var url := ParseHttps(raw).value;
      OriginRead(url.host.value, url.port.value);
    }
  }

  /** Appending a path that starts with a slash keeps the origin, and the result is a URL. */
  lemma PathAppended(base: string, path: string)
    requires ParseHttps(base).Some? && "/" <= path
    ensures ParseHttps(WithoutSlashes(base) + path) == ParseHttps(base)
  {
    hide WithoutSlashes, ParseAuthority, SplitOnce;
    var rest := base[|SCHEME|..];
    var authority := match SplitOnce(rest, '/') case None => rest case Some((a, _)) => a;
    var after := rest[|authority|..];
    assert base == SCHEME + authority + after && (after == "" || after[0] == '/');
    AuthorityNotEmpty(authority);
    var kept := SlashesTrimmed(authority, after);
    var tail := kept + path;
    assert tail == ['/'] + tail[1..];
    assert WithoutSlashes(base) + path == SCHEME + (authority + ['/'] + tail[1..]);
    assert (WithoutSlashes(base) + path)[|SCHEME|..] == authority + ['/'] + tail[1..];
    SplitOnceAt(authority, '/', tail[1..]);
  }

  /** Trimming slashes stops at the authority at the latest. */
  lemma SlashesTrimmed(authority: string, after: string) returns (kept: string)
    requires authority != "" && '/' !in authority && (after == "" || after[0] == '/')
    ensures WithoutSlashes(SCHEME + authority + after) == SCHEME + authority + kept
    ensures kept == "" || kept[0] == '/'
  {
    hide TrimEnd;
    TrimEndAfter(SCHEME + authority, after, IsSlash);
    TrimEndPrefix(after, IsSlash);
    kept := TrimEnd(after, IsSlash);
  }

  lemma AuthorityNotEmpty(authority: string)
    ensures ParseAuthority(authority).Some? ==> authority != ""
  {
    SplitOnceNone("", ':');
  }

  lemma GrammarPathsStay()
    ensures PathsStay(ParseHttps)
  {
    hide ParseHttps, WithoutSlashes;
    forall base, path {:trigger WithoutSlashes(base) + path} | UrlOrigin(ParseHttps, base).Some? && "/" <= path
      ensures UrlOrigin(ParseHttps, WithoutSlashes(base) + path) in [None, UrlOrigin(ParseHttps, base)]
    {
      PathAppended(base, path);
    }
  }

  /** A path changes nothing, whatever it contains. */
  lemma PathRead(host: string, path: string)
    requires IsHost(host)
    ensures ParseHttps(SCHEME + host + "/" + path) == Some(HttpsUrl(host, 443))
    ensures UrlOrigin(ParseHttps, SCHEME + host + "/" + path) == Some(OriginText("https", Lower(host), 443))
  {
    var raw := SCHEME + host + "/" + path;
    assert raw[|SCHEME|..] == host + ['/'] + path;
    assert SCHEME <= raw;
    SplitOnceAt(host, '/', path);
    SplitOnceNone(host, ':');
    LowerIdempotent(host);
  }
}
