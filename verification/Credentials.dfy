/** The provider credential, its store, its injection, and the headers of upstream requests. */
module Credentials {
  import opened Wrappers
  import opened Text

  // ---- the credential ----------------------------------------------------------------------

  datatype ProviderCredential = ProviderCredential(authScheme: string, token: string)

  predicate IsAsciiControl(c: char) { c < 32 as char || c == 127 as char }

  predicate IsAsciiWhitespace(c: char) { c == ' ' || c == '\t' || c == '\n' || c == 12 as char || c == '\r' }

  predicate HasControlOrSpace(s: string) { exists i :: 0 <= i < |s| && (IsAsciiControl(s[i]) || IsAsciiWhitespace(s[i])) }

  /** What `HeaderValue::from_str` accepts: every byte is at least 32 and not 127, or a tab. The bytes
      of a character outside ASCII are all at least 128. */
  predicate IsHeaderText(s: string) {
    forall i :: 0 <= i < |s| ==> (32 as char <= s[i] && s[i] != 127 as char) || s[i] == '\t'
  }

  function AuthorizationValue(c: ProviderCredential): (r: Option<string>)
    ensures r.Some? ==> r.value == c.authScheme + " " + c.token
  {
    var text := c.authScheme + " " + c.token;
    if IsHeaderText(text) then Some(text) else None
  }

  datatype CredentialError = EmptyScheme | SchemeNotAToken | EmptyToken | TokenNotVisible | NotAHeader

  function Validate(c: ProviderCredential): Result<(), CredentialError> {
    var scheme := Trim(c.authScheme);
    if scheme == "" then Err(EmptyScheme)
    else if HasControlOrSpace(scheme) then Err(SchemeNotAToken)
    else if c.token == "" then Err(EmptyToken)
    else if HasControlOrSpace(c.token) then Err(TokenNotVisible)
    else if AuthorizationValue(c).None? then Err(NotAHeader)
    else Ok(())
  }

  /** Not empty, without ASCII control characters and ASCII whitespace. */
  predicate IsWord(s: string) { s != "" && !HasControlOrSpace(s) }

  lemma WordIff(s: string)
    ensures IsWord(s) <==> s != "" && forall c :: c in s ==> c > ' ' && c != 127 as char
  {
    assert forall c: char :: IsAsciiControl(c) || IsAsciiWhitespace(c) <==> c <= ' ' || c == 127 as char;
    assert forall i :: 0 <= i < |s| ==> s[i] in s;
  }

  /** Whitespace that a header value may hold: space, tab, and whitespace outside ASCII. */
  function IsPad(c: char): bool { IsWhitespace(c) && (c == ' ' || c == '\t' || c >= 128 as char) }

  /** Accepted are exactly a token that is one word and a scheme that is one word between pads; the
      pads are sent. */
  lemma ValidIff(c: ProviderCredential)
    ensures Validate(c).Ok? <==> IsWord(c.token) && IsWord(TrimBy(c.authScheme, IsPad))
    ensures Validate(c).Ok? ==> AuthorizationValue(c).Some?
  {
    hide TrimStart, TrimEnd, TrimBy;
    var pre, suf := TrimShape(c.authScheme, IsPad);
    var core := TrimBy(c.authScheme, IsPad);
    if AuthorizationValue(c).Some? {
      forall i | 0 <= i < |c.authScheme| ensures IsWhitespace(c.authScheme[i]) == IsPad(c.authScheme[i]) {
        assert AuthorizationValue(c).value[i] == c.authScheme[i];
      }
      SamePads(c.authScheme);
    }
    if IsWord(c.token) && IsWord(core) {
      WordIsHeaderText(c.token);
      WordIsHeaderText(core);
      HeaderTextConcat(pre, core);
      HeaderTextConcat(pre + core, suf);
      HeaderTextConcat(c.authScheme, " ");
      HeaderTextConcat(c.authScheme + " ", c.token);
    }
  }

  lemma WordIsHeaderText(s: string)
    requires IsWord(s)
    ensures IsHeaderText(s)
  {
    forall i | 0 <= i < |s| ensures 32 as char <= s[i] && s[i] != 127 as char {
      assert !IsAsciiControl(s[i]);
    }
  }

  lemma HeaderTextConcat(a: string, b: string)
    requires IsHeaderText(a) && IsHeaderText(b)
    ensures IsHeaderText(a + b)
  {}

  lemma {:induction false} SamePads(s: string)
    requires forall i :: 0 <= i < |s| ==> IsWhitespace(s[i]) == IsPad(s[i])
    ensures Trim(s) == TrimBy(s, IsPad)
  {
    var t := SamePadsStart(s);
    SamePadsEnd(t);
  }

  lemma {:induction false} SamePadsStart(s: string) returns (t: string)
    requires forall i :: 0 <= i < |s| ==> IsWhitespace(s[i]) == IsPad(s[i])
    ensures t == TrimStart(s, IsWhitespace) == TrimStart(s, IsPad)
    ensures forall i :: 0 <= i < |t| ==> IsWhitespace(t[i]) == IsPad(t[i])
  {
    t := s;
    if s != "" && IsPad(s[0]) { t := SamePadsStart(s[1..]); }
  }

  lemma {:induction false} SamePadsEnd(s: string)
    requires forall i :: 0 <= i < |s| ==> IsWhitespace(s[i]) == IsPad(s[i])
    ensures TrimEnd(s, IsWhitespace) == TrimEnd(s, IsPad)
  {
    if s != "" { SamePadsEnd(s[..|s| - 1]); }
  }

  /** The Authorization value of a valid credential determines the credential. */
  lemma AuthorizationInjective(c: ProviderCredential, d: ProviderCredential)
    requires Validate(c).Ok? && Validate(d).Ok?
    requires AuthorizationValue(c) == AuthorizationValue(d)
    ensures c == d
  {
    hide TrimBy, Validate, AuthorizationValue, IsPad;
    assert IsAsciiWhitespace(' ');
    ValidIff(c);
    ValidIff(d);
    LastSpace(c.authScheme, c.token, d.authScheme, d.token);
  }

  lemma LastSpace(a: string, x: string, b: string, y: string)
    requires ' ' !in x && ' ' !in y && a + " " + x == b + " " + y
    ensures a == b && x == y
  {
    var text := a + " " + x;
    assert text[|a|] == ' ' && text[|b|] == ' ';
    assert forall i :: |a| < i < |text| ==> text[i] == x[i - |a| - 1];
    assert forall i :: |b| < i < |text| ==> text[i] == y[i - |b| - 1];
    assert |a| == |b|;
    assert a == text[..|a|] && b == text[..|b|];
    assert x == text[|a| + 1..] && y == text[|b| + 1..];
  }

  // ---- the store ---------------------------------------------------------------------------

  class ProviderCredentialStore {
    var inner: Option<ProviderCredential>

    constructor ()
      ensures inner == None
    {
      inner := None;
    }

    method Get() returns (r: Option<ProviderCredential>)
      ensures r == inner
    {
      r := inner;
    }

    method IsLoaded() returns (loaded: bool)
      ensures loaded <==> inner.Some?
    {
      loaded := inner.Some?;
    }

    method Set(credential: ProviderCredential)
      modifies this
      ensures inner == Some(credential)
    {
      inner := Some(credential);
    }

    /** Only the first credential is kept; a later one is handed back. */
    method SetOnce(credential: ProviderCredential) returns (r: Result<(), ProviderCredential>)
      modifies this
      ensures old(inner).None? ==> r.Ok? && inner == Some(credential)
      ensures old(inner).Some? ==> r == Err(credential) && inner == old(inner)
    {
      if inner.Some? { return Err(credential); }
      inner := Some(credential);
      r := Ok(());
    }
  }

  // ---- injection ---------------------------------------------------------------------------

  datatype Status = NoContent | BadRequest | Conflict

  function InjectionStatus(inner: Option<ProviderCredential>, credential: ProviderCredential): Status {
    if Validate(credential).Err? then BadRequest else if inner.Some? then Conflict else NoContent
  }

  method InjectProviderCredential(store: ProviderCredentialStore, credential: ProviderCredential)
    returns (status: Status)
    modifies store
    ensures status == InjectionStatus(old(store.inner), credential)
    ensures status == BadRequest <==> Validate(credential).Err?
    ensures status == Conflict <==> Validate(credential).Ok? && old(store.inner).Some?
    ensures store.inner == if status.NoContent? then Some(credential) else old(store.inner)
  {
    if Validate(credential).Err? { return BadRequest; }
    var r := store.SetOnce(credential);
    status := if r.Ok? then NoContent else Conflict;
  }

  // ---- upstream headers --------------------------------------------------------------------

  /** Header names are lower-case; a name may occur more than once. */
  type ClientHeaders = seq<(string, string)>

  const AUTHORIZATION := "authorization"
  const CONTENT_TYPE := "content-type"

  const FORWARDED_REQUEST_HEADERS := [
    "accept", "anthropic-version", "anthropic-beta", "authorization", "openai-beta",
    "x-stainless-arch", "x-stainless-lang", "x-stainless-os", "x-stainless-package-version",
    "x-stainless-runtime", "x-stainless-runtime-version"]

  /** `HeaderMap::get`: the first value of a name. */
  function First(headers: ClientHeaders, name: string): Option<string> {
    if headers == [] then None
    else if headers[0].0 == name then Some(headers[0].1)
    else First(headers[1..], name)
  }

  lemma {:induction false} FirstIs(headers: ClientHeaders, name: string, value: string)
    ensures First(headers, name) == Some(value) <==>
            exists i :: 0 <= i < |headers| && headers[i] == (name, value) && forall j :: 0 <= j < i ==> headers[j].0 != name
    ensures First(headers, name) == None <==> forall i :: 0 <= i < |headers| ==> headers[i].0 != name
  {
    if headers != [] && headers[0].0 != name {
      var rest := headers[1..];
      FirstIs(rest, name, value);
      assert forall i :: 0 < i < |headers| ==> headers[i] == rest[i - 1];
      if i :| 0 <= i < |rest| && rest[i] == (name, value) && forall j :: 0 <= j < i ==> rest[j].0 != name {
        assert headers[i + 1] == (name, value);
      }
    }
  }

  /** Where the value of an upstream header comes from; `auth` is the injected credential's. */
  function HeaderSource(client: ClientHeaders, auth: Option<string>, name: string): Option<string> {
    if name == CONTENT_TYPE then Some("application/json")
    else if name == AUTHORIZATION && auth.Some? then auth
    else if name in FORWARDED_REQUEST_HEADERS then First(client, name)
    else None
  }

  function UpstreamHeaders(client: ClientHeaders, auth: Option<string>): (out: map<string, string>)
    ensures forall name :: name in out <==> HeaderSource(client, auth, name).Some?
    ensures forall name :: name in out ==> out[name] == HeaderSource(client, auth, name).value
  {
    map name | name in FORWARDED_REQUEST_HEADERS + [AUTHORIZATION, CONTENT_TYPE] && HeaderSource(client, auth, name).Some?
      :: HeaderSource(client, auth, name).value
  }

  /** What the upstream is sent: a fixed content type, the injected Authorization, and of the client's
      headers eleven names with their first values. */
  lemma UpstreamHeadersMeaning(client: ClientHeaders, auth: Option<string>, name: string, value: string)
    ensures var out := UpstreamHeaders(client, auth);
            (name in out && out[name] == value) <==>
            if name == "content-type" then value == "application/json"
            else if name == "authorization" && auth.Some? then value == auth.value
            else
              && name in ["accept", "anthropic-version", "anthropic-beta", "authorization", "openai-beta",
                          "x-stainless-arch", "x-stainless-lang", "x-stainless-os", "x-stainless-package-version",
                          "x-stainless-runtime", "x-stainless-runtime-version"]
              && exists i :: 0 <= i < |client| && client[i] == (name, value) && forall j :: 0 <= j < i ==> client[j].0 != name
  {
    hide First, UpstreamHeaders;
    FirstIs(client, name, value);
  }

  /** The loop over the allowlist; with an injected credential it skips the client's Authorization. */
  method CopyHeaders(client: ClientHeaders, names: seq<string>, injected: bool) returns (headers: map<string, string>)
    ensures forall name :: name in headers <==>
              name in names && !(injected && name == AUTHORIZATION) && First(client, name).Some?
    ensures forall name :: name in headers ==> headers[name] == First(client, name).value
  {
    hide First;
    headers := map[];
    for i := 0 to |names|
      invariant forall name :: name in headers <==>
                  name in names[..i] && !(injected && name == AUTHORIZATION) && First(client, name).Some?
      invariant forall name :: name in headers ==> headers[name] == First(client, name).value
    {
      var name := names[i];
      assert names[..i + 1] == names[..i] + [name];
      if name == AUTHORIZATION && injected { continue; }
      var value := First(client, name);
      if value.Some? { headers := headers[name := value.value]; }
    }
    assert names[..|names|] == names;
  }

  method BuildUpstreamHeaders(client: ClientHeaders, credential: Option<ProviderCredential>)
    returns (r: Option<map<string, string>>)
    ensures credential.None? ==> r == Some(UpstreamHeaders(client, None))
    ensures credential.Some? ==>
              match AuthorizationValue(credential.value)
              case Some(auth) => r == Some(UpstreamHeaders(client, Some(auth)))
              case None => r == None
  {
    hide AuthorizationValue, First;
    DistinctNames();
    var headers := CopyHeaders(client, FORWARDED_REQUEST_HEADERS, credential.Some?);
    var auth: Option<string> := None;
    if credential.Some? {
      auth := AuthorizationValue(credential.value);
      if auth.None? { return None; }
      headers := headers[AUTHORIZATION := auth.value];
    }
    headers := headers[CONTENT_TYPE := "application/json"];
    assert headers == UpstreamHeaders(client, auth);
    r := Some(headers);
  }

  lemma DistinctNames()
    ensures CONTENT_TYPE !in FORWARDED_REQUEST_HEADERS && AUTHORIZATION != CONTENT_TYPE
  {
    assert CONTENT_TYPE[2] == 'n' && AUTHORIZATION[2] == 't';
    assert forall i :: 0 <= i < |FORWARDED_REQUEST_HEADERS| ==> |FORWARDED_REQUEST_HEADERS[i]| != |CONTENT_TYPE|;
  }
}
