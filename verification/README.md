# Verification of the trusted relay

A Dafny model of the parts of the trusted relay that carry its guarantees: what a client learns from
an attested TLS handshake, what the configuration hash pins down, where requests may go, and what the
tunnel, the caches and the credential store keep under concurrency. `dafny verify dfyconfig.toml`
checks everything.

| module | models |
|---|---|
| `Wrappers`, `Utf8`, `Text`, `Ordering`, `LineReader` | the library behaviour the source relies on: `Option`/`Result`, UTF-8, searching, splitting and trimming, the order of `BTreeMap`, buffered line reading |
| `Base64`, `Nonces` | REPORTDATA as two base64url nonces of a Confidential Space token |
| `ChunkedBody`, `HttpToken` | the launcher's HTTP response: status, chunked coding (section 7.1 of RFC 9112), token |
| `Urls`, `HttpsGrammar`, `TlsPins`, `Config` | URL origins, a parser for a small grammar, TLS pin tables, routing, the upstream allowlist, start-up validation |
| `ConfigHash`, `ConfigCanonical`, `ConfigCollisions` | the bytes that `config_hash` feeds to SHA-256, what they determine, and what they do not |
| `CertTable`, `SnpFormats` | the SEV-SNP certificate table, signature scalars, DER slicing |
| `TtlCache` | the two caches that fetch outside their lock |
| `ConnectText`, `Tunnel` | the CONNECT handshake and tunnel of local proxy, gateway and relay |
| `Credentials`, `Proxy`, `SentUrls` | the provider credential, its store and injection, requests that use it, and inputs that leave the checks on URLs |
| `Attestation`, `GcpClaims`, `AttestedTls`, `OnlineCheck` | the attested TLS binding end to end, and the online checker |

## How to read it

Loops and objects that change state are methods and classes, each proved against a specification
function or predicate (`DecodeChunkedBody` against `DecodeFrom`, `ConfigPreimage` against `Preimage`,
`UpstreamTlsPinHosts` against `IsHostTable`, and so on); the lemmas are about those specifications.
Protocols with several processes (`TtlCache`, `Tunnel`, `Proxy`) are state machines: `Apply` is one
atomic step, `Run` a list of steps in any order, and the main results hold after every run.

Things outside the repository are parameters. SHA-384 is any function with 48-byte results, and the
configuration hash is studied on its pre-image, so nothing assumes that hashes do not collide. The
URL parser is any function from text to a parsed record; where a result needs more, it says so with
`ReadsOrigins` (the printed origin of an https URL is read back as that origin) or `PathsStay` (a path
that starts with a slash does not move an origin elsewhere), which the parser of `HttpsGrammar` meets.
Signature, certificate and token checks are boolean or partial functions. The clock is a number that steps let pass, and reads from a
channel take any positive number of the bytes that are there.

Results that a reader may not expect:

- Exactly when the tunnel is sound: no run loses or adds a byte if and only if the gateway never
  dials, or the relay stays silent until it has received something and the request ends with its
  header block (`IntactIff`). In any case every byte is accounted for (`Conserved`). A relay that
  speaks first can lose bytes to the local proxy's reader (`EagerRelayLosesBytes`).
- A line feed in the local proxy's token starts further lines of the request. If one of these pieces
  is only carriage returns, the header block ends early and the gateway sends the rest of the request
  to the relay as if the client had sent it (`LeftoverIff`, `IntactToken`). A token that ends in a
  line feed, as a secret read from a file may, is let in and does this (`TrailingLineFeed`).
- Who is let in: the last Authorization line that the token makes decides (`DialsIff`). For a token
  of one line that is the token itself up to trailing whitespace, which the gateway's own token must
  not have; an empty gateway token lets nobody in (`BearerReadBack`, `CleanHandshake`), nor does one
  that contains a line feed (`LineFeedLetsNobodyIn`).
- The pre-image of the configuration hash is canonical for fields without line ends, `=>` in route
  prefixes and `|path:` in base URLs (`PreimageCanonical`). Each of the three conditions is needed
  (`LineEndCollides`, `ArrowCollides`, `PathCollides`): start-up accepts both members of such pairs,
  and one of them can allow an upstream that the other does not (`ValidatedCollisions`,
  `ValidatedAllowlists`).
- The allowlist is checked on the base URL, before the route's path is appended. A path that does not
  start with a slash can lead a validated configuration to a host that is neither allowed nor pinned
  (`PathLeavesAllowlist`, `PathLeavesPins`); one that does cannot (`SentUrlAllowed`).
- The chunk decoder panics instead of answering exactly when a header announces a chunk that ends in
  the last two positions of `usize` (`PanicsIff`); eighteen bytes suffice (`PanicExample`). It also
  accepts a leading plus sign in a size.
- The JSON cache bounds the time since insertion, not since the download. No lookup of what is cached
  returns a download one TTL old exactly if it was inserted when it was received, or has expired
  (`JsonHitsStayFresh`). A bound on that delay bounds the age, and is reached (`JsonAgeBound`,
  `JsonDownloadCanBeOld`).
- Pins are checked for a TLS server name exactly if some pinned origin has that name as its host
  (`EnforcedIff`). Hosts of IPv6 URLs carry brackets; where the server name comes without them, the
  pins of such an origin are never checked (`BracketedNeverChecked`).
- Start-up stores a command-line credential without validating it. If that one is no header value,
  nothing is ever sent; an injected credential never fails later (`FailsOnlyFromStartup`). The
  validation trims the scheme before checking it, but the untrimmed scheme is what is sent, and text
  outside ASCII passes (`ValidIff`).
- Audit mode of the online checker still decides on the configuration for Confidential Space
  evidence: without a known hash only a zero configuration half passes, unlike in the TLS client
  (`AuditStillBindsConfig`).
- `tbs_certificate_der` counts the content from the end of its input, so trailing bytes shift the
  element that it cuts out (`TrailingShifts`). The right one is still found exactly if it also starts
  that many bytes later (`TbsDespiteTrailing`); one byte can be enough to lose it
  (`TrailingByteRefused`).

Where code and comments disagree the code is followed. The comment on `config_hash` lists three
inputs, while the code also hashes runtime flags, limits, the release digest and the pins; its
claim to cover the listed upstreams does not include the listen address.

## Model

| member | source | states |
|---|---|---|
| `Base64.DecodeEncode` | crates/relay-attest/src/gcp_confidential_space.rs:803-814 | every byte string decodes from its unpadded encoding |
| `Base64.EncodeDecode` | crates/relay-attest/src/gcp_confidential_space.rs:786-801 | the encoding is canonical: any accepted text is the encoding of its bytes |
| `Base64.EncodedBits` | crates/relay-attest/src/gcp_confidential_space.rs:803-814 | symbol by symbol: each six bits of the input, most significant first, select from the standard table |
| `Nonces.NonceReportdata` | crates/relay-attest/src/gcp_confidential_space.rs:753-784 | the loop gives what the claim stands for: the first decoding error, else a missing part, else the last part of each kind |
| `Nonces.AcceptedIff` | crates/relay-attest/src/gcp_confidential_space.rs:753-818 | a claim is accepted as some REPORTDATA exactly if every prefixed nonce decodes and the last of each kind is the nonce printed for it |
| `Nonces.ClaimInText` | crates/relay-attest/src/gcp_confidential_space.rs:753-818 | the same on the text of the nonces: each that starts with `trr1s.` or `trr1c.` spells 48 or 16 bytes behind it, and the last of each spells its part of REPORTDATA |
| `Nonces.RefusedClaim` | crates/relay-attest/src/gcp_confidential_space.rs:753-801 | each error exactly: the first nonce that is no base64url or has the wrong length, otherwise the part that no nonce carries |
| `Nonces.ListRoundTrip` | crates/relay-attest/src/gcp_confidential_space.rs:803-814 | the list of nonces, in either order, gives the REPORTDATA back |
| `Nonces.JoinedRoundTrip` | crates/relay-attest/src/gcp_confidential_space.rs:816-818 | so does the comma-joined text |
| `ChunkedBody.DecodeChunkedBody` | crates/relay-attest/src/gcp_confidential_space.rs:202-244 | the loop refines the recursive decoder and terminates |
| `ChunkedBody.AcceptedIff` | crates/relay-attest/src/gcp_confidential_space.rs:202-244 | accepted are exactly framed chunks, a zero chunk header and a trailer; the output is the concatenated payload |
| `ChunkedBody.HeaderSizeIff` | crates/relay-attest/src/gcp_confidential_space.rs:217-225 | a header announces a size exactly if it is padding, at most one plus sign, hexadecimal digits of either case with leading zeros, padding, and anything behind a semicolon |
| `ChunkedBody.RejectedIff` | crates/relay-attest/src/gcp_confidential_space.rs:202-244 | each error, and the panic, exactly where whole chunks are followed by what the error names |
| `ChunkedBody.AcceptedSize` | crates/relay-attest/src/gcp_confidential_space.rs:202-244 | output, five bytes for each chunk and three more fit into the body |
| `ChunkedBody.ChunkedRoundTrip` | crates/relay-attest/src/gcp_confidential_space.rs:202-244 | any cutting into non-empty pieces, either hex case, any extensions: decoding gives the payload |
| `ChunkedBody.PanicsIff` | crates/relay-attest/src/gcp_confidential_space.rs:226-240 | the addition after the size check overflows exactly on headers that end at the limit of `usize` |
| `ChunkedBody.PanicExample` | crates/relay-attest/src/gcp_confidential_space.rs:226-240 | a body of eighteen bytes on which it does |
| `HttpToken.TrimAscii` | crates/relay-attest/src/gcp_confidential_space.rs:1031-1041 | the two moving indices remove exactly the whitespace at both ends |
| `HttpToken.ParseHttpTokenResponse` | crates/relay-attest/src/gcp_confidential_space.rs:164-200 | the token or error of a response, in the order of the checks |
| `HttpToken.FramingDoesNotShow` | crates/relay-attest/src/gcp_confidential_space.rs:164-244 | the token comes back whatever 200 head, framing and surrounding whitespace carry it |
| `HttpToken.AcceptedToken` | crates/relay-attest/src/gcp_confidential_space.rs:164-200 | every accepted response is such a head and body, and the token is trimmed and not empty |
| `HttpToken.PrintedHead` | crates/relay-attest/src/gcp_confidential_space.rs:164-189 | any status line with ` 200 ` and any header lines form a head, chunked exactly if a line has the name `transfer-encoding` and a value with `chunked`, in any letter case |
| `HttpToken.ChunkedLineIff` | crates/relay-attest/src/gcp_confidential_space.rs:182-187 | which lines say so: name and value are what stands before and after the first colon |
| `HttpToken.ChunkedResponse` | crates/relay-attest/src/gcp_confidential_space.rs:164-244 | end to end: such a head, and a padded token cut and printed as chunks in any way, give the token |
| `HttpToken.PlainResponse` | crates/relay-attest/src/gcp_confidential_space.rs:164-200 | any other such head, and the padded token itself, give the token |
| `HttpToken.LauncherHead` | crates/relay-attest/src/gcp_confidential_space.rs:175-187 | `HTTP/1.1 200 OK` and `Transfer-Encoding: chunked` are such a head |
| `HttpToken.OtherStatus` | crates/relay-attest/src/gcp_confidential_space.rs:175-181 | a head whose first line lacks ` 200 ` is refused whatever follows |
| `HttpToken.NoToken` | crates/relay-attest/src/gcp_confidential_space.rs:194-199 | padding alone is refused as an empty token, under either framing |
| `ConfigHash.ConfigPreimage` | crates/relay-core/src/config.rs:427-510 | the bytes fed to the hasher are the lines of the configuration, or none where the pins do not normalise |
| `ConfigHash.FeedRuntime` | crates/relay-core/src/config.rs:432-458 | the schema line, four runtime lines and the default upstream, each ended |
| `ConfigHash.FeedRoutes` | crates/relay-core/src/config.rs:460-471 | one line for each route in key order, with the path only where there is one |
| `ConfigHash.FeedAllowed` | crates/relay-core/src/config.rs:473-480 | one line for each allowed upstream, sorted, repetitions kept |
| `ConfigHash.FeedPins` | crates/relay-core/src/config.rs:496-507 | one line for each normalised origin with its pins in order |
| `ConfigHash.SampleText` | crates/relay-core/src/config.rs:427-510 | the whole text, written out, for one route, one allowed upstream, a digest and two pins of one origin |
| `ConfigCanonical.PreimageCanonical` | crates/relay-core/src/config.rs:427-510 | on delimited configurations equal pre-images mean, and follow from, agreement on every field that clients verify |
| `ConfigCanonical.SameSecuritySamePreimage` | crates/relay-core/src/config.rs:427-510 | agreement gives equal pre-images without any condition on the fields |
| `ConfigCollisions.ArrowCollides` | crates/relay-core/src/config.rs:460-471 | for every configuration, moving an arrow between prefix and base URL changes the routing and keeps the pre-image, which exists exactly if the pins normalise |
| `ConfigCollisions.PathCollides` | crates/relay-core/src/config.rs:460-471 | so does hiding a path in the base URL |
| `ConfigCollisions.LineEndCollides` | crates/relay-core/src/config.rs:473-480 | for every configuration, one allowlist entry with a line end feeds what two entries feed |
| `ConfigCollisions.ValidatedCollisions` | crates/relay-core/src/config.rs:396-510 | pairs of the first two kinds that start-up accepts under one allowlist, with an existing common pre-image |
| `ConfigCollisions.ValidatedAllowlists` | crates/relay-core/src/config.rs:335-510 | a pair of the third kind that start-up accepts, where one member allows an upstream that the other refuses |
| `HttpsGrammar.GrammarReadsOrigins` | crates/relay-core/src/config.rs:213-229 | the parser of the small grammar reads every printed origin back |
| `HttpsGrammar.GrammarPathsStay` | crates/relay-core/src/proxy.rs:102-104 | with that parser an appended path that starts with a slash keeps the origin |
| `Urls.OriginOfOrigin` | crates/relay-core/src/config.rs:213-239 | the printed origin of an https URL is its own origin |
| `Urls.HasOriginIff` | crates/relay-core/src/config.rs:213-239 | a URL has an origin exactly if it is https, or http to one of three local hosts, without user and password and with host and port |
| `Urls.SameOriginIff` | crates/relay-core/src/config.rs:213-229 | two origins are equal exactly if schemes, hosts in lower case and ports are, whatever the hosts contain |
| `TlsPins.NormalizeEntry` | crates/relay-core/src/config.rs:288-298 | the distinct normal pins of one entry in order, or the first bad pin |
| `TlsPins.NormalizePinIff` | crates/relay-core/src/config.rs:260-267 | a value is a pin exactly if it is padding, an optional prefix and 64 hexadecimal digits in any case; the pin is the prefix and the digits in lower case |
| `TlsPins.EntryPinsMeaning` | crates/relay-core/src/config.rs:288-298 | an entry holds exactly what its values normalise to, and the bad pin is the first that does not |
| `TlsPins.NormalizeUpstreamTlsPins` | crates/relay-core/src/config.rs:269-302 | the loops give the normalised table, or the error of the first bad entry |
| `TlsPins.TableMeaning` | crates/relay-core/src/config.rs:269-302 | an origin is in the table exactly if a key has it, with the pins of the last such key |
| `TlsPins.TableIsNormal` | crates/relay-core/src/config.rs:260-302 | keys are https origins and pins are strictly sorted normal pins |
| `TlsPins.NormalizationIdempotent` | crates/relay-core/src/config.rs:260-302 | normalising a normalised table changes nothing |
| `TlsPins.UpstreamTlsPinHosts` | crates/relay-core/src/config.rs:376-392 | the table by host, or an error where an origin has none |
| `TlsPins.HostTableMeaning` | crates/relay-core/src/config.rs:376-392 | a host has exactly the union of the pins of its origins, strictly sorted |
| `TlsPins.HostsExist` | crates/relay-core/src/config.rs:378-386 | the error branch for origins without a host is never taken |
| `TlsPins.UpstreamTlsPinsFor` | crates/relay-core/src/config.rs:363-369 | the pins of the URL's origin, or the reason there are none |
| `TlsPins.UrlPinsPassHandshake` | crates/relay-core/src/proxy.rs:312-320 | every pin found for a URL is accepted by the handshake check for the URL's host |
| `TlsPins.HandshakeAcceptsIff` | crates/relay-core/src/proxy.rs:312-320 | for any server name a leaf is accepted exactly if it is a pin of some origin of that host, or no origin has that host |
| `TlsPins.PinnedUrlIsEnforced` | crates/relay-core/src/proxy.rs:312-320 | for a pinned URL without a bracketed host, accepted leaves are exactly the pins of the host's origins |
| `TlsPins.EnforcedIff` | crates/relay-core/src/proxy.rs:312-320 | some leaf is refused for a name exactly if some pinned origin has it as its host |
| `SentUrls.BracketedNeverChecked` | crates/relay-core/src/proxy.rs:312-320 | a pinned IPv6 URL for whose server name every leaf is accepted |
| `TlsPins.ParseUpstreamTlsPins` | server/src/main.rs:285-296 | accepted exactly if every argument has an equals sign; the table collects the pins of each origin text in order |
| `Config.ResolveUpstream` | crates/relay-core/src/config.rs:311-325 | the route of the longest key that prefixes the model, else the default |
| `Config.ScanRoutes` | crates/relay-core/src/config.rs:318-325 | the same for every longest-first order, however ties are sorted |
| `Config.RouteUnique` | crates/relay-core/src/config.rs:311-325 | that route is unique, so tie order cannot show |
| `Config.CheckUpstreamAllowed` | crates/relay-core/src/config.rs:335-360 | accepted exactly if the list is empty or some entry has the URL's origin; each refusal has its reason |
| `Config.Validate` | crates/relay-core/src/config.rs:396-414 | accepted exactly if every part is valid; each error in the order of the checks |
| `Config.DigestValidIff` | crates/relay-core/src/config.rs:242-250 | a release digest is valid exactly if it is padding, a prefix in one letter case or none, and 64 hexadecimal digits |
| `Config.RuntimeValidIff` | crates/relay-core/src/config.rs:396-414 | the runtime section is valid exactly with the one log policy and a scheme of visible ASCII without delimiters |
| `Config.ValidatedNeverBlocked` | crates/relay-core/src/config.rs:396-414 | with a validated configuration no model is routed to a refused upstream |
| `Config.ChooseUpstream` | crates/relay-core/src/proxy.rs:101-113 | the routed upstream, refused exactly if the allowlist refuses it; with a validated configuration never |
| `CertTable.CertBlobUsedLen` | crates/relay-attest/src/sev_snp.rs:288-307 | the loop gives the furthest end of an entry's data, at least the header, or zero |
| `CertTable.CutIsLeast` | crates/relay-attest/src/sev_snp.rs:288-307 | that is the least length that keeps the header and every entry's bytes, and zero exactly if no entry points at a byte |
| `CertTable.PaddedLayoutCut` | crates/relay-attest/src/sev_snp.rs:276-307 | a laid-out table followed by anything is cut back to exactly the table |
| `CertTable.FindCert` | crates/relay-attest/src/sev_snp.rs:1120-1146 | the answer is the first entry with the GUID that lies after the header and inside the blob, or none |
| `CertTable.AnswerInBytes` | crates/relay-attest/src/sev_snp.rs:1120-1146 | the answer in raw bytes: which 24-byte entries count, where their fields are and which slice is returned |
| `CertTable.TruncationKeepsAnswers` | crates/relay-attest/src/sev_snp.rs:276-307 | the attester's cut changes no answer of the verifier's search, for every blob and GUID |
| `CertTable.TruncationIdempotent` | crates/relay-attest/src/sev_snp.rs:288-307 | cutting twice is cutting once |
| `CertTable.EvidenceLookup` | crates/relay-attest/src/sev_snp.rs:424-427 | in report and cut blob the verifier finds what the guest's whole blob holds |
| `CertTable.CutProvidesTheSame` | crates/relay-attest/src/sev_snp.rs:276-307 | evidence with the cut blob provides the same certificate for every GUID as with the whole one |
| `CertTable.LayoutLookup` | crates/relay-attest/src/sev_snp.rs:1120-1146 | in a laid-out table every lookup gives the first certificate with the GUID |
| `SnpFormats.AmdSignatureToP384` | crates/relay-attest/src/sev_snp.rs:579-611 | both fields reversed into one buffer, with exact error conditions |
| `SnpFormats.ScalarValue` | crates/relay-attest/src/sev_snp.rs:579-611 | each output scalar is the field modulo 2^384, and the field itself when its top bytes are zero |
| `SnpFormats.HeaderRoundTrip` | crates/relay-attest/src/sev_snp.rs:916-932 | a DER header is read back for short and long lengths |
| `SnpFormats.HeaderReadIff` | crates/relay-attest/src/sev_snp.rs:916-932 | which bytes are read as a header, and with which length |
| `SnpFormats.TbsOfCertificate` | crates/relay-attest/src/sev_snp.rs:915-939 | without trailing bytes exactly the first inner element is cut out, header included |
| `SnpFormats.TrailingShifts` | crates/relay-attest/src/sev_snp.rs:922-924 | with trailing bytes the first element is taken that many bytes too late |
| `SnpFormats.TbsDespiteTrailing` | crates/relay-attest/src/sev_snp.rs:915-939 | with any trailing bytes the element is returned exactly if it also starts that many bytes later |
| `SnpFormats.TrailingByteRefused` | crates/relay-attest/src/sev_snp.rs:915-939 | a certificate whose element is found, but not with one byte appended |
| `TtlCache.FetchCached` | crates/relay-attest/src/sev_snp.rs:637-663 | a call that only waits answers and updates the cache as its steps in the machine do, however long each wait is |
| `TtlCache.CallGoes` | crates/relay-attest/src/sev_snp.rs:637-663 | in any state a new call can look, and on a miss download, insert and answer |
| `TtlCache.CertIsFresh` | crates/relay-attest/src/sev_snp.rs:637-663 | in every interleaving returned bytes were downloaded from that url less than six hours before the call started |
| `TtlCache.CertLookup` | crates/relay-attest/src/sev_snp.rs:637-650 | a lookup finds exactly what the last inserting call for the url downloaded, if that call started less than six hours before |
| `TtlCache.JsonIsFresh` | crates/relay-attest/src/gcp_confidential_space.rs:927-961 | in every interleaving a returned value was downloaded from that url between the lookup and the insertion of some call, and inserted less than thirty minutes before the lookup |
| `TtlCache.JsonLookup` | crates/relay-attest/src/gcp_confidential_space.rs:931-943 | a lookup finds exactly the last insertion if that is younger than the TTL, and that insertion's download exists |
| `TtlCache.JsonHitsStayFresh` | crates/relay-attest/src/gcp_confidential_space.rs:931-957 | from any reachable state: no later lookup of what is cached returns a download one TTL old, exactly if it was inserted when received or has expired |
| `TtlCache.JsonAgeBound` | crates/relay-attest/src/gcp_confidential_space.rs:945-957 | a bound on the delay between download and insertion bounds the age of every returned value |
| `TtlCache.JsonDownloadCanBeOld` | crates/relay-attest/src/gcp_confidential_space.rs:945-957 | that bound is reached, for every delay |
| `ConnectText.ReadHead` | tools/gateway/src/main.rs:58-108 | the loop decides as the header block and its last Authorization line say |
| `ConnectText.ReadAnswer` | tools/local-proxy/src/lib.rs:173-188 | connected exactly if the status line is accepted and a blank line follows; nothing after it is consumed |
| `ConnectText.BearerReadBack` | tools/gateway/src/main.rs:88-92 | which tokens match: the expected one, not empty, up to trailing whitespace |
| `ConnectText.RequestCut` | tools/local-proxy/src/lib.rs:168-171 | the lines of the request for any token: request line, Host line, the token's pieces between line feeds, a blank line |
| `ConnectText.LinesReadBack` | tools/local-proxy/src/lib.rs:168-171 | for any token the gateway reads the authority and the token's first piece back |
| `ConnectText.OnlyDialAccepted` | tools/gateway/src/main.rs:124-131 | every rejection is refused by the proxy, and the success line is accepted |
| `ConnectText.RequestDecided` | tools/gateway/src/main.rs:64-108 | the verdict on the lines of the request, for any authority and token |
| `ConnectText.DialsIff` | tools/gateway/src/main.rs:64-108 | for any token: the gateway dials exactly if the authority is its relay's and the last Authorization line of the token's header lines carries its own token |
| `ConnectText.LeftoverIff` | tools/gateway/src/main.rs:79-87 | for any token: request bytes are left behind the header block exactly if a later piece of the token is only carriage returns |
| `ConnectText.LineFeedLetsNobodyIn` | tools/gateway/src/main.rs:88-92 | a gateway token with a line feed matches no request |
| `ConnectText.HandshakeDecides` | tools/gateway/src/main.rs:58-119 | where no later piece of the token is an Authorization line: the gateway dials, and its answer is accepted, exactly if authority and first piece match |
| `ConnectText.CleanHandshake` | tools/gateway/src/main.rs:58-119 | for a token of one line without surrounding whitespace a match is equality of both with the gateway's settings, and a token that is not empty |
| `ConnectText.AuthorityIsWord` | tools/local-proxy/src/lib.rs:200-206 | the authority of a URL with a whitespace-free host is one word |
| `ConnectText.AuthorityMeaning` | tools/local-proxy/src/lib.rs:200-206 | an authority determines host and port, and is what the origin of the URL names behind its scheme |
| `ConnectText.AuthorizedIff` | tools/gateway/src/main.rs:77-98 | headers are authorized exactly if the last line that is an Authorization line has the token |
| `ConnectText.RefusedIff` | tools/gateway/src/main.rs:94-108 | which refusal a request of the proxy gets: for its token first, then for its authority |
| `ConnectText.OtherMethod` | tools/gateway/src/main.rs:66-75 | another first word is answered with 405 whatever follows |
| `ConnectText.Rejections` | tools/gateway/src/main.rs:124-131 | the three rejections as written, with the lengths of their bodies |
| `LineReader.NextLine` | tools/gateway/src/main.rs:58-82 | a buffered reader hands out exactly the next line, however the bytes arrive |
| `Tunnel.RunKeepsInv` | tools/gateway/src/main.rs:53-122 | for every setup, every run of proxy, gateway and relay keeps the invariant of the handshake and of both byte streams |
| `Tunnel.Conserved` | tools/gateway/src/main.rs:110-119 | for every setup and run, what the dropped readers held, what arrived and what is in the channels is in order what was sent, after the rest of the request |
| `Tunnel.NothingLost` | tools/gateway/src/main.rs:118-119 | with a patient relay and a request that ends with its header block, in every run both dropped readers are empty and what arrives is a prefix of what was sent |
| `Tunnel.SentArrives` | tools/gateway/src/main.rs:118-119 | from every reachable state with a connected proxy and a gateway that has answered, steps exist after which both sides have all that was sent but what the dropped readers held |
| `Tunnel.CanSend` | tools/local-proxy/src/lib.rs:189 | in such a state the application can send any bytes, and the relay can once it may |
| `Tunnel.Exchange` | tools/gateway/src/main.rs:53-122 | end to end: a proxy that is let in can have any bytes reach the relay, and any answer come back |
| `Tunnel.EveryPiece` | tools/gateway/src/main.rs:118-119 | a read may take any positive number of the bytes that are there |
| `Tunnel.IntactIff` | tools/gateway/src/main.rs:110-119 | no run loses or adds bytes exactly if the gateway never dials or those two conditions hold |
| `Tunnel.IntactToken` | tools/local-proxy/src/lib.rs:168-189 | with a patient relay and a token that is let in, exactly if no later piece of the token is only carriage returns |
| `Tunnel.LeftoverReachesRelay` | tools/gateway/src/main.rs:118-119 | otherwise a run in which the relay gets the rest of the request before the proxy has its tunnel |
| `Tunnel.TrailingLineFeed` | tools/local-proxy/src/lib.rs:167-172 | such a run for every one-line token with a line feed behind it |
| `Tunnel.ConnectedMatches` | tools/local-proxy/src/lib.rs:165-189 | a connected proxy has been let in by authority and token, for any token |
| `Tunnel.SettledOutcome` | tools/local-proxy/src/lib.rs:165-189 | for any token, a handshake that cannot go on has ended, with a tunnel exactly if the gateway lets the proxy in, if the dial succeeded and nothing broke |
| `Tunnel.HandshakeDescends` | tools/gateway/src/main.rs:58-119 | every handshake step lowers a measure, so the handshake ends |
| `Tunnel.HandshakeCompletes` | tools/gateway/src/main.rs:58-119 | for any token, from every reachable unbroken state the handshake can be run to its end, which is a tunnel exactly if the gateway lets the proxy in |
| `Tunnel.NobodyWaits` | tools/local-proxy/src/lib.rs:173-188 | whenever the gateway has closed, answered or not, a waiting proxy can read to the end and no longer waits |
| `Tunnel.EagerRelayLosesBytes` | tools/local-proxy/src/lib.rs:177-189 | for every request that is dialled, a run in which a relay that speaks first loses its bytes |
| `Credentials.ValidIff` | crates/relay-core/src/secrets.rs:46-72 | valid are exactly a token that is one word and a scheme that is one word between pads, and these always form a header value |
| `Credentials.WordIff` | crates/relay-core/src/secrets.rs:46-72 | such a word is not empty and has no character up to the space and no DEL |
| `Credentials.AuthorizationInjective` | crates/relay-core/src/secrets.rs:38-42 | the Authorization value of a valid credential determines it |
| `Credentials.ProviderCredentialStore.SetOnce` | crates/relay-core/src/secrets.rs:96-103 | only an empty store changes; otherwise the credential is handed back |
| `Credentials.InjectProviderCredential` | server/src/main.rs:335-354 | status and new store for invalid, first and later credentials |
| `Credentials.BuildUpstreamHeaders` | crates/relay-core/src/proxy.rs:122-148 | the loop and the two insertions give exactly the allowed headers, the credential's Authorization and a fixed content type |
| `Credentials.UpstreamHeadersMeaning` | crates/relay-core/src/proxy.rs:22-34 | name by name: the fixed content type, the injected Authorization, and the client's first value of eleven names |
| `Proxy.ProxyChatCompletions` | crates/relay-core/src/proxy.rs:84-156 | each error exactly under its condition, in the order of the checks; otherwise the snapshot's headers go to the routed URL, whose base is allowed |
| `Proxy.UpstreamUrlText` | crates/relay-core/src/proxy.rs:102-104 | the URL is the base without its last slashes and the route's path, or that of the chat API |
| `Proxy.SentUrlAllowed` | crates/relay-core/src/proxy.rs:101-113 | where the path is absent or starts with a slash, the URL that is sent is allowed as its base is |
| `SentUrls.PathLeavesAllowlist` | crates/relay-core/src/proxy.rs:101-113 | a validated configuration with another path, whose requests go to a host that is not allowed |
| `SentUrls.PathLeavesPins` | crates/relay-core/src/proxy.rs:101-113 | and that has no pins, though the base URL's has |
| `Proxy.RunKeepsInv` | crates/relay-core/src/secrets.rs:84-103 | every run of injections, snapshots and forwards keeps the invariant of the store and of every request, and a loaded credential |
| `Proxy.OneInjection` | server/src/main.rs:335-354 | at most one injection succeeds, none after a start-up credential, and the store holds the first |
| `Proxy.LoadedStays` | crates/relay-core/src/secrets.rs:96-103 | a loaded credential never changes or disappears |
| `Proxy.OnlyCredentialSent` | crates/relay-core/src/proxy.rs:115-148 | where a credential is required every sent request carries the stored one's Authorization |
| `Proxy.SentAuthorization` | crates/relay-core/src/proxy.rs:122-143 | otherwise it carries that or exactly the client's own |
| `Proxy.FailsOnlyFromStartup` | server/src/main.rs:197-208 | forwarding fails only with an unvalidated start-up credential, and then nothing is sent |
| `Proxy.RequestGoes` | crates/relay-core/src/proxy.rs:84-156 | from every reachable state without a start-up credential a new request is refused where one is required and missing, and can otherwise be sent with exactly its headers |
| `Proxy.SnapshotHolds` | crates/relay-core/src/proxy.rs:115-148 | an injection after a request's snapshot does not change what it is sent with |
| `Proxy.InjectionLoads` | server/src/main.rs:335-354 | a valid credential can always be injected while none is there |
| `Attestation.CutKeepsVerdict` | crates/relay-attest/src/sev_snp.rs:325-416 | the attester's cut of the certificate blob changes no verdict of the verifier, with either signing key |
| `Attestation.VcekVerdict` | crates/relay-attest/src/sev_snp.rs:325-577 | a VCEK report with a table that the attester has cut is accepted as bytes 0x50 to 0x90 exactly if policy bit 19 is clear, the launch digest is the expected one, the signature is not zero, and some product endorses the table's first VCEK or, without one, that downloaded for chip and version |
| `Attestation.VlekVerdict` | crates/relay-attest/src/sev_snp.rs:325-577 | a VLEK report exactly if a product endorses the table's first VLEK, whatever can be downloaded |
| `Attestation.OtherKeysRefused` | crates/relay-attest/src/sev_snp.rs:429-454 | reserved bits and other selectors are refused |
| `Attestation.LayoutVerdict` | crates/relay-attest/src/sev_snp.rs:325-416 | the launch digest is reported as mismatched exactly where debugging is off and another is expected |
| `Attestation.SignatureScalars` | crates/relay-attest/src/sev_snp.rs:374-380 | what is checked as signature are the two fields of the report modulo 2^384 |
| `Attestation.GuidTexts` | crates/relay-attest/src/sev_snp.rs:1063-1087 | the two GUIDs as they stand in a table are those of their texts, with the first three groups little-endian |
| `GcpClaims.NormalizeDigestIdempotent` | crates/relay-attest/src/gcp_confidential_space.rs:820-827 | normalising a normalised digest changes nothing |
| `GcpClaims.SameDigest` | crates/relay-attest/src/gcp_confidential_space.rs:820-827 | two digests normalise alike exactly if they are equal up to padding, letter case and prefix |
| `GcpClaims.PolicyErrorMeaning` | crates/relay-attest/src/gcp_confidential_space.rs:522-647 | no check fails exactly if the platform meets the policy and, where enforced, the digest is the pinned one up to padding, case and prefix, and reference and signer are pinned ones |
| `GcpClaims.AcceptedClaims` | crates/relay-attest/src/gcp_confidential_space.rs:517-657 | claims are accepted as some REPORTDATA exactly if the policy is met and the text of the nonces spells it |
| `GcpClaims.RefusedClaims` | crates/relay-attest/src/gcp_confidential_space.rs:604-655 | which error: an image mismatch exactly where the platform meets the policy and two digests differ, a REPORTDATA mismatch exactly where another one would be accepted |
| `AttestedTls.FillReportdata` | crates/relay-tls/src/server.rs:72-77 | the buffer binds key hash and half of the configuration hash, or zeros |
| `AttestedTls.FromKeyPair` | crates/relay-tls/src/server.rs:65-84 | the certificate carries evidence for REPORTDATA that binds its own key |
| `AttestedTls.VerifyServerCert` | crates/relay-tls/src/client.rs:73-146 | accepted exactly as `Accepts` says, with the condition of each error |
| `AttestedTls.AcceptedIffAgrees` | crates/relay-tls/src/client.rs:93-145 | with the verifier of either backend a certificate is accepted exactly if its evidence is trusted and agrees with its key and the expected configuration |
| `AttestedTls.BindingIff` | crates/relay-tls/src/client.rs:93-145 | for a token with the nonces, or a report with the bytes, of one configuration: a client expecting another accepts exactly if the evidence is trusted and they agree on 16 bytes |
| `AttestedTls.EvidenceBindsKey` | crates/relay-tls/src/client.rs:124-131 | with either backend, evidence is accepted with another key exactly if it is with its own and both have the same hash |
| `AttestedTls.GcpAnswer` | crates/relay-attest/src/gcp_confidential_space.rs:429-457 | the Confidential Space verifier gives the REPORTDATA back whose nonces a token carries, compares it with an expected one, and refuses exactly what it does not trust |
| `AttestedTls.SnpAnswer` | crates/relay-attest/src/sev_snp.rs:325-416 | the SEV-SNP verifier gives bytes 0x50 to 0x90 of a trusted report back and refuses every other |
| `AttestedTls.TrustedAnswer` | crates/relay-tls/src/client.rs:93-122 | for trusted evidence: where a configuration is expected the Confidential Space verifier itself refuses another REPORTDATA, everything else is left to the client |
| `AttestedTls.GcpInsideOrAfter` | crates/relay-tls/src/client.rs:112-143 | for all Confidential Space evidence, passing the expected REPORTDATA in accepts the same certificates as comparing afterwards |
| `OnlineCheck.Base64UrlDecode` | tools/online-check/src/main.rs:391-400 | the padding loop and the standard decoder give what `Spelled` says, in result and failure |
| `OnlineCheck.AgreesIff` | tools/online-check/src/main.rs:391-400 | the two base64url decoders of the repository agree on URL-safe text, and elsewhere only where this one fails |
| `OnlineCheck.LenientInputs` | tools/online-check/src/main.rs:392-395 | belonging pads and the standard alphabet's symbols change nothing; more pads are refused |
| `OnlineCheck.VerifyReportdata` | tools/online-check/src/main.rs:666-690 | accepted exactly on agreement with key hash and, where given, configuration hash |
| `OnlineCheck.CheckCertificate` | tools/online-check/src/main.rs:223-275 | the check of one certificate for each backend and mode |
| `OnlineCheck.SnpModes` | tools/online-check/src/main.rs:223-275 | for SEV-SNP audit mode compares the key alone, strict mode also asks for measurement and configuration |
| `OnlineCheck.AuditStillBindsConfig` | tools/online-check/src/main.rs:258-275 | in audit mode the configuration half of a trusted token still decides for Confidential Space, unlike in the TLS client |

## Left out

- Hashing, signature checks, certificate path building, X.509, JWT and JSON parsing: foreign libraries, parameters here; results are on pre-images and hold for any such functions.
- URL parsing: any parser; host texts are taken as ASCII, where `to_lowercase` and `to_ascii_lowercase` agree. How the HTTP client turns a URL's host into a server name is not part of this model; `TlsPins.ServerName` removes brackets.
- `SnpFormats.ParseHeader`: refuses DER identifiers with more than one octet and accepts lengths with leading zeros; asn1_rs is not part of this model.
- `SnpFormats.TbsCertificateDer`: the `usize` subtraction and addition that can leave their range are one error value here; a release build wraps and then refuses, a debug build panics.
- `ChunkedBody.DecodeFrom`: the addition that can overflow is an error value of its own; a release build wraps and then panics on the slice.
- `CertTable.CertBlobUsedLen`: offsets are 64-bit, so that the sum of two 32-bit fields never overflows.
- Lock poisoning in the caches and the store: nothing panics while holding these locks.
- The wrong-shape error of `fetch_json_cached`: a pure function of the cached value, applied after the call returns here.
- Broken connections while the proxy still writes its request, half-closed tunnels and their shutdown order: either side may stop at any later step.
- Response assembly, streaming, timeouts, request metrics, log redaction and the admin health endpoint: no property beyond the library calls.
- AMD's key server, certificate chains, the range check of scalars and the signature: the two functions of `Attestation.Amd`, asked once for each product. The text of the download URL is not modelled; its inputs are.
- The mock and TDX backends, the ioctl interface, sockets and command-line handling other than the pin arguments.
- Construction checks of the Confidential Space policy: a boolean parameter of `GcpVerify`.
- Names of request headers: taken as lower-case text; header values of clients are opaque text.
- The model name of a request: the result of extracting it from the body is a parameter.
