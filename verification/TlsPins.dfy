/** Leaf certificate pins: normalisation, the table by origin and the table by host. */
module TlsPins {
  import opened Wrappers
  import opened Text
  import opened Ordering
  import opened Urls

  type PinTable = map<string, seq<string>>

  datatype PinError =
    | InvalidUrl(origin: string)
    | NotHttps(origin: string)
    | NotAnOrigin(origin: string)
    | NoPins(origin: string)
    | BadPin(origin: string, pin: string)

  const PIN_PREFIX := "sha256:"

  predicate IsHexDigit(c: char) { '0' <= c <= '9' || 'a' <= c <= 'f' || 'A' <= c <= 'F' }

  predicate IsHex64(hex: string) { |hex| == 64 && forall i :: 0 <= i < |hex| ==> IsHexDigit(hex[i]) }

  function NormalizePin(raw: string): Option<string> {
    var pin := Lower(Trim(raw));
    var hex := if PIN_PREFIX <= pin then pin[|PIN_PREFIX|..] else pin;
    if IsHex64(hex) then Some(PIN_PREFIX + hex) else None
  }

  /** A pin as an operator may write it: padding, an optional prefix and 64 hexadecimal digits, in
      any letter case. */
  ghost predicate Writes(raw: string, pre: string, prefix: string, hex: string, suf: string) {
    && raw == pre + (prefix + hex) + suf
    && (forall i :: 0 <= i < |pre| ==> IsWhitespace(pre[i])) && (forall i :: 0 <= i < |suf| ==> IsWhitespace(suf[i]))
    && Lower(prefix) in {"", "sha256:"} && |hex| == 64
    && forall i :: 0 <= i < 64 ==> '0' <= hex[i] <= '9' || 'a' <= hex[i] <= 'f' || 'A' <= hex[i] <= 'F'
  }

  lemma NormalizePinIff(raw: string, pin: string)
    ensures NormalizePin(raw) == Some(pin) <==>
            exists pre, prefix, hex, suf :: Writes(raw, pre, prefix, hex, suf) && pin == "sha256:" + Lower(hex)
  {
    hide TrimBy, Writes;
    if NormalizePin(raw) == Some(pin) {
      var pre, suf := TrimShape(raw, IsWhitespace);
      var prefix, hex := PinParts(Trim(raw));
      assert Writes(raw, pre, prefix, hex, suf) by { WrittenParts(raw, pre, prefix, hex, suf); }
    }
    forall pre, prefix, hex, suf | Writes(raw, pre, prefix, hex, suf) && pin == "sha256:" + Lower(hex)
      ensures NormalizePin(raw) == Some(pin)
    {
      WrittenPin(raw, pre, prefix, hex, suf);
    }
  }

  lemma WrittenParts(raw: string, pre: string, prefix: string, hex: string, suf: string)
    requires raw == pre + Trim(raw) + suf && Trim(raw) == prefix + hex && Lower(prefix) in {"", "sha256:"} && IsHex64(hex)
    requires (forall i :: 0 <= i < |pre| ==> IsWhitespace(pre[i])) && (forall i :: 0 <= i < |suf| ==> IsWhitespace(suf[i]))
    ensures Writes(raw, pre, prefix, hex, suf)
  {
    hide TrimBy, Lower;
  }

  lemma LowerHex(hex: string)
    ensures IsHex64(Lower(hex)) <==> IsHex64(hex)
  {}

  lemma LowerConcat(a: string, b: string)
    ensures Lower(a + b) == Lower(a) + Lower(b)
  {}

  lemma PinParts(clean: string) returns (prefix: string, hex: string)
    requires var pin := Lower(clean); IsHex64(if PIN_PREFIX <= pin then pin[7..] else pin)
    ensures clean == prefix + hex && Lower(prefix) in {"", "sha256:"} && IsHex64(hex)
    ensures var pin := Lower(clean); (if PIN_PREFIX <= pin then pin[7..] else pin) == Lower(hex)
  {
    if PIN_PREFIX <= Lower(clean) {
      prefix, hex := clean[..7], clean[7..];
      assert Lower(prefix) == Lower(clean)[..7] == PIN_PREFIX && Lower(hex) == Lower(clean)[7..];
    } else {
      prefix, hex := "", clean;
      assert Lower(prefix) == "" && prefix + hex == clean;
    }
    LowerHex(hex);
  }

  lemma WrittenPin(raw: string, pre: string, prefix: string, hex: string, suf: string)
    requires Writes(raw, pre, prefix, hex, suf)
    ensures NormalizePin(raw) == Some("sha256:" + Lower(hex))
  {
    hide TrimBy, Lower;
    var clean := prefix + hex;
    assert IsHex64(hex);
    PinEnds(prefix, hex);
    TrimPadded(pre, clean, suf, IsWhitespace);
    LowerConcat(prefix, hex);
    LowerHex(hex);
    if Lower(prefix) == "" {
      assert clean == hex && IsHexDigit(Lower(hex)[0]) && PIN_PREFIX[0] == 's';
    } else {
      assert Lower(clean)[7..] == Lower(hex);
    }
  }

  lemma PinEnds(prefix: string, hex: string)
    requires Lower(prefix) in {"", "sha256:"} && IsHex64(hex)
    ensures Trimmed(prefix + hex, IsWhitespace)
  {
    var clean := prefix + hex;
    assert clean[|clean| - 1] == hex[63] && IsHexDigit(hex[63]) && IsHexDigit(hex[0]);
    if prefix != "" {
      assert Lower(prefix)[0] == 's' == LowerChar(prefix[0]);
    }
  }

  // ---- one entry ---------------------------------------------------------------------------

  function FirstBadPin(values: seq<string>): (r: Option<string>)
    ensures r.None? <==> forall v :: v in values ==> NormalizePin(v).Some?
  {
    if values == [] then None
    else if NormalizePin(values[0]).None? then Some(values[0])
    else FirstBadPin(values[1..])
  }

  function EntryError(parse: Parser, raw: string, values: seq<string>): Option<PinError> {
    if parse(raw).None? then Some(InvalidUrl(raw))
    else if parse(raw).value.scheme != "https" then Some(NotHttps(raw))
    else match UrlOrigin(parse, raw)
      case None => Some(NotAnOrigin(raw))
      case Some(origin) =>
        if values == [] then Some(NoPins(origin))
        else match FirstBadPin(values)
          case Some(v) => Some(BadPin(origin, v))
          case None => None
  }

  ghost function PinSet(values: seq<string>): set<string> {
    set v | v in values && NormalizePin(v).Some? :: NormalizePin(v).value
  }

  /** The pins of one entry: normalised, without duplicates, in order. */
  ghost function EntryPins(values: seq<string>): seq<string> { InOrder(PinSet(values)) }

  /** The pins of an entry are what its values normalise to; the first value that is none is reported. */
  lemma EntryPinsMeaning(values: seq<string>, pin: string)
    ensures pin in EntryPins(values) <==> exists v :: v in values && NormalizePin(v) == Some(pin)
    ensures FirstBadPin(values) == Some(pin) <==>
            exists i :: 0 <= i < |values| && values[i] == pin && NormalizePin(pin).None?
              && forall j :: 0 <= j < i ==> NormalizePin(values[j]).Some?
  {
    hide NormalizePin, InOrder;
    InOrderElements(PinSet(values));
    FirstBadPinIs(values, pin);
  }

  lemma {:induction false} FirstBadPinIs(values: seq<string>, pin: string)
    ensures FirstBadPin(values) == Some(pin) <==>
            exists i :: 0 <= i < |values| && values[i] == pin && NormalizePin(pin).None?
              && forall j :: 0 <= j < i ==> NormalizePin(values[j]).Some?
  {
    hide NormalizePin;
    if values != [] && NormalizePin(values[0]).Some? {
      var rest := values[1..];
      FirstBadPinIs(rest, pin);
      assert forall i :: 0 < i < |values| ==> values[i] == rest[i - 1];
      if i :| 0 <= i < |rest| && rest[i] == pin && NormalizePin(pin).None? && forall j :: 0 <= j < i ==> NormalizePin(rest[j]).Some? {
        assert values[i + 1] == pin;
      }
    }
  }

  /** An entry is accepted exactly if its key is an https origin and its values are pins, at least one. */
  lemma EntryFineIff(parse: Parser, raw: string, values: seq<string>)
    ensures EntryError(parse, raw, values) == None <==>
            && parse(raw).Some? && parse(raw).value.scheme == "https" && UrlOrigin(parse, raw).Some?
            && values != [] && forall v :: v in values ==> NormalizePin(v).Some?
  {
    hide NormalizePin, UrlOrigin;
  }

  // ---- the table by origin -----------------------------------------------------------------

  /** The entries under `keys`, later entries of an origin replacing earlier ones. */
  ghost function TableOf(parse: Parser, pins: PinTable, keys: seq<string>): Result<PinTable, PinError>
    requires forall k :: k in keys ==> k in pins
  {
    if keys == [] then Ok(map[])
    else
      var key := keys[|keys| - 1];
      match TableOf(parse, pins, keys[..|keys| - 1])
      case Err(e) => Err(e)
      case Ok(table) =>
        match EntryError(parse, key, pins[key])
        case Some(e) => Err(e)
        case None => Ok(table[UrlOrigin(parse, key).value := EntryPins(pins[key])])
  }

  ghost function Normalized(parse: Parser, pins: PinTable): Result<PinTable, PinError> {
    InOrderElements(pins.Keys);
    TableOf(parse, pins, InOrder(pins.Keys))
  }

  lemma {:induction false} TableErrorStays(parse: Parser, pins: PinTable, keys: seq<string>, n: nat)
    requires forall k :: k in keys ==> k in pins
    requires n <= |keys| && TableOf(parse, pins, keys[..n]).Err?
    ensures TableOf(parse, pins, keys) == TableOf(parse, pins, keys[..n])
  {
    if n < |keys| {
      assert keys[..|keys| - 1][..n] == keys[..n];
      TableErrorStays(parse, pins, keys[..|keys| - 1], n);
    } else {
      assert keys[..n] == keys;
    }
  }

  method NormalizeEntry(origin: string, values: seq<string>) returns (r: Result<seq<string>, PinError>)
    ensures match FirstBadPin(values)
            case Some(v) => r == Err(BadPin(origin, v))
            case None => r == Ok(EntryPins(values))
  {
    hide NormalizePin, Sort, InOrder;
    var normalized: seq<string> := [];
    for i := 0 to |values|
      invariant FirstBadPin(values) == FirstBadPin(values[i..])
      invariant FirstBadPin(values[..i]) == None
      invariant forall a, b :: 0 <= a < b < |normalized| ==> normalized[a] != normalized[b]
      invariant (set p | p in normalized) == PinSet(values[..i])
    {
      assert values[i..][0] == values[i] && values[i..][1..] == values[i + 1..];
      var pin := NormalizePin(values[i]);
      if pin.None? { return Err(BadPin(origin, values[i])); }
      assert values[..i + 1] == values[..i] + [values[i]];
      assert PinSet(values[..i + 1]) == PinSet(values[..i]) + {pin.value};
      if pin.value !in normalized { normalized := normalized + [pin.value]; }
    }
    assert values[..|values|] == values;
    SortOfDistinct(normalized);
    r := Ok(Sort(normalized));
  }

  lemma TableStep(parse: Parser, pins: PinTable, keys: seq<string>, i: nat)
    requires i < |keys| && forall k :: k in keys ==> k in pins
    requires TableOf(parse, pins, keys[..i]).Ok?
    ensures match EntryError(parse, keys[i], pins[keys[i]])
            case Some(e) => TableOf(parse, pins, keys) == Err(e)
            case None =>
              var table := TableOf(parse, pins, keys[..i]).value;
              TableOf(parse, pins, keys[..i + 1]) == Ok(table[UrlOrigin(parse, keys[i]).value := EntryPins(pins[keys[i]])])
  {
    hide UrlOrigin, EntryPins, FirstBadPin;
    assert keys[..i + 1][..i] == keys[..i];
    if TableOf(parse, pins, keys[..i + 1]).Err? { TableErrorStays(parse, pins, keys, i + 1); }
  }

  method NormalizeUpstreamTlsPins(parse: Parser, pins: PinTable) returns (r: Result<PinTable, PinError>)
    ensures r == Normalized(parse, pins)
  {
    hide TableOf, UrlOrigin, EntryPins, FirstBadPin, InOrder;
    InOrderElements(pins.Keys);
    var keys := InOrder(pins.Keys);
    var normalized: PinTable := map[];
    NoEntries(parse, pins);
    for i := 0 to |keys|
      invariant TableOf(parse, pins, keys[..i]) == Ok(normalized)
    {
      TableStep(parse, pins, keys, i);
      var raw := keys[i];
      var parsed := parse(raw);
      if parsed.None? { return Err(InvalidUrl(raw)); }
      if parsed.value.scheme != "https" { return Err(NotHttps(raw)); }
      var origin := UrlOrigin(parse, raw);
      if origin.None? { return Err(NotAnOrigin(raw)); }
      if pins[raw] == [] { return Err(NoPins(origin.value)); }
      var values := NormalizeEntry(origin.value, pins[raw]);
      if values.Err? { return Err(values.error); }
      normalized := normalized[origin.value := values.value];
    }
    assert keys[..|keys|] == keys;
    r := Ok(normalized);
  }

  lemma NoEntries(parse: Parser, pins: PinTable)
    ensures TableOf(parse, pins, []) == Ok(map[])
  {}

  /** The last key with a given origin: the one whose pins the table holds. */
  ghost function LastKey(parse: Parser, keys: seq<string>, origin: string): Option<string> {
    if keys == [] then None
    else if UrlOrigin(parse, keys[|keys| - 1]) == Some(origin) then Some(keys[|keys| - 1])
    else LastKey(parse, keys[..|keys| - 1], origin)
  }

  lemma FineEntryHasOrigin(parse: Parser, key: string, values: seq<string>)
    ensures EntryError(parse, key, values).None? ==> UrlOrigin(parse, key).Some?
  {}

  /** What the table holds: for each origin that some entry has, the pins of the last such entry. */
  lemma {:induction false} TableMeaning(parse: Parser, pins: PinTable, keys: seq<string>, origin: string)
    requires forall k :: k in keys ==> k in pins
    requires TableOf(parse, pins, keys).Ok?
    ensures forall k :: k in keys ==> EntryError(parse, k, pins[k]).None?
    ensures var table := TableOf(parse, pins, keys).value;
            match LastKey(parse, keys, origin)
            case None => origin !in table
            case Some(k) => k in keys && origin in table && table[origin] == EntryPins(pins[k])
  {
    hide UrlOrigin, EntryPins, EntryError;
    if keys != [] {
      var key := keys[|keys| - 1];
      assert keys == keys[..|keys| - 1] + [key];
      TableMeaning(parse, pins, keys[..|keys| - 1], origin);
      FineEntryHasOrigin(parse, key, pins[key]);
    }
  }

  lemma {:induction false} LastKeyHasOrigin(parse: Parser, keys: seq<string>, origin: string)
    ensures match LastKey(parse, keys, origin)
            case None => forall k :: k in keys ==> UrlOrigin(parse, k) != Some(origin)
            case Some(k) => k in keys && UrlOrigin(parse, k) == Some(origin)
  {
    if keys != [] {
      assert keys == keys[..|keys| - 1] + [keys[|keys| - 1]];
      LastKeyHasOrigin(parse, keys[..|keys| - 1], origin);
    }
  }

  // ---- normal pins -------------------------------------------------------------------------

  predicate IsNormalPin(p: string) {
    && |p| == 71 && PIN_PREFIX <= p
    && forall i :: 7 <= i < 71 ==> '0' <= p[i] <= '9' || 'a' <= p[i] <= 'f'
  }

  lemma NormalizedPinIsNormal(raw: string)
    ensures NormalizePin(raw).Some? ==> IsNormalPin(NormalizePin(raw).value)
  {
    hide TrimBy;
    var pin := Lower(Trim(raw));
    var hex := if PIN_PREFIX <= pin then pin[|PIN_PREFIX|..] else pin;
    assert forall i :: 0 <= i < |pin| ==> !('A' <= pin[i] <= 'Z');
    if NormalizePin(raw).Some? {
      var p := PIN_PREFIX + hex;
      forall i | 7 <= i < 71 ensures '0' <= p[i] <= '9' || 'a' <= p[i] <= 'f' {
        assert p[i] == hex[i - 7];
        assert IsHexDigit(hex[i - 7]);
      }
    }
  }

  lemma NormalPinIsFixed(p: string)
    requires IsNormalPin(p)
    ensures NormalizePin(p) == Some(p)
  {
    hide TrimBy;
    assert forall i :: 0 <= i < 7 ==> p[i] == PIN_PREFIX[i];
    TrimPadded("", p, "", IsWhitespace);
    assert "" + p + "" == p;
    assert Lower(p) == p by {
      assert forall i :: 0 <= i < 7 ==> LowerChar(PIN_PREFIX[i]) == PIN_PREFIX[i];
    }
    var hex := p[7..];
    assert p == PIN_PREFIX + hex;
    forall i | 0 <= i < 64 ensures IsHexDigit(hex[i]) { assert hex[i] == p[i + 7]; }
  }

  ghost predicate IsNormalTable(parse: Parser, table: PinTable) {
    forall o {:trigger o in table} :: o in table ==>
      && UrlOrigin(parse, o) == Some(o) && parse(o).Some? && parse(o).value.scheme == "https"
      && table[o] != [] && StrictlySorted(table[o])
      && forall p :: p in table[o] ==> IsNormalPin(p)
  }

  lemma EntryPinsNormal(values: seq<string>)
    requires values != [] && FirstBadPin(values).None?
    ensures EntryPins(values) != [] && StrictlySorted(EntryPins(values))
    ensures forall p :: p in EntryPins(values) ==> IsNormalPin(p)
  {
    InOrderElements(PinSet(values));
    assert NormalizePin(values[0]).value in PinSet(values);
    forall v | v in values { NormalizedPinIsNormal(v); }
  }

  /** Every accepted table has its own origins as keys and strictly sorted normal pins. */
  lemma {:induction false} TableIsNormal(parse: Parser, pins: PinTable, keys: seq<string>)
    requires ReadsOrigins(parse) && forall k :: k in keys ==> k in pins
    requires TableOf(parse, pins, keys).Ok?
    ensures IsNormalTable(parse, TableOf(parse, pins, keys).value)
  {
    if keys != [] {
      var key := keys[|keys| - 1];
      TableIsNormal(parse, pins, keys[..|keys| - 1]);
      OriginOfOrigin(parse, key);
      EntryPinsNormal(pins[key]);
    }
  }

  lemma FixedPins(values: seq<string>)
    requires StrictlySorted(values) && forall p :: p in values ==> IsNormalPin(p)
    ensures FirstBadPin(values).None? && EntryPins(values) == values
  {
    forall p | p in values { NormalPinIsFixed(p); }
    assert PinSet(values) == set p | p in values;
    StrictlySortedIsInOrder(values);
  }

  lemma {:induction false} NormalTableIsFixed(parse: Parser, table: PinTable, keys: seq<string>)
    requires IsNormalTable(parse, table) && forall k :: k in keys ==> k in table
    ensures TableOf(parse, table, keys) == Ok(map o | o in keys :: table[o])
  {
    hide StrictlySorted, IsNormalPin, FirstBadPin, EntryPins, UrlOrigin;
    if keys != [] {
      var key := keys[|keys| - 1];
      var init := keys[..|keys| - 1];
      assert keys == init + [key];
      NormalTableIsFixed(parse, table, init);
      FixedPins(table[key]);
      assert (map o | o in keys :: table[o]) == (map o | o in init :: table[o])[key := table[key]];
    }
  }

  /** Normalisation is idempotent. */
  lemma NormalizationIdempotent(parse: Parser, pins: PinTable)
    requires ReadsOrigins(parse) && Normalized(parse, pins).Ok?
    ensures Normalized(parse, Normalized(parse, pins).value) == Normalized(parse, pins)
  {
    hide IsNormalTable, TableOf, InOrder;
    InOrderElements(pins.Keys);
    TableIsNormal(parse, pins, InOrder(pins.Keys));
    var table := Normalized(parse, pins).value;
    InOrderElements(table.Keys);
    NormalTableIsFixed(parse, table, InOrder(table.Keys));
    assert (map o | o in InOrder(table.Keys) :: table[o]) == table;
  }

  // ---- the table by host -------------------------------------------------------------------

  /** The host of a table key, lower-case. */
  ghost function HostOf(parse: Parser, origin: string): Option<string> {
    match parse(origin)
    case None => None
    case Some(url) => match url.host case None => None case Some(host) => Some(Lower(host))
  }

  /** The union of the pins of those `origins` that have the given host. */
  ghost function HostPins(parse: Parser, table: PinTable, origins: set<string>, host: string): set<string>
    requires origins <= table.Keys
  {
    set o, p | o in origins && HostOf(parse, o) == Some(host) && p in table[o] :: p
  }

  ghost predicate HasHost(parse: Parser, origins: set<string>, host: string) {
    exists o :: o in origins && HostOf(parse, o) == Some(host)
  }

  /** The table by host: every host of an origin, with the union of its origins' pins in order. */
  ghost predicate IsHostTable(parse: Parser, table: PinTable, hosts: PinTable) {
    && (forall h :: h in hosts <==> HasHost(parse, table.Keys, h))
    && (forall h :: h in hosts ==> hosts[h] == InOrder(HostPins(parse, table, table.Keys, h)))
  }

  method UpstreamTlsPinHosts(parse: Parser, pins: PinTable) returns (r: Result<PinTable, PinError>)
    ensures match Normalized(parse, pins)
            case Err(e) => r == Err(e)
            case Ok(table) =>
              && (r.Ok? <==> forall o :: o in table ==> HostOf(parse, o).Some?)
              && (r.Ok? ==> IsHostTable(parse, table, r.value))
  {
    hide Normalized, Collected, IsHostTable, HostPins, InOrder, UrlOrigin, Lower, Elements;
    var normalized := NormalizeUpstreamTlsPins(parse, pins);
    if normalized.Err? { return Err(normalized.error); }
    var table := normalized.value;
    NoOrigins(parse, table);
    InOrderElements(table.Keys);
    var keys := InOrder(table.Keys);
    var byHost: map<string, set<string>> := map[];
    assert Elements(keys[..0]) == {} by { NoElements(); }
    for i := 0 to |keys|
      invariant Collected(parse, table, Elements(keys[..i]), byHost)
      invariant forall o :: o in Elements(keys[..i]) ==> HostOf(parse, o).Some?
    {
      var origin := keys[i];
      assert origin in table;
      var parsed := parse(origin);
      if parsed.None? { return Err(InvalidUrl(origin)); }
      if parsed.value.host.None? { return Err(NotAnOrigin(origin)); }
      var host := Lower(parsed.value.host.value);
      AddOrigin(parse, table, Elements(keys[..i]), byHost, origin, host);
      byHost := byHost[host := (if host in byHost then byHost[host] else {}) + set p | p in table[origin]];
      OneMore(keys, i);
    }
    assert keys[..|keys|] == keys;
    ElementsOfKeys(keys, table.Keys);
    var hosts := map h | h in byHost :: InOrder(byHost[h]);
    CollectedAll(parse, table, byHost, hosts);
    assert forall o :: o in table ==> o in Elements(keys);
    r := Ok(hosts);
  }

  function Elements(s: seq<string>): set<string> { set x | x in s }

  lemma NoElements()
    ensures Elements([]) == {}
  {}

  lemma ElementsOfKeys(keys: seq<string>, all: set<string>)
    requires forall k :: k in keys <==> k in all
    ensures Elements(keys) == all
  {}

  lemma OneMore(s: seq<string>, i: nat)
    requires i < |s|
    ensures Elements(s[..i + 1]) == Elements(s[..i]) + {s[i]}
  {
    assert s[..i + 1] == s[..i] + [s[i]];
  }

  /** What the loop has collected from the origins `done`. */
  ghost predicate Collected(parse: Parser, table: PinTable, done: set<string>, byHost: map<string, set<string>>) {
    && done <= table.Keys
    && (forall h :: h in byHost <==> HasHost(parse, done, h))
    && (forall h :: h in byHost ==> byHost[h] == HostPins(parse, table, done, h))
  }

  lemma NoOrigins(parse: Parser, table: PinTable)
    ensures Collected(parse, table, {}, map[])
  {}

  lemma CollectedAll(parse: Parser, table: PinTable, byHost: map<string, set<string>>, hosts: PinTable)
    requires Collected(parse, table, table.Keys, byHost)
    requires hosts.Keys == byHost.Keys && forall h :: h in hosts ==> hosts[h] == InOrder(byHost[h])
    ensures IsHostTable(parse, table, hosts)
  {
    assert forall h :: h in hosts <==> h in byHost;
  }

  /** Taking in one more origin touches only its own host. */
  lemma AddOrigin(parse: Parser, table: PinTable, done: set<string>, byHost: map<string, set<string>>, origin: string, host: string)
    requires Collected(parse, table, done, byHost)
    requires origin in table && HostOf(parse, origin) == Some(host)
    ensures Collected(parse, table, done + {origin},
                      byHost[host := (if host in byHost then byHost[host] else {}) + set p | p in table[origin]])
  {
    hide HostOf;
    var all := done + {origin};
    forall h ensures HasHost(parse, all, h) <==> h == host || HasHost(parse, done, h) {
      if h == host { assert origin in all; }
      if HasHost(parse, done, h) {
        var o :| o in done && HostOf(parse, o) == Some(h);
        assert o in all;
      }
    }
    forall h ensures HostPins(parse, table, all, h) ==
                     HostPins(parse, table, done, h) + if h == host then (set p | p in table[origin]) else {} {}
    if host !in byHost { assert HostPins(parse, table, done, host) == {}; }
  }

  // ---- lookups -----------------------------------------------------------------------------

  datatype Lookup = Pinned(pins: seq<string>) | Unpinned | BadTable(error: PinError) | BadUrl

  method UpstreamTlsPinsFor(parse: Parser, pins: PinTable, url: string) returns (r: Lookup)
    ensures r == PinsFor(parse, pins, url)
  {
    var normalized := NormalizeUpstreamTlsPins(parse, pins);
    if normalized.Err? { return BadTable(normalized.error); }
    var origin := UrlOrigin(parse, url);
    if origin.None? { return BadUrl; }
    r := if origin.value in normalized.value then Pinned(normalized.value[origin.value]) else Unpinned;
  }

  ghost function PinsFor(parse: Parser, pins: PinTable, url: string): Lookup {
    match Normalized(parse, pins)
    case Err(e) => BadTable(e)
    case Ok(table) =>
      match UrlOrigin(parse, url)
      case None => BadUrl
      case Some(origin) => if origin in table then Pinned(table[origin]) else Unpinned
  }

  /** The handshake check, for a server name and the pin of the presented leaf certificate. */
  predicate HandshakeAccepts(hosts: PinTable, serverName: string, leafPin: string) {
    Lower(serverName) in hosts ==> leafPin in hosts[Lower(serverName)]
  }

  /** A host is pinned to exactly the union of what its origins are pinned to. */
  lemma HostTableMeaning(parse: Parser, table: PinTable, hosts: PinTable, host: string, pin: string)
    requires IsHostTable(parse, table, hosts) && host in hosts
    ensures pin in hosts[host] <==> exists o :: o in table && HostOf(parse, o) == Some(host) && pin in table[o]
    ensures StrictlySorted(hosts[host])
  {
    InOrderElements(HostPins(parse, table, table.Keys, host));
  }

  /** With a parser that reads origins the host table always exists. */
  lemma HostsExist(parse: Parser, pins: PinTable, origin: string)
    requires ReadsOrigins(parse) && Normalized(parse, pins).Ok? && origin in Normalized(parse, pins).value
    ensures HostOf(parse, origin).Some?
  {
    InOrderElements(pins.Keys);
    TableIsNormal(parse, pins, InOrder(pins.Keys));
  }

  /** Every pin configured for a URL passes the handshake check for the URL's host. */
  lemma UrlPinsPassHandshake(parse: Parser, pins: PinTable, hosts: PinTable, url: string, pin: string)
    requires ReadsOrigins(parse)
    requires PinsFor(parse, pins, url).Pinned? && pin in PinsFor(parse, pins, url).pins
    requires IsHostTable(parse, Normalized(parse, pins).value, hosts)
    ensures var host := parse(url).value.host.value;
            Lower(host) in hosts && HandshakeAccepts(hosts, host, pin)
  {
    var table := Normalized(parse, pins).value;
    var host := Lower(parse(url).value.host.value);
    PinnedUrlHasHost(parse, pins, url);
    InOrderElements(pins.Keys);
    TableIsNormal(parse, pins, InOrder(pins.Keys));
    SameOriginSameHost(parse, url, UrlOrigin(parse, url).value);
    HostTableMeaning(parse, table, hosts, host, pin);
  }

  /** The name that a handshake is made for: an IPv6 address loses the brackets of the URL's host. */
  function ServerName(host: string): string {
    if |host| >= 2 && host[0] == '[' && host[|host| - 1] == ']' then host[1..|host| - 1] else host
  }

  /** For any name: a leaf is accepted exactly if it is a pin of some origin of that host, or no
      origin has that host. */
  lemma HandshakeAcceptsIff(parse: Parser, table: PinTable, hosts: PinTable, name: string, leaf: string)
    requires IsHostTable(parse, table, hosts)
    ensures HandshakeAccepts(hosts, name, leaf) <==>
            || !HasHost(parse, table.Keys, Lower(name))
            || exists o :: o in table && HostOf(parse, o) == Some(Lower(name)) && leaf in table[o]
  {
    hide HasHost, HostOf;
    var host := Lower(name);
    if host in hosts {
      HostTableMeaning(parse, table, hosts, host, leaf);
    } else {
      assert !HasHost(parse, table.Keys, host);
    }
  }

  /** A leaf that is accepted for a pinned URL is a pin of some origin of the URL's host, provided
      the host is no bracketed IPv6 address. */
  lemma PinnedUrlIsEnforced(parse: Parser, pins: PinTable, hosts: PinTable, url: string, leaf: string)
    requires ReadsOrigins(parse) && PinsFor(parse, pins, url).Pinned?
    requires IsHostTable(parse, Normalized(parse, pins).value, hosts)
    ensures var table, host := Normalized(parse, pins).value, parse(url).value.host.value;
            ServerName(host) == host ==>
              (HandshakeAccepts(hosts, ServerName(host), leaf) <==>
               exists o :: o in table && HostOf(parse, o) == Some(Lower(host)) && leaf in table[o])
  {
    hide ServerName, IsHostTable, Lower, UrlOrigin, HasHost, HandshakeAccepts, TableOf, Normalized;
    PinnedUrlHasHost(parse, pins, url);
    var table, host := Normalized(parse, pins).value, parse(url).value.host.value;
    HandshakeAcceptsIff(parse, table, hosts, host, leaf);
  }

  lemma PinnedUrlHasHost(parse: Parser, pins: PinTable, url: string)
    requires ReadsOrigins(parse) && PinsFor(parse, pins, url).Pinned?
    ensures parse(url).Some? && parse(url).value.host.Some?
    ensures HasHost(parse, Normalized(parse, pins).value.Keys, Lower(parse(url).value.host.value))
  {
    var table, origin := Normalized(parse, pins).value, UrlOrigin(parse, url).value;
    InOrderElements(pins.Keys);
    TableIsNormal(parse, pins, InOrder(pins.Keys));
    SameOriginSameHost(parse, url, origin);
    assert origin in table.Keys;
  }

  /** Pins are enforced for a name exactly if some origin has that name as its host: where a
      bracketed host's name without brackets is none, its pins are never checked. */
  lemma EnforcedIff(parse: Parser, pins: PinTable, hosts: PinTable, name: string)
    requires ReadsOrigins(parse) && Normalized(parse, pins).Ok?
    requires IsHostTable(parse, Normalized(parse, pins).value, hosts)
    ensures (exists leaf :: !HandshakeAccepts(hosts, name, leaf)) <==>
            HasHost(parse, Normalized(parse, pins).value.Keys, Lower(name))
  {
    var table := Normalized(parse, pins).value;
    InOrderElements(pins.Keys);
    TableIsNormal(parse, pins, InOrder(pins.Keys));
    if HasHost(parse, table.Keys, Lower(name)) {
      HandshakeAcceptsIff(parse, table, hosts, name, "");
      assert !IsNormalPin("");
      assert !HandshakeAccepts(hosts, name, "");
    } else {
      assert Lower(name) !in hosts;
    }
  }

  /** A URL whose origin is an https origin of the table has that origin's host. */
  lemma SameOriginSameHost(parse: Parser, url: string, origin: string)
    requires ReadsOrigins(parse) && UrlOrigin(parse, url) == Some(origin)
    requires UrlOrigin(parse, origin) == Some(origin) && parse(origin).value.scheme == "https"
    ensures HostOf(parse, origin) == Some(Lower(parse(url).value.host.value))
  {
    var u, o := parse(url).value, parse(origin).value;
    LowerIdempotent(u.host.value);
    assert origin == OriginText("https", Lower(o.host.value), o.port.value);
    assert origin == OriginText(u.scheme, Lower(u.host.value), u.port.value);
    assert origin[4] == 's';
    assert u.scheme != "http";
  }

  // ---- the command line --------------------------------------------------------------------

  /** The pin that one argument gives for an origin text, if it is for that one. */
  function PinOf(item: string, origin: string): seq<string> {
    match SplitOnce(item, '=')
    case Some((o, pin)) => if o == origin then [pin] else []
    case None => []
  }

  /** The pins given for one origin text, in order. */
  function PinsNamed(raw: seq<string>, origin: string): seq<string> {
    if raw == [] then [] else PinsNamed(raw[..|raw| - 1], origin) + PinOf(raw[|raw| - 1], origin)
  }

  /** The table holds for every origin text the pins given for it. */
  ghost predicate Collects(pins: PinTable, raw: seq<string>) {
    && (forall o :: o in pins <==> PinsNamed(raw, o) != [])
    && (forall o :: o in pins ==> pins[o] == PinsNamed(raw, o))
  }

  lemma CollectsNext(pins: PinTable, raw: seq<string>, i: nat, origin: string, pin: string)
    requires i < |raw| && Collects(pins, raw[..i]) && SplitOnce(raw[i], '=') == Some((origin, pin))
    ensures Collects(pins[origin := (if origin in pins then pins[origin] else []) + [pin]], raw[..i + 1])
  {
    hide SplitOnce, PinsNamed;
    forall o ensures PinsNamed(raw[..i + 1], o) == PinsNamed(raw[..i], o) + (if o == origin then [pin] else []) {
      PinsNamedNext(raw, i, o);
    }
  }

  lemma PinsNamedNext(raw: seq<string>, i: nat, origin: string)
    requires i < |raw|
    ensures PinsNamed(raw[..i + 1], origin) == PinsNamed(raw[..i], origin) + PinOf(raw[i], origin)
  {
    hide PinOf;
    assert raw[..i + 1][..i] == raw[..i];
  }

  lemma NothingCollected()
    ensures Collects(map[], [])
  {}

  /** `parse_upstream_tls_pins`. */
  method ParseUpstreamTlsPins(raw: seq<string>) returns (r: Option<PinTable>)
    ensures r.Some? <==> forall i :: 0 <= i < |raw| ==> '=' in raw[i]
    ensures r.Some? ==> Collects(r.value, raw)
  {
    hide SplitOnce, Collects, PinsNamed;
    var pins: PinTable := map[];
    assert Collects(pins, raw[..0]) by { NothingCollected(); }
    for i := 0 to |raw|
      invariant forall j :: 0 <= j < i ==> '=' in raw[j]
      invariant Collects(pins, raw[..i])
    {
      var split := SplitOnce(raw[i], '=');
      if split.None? { return None; }
      var (origin, pin) := split.value;
      CollectsNext(pins, raw, i, origin, pin);
      pins := pins[origin := (if origin in pins then pins[origin] else []) + [pin]];
    }
    assert raw[..|raw|] == raw;
    r := Some(pins);
  }
}
