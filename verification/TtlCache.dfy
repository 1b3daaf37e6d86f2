/** The two caches that look up under a lock, fetch without it and insert under a second lock
    section: AMD certificates, and the JSON documents of the Confidential Space issuer. */
module TtlCache {
  import opened Wrappers
  import opened Utf8

  // Times are nanoseconds of a monotonic clock.
  const SECOND := 1_000_000_000
  const KDS_CACHE_TTL := 6 * 60 * 60 * SECOND
  const DEFAULT_JWKS_TTL := 30 * 60 * SECOND

  /** Which instants the age of an entry is measured between: both at the start of a call
      (certificates), or its insertion and the lookup (JSON). */
  datatype Stamp = AtCallStart | AtInsertion

  /** `parse` is what a downloaded body must pass before it is cached. */
  datatype Policy<V> = Policy(ttl: nat, stamp: Stamp, parse: seq<byte> -> Option<V>)

  datatype Entry<V> = Entry(fetchedAt: nat, value: V)

  /** The entry's value if it is younger than the TTL at `now`; an entry stamped later than `now`
      has age zero. */
  function Found<V>(entries: map<string, Entry<V>>, url: string, now: nat, ttl: nat): Option<V> {
    if url in entries && (if now < entries[url].fetchedAt then 0 else now - entries[url].fetchedAt) < ttl
    then Some(entries[url].value) else None
  }

  /** The shared map; each method is one lock section. */
  class Cache<V> {
    var entries: map<string, Entry<V>>

    constructor ()
      ensures entries == map[]
    {
      entries := map[];
    }

    method Lookup(url: string, now: nat, ttl: nat) returns (r: Option<V>)
      ensures r == Found(entries, url, now, ttl)
    {
      if url !in entries { return None; }
      var entry := entries[url];
      var age := if now < entry.fetchedAt then 0 else now - entry.fetchedAt;
      r := if age < ttl then Some(entry.value) else None;
    }

    method Insert(url: string, fetchedAt: nat, value: V)
      modifies this
      ensures entries == old(entries)[url := Entry(fetchedAt, value)]
    {
      entries := entries[url := Entry(fetchedAt, value)];
    }
  }

  // ---- interleaved calls -------------------------------------------------------------------

  /** `received` is when the download ended. */
  datatype Phase<V> = Starting | Missed | Fetched(value: V, received: nat) | Done(value: V) | Failed

  datatype Call<V> = Call(url: string, start: nat, looked: nat, phase: Phase<V>)

  datatype Download = Download(url: string, body: seq<byte>, at: nat)

  /** An insertion at `at`, by a call that started at `start`, looked at `looked` and received at `received`. */
  datatype Insertion<V> = Insertion(url: string, entry: Entry<V>, start: nat, looked: nat, received: nat, at: nat)

  /** `downloads` and `insertions` record the past; no step reads them. */
  datatype State<V> = State(
    clock: nat,
    entries: map<string, Entry<V>>,
    calls: map<nat, Call<V>>,
    downloads: seq<Download>,
    insertions: seq<Insertion<V>>)

  /** `Start` reads the clock; `Look` and `Insert` are the lock sections of call `id`; `Receive` is
      the download between them, or its failure. */
  datatype Step =
    | Tick(passed: nat)
    | Start(id: nat, url: string)
    | Look(id: nat)
    | Receive(id: nat, body: Option<seq<byte>>)
    | Insert(id: nat)

  function Init<V>(clock: nat): State<V> { State(clock, map[], map[], [], []) }

  /** The instant up to which ages are measured at a lookup. */
  function Reference<V>(p: Policy<V>, call: Call<V>): nat {
    if p.stamp.AtCallStart? then call.start else call.looked
  }

  function Looked<V>(p: Policy<V>, s: State<V>, call: Call<V>): Call<V> {
    var now := call.(looked := s.clock);
    match Found(s.entries, call.url, Reference(p, now), p.ttl)
    case Some(value) => now.(phase := Done(value))
    case None => now.(phase := Missed)
  }

  function Received<V>(p: Policy<V>, s: State<V>, call: Call<V>, body: Option<seq<byte>>): Call<V> {
    match body
    case None => call.(phase := Failed)
    case Some(bytes) =>
      match p.parse(bytes)
      case None => call.(phase := Failed)
      case Some(value) => call.(phase := Fetched(value, s.clock))
  }

  function Stamped<V>(p: Policy<V>, call: Call<V>, value: V, clock: nat): Entry<V> {
    Entry(if p.stamp.AtCallStart? then call.start else clock, value)
  }

  /** The state after a step, or None where the step is not possible. */
  function Apply<V>(p: Policy<V>, s: State<V>, step: Step): Option<State<V>> {
    match step
    case Tick(passed) => Some(s.(clock := s.clock + passed))
    case Start(id, url) =>
      if id in s.calls then None
      else Some(s.(calls := s.calls[id := Call(url, s.clock, s.clock, Starting)]))
    case Look(id) =>
      if id !in s.calls || !s.calls[id].phase.Starting? then None
      else Some(s.(calls := s.calls[id := Looked(p, s, s.calls[id])]))
    case Receive(id, body) =>
      if id !in s.calls || !s.calls[id].phase.Missed? then None
      else
        var call := s.calls[id];
        Some(s.(calls := s.calls[id := Received(p, s, call, body)],
                downloads := if body.Some? then s.downloads + [Download(call.url, body.value, s.clock)] else s.downloads))
    case Insert(id) =>
      if id !in s.calls || !s.calls[id].phase.Fetched? then None
      else
        var call := s.calls[id];
        var entry := Stamped(p, call, call.phase.value, s.clock);
        Some(s.(entries := s.entries[call.url := entry],
                calls := s.calls[id := call.(phase := Done(call.phase.value))],
                insertions := s.insertions + [Insertion(call.url, entry, call.start, call.looked, call.phase.received, s.clock)]))
  }

  function Run<V>(p: Policy<V>, s: State<V>, steps: seq<Step>): Option<State<V>>
    decreases |steps|
  {
    if steps == [] then Some(s)
    else match Apply(p, s, steps[0])
      case None => None
      case Some(next) => Run(p, next, steps[1..])
  }

  // ---- one call that nothing interrupts ----------------------------------------------------

  /** How long a call waits for its first lock, for the download and for its second lock. */
  datatype Waits = Waits(look: nat, receive: nat, insert: nat)

  /** The steps of a call: its first lock section, and if that misses, the download and the second. */
  function CallSteps<V>(p: Policy<V>, s: State<V>, id: nat, url: string, w: Waits, body: Option<seq<byte>>): seq<Step> {
    var now := if p.stamp.AtCallStart? then s.clock else s.clock + w.look;
    var first := [Start(id, url), Tick(w.look), Look(id)];
    var download := [Tick(w.receive), Receive(id, body)];
    if Found(s.entries, url, now, p.ttl).Some? then first
    else if body.Some? && p.parse(body.value).Some? then first + download + [Tick(w.insert), Insert(id)]
    else first + download
  }

  /** A cached fetch: its answer and the new entries are those of the call's steps. `body` is what
      the download would give. */
  method FetchCached<V>(cache: Cache<V>, p: Policy<V>, url: string, start: nat, w: Waits, body: Option<seq<byte>>)
    returns (r: Option<V>)
    modifies cache
    ensures var s := State(start, old(cache.entries), map[], [], []);
            var t := Run(p, s, CallSteps(p, s, 0, url, w, body));
            && t.Some? && t.value.entries == cache.entries
            && t.value.calls.Keys == {0}
            && t.value.calls[0].phase == if r.Some? then Done(r.value) else Failed
  {
    ghost var s: State<V> := State(start, cache.entries, map[], [], []);
    AloneRun(p, s, url, w, body);
    var looked := start + w.look;
    r := cache.Lookup(url, if p.stamp.AtCallStart? then start else looked, p.ttl);
    if r.Some? || body.None? { return; }
    r := p.parse(body.value);
    var inserted := looked + w.receive + w.insert;
    if r.Some? { cache.Insert(url, if p.stamp.AtCallStart? then start else inserted, r.value); }
  }

  lemma AloneRun<V>(p: Policy<V>, s: State<V>, url: string, w: Waits, body: Option<seq<byte>>)
    requires s.calls == map[]
    ensures var looked := s.clock + w.look;
            var hit := Found(s.entries, url, if p.stamp.AtCallStart? then s.clock else looked, p.ttl);
            var parsed := if body.Some? then p.parse(body.value) else None;
            var stamp := if p.stamp.AtCallStart? then s.clock else looked + w.receive + w.insert;
            var t := Run(p, s, CallSteps(p, s, 0, url, w, body));
            && t.Some? && t.value.calls.Keys == {0}
            && t.value.entries == (if hit.None? && parsed.Some? then s.entries[url := Entry(stamp, parsed.value)] else s.entries)
            && t.value.calls[0].phase ==
               match (hit, parsed)
               case (Some(v), _) => Done(v)
               case (None, Some(v)) => Done(v)
               case _ => Failed
  {
    hide Found, Run;
    var steps := CallSteps(p, s, 0, url, w, body);
    var a := Apply(p, s, Start(0, url)).value;
    var b := Apply(p, a, Tick(w.look)).value;
    var c := Apply(p, b, Look(0)).value;
    if c.calls[0].phase.Done? {
      RunThrough(p, [s, a, b, c], steps);
    } else {
      MissedRun(p, s, a, b, c, url, w, body);
    }
  }

  lemma MissedRun<V>(p: Policy<V>, s: State<V>, a: State<V>, b: State<V>, c: State<V>, url: string, w: Waits, body: Option<seq<byte>>)
    requires s.calls == map[]
    requires Apply(p, s, Start(0, url)) == Some(a) && Apply(p, a, Tick(w.look)) == Some(b) && Apply(p, b, Look(0)) == Some(c)
    requires c.calls.Keys == {0} && c.calls[0].phase == Missed && c.calls[0].url == url && c.calls[0].start == s.clock
    requires c.entries == s.entries && c.clock == s.clock + w.look
    requires Found(s.entries, url, if p.stamp.AtCallStart? then s.clock else s.clock + w.look, p.ttl).None?
    ensures var parsed := if body.Some? then p.parse(body.value) else None;
            var stamp := if p.stamp.AtCallStart? then s.clock else s.clock + w.look + w.receive + w.insert;
            var t := Run(p, s, CallSteps(p, s, 0, url, w, body));
            && t.Some? && t.value.calls.Keys == {0}
            && t.value.entries == (if parsed.Some? then s.entries[url := Entry(stamp, parsed.value)] else s.entries)
            && t.value.calls[0].phase == if parsed.Some? then Done(parsed.value) else Failed
  {
    hide Found, Run;
    var steps := CallSteps(p, s, 0, url, w, body);
    var d := Apply(p, c, Tick(w.receive)).value;
    var e := Apply(p, d, Receive(0, body)).value;
    if body.Some? && p.parse(body.value).Some? {
      var f := Apply(p, e, Tick(w.insert)).value;
      RunThrough(p, [s, a, b, c, d, e, f, Apply(p, f, Insert(0)).value], steps);
    } else {
      RunThrough(p, [s, a, b, c, d, e], steps);
    }
  }

  lemma {:induction false} RunThrough<V>(p: Policy<V>, states: seq<State<V>>, steps: seq<Step>)
    requires |states| == |steps| + 1
    requires forall i :: 0 <= i < |steps| ==> Apply(p, states[i], steps[i]) == Some(states[i + 1])
    ensures Run(p, states[0], steps) == Some(states[|steps|])
    decreases |steps|
  {
    hide Apply;
    if steps != [] { RunThrough(p, states[1..], steps[1..]); }
  }

  /** In any state a new call can look, and what it does not find it can download and insert; then it
      answers with that. */
  lemma CallGoes<V>(p: Policy<V>, s: State<V>, id: nat, url: string, body: seq<byte>)
    requires id !in s.calls && p.parse(body).Some?
    ensures var value := p.parse(body).value;
            var looking := Run(p, s, [Start(id, url), Look(id)]);
            && looking.Some? && id in looking.value.calls
            && looking.value.calls[id].phase ==
               (match Found(s.entries, url, s.clock, p.ttl) case Some(v) => Done(v) case None => Missed)
            && (looking.value.calls[id].phase.Missed? ==>
                  var t := Run(p, s, [Start(id, url), Look(id), Receive(id, Some(body)), Insert(id)]);
                  && t.Some? && t.value.calls == s.calls[id := Call(url, s.clock, s.clock, Done(value))]
                  && t.value.entries == s.entries[url := Entry(s.clock, value)])
  {
    hide Found, Run;
    var a := Apply(p, s, Start(id, url)).value;
    var b := Apply(p, a, Look(id)).value;
    RunThrough(p, [s, a, b], [Start(id, url), Look(id)]);
    if b.calls[id].phase.Missed? {
      var c := Apply(p, b, Receive(id, Some(body))).value;
      var d := Apply(p, c, Insert(id)).value;
      RunThrough(p, [s, a, b, c, d], [Start(id, url), Look(id), Receive(id, Some(body)), Insert(id)]);
      assert d.calls == s.calls[id := Call(url, s.clock, s.clock, Done(p.parse(body).value))];
    }
  }

  // ---- what every run keeps ----------------------------------------------------------------

  /** `value` is what `url` delivered at `at`. */
  ghost predicate Delivered<V>(p: Policy<V>, s: State<V>, url: string, value: V, at: nat) {
    exists d :: d in s.downloads && d.url == url && p.parse(d.body) == Some(value) && d.at == at
  }

  ghost predicate InsertionInv<V>(p: Policy<V>, s: State<V>, i: Insertion<V>) {
    && Delivered(p, s, i.url, i.entry.value, i.received)
    && i.start <= i.looked <= i.received <= i.at <= s.clock
    && i.entry.fetchedAt == if p.stamp.AtCallStart? then i.start else i.at
  }

  /** The last insertion for a url. */
  function Latest<V>(insertions: seq<Insertion<V>>, url: string): (r: Option<Insertion<V>>)
    ensures r.Some? ==> r.value in insertions && r.value.url == url
  {
    if insertions == [] then None
    else if insertions[|insertions| - 1].url == url then Some(insertions[|insertions| - 1])
    else Latest(insertions[..|insertions| - 1], url)
  }

  ghost predicate CacheInv<V>(s: State<V>) {
    forall url ::
      if url in s.entries then Latest(s.insertions, url).Some? && Latest(s.insertions, url).value.entry == s.entries[url]
      else Latest(s.insertions, url).None?
  }

  /** An insertion of `value`, stamped less than the TTL before the call's reference. */
  ghost predicate Serves<V>(p: Policy<V>, call: Call<V>, value: V, i: Insertion<V>) {
    i.url == call.url && i.entry.value == value && Reference(p, call) < i.entry.fetchedAt + p.ttl
  }

  ghost predicate CallInv<V>(p: Policy<V>, s: State<V>, call: Call<V>) {
    && call.start <= call.looked <= s.clock
    && match call.phase
       case Fetched(value, received) => call.looked <= received <= s.clock && Delivered(p, s, call.url, value, received)
       case Done(value) => exists i :: i in s.insertions && Serves(p, call, value, i)
       case _ => true
  }

  ghost predicate Inv<V>(p: Policy<V>, s: State<V>) {
    && CacheInv(s)
    && (forall i :: i in s.insertions ==> InsertionInv(p, s, i))
    && (forall id :: id in s.calls ==> CallInv(p, s, s.calls[id]))
  }

  /** Nothing that happened is forgotten. */
  ghost predicate Later<V>(s: State<V>, t: State<V>) {
    s.clock <= t.clock && s.downloads <= t.downloads && s.insertions <= t.insertions
  }

  lemma StillInv<V>(p: Policy<V>, s: State<V>, t: State<V>)
    requires Later(s, t) && Inv(p, s)
    ensures forall i :: i in s.insertions ==> i in t.insertions && InsertionInv(p, t, i)
    ensures forall id :: id in s.calls ==> CallInv(p, t, s.calls[id])
  {
    hide CacheInv, Serves;
    assert forall d :: d in s.downloads ==> d in t.downloads;
    forall i | i in s.insertions ensures i in t.insertions && InsertionInv(p, t, i) {
      assert InsertionInv(p, s, i);
    }
    forall id | id in s.calls ensures CallInv(p, t, s.calls[id]) {
      assert CallInv(p, s, s.calls[id]);
    }
  }

  lemma LookKeepsInv<V>(p: Policy<V>, s: State<V>, id: nat)
    requires Inv(p, s) && Apply(p, s, Look(id)).Some?
    ensures Inv(p, Apply(p, s, Look(id)).value)
  {
    var t := Apply(p, s, Look(id)).value;
    StillInv(p, s, t);
    var call := t.calls[id];
    assert CallInv(p, s, s.calls[id]);
    if call.phase.Done? {
      var i := Latest(s.insertions, call.url).value;
      assert i.entry == s.entries[call.url];
      assert InsertionInv(p, s, i);
      assert Serves(p, call, call.phase.value, i);
    }
  }

  lemma InsertKeepsInv<V>(p: Policy<V>, s: State<V>, id: nat)
    requires p.ttl > 0 && Inv(p, s) && Apply(p, s, Insert(id)).Some?
    ensures Inv(p, Apply(p, s, Insert(id)).value)
  {
    hide CacheInv;
    var t := Apply(p, s, Insert(id)).value;
    StillInv(p, s, t);
    var call := s.calls[id];
    assert CallInv(p, t, call);
    var i := t.insertions[|s.insertions|];
    assert i in t.insertions && InsertionInv(p, t, i);
    assert Serves(p, t.calls[id], call.phase.value, i);
    InsertKeepsCache(p, s, id);
  }

  lemma InsertKeepsCache<V>(p: Policy<V>, s: State<V>, id: nat)
    requires CacheInv(s) && Apply(p, s, Insert(id)).Some?
    ensures CacheInv(Apply(p, s, Insert(id)).value)
  {
    var t := Apply(p, s, Insert(id)).value;
    assert t.insertions[..|t.insertions| - 1] == s.insertions;
  }

  lemma StepKeepsInv<V>(p: Policy<V>, s: State<V>, step: Step)
    requires p.ttl > 0 && Inv(p, s) && Apply(p, s, step).Some?
    ensures Inv(p, Apply(p, s, step).value)
  {
    hide CacheInv, Serves;
    var t := Apply(p, s, step).value;
    match step {
      case Insert(id) => InsertKeepsInv(p, s, id);
      case Look(id) => LookKeepsInv(p, s, id);
      case Receive(id, body) =>
        StillInv(p, s, t);
        assert CacheInv(t) by { SameCache(s, t); }
        if body.Some? { assert t.downloads[|s.downloads|] == Download(s.calls[id].url, body.value, s.clock); }
      case _ =>
        StillInv(p, s, t);
        assert CacheInv(t) by { SameCache(s, t); }
    }
  }

  lemma SameCache<V>(s: State<V>, t: State<V>)
    requires CacheInv(s) && t.entries == s.entries && t.insertions == s.insertions
    ensures CacheInv(t)
  {}

  lemma {:induction false} RunKeepsInv<V>(p: Policy<V>, s: State<V>, steps: seq<Step>)
    requires p.ttl > 0 && Inv(p, s) && Run(p, s, steps).Some?
    ensures Inv(p, Run(p, s, steps).value)
    decreases |steps|
  {
    hide Inv, Apply;
    if steps != [] {
      StepKeepsInv(p, s, steps[0]);
      RunKeepsInv(p, Apply(p, s, steps[0]).value, steps[1..]);
    }
  }

  // ---- the two caches ----------------------------------------------------------------------

  function CertPolicy(): Policy<seq<byte>> { Policy(KDS_CACHE_TTL, AtCallStart, body => Some(body)) }

  function JsonPolicy<V>(parse: seq<byte> -> Option<V>): Policy<V> { Policy(DEFAULT_JWKS_TTL, AtInsertion, parse) }

  /** In every interleaving, the bytes that `fetch_cert_bytes_cached(url)` returns were downloaded
      from that url, less than six hours before the call started. */
  lemma CertIsFresh(clock: nat, steps: seq<Step>, id: nat)
    requires Run(CertPolicy(), Init(clock), steps).Some?
    requires var s := Run(CertPolicy(), Init(clock), steps).value; id in s.calls && s.calls[id].phase.Done?
    ensures var s := Run(CertPolicy(), Init(clock), steps).value;
            var call := s.calls[id];
            exists d :: d in s.downloads && d.url == call.url && d.body == call.phase.value
              && call.start - 21_600_000_000_000 < d.at <= s.clock
  {
    hide Run;
    var p := CertPolicy();
    var s := Run(p, Init(clock), steps).value;
    RunKeepsInv(p, Init(clock), steps);
    var call := s.calls[id];
    assert CallInv(p, s, call);
    var i :| i in s.insertions && Serves(p, call, call.phase.value, i);
    assert InsertionInv(p, s, i);
    var d :| d in s.downloads && d.url == i.url && p.parse(d.body) == Some(i.entry.value) && d.at == i.received;
    assert d.body == call.phase.value;
  }

  /** A lookup of a certificate finds exactly what the last inserting call for its url downloaded, if
      that call started less than six hours before the looking one. */
  lemma CertLookup(clock: nat, steps: seq<Step>, id: nat)
    requires Run(CertPolicy(), Init(clock), steps).Some?
    requires var s := Run(CertPolicy(), Init(clock), steps).value; id in s.calls && s.calls[id].phase.Starting?
    ensures var s := Run(CertPolicy(), Init(clock), steps).value;
            var call, found := s.calls[id], Looked(CertPolicy(), s, s.calls[id]).phase;
            match Latest(s.insertions, call.url)
            case None => found == Missed
            case Some(i) =>
              && found == (if call.start < i.start + 21_600_000_000_000 then Done(i.entry.value) else Missed)
              && exists d :: d in s.downloads && d.url == call.url && d.body == i.entry.value && d.at == i.received
  {
    hide Run;
    var p := CertPolicy();
    var s := Run(p, Init(clock), steps).value;
    RunKeepsInv(p, Init(clock), steps);
    var url := s.calls[id].url;
    assert CacheInv(s);
    if Latest(s.insertions, url).Some? {
      var i := Latest(s.insertions, url).value;
      assert url in s.entries && InsertionInv(p, s, i);
      assert Delivered(p, s, i.url, i.entry.value, i.received);
    }
  }

  /** In every interleaving, the value that `fetch_json_cached(url)` returns was downloaded from that
      url between the lookup and the insertion of some call, and that insertion was less than thirty
      minutes before the lookup of the returning call. */
  lemma JsonIsFresh<V>(parse: seq<byte> -> Option<V>, clock: nat, steps: seq<Step>, id: nat)
    requires Run(JsonPolicy(parse), Init(clock), steps).Some?
    requires var s := Run(JsonPolicy(parse), Init(clock), steps).value; id in s.calls && s.calls[id].phase.Done?
    ensures var s := Run(JsonPolicy(parse), Init(clock), steps).value;
            var call := s.calls[id];
            exists i, d :: i in s.insertions && d in s.downloads
              && i.url == d.url == call.url && parse(d.body) == Some(call.phase.value)
              && d.at == i.received && i.looked <= d.at <= i.at <= s.clock
              && call.looked - 1_800_000_000_000 < i.at
  {
    hide Run;
    var p := JsonPolicy(parse);
    var s := Run(p, Init(clock), steps).value;
    RunKeepsInv(p, Init(clock), steps);
    var call := s.calls[id];
    assert CallInv(p, s, call);
    var i :| i in s.insertions && Serves(p, call, call.phase.value, i);
    assert InsertionInv(p, s, i);
    var d :| d in s.downloads && d.url == i.url && p.parse(d.body) == Some(i.entry.value) && d.at == i.received;
  }

  /** A lookup finds exactly the last insertion for its url, if that is younger than the TTL; what it
      finds was downloaded from that url when that insertion's call received it. */
  lemma JsonLookup<V>(parse: seq<byte> -> Option<V>, clock: nat, steps: seq<Step>, id: nat)
    requires Run(JsonPolicy(parse), Init(clock), steps).Some?
    requires var s := Run(JsonPolicy(parse), Init(clock), steps).value; id in s.calls && s.calls[id].phase.Starting?
    ensures var s := Run(JsonPolicy(parse), Init(clock), steps).value;
            var url, found := s.calls[id].url, Looked(JsonPolicy(parse), s, s.calls[id]).phase;
            match Latest(s.insertions, url)
            case None => found == Missed
            case Some(i) =>
              && found == (if s.clock - i.at < 1_800_000_000_000 then Done(i.entry.value) else Missed)
              && exists d :: d in s.downloads && d.url == url && parse(d.body) == Some(i.entry.value) && d.at == i.received
  {
    hide Run;
    var p := JsonPolicy(parse);
    var s := Run(p, Init(clock), steps).value;
    RunKeepsInv(p, Init(clock), steps);
    var url := s.calls[id].url;
    assert CacheInv(s);
    if Latest(s.insertions, url).Some? {
      var i := Latest(s.insertions, url).value;
      assert url in s.entries && InsertionInv(p, s, i);
      assert Delivered(p, s, i.url, i.entry.value, i.received);
    }
  }

  /** After a wait, a new call starts and looks. */
  function LookAfter(wait: nat, id: nat, url: string): seq<Step> { [Tick(wait), Start(id, url), Look(id)] }

  /** The new call finds nothing, or what was received less than the TTL before. */
  ghost predicate HitIsYoung<V>(p: Policy<V>, s: State<V>, wait: nat, id: nat, url: string, received: nat) {
    var r := Run(p, s, LookAfter(wait, id, url));
    && r.Some? && id in r.value.calls
    && (r.value.calls[id].phase.Done? ==> r.value.clock - received < p.ttl)
  }

  lemma LookAfterRun<V>(p: Policy<V>, s: State<V>, wait: nat, id: nat, url: string)
    requires id !in s.calls
    ensures var now := s.clock + wait;
            var call := Call(url, now, now, Starting);
            Run(p, s, LookAfter(wait, id, url)) ==
            Some(s.(clock := now, calls := s.calls[id := Looked(p, s.(clock := now), call)]))
  {
    hide Found, Run;
    var now := s.clock + wait;
    var call := Call(url, now, now, Starting);
    var a := s.(clock := now);
    var b := a.(calls := s.calls[id := call]);
    var d := a.(calls := s.calls[id := Looked(p, a, call)]);
    assert s.calls[id := call][id := Looked(p, a, call)] == s.calls[id := Looked(p, a, call)];
    RunThrough(p, [s, a, b, d], LookAfter(wait, id, url));
  }

  /** From any reachable state: no lookup of what is cached for a url, however late, ever returns a
      download that is one TTL old or older, exactly if it was inserted at the instant it was
      received, or has expired already. */
  lemma JsonHitsStayFresh<V>(parse: seq<byte> -> Option<V>, clock: nat, steps: seq<Step>, id: nat, url: string)
    requires Run(JsonPolicy(parse), Init(clock), steps).Some?
    requires var s := Run(JsonPolicy(parse), Init(clock), steps).value;
      id !in s.calls && Latest(s.insertions, url).Some?
    ensures var s := Run(JsonPolicy(parse), Init(clock), steps).value;
            var i := Latest(s.insertions, url).value;
            (forall wait :: HitIsYoung(JsonPolicy(parse), s, wait, id, url, i.received))
            <==> i.at == i.received || s.clock >= i.at + 1_800_000_000_000
  {
    hide Run, HitIsYoung;
    var p := JsonPolicy(parse);
    var s := Run(p, Init(clock), steps).value;
    RunKeepsInv(p, Init(clock), steps);
    var i := Latest(s.insertions, url).value;
    assert CacheInv(s) && InsertionInv(p, s, i);
    assert url in s.entries && s.entries[url] == i.entry;
    forall wait: nat
      ensures HitIsYoung(p, s, wait, id, url, i.received) <==>
              (s.clock + wait - i.at < 1_800_000_000_000 ==> s.clock + wait - i.received < 1_800_000_000_000)
    {
      LookAfterHit(p, s, wait, id, url, i);
    }
    if i.at > i.received && s.clock < i.at + DEFAULT_JWKS_TTL {
      var last := i.at + DEFAULT_JWKS_TTL - 1 - s.clock;
      assert !HitIsYoung(p, s, last, id, url, i.received);
    }
  }

  lemma LookAfterHit<V>(p: Policy<V>, s: State<V>, wait: nat, id: nat, url: string, i: Insertion<V>)
    requires id !in s.calls && p.stamp.AtInsertion? && i.at <= s.clock
    requires url in s.entries && s.entries[url] == i.entry && i.entry.fetchedAt == i.at
    ensures HitIsYoung(p, s, wait, id, url, i.received) <==>
            (s.clock + wait - i.at < p.ttl ==> s.clock + wait - i.received < p.ttl)
  {
    hide Run;
    LookAfterRun(p, s, wait, id, url);
  }

  /** So a bound on every delay between download and insertion bounds the age of what is returned;
      without one there is none. */
  lemma JsonAgeBound<V>(parse: seq<byte> -> Option<V>, clock: nat, steps: seq<Step>, id: nat, delay: nat)
    requires Run(JsonPolicy(parse), Init(clock), steps).Some?
    requires var s := Run(JsonPolicy(parse), Init(clock), steps).value; id in s.calls && s.calls[id].phase.Done?
    requires var s := Run(JsonPolicy(parse), Init(clock), steps).value;
      forall i :: i in s.insertions ==> i.at - i.received <= delay
    ensures var s := Run(JsonPolicy(parse), Init(clock), steps).value;
            var call := s.calls[id];
            exists d :: d in s.downloads && d.url == call.url && parse(d.body) == Some(call.phase.value)
              && call.looked - 1_800_000_000_000 - delay < d.at <= s.clock
  {
    hide Run;
    JsonIsFresh(parse, clock, steps, id);
  }

  /** That bound is reached: a first call that takes `n` to insert lets a later one return a body
      that is older by one TTL, less an instant, than `n`. */
  lemma JsonDownloadCanBeOld<V>(parse: seq<byte> -> Option<V>, url: string, body: seq<byte>, n: nat)
    requires parse(body).Some?
    ensures var age := n + 1_800_000_000_000 - 1;
            var steps := [Start(0, url), Look(0), Receive(0, Some(body)), Tick(n), Insert(0),
                          Tick(1_800_000_000_000 - 1), Start(1, url), Look(1)];
            var r := Run(JsonPolicy(parse), Init(0), steps);
            && r.Some? && r.value.calls.Keys == {0, 1}
            && r.value.calls[1] == Call(url, age, age, Done(parse(body).value))
            && r.value.downloads == [Download(url, body, 0)]
  {
    hide Run;
    var p, v, wait := JsonPolicy(parse), parse(body).value, DEFAULT_JWKS_TTL - 1;
    var steps := [Start(0, url), Look(0), Receive(0, Some(body)), Tick(n), Insert(0), Tick(wait), Start(1, url), Look(1)];
    var s0: State<V> := Init(0);
    var s1 := s0.(calls := map[0 := Call(url, 0, 0, Starting)]);
    var s2 := s0.(calls := map[0 := Call(url, 0, 0, Missed)]);
    var s3 := s0.(calls := map[0 := Call(url, 0, 0, Fetched(v, 0))], downloads := [Download(url, body, 0)]);
    var s4 := s3.(clock := n);
    var s5 := s4.(calls := map[0 := Call(url, 0, 0, Done(v))], entries := map[url := Entry(n, v)],
                  insertions := [Insertion(url, Entry(n, v), 0, 0, 0, n)]);
    var s6 := s5.(clock := n + wait);
    var s7 := s6.(calls := s5.calls[1 := Call(url, n + wait, n + wait, Starting)]);
    var s8 := s6.(calls := s5.calls[1 := Call(url, n + wait, n + wait, Done(v))]);
    assert Apply(p, s0, steps[0]).value.calls == s1.calls;
    assert Apply(p, s1, steps[1]).value.calls == s2.calls;
    assert Apply(p, s2, steps[2]).value.calls == s3.calls;
    assert Apply(p, s2, steps[2]).value.downloads == s3.downloads;
    assert Apply(p, s4, steps[4]).value.calls == s5.calls;
    assert Apply(p, s4, steps[4]).value.entries == s5.entries;
    assert Apply(p, s4, steps[4]).value.insertions == s5.insertions;
    assert Apply(p, s7, steps[7]).value.calls == s8.calls;
    RunThrough(p, [s0, s1, s2, s3, s4, s5, s6, s7, s8], steps);
  }
}
