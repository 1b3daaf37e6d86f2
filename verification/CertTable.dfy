/** The certificate table that follows an SEV-SNP attestation report: the attester cuts it, the
    verifier searches it. */
module CertTable {
  import opened Wrappers
  import opened Utf8

  const ENTRY := 24
  const REPORT_SIZE := 0x4A0

  function Le32(b: seq<byte>): (r: nat)
    requires |b| == 4
    ensures r < 0x1_0000_0000
  {
    var x: int, y: int, z: int, w: int := b[0], b[1], b[2], b[3];
    x + 256 * y + 65536 * z + 16777216 * w
  }

  function Le32Bytes(n: nat): (r: seq<byte>)
    requires n < 0x1_0000_0000
    ensures |r| == 4 && Le32(r) == n
  {
    var a := n / 256;
    var b := a / 256;
    [n % 256, a % 256, b % 256, b / 256]
  }

  // ---- entries -----------------------------------------------------------------------------

  function EntryAt(blob: seq<byte>, i: nat): (r: seq<byte>)
    requires ENTRY * (i + 1) <= |blob|
    ensures |r| == ENTRY
  {
    blob[ENTRY * i..ENTRY * (i + 1)]
  }

  predicate IsZero(entry: seq<byte>) { forall k :: 0 <= k < |entry| ==> entry[k] == 0 }

  function Guid(entry: seq<byte>): seq<byte> requires |entry| == ENTRY { entry[..16] }

  function Offset(entry: seq<byte>): nat requires |entry| == ENTRY { Le32(entry[16..20]) }

  function End(entry: seq<byte>): nat requires |entry| == ENTRY { Offset(entry) + Le32(entry[20..24]) }

  /** How many entries come before the terminator or the last whole entry. */
  function Count(blob: seq<byte>, from: nat): (n: nat)
    requires ENTRY * from <= |blob|
    ensures from <= n && ENTRY * n <= |blob|
    ensures forall i :: from <= i < n ==> !IsZero(EntryAt(blob, i))
    ensures ENTRY * (n + 1) <= |blob| ==> IsZero(EntryAt(blob, n))
    decreases |blob| - ENTRY * from
  {
    if ENTRY * (from + 1) > |blob| || IsZero(EntryAt(blob, from)) then from else Count(blob, from + 1)
  }

  /** The end of the header: the terminator belongs to it. */
  function HeaderEnd(blob: seq<byte>): (r: nat)
    ensures r <= |blob|
  {
    var n := Count(blob, 0);
    if ENTRY * (n + 1) <= |blob| then ENTRY * (n + 1) else ENTRY * n
  }

  function Min(a: nat, b: nat): nat { if a < b then a else b }

  function Max(a: nat, b: nat): nat { if a < b then b else a }

  /** The furthest end of the first `n` entries, cut at the blob. */
  function Used(blob: seq<byte>, n: nat): (r: nat)
    requires ENTRY * n <= |blob|
    ensures r <= |blob|
    ensures forall i :: 0 <= i < n ==> Min(End(EntryAt(blob, i)), |blob|) <= r
    ensures r > 0 ==> exists i :: 0 <= i < n && Min(End(EntryAt(blob, i)), |blob|) == r
  {
    if n == 0 then 0 else
      var before := Used(blob, n - 1);
      var last := Min(End(EntryAt(blob, n - 1)), |blob|);
      assert before > 0 ==> exists i :: 0 <= i < n && Min(End(EntryAt(blob, i)), |blob|) == before;
      Max(before, last)
  }

  function UsedLen(blob: seq<byte>): (r: nat)
    ensures r <= |blob|
  {
    var used := Used(blob, Count(blob, 0));
    if used == 0 then 0 else Max(used, HeaderEnd(blob))
  }

  /** `cert_blob_used_len`, on 64-bit offsets: the 32-bit sums do not overflow. */
  method CertBlobUsedLen(certs: seq<byte>) returns (r: nat)
    ensures r == UsedLen(certs)
  {
    hide Le32, IsZero, EntryAt;
    var used, headerEnd, i := 0, 0, 0;
    while ENTRY * (i + 1) <= |certs|
      invariant ENTRY * i <= |certs| && headerEnd == ENTRY * i
      invariant Count(certs, 0) == Count(certs, i)
      invariant used == Used(certs, i)
      decreases |certs| - ENTRY * i
    {
      var entry := EntryAt(certs, i);
      headerEnd := headerEnd + ENTRY;
      if IsZero(entry) { break; }
      used := Max(used, Min(Offset(entry) + Le32(entry[20..24]), |certs|));
      i := i + 1;
    }
    r := if used == 0 then 0 else Max(used, headerEnd);
  }

  // ---- the search --------------------------------------------------------------------------

  /** Entry `i` names `guid` and lies after the header and inside the blob. */
  predicate Serves(blob: seq<byte>, guid: seq<byte>, i: nat)
    requires ENTRY * (i + 1) <= |blob|
  {
    var e := EntryAt(blob, i);
    Guid(e) == guid && HeaderEnd(blob) <= Offset(e) && End(e) <= |blob|
  }

  function CertOf(blob: seq<byte>, i: nat): seq<byte>
    requires ENTRY * (i + 1) <= |blob| && End(EntryAt(blob, i)) <= |blob|
  {
    blob[Offset(EntryAt(blob, i))..End(EntryAt(blob, i))]
  }

  /** `r` is what the first entry that serves `guid` points to, if there is one. */
  ghost predicate IsAnswer(blob: seq<byte>, guid: seq<byte>, r: Option<seq<byte>>) {
    match r
    case None => forall i :: 0 <= i < Count(blob, 0) ==> !Serves(blob, guid, i)
    case Some(cert) =>
      exists i :: 0 <= i < Count(blob, 0) && Serves(blob, guid, i) && cert == CertOf(blob, i)
                  && forall j :: 0 <= j < i ==> !Serves(blob, guid, j)
  }

  /** The indices of the first `n` entries that carry `guid`. */
  ghost function Matching(blob: seq<byte>, guid: seq<byte>, n: nat): seq<nat>
    requires ENTRY * n <= |blob|
  {
    if n == 0 then []
    else Matching(blob, guid, n - 1) + if Guid(EntryAt(blob, n - 1)) == guid then [n - 1] else []
  }

  lemma {:induction false} MatchingMeaning(blob: seq<byte>, guid: seq<byte>, n: nat)
    requires ENTRY * n <= |blob|
    ensures var r := Matching(blob, guid, n);
            && (forall k :: 0 <= k < |r| ==> r[k] < n && Guid(EntryAt(blob, r[k])) == guid)
            && (forall k, l :: 0 <= k < l < |r| ==> r[k] < r[l])
            && (forall i :: 0 <= i < n && Guid(EntryAt(blob, i)) == guid ==> i in r)
  {
    if n > 0 { MatchingMeaning(blob, guid, n - 1); }
  }

  method FindCert(certs: seq<byte>, guid: seq<byte>) returns (r: Option<seq<byte>>)
    ensures IsAnswer(certs, guid, r)
  {
    hide Le32, IsZero, IsAnswer, CertOf, Used;
    var headerEnd, i := 0, 0;
    var matches: seq<(nat, nat)> := [];
    while ENTRY * (i + 1) <= |certs|
      invariant ENTRY * i <= |certs| && headerEnd == ENTRY * i
      invariant Count(certs, 0) == Count(certs, i)
      invariant Points(certs, matches, Matching(certs, guid, i))
      decreases |certs| - ENTRY * i
    {
      var entry := EntryAt(certs, i);
      headerEnd := headerEnd + ENTRY;
      if IsZero(entry) { break; }
      if entry[..16] == guid {
        matches := matches + [(Offset(entry), Offset(entry) + Le32(entry[20..24]))];
      }
      i := i + 1;
    }
    r := FirstServed(certs, guid, headerEnd, matches, Matching(certs, guid, i));
  }

  /** The offsets and ends of the entries `hits`. */
  ghost predicate Points(certs: seq<byte>, matches: seq<(nat, nat)>, hits: seq<nat>) {
    && |matches| == |hits|
    && forall k :: 0 <= k < |hits| ==>
         && ENTRY * (hits[k] + 1) <= |certs|
         && matches[k] == (Offset(EntryAt(certs, hits[k])), End(EntryAt(certs, hits[k])))
  }

  /** The second loop: the first match that can be sliced out. */
  method FirstServed(certs: seq<byte>, guid: seq<byte>, headerEnd: nat, matches: seq<(nat, nat)>, ghost hits: seq<nat>)
    returns (r: Option<seq<byte>>)
    requires headerEnd == HeaderEnd(certs) && hits == Matching(certs, guid, Count(certs, 0))
    requires Points(certs, matches, hits)
    ensures IsAnswer(certs, guid, r)
  {
    hide Le32, IsZero, HeaderEnd, Matching;
    MatchingMeaning(certs, guid, Count(certs, 0));
    for k := 0 to |matches|
      invariant forall l :: 0 <= l < k ==> !Serves(certs, guid, hits[l])
    {
      var (offset, end) := matches[k];
      if offset < headerEnd || end > |certs| { continue; }
      assert Serves(certs, guid, hits[k]);
      return Some(certs[offset..end]);
    }
    r := None;
  }

  lemma AnswerUnique(blob: seq<byte>, guid: seq<byte>, a: Option<seq<byte>>, b: Option<seq<byte>>)
    requires IsAnswer(blob, guid, a) && IsAnswer(blob, guid, b)
    ensures a == b
  {
    match (a, b) {
      case (Some(x), Some(y)) =>
        var i :| 0 <= i < Count(blob, 0) && Serves(blob, guid, i) && x == CertOf(blob, i)
                 && forall j :: 0 <= j < i ==> !Serves(blob, guid, j);
        var k :| 0 <= k < Count(blob, 0) && Serves(blob, guid, k) && y == CertOf(blob, k)
                 && forall j :: 0 <= j < k ==> !Serves(blob, guid, j);
        assert i == k;
      case _ =>
    }
  }

  /** The answer from entry `i` on, where no earlier entry serves. */
  ghost function AnswerFrom(blob: seq<byte>, guid: seq<byte>, i: nat): (r: Option<seq<byte>>)
    requires i <= Count(blob, 0) && forall j :: 0 <= j < i ==> !Serves(blob, guid, j)
    ensures IsAnswer(blob, guid, r)
    decreases Count(blob, 0) - i
  {
    if i == Count(blob, 0) then None
    else if Serves(blob, guid, i) then Some(CertOf(blob, i))
    else AnswerFrom(blob, guid, i + 1)
  }

  /** The certificate that evidence provides for a GUID. */
  ghost function Provided(data: seq<byte>, guid: seq<byte>): (r: Option<seq<byte>>)
    ensures Finds(data, guid, r)
  {
    match CertBlobBytes(data)
    case None => None
    case Some(blob) => AnswerFrom(blob, guid, 0)
  }

  lemma ProvidedUnique(data: seq<byte>, guid: seq<byte>, r: Option<seq<byte>>)
    ensures Finds(data, guid, r) <==> r == Provided(data, guid)
  {
    hide IsAnswer, AnswerFrom;
    match CertBlobBytes(data) {
      case None =>
      case Some(blob) => if IsAnswer(blob, guid, r) { AnswerUnique(blob, guid, r, Provided(data, guid)); }
    }
  }

  // ---- truncation --------------------------------------------------------------------------

  function Truncated(blob: seq<byte>): seq<byte> { blob[..UsedLen(blob)] }

  lemma SameEntries(blob: seq<byte>, t: seq<byte>, i: nat)
    requires t <= blob && ENTRY * (i + 1) <= |t|
    ensures EntryAt(t, i) == EntryAt(blob, i)
  {}

  lemma {:induction false} SameCount(blob: seq<byte>, t: seq<byte>, from: nat)
    requires t <= blob && HeaderEnd(blob) <= |t| && ENTRY * from <= |t| && from <= Count(blob, 0)
    requires Count(blob, from) == Count(blob, 0)
    ensures Count(t, from) == Count(blob, from)
    decreases |blob| - ENTRY * from
  {
    var n := Count(blob, 0);
    if ENTRY * (from + 1) <= |t| {
      SameEntries(blob, t, from);
      if !IsZero(EntryAt(t, from)) { SameCount(blob, t, from + 1); }
    }
  }

  /** The part that is kept has the same header and entries. */
  lemma TruncatedHeader(blob: seq<byte>)
    requires UsedLen(blob) > 0
    ensures var t := Truncated(blob); Count(t, 0) == Count(blob, 0) && HeaderEnd(t) == HeaderEnd(blob)
  {
    SameCount(blob, Truncated(blob), 0);
  }

  /** A cut that is not empty keeps every byte up to the end of each entry that lies in the blob. */
  lemma EntryKept(blob: seq<byte>, i: nat)
    requires UsedLen(blob) > 0 && i < Count(blob, 0)
    ensures ENTRY * (i + 1) <= UsedLen(blob)
    ensures End(EntryAt(blob, i)) <= |blob| ==> End(EntryAt(blob, i)) <= UsedLen(blob)
    ensures End(EntryAt(blob, i)) > |blob| ==> UsedLen(blob) == |blob|
  {
    hide Le32, IsZero, End;
    assert Min(End(EntryAt(blob, i)), |blob|) <= Used(blob, Count(blob, 0));
  }

  lemma ServesKept(blob: seq<byte>, guid: seq<byte>, i: nat)
    requires UsedLen(blob) > 0 && i < Count(blob, 0)
    ensures ENTRY * (i + 1) <= |Truncated(blob)|
    ensures Serves(Truncated(blob), guid, i) == Serves(blob, guid, i)
    ensures Serves(blob, guid, i) ==> CertOf(Truncated(blob), i) == CertOf(blob, i)
  {
    hide Le32, IsZero, HeaderEnd, Used, Count, UsedLen;
    var t := Truncated(blob);
    TruncatedHeader(blob);
    EntryKept(blob, i);
    SameEntries(blob, t, i);
  }

  /** Nothing is served from a blob whose cut is empty. */
  lemma EmptyCut(blob: seq<byte>, guid: seq<byte>, i: nat)
    requires UsedLen(blob) == 0 && i < Count(blob, 0)
    ensures !Serves(blob, guid, i)
  {
    assert Min(End(EntryAt(blob, i)), |blob|) <= Used(blob, Count(blob, 0));
  }

  /** Searching the cut blob and the whole blob gives the same answer, for every blob and GUID. */
  lemma TruncationKeepsAnswers(blob: seq<byte>, guid: seq<byte>, r: Option<seq<byte>>)
    ensures IsAnswer(Truncated(blob), guid, r) <==> IsAnswer(blob, guid, r)
  {
    hide UsedLen, HeaderEnd, Count, CertOf;
    var t := Truncated(blob);
    if UsedLen(blob) == 0 {
      assert t == [];
      NoEntries();
      forall i | 0 <= i < Count(blob, 0) ensures !Serves(blob, guid, i) { EmptyCut(blob, guid, i); }
    } else {
      TruncatedHeader(blob);
      forall i | 0 <= i < Count(blob, 0)
        ensures ENTRY * (i + 1) <= |t| && Serves(t, guid, i) == Serves(blob, guid, i)
        ensures Serves(blob, guid, i) ==> CertOf(t, i) == CertOf(blob, i)
      {
        ServesKept(blob, guid, i);
      }
    }
  }

  lemma NoEntries()
    ensures Count([], 0) == 0
  {}

  lemma NothingUsed()
    ensures Used([], 0) == 0
  {}

  /** Cutting again changes nothing. */
  lemma TruncationIdempotent(blob: seq<byte>)
    ensures UsedLen(Truncated(blob)) == UsedLen(blob)
    ensures Truncated(Truncated(blob)) == Truncated(blob)
  {
    hide Le32, IsZero, HeaderEnd, Used, Count;
    var t := Truncated(blob);
    if UsedLen(blob) == 0 {
      NoEntries();
      NothingUsed();
    } else if |t| < |blob| {
      TruncatedHeader(blob);
      UsedKept(blob, Count(blob, 0));
    } else {
      assert t == blob;
    }
  }

  lemma {:induction false} UsedKept(blob: seq<byte>, n: nat)
    requires UsedLen(blob) > 0 && n <= Count(blob, 0)
    ensures ENTRY * n <= |Truncated(blob)|
    ensures |Truncated(blob)| < |blob| ==> Used(Truncated(blob), n) == Used(blob, n)
  {
    hide Le32, IsZero, End, HeaderEnd, Count, UsedLen;
    if n > 0 {
      UsedKept(blob, n - 1);
      EntryKept(blob, n - 1);
      SameEntries(blob, Truncated(blob), n - 1);
    }
  }

  /** The cut is as short as the header and the entries allow, and empty exactly where no entry
      points at a byte of the blob. */
  lemma CutIsLeast(blob: seq<byte>, n: nat)
    ensures UsedLen(blob) == 0 <==> forall i :: 0 <= i < Count(blob, 0) ==> Min(End(EntryAt(blob, i)), |blob|) == 0
    ensures (HeaderEnd(blob) <= n && forall i :: 0 <= i < Count(blob, 0) ==> Min(End(EntryAt(blob, i)), |blob|) <= n)
            ==> UsedLen(blob) <= n
    ensures UsedLen(blob) > 0 ==>
              HeaderEnd(blob) <= UsedLen(blob) && forall i :: 0 <= i < Count(blob, 0) ==> Min(End(EntryAt(blob, i)), |blob|) <= UsedLen(blob)
  {
    hide Count, End, EntryAt;
    var used := Used(blob, Count(blob, 0));
    if used == 0 {
      assert forall i :: 0 <= i < Count(blob, 0) ==> Min(End(EntryAt(blob, i)), |blob|) == 0;
    } else {
      var i :| 0 <= i < Count(blob, 0) && Min(End(EntryAt(blob, i)), |blob|) == used;
    }
  }

  // ---- evidence ----------------------------------------------------------------------------

  /** `cert_blob_bytes`: what follows the report, if anything does. */
  function CertBlobBytes(data: seq<byte>): Option<seq<byte>> {
    if |data| > REPORT_SIZE then Some(data[REPORT_SIZE..]) else None
  }

  ghost predicate Finds(data: seq<byte>, guid: seq<byte>, r: Option<seq<byte>>) {
    match CertBlobBytes(data)
    case None => r == None
    case Some(blob) => IsAnswer(blob, guid, r)
  }

  /** End to end: the verifier finds in the evidence exactly what the guest's whole blob holds. */
  lemma EvidenceLookup(report: seq<byte>, certs: seq<byte>, guid: seq<byte>, r: Option<seq<byte>>)
    requires |report| == REPORT_SIZE
    ensures Finds(report + Truncated(certs), guid, r) <==> IsAnswer(certs, guid, r)
  {
    var data := report + Truncated(certs);
    assert data[REPORT_SIZE..] == Truncated(certs);
    TruncationKeepsAnswers(certs, guid, r);
    if Truncated(certs) == [] { NoEntries(); }
  }

  /** The cut provides the same certificates as the whole blob. */
  lemma CutProvidesTheSame(report: seq<byte>, certs: seq<byte>, guid: seq<byte>)
    requires |report| == REPORT_SIZE
    ensures Provided(report + Truncated(certs), guid) == Provided(report + certs, guid)
  {
    hide Provided, IsAnswer, Truncated, Finds;
    var r := Provided(report + certs, guid);
    WholeLookup(report, certs, guid, r);
    EvidenceLookup(report, certs, guid, r);
    ProvidedUnique(report + Truncated(certs), guid, r);
  }

  lemma WholeLookup(report: seq<byte>, certs: seq<byte>, guid: seq<byte>, r: Option<seq<byte>>)
    requires |report| == REPORT_SIZE
    ensures Finds(report + certs, guid, r) <==> IsAnswer(certs, guid, r)
  {
    assert (report + certs)[REPORT_SIZE..] == certs;
    if certs == [] { NoEntries(); }
  }

  // ---- laid-out tables ---------------------------------------------------------------------

  datatype Cert = Cert(guid: seq<byte>, bytes: seq<byte>)

  function TotalSize(certs: seq<Cert>): nat {
    if certs == [] then 0 else |certs[0].bytes| + TotalSize(certs[1..])
  }

  /** Entries whose data starts at `offset` and follows in order. */
  function Entries(certs: seq<Cert>, offset: nat): seq<byte>
    requires offset + TotalSize(certs) < 0x1_0000_0000
  {
    if certs == [] then []
    else certs[0].guid + Le32Bytes(offset) + Le32Bytes(|certs[0].bytes|)
         + Entries(certs[1..], offset + |certs[0].bytes|)
  }

  function Data(certs: seq<Cert>): seq<byte> {
    if certs == [] then [] else certs[0].bytes + Data(certs[1..])
  }

  function Layout(certs: seq<Cert>): seq<byte>
    requires ENTRY * (|certs| + 1) + TotalSize(certs) < 0x1_0000_0000
  {
    Entries(certs, ENTRY * (|certs| + 1)) + (seq(ENTRY, i => 0) + Data(certs))
  }

  /** The bytes of the first certificate with a GUID. */
  function FirstCert(certs: seq<Cert>, guid: seq<byte>): Option<seq<byte>> {
    if certs == [] then None
    else if certs[0].guid == guid then Some(certs[0].bytes)
    else FirstCert(certs[1..], guid)
  }

  lemma ZeroPointsNowhere(e: seq<byte>)
    requires |e| == ENTRY
    ensures IsZero(e) ==> Offset(e) == 0 && End(e) == 0
  {}

  lemma EntryFields(guid: seq<byte>, offset: nat, length: nat)
    requires |guid| == 16 && 0 < offset && offset < 0x1_0000_0000 && length < 0x1_0000_0000
    ensures var e := guid + Le32Bytes(offset) + Le32Bytes(length);
            && |e| == ENTRY && Guid(e) == guid && Offset(e) == offset && End(e) == offset + length && !IsZero(e)
  {
    var e := guid + Le32Bytes(offset) + Le32Bytes(length);
    assert e[16..20] == Le32Bytes(offset) && e[20..24] == Le32Bytes(length);
    ZeroPointsNowhere(e);
  }

  ghost predicate WellFormed(certs: seq<Cert>) { forall c :: c in certs ==> |c.guid| == 16 }

  /** Where entry `i` of a layout points: at the data of certificate `i`. */
  ghost predicate PointsAtData(certs: seq<Cert>, offset: nat, i: nat, e: seq<byte>)
    requires i < |certs|
  {
    && |e| == ENTRY && !IsZero(e) && Guid(e) == certs[i].guid
    && Offset(e) == offset + TotalSize(certs[..i]) && End(e) == Offset(e) + |certs[i].bytes|
  }

  lemma {:induction false} EntriesLength(certs: seq<Cert>, offset: nat)
    requires WellFormed(certs) && offset + TotalSize(certs) < 0x1_0000_0000
    ensures |Entries(certs, offset)| == ENTRY * |certs|
  {
    if certs != [] {
      assert |certs[0].guid| == 16;
      EntriesLength(certs[1..], offset + |certs[0].bytes|);
    }
  }

  lemma EntryAfter(e: seq<byte>, rest: seq<byte>, i: nat)
    requires |e| == ENTRY && ENTRY * (i + 1) <= |e + rest|
    ensures EntryAt(e + rest, i) == if i == 0 then e else EntryAt(rest, i - 1)
  {}

  lemma {:induction false} EntriesShape(certs: seq<Cert>, offset: nat, i: nat)
    requires WellFormed(certs) && 0 < offset && offset + TotalSize(certs) < 0x1_0000_0000 && i < |certs|
    ensures ENTRY * (i + 1) <= |Entries(certs, offset)|
    ensures PointsAtData(certs, offset, i, EntryAt(Entries(certs, offset), i))
  {
    hide Le32, IsZero, EntryAt, Le32Bytes;
    EntriesLength(certs, offset);
    var c := certs[0];
    assert |c.guid| == 16;
    var e := c.guid + Le32Bytes(offset) + Le32Bytes(|c.bytes|);
    var rest := Entries(certs[1..], offset + |c.bytes|);
    EntryFields(c.guid, offset, |c.bytes|);
    EntryAfter(e, rest, i);
    if i > 0 {
      EntriesShape(certs[1..], offset + |c.bytes|, i - 1);
      assert certs[..i][1..] == certs[1..][..i - 1];
      assert TotalSize(certs[..i]) == |c.bytes| + TotalSize(certs[1..][..i - 1]);
    } else {
      assert TotalSize(certs[..0]) == 0;
    }
  }

  lemma {:induction false} DataShape(certs: seq<Cert>, i: nat)
    requires i < |certs|
    ensures |Data(certs)| == TotalSize(certs)
    ensures TotalSize(certs[..i]) + |certs[i].bytes| <= TotalSize(certs)
    ensures Data(certs)[TotalSize(certs[..i])..TotalSize(certs[..i]) + |certs[i].bytes|] == certs[i].bytes
  {
    var first, rest := certs[0].bytes, certs[1..];
    if i > 0 {
      DataShape(rest, i - 1);
      assert certs[..i][1..] == rest[..i - 1];
      ShiftedSlice(first, Data(rest), TotalSize(rest[..i - 1]), |certs[i].bytes|);
    } else if |certs| > 1 {
      DataShape(rest, 0);
    }
  }

  lemma ShiftedSlice(a: seq<byte>, b: seq<byte>, from: nat, n: nat)
    requires from + n <= |b|
    ensures (a + b)[|a| + from..|a| + from + n] == b[from..from + n]
  {}

  /** A layout is its entries, a zero entry and the data. */
  lemma LayoutParts(certs: seq<Cert>)
    requires WellFormed(certs) && ENTRY * (|certs| + 1) + TotalSize(certs) < 0x1_0000_0000
    ensures var blob, start := Layout(certs), ENTRY * (|certs| + 1);
            && |blob| == start + |Data(certs)| && blob[start..] == Data(certs)
            && blob[..ENTRY * |certs|] == Entries(certs, start)
            && IsZero(EntryAt(blob, |certs|))
  {
    hide Entries, Data;
    var start := ENTRY * (|certs| + 1);
    EntriesLength(certs, start);
    assert EntryAt(Layout(certs), |certs|) == seq(ENTRY, k => 0);
  }

  lemma LayoutEntry(certs: seq<Cert>, i: nat)
    requires WellFormed(certs) && ENTRY * (|certs| + 1) + TotalSize(certs) < 0x1_0000_0000 && i <= |certs|
    ensures var blob := Layout(certs);
            && ENTRY * (i + 1) <= |blob| && |blob| == ENTRY * (|certs| + 1) + |Data(certs)|
            && (if i == |certs| then IsZero(EntryAt(blob, i))
                else PointsAtData(certs, ENTRY * (|certs| + 1), i, EntryAt(blob, i)))
  {
    hide Le32, IsZero, Entries, Data, Layout, PointsAtData;
    LayoutParts(certs);
    if i < |certs| {
      var start := ENTRY * (|certs| + 1);
      EntriesShape(certs, start, i);
      assert EntryAt(Layout(certs), i) == EntryAt(Layout(certs)[..ENTRY * |certs|], i);
    }
  }

  lemma {:induction false} LayoutCount(certs: seq<Cert>, from: nat)
    requires WellFormed(certs) && ENTRY * (|certs| + 1) + TotalSize(certs) < 0x1_0000_0000 && from <= |certs|
    ensures ENTRY * from <= |Layout(certs)| && Count(Layout(certs), from) == |certs|
    decreases |certs| - from
  {
    hide Le32, IsZero, Layout;
    LayoutEntry(certs, from);
    if from < |certs| { LayoutCount(certs, from + 1); }
  }

  lemma LayoutServes(certs: seq<Cert>, guid: seq<byte>, i: nat)
    requires WellFormed(certs) && ENTRY * (|certs| + 1) + TotalSize(certs) < 0x1_0000_0000 && i < |certs|
    ensures var blob := Layout(certs);
            && ENTRY * (i + 1) <= |blob|
            && (Serves(blob, guid, i) <==> certs[i].guid == guid)
            && End(EntryAt(blob, i)) <= |blob| && CertOf(blob, i) == certs[i].bytes
  {
    hide Le32, IsZero, Count, EntryAt, Layout, Entries, Data;
    var blob := Layout(certs);
    var start := ENTRY * (|certs| + 1);
    LayoutParts(certs);
    LayoutEntry(certs, i);
    LayoutEntry(certs, |certs|);
    LayoutCount(certs, 0);
    DataShape(certs, i);
    var a, n := TotalSize(certs[..i]), |certs[i].bytes|;
    assert blob[start + a..start + a + n] == blob[start..][a..a + n];
  }

  lemma {:induction false} FirstCertIndex(certs: seq<Cert>, guid: seq<byte>)
    ensures match FirstCert(certs, guid)
            case None => forall i :: 0 <= i < |certs| ==> certs[i].guid != guid
            case Some(bytes) =>
              exists i :: 0 <= i < |certs| && certs[i] == Cert(guid, bytes) && forall j :: 0 <= j < i ==> certs[j].guid != guid
  {
    if certs != [] && certs[0].guid != guid {
      FirstCertIndex(certs[1..], guid);
      match FirstCert(certs[1..], guid) {
        case None =>
          forall i | 0 <= i < |certs| ensures certs[i].guid != guid { if i > 0 { assert certs[i] == certs[1..][i - 1]; } }
        case Some(bytes) =>
          var i :| 0 <= i < |certs[1..]| && certs[1..][i] == Cert(guid, bytes) && forall j :: 0 <= j < i ==> certs[1..][j].guid != guid;
          assert certs[i + 1] == Cert(guid, bytes);
          forall j | 0 <= j < i + 1 ensures certs[j].guid != guid { if j > 0 { assert certs[j] == certs[1..][j - 1]; } }
      }
    } else if certs != [] {
      assert certs[0] == Cert(guid, certs[0].bytes);
    }
  }

  /** In a laid-out table every lookup gives the first certificate with the GUID. */
  lemma LayoutLookup(certs: seq<Cert>, guid: seq<byte>)
    requires WellFormed(certs) && ENTRY * (|certs| + 1) + TotalSize(certs) < 0x1_0000_0000
    ensures IsAnswer(Layout(certs), guid, FirstCert(certs, guid))
  {
    hide Le32, IsZero, Count, EntryAt, Serves, CertOf, Layout, FirstCert;
    var blob := Layout(certs);
    LayoutCount(certs, 0);
    FirstCertIndex(certs, guid);
    forall i | 0 <= i < |certs|
      ensures ENTRY * (i + 1) <= |blob| && (Serves(blob, guid, i) <==> certs[i].guid == guid)
      ensures End(EntryAt(blob, i)) <= |blob| && CertOf(blob, i) == certs[i].bytes
    {
      LayoutServes(certs, guid, i);
    }
  }

  // ---- a laid-out table in a longer buffer -------------------------------------------------

  lemma {:induction false} PaddedCount(certs: seq<Cert>, pad: seq<byte>, from: nat)
    requires WellFormed(certs) && ENTRY * (|certs| + 1) + TotalSize(certs) < 0x1_0000_0000 && from <= |certs|
    ensures ENTRY * from <= |Layout(certs)| && Count(Layout(certs) + pad, from) == |certs|
    decreases |certs| - from
  {
    hide Le32, IsZero, Layout, EntryAt;
    LayoutEntry(certs, from);
    SameEntries(Layout(certs) + pad, Layout(certs), from);
    if from < |certs| { PaddedCount(certs, pad, from + 1); }
  }

  lemma {:induction false} TotalNext(certs: seq<Cert>, i: nat)
    requires i < |certs|
    ensures TotalSize(certs[..i + 1]) == TotalSize(certs[..i]) + |certs[i].bytes| <= TotalSize(certs)
  {
    assert certs[..i + 1][0] == certs[0];
    assert certs[..i + 1][1..] == certs[1..][..i];
    if i > 0 {
      assert certs[..i][1..] == certs[1..][..i - 1];
      TotalNext(certs[1..], i - 1);
    } else {
      assert certs[1..][..0] == [] && certs[..0] == [];
    }
  }

  lemma PaddedEnd(certs: seq<Cert>, pad: seq<byte>, i: nat)
    requires WellFormed(certs) && ENTRY * (|certs| + 1) + TotalSize(certs) < 0x1_0000_0000 && i < |certs|
    ensures var blob := Layout(certs) + pad;
            && ENTRY * (i + 1) <= |Layout(certs)|
            && Min(End(EntryAt(blob, i)), |blob|) == ENTRY * (|certs| + 1) + TotalSize(certs[..i + 1])
  {
    hide Le32, IsZero, Layout, EntryAt, Guid, Offset, End;
    LayoutEntry(certs, i);
    SameEntries(Layout(certs) + pad, Layout(certs), i);
    TotalNext(certs, i);
    DataShape(certs, i);
    LayoutParts(certs);
  }

  lemma {:induction false} PaddedUsed(certs: seq<Cert>, pad: seq<byte>, n: nat)
    requires WellFormed(certs) && ENTRY * (|certs| + 1) + TotalSize(certs) < 0x1_0000_0000 && n <= |certs|
    ensures ENTRY * n <= |Layout(certs)|
    ensures Used(Layout(certs) + pad, n) == if n == 0 then 0 else ENTRY * (|certs| + 1) + TotalSize(certs[..n])
  {
    hide Layout, EntryAt, End, TotalSize, Min;
    if n > 0 {
      PaddedUsed(certs, pad, n - 1);
      PaddedEnd(certs, pad, n - 1);
      TotalNext(certs, n - 1);
    }
  }

  /** A layout with certificates, followed by anything, as in the attester's zeroed buffer, is cut
      back to exactly the layout. */
  lemma PaddedLayoutCut(certs: seq<Cert>, pad: seq<byte>)
    requires WellFormed(certs) && ENTRY * (|certs| + 1) + TotalSize(certs) < 0x1_0000_0000 && certs != []
    ensures UsedLen(Layout(certs) + pad) == |Layout(certs)| && Truncated(Layout(certs) + pad) == Layout(certs)
  {
    hide Le32, IsZero, Layout, EntryAt, Count, Used;
    PaddedCount(certs, pad, 0);
    PaddedUsed(certs, pad, |certs|);
    assert certs[..|certs|] == certs;
    LayoutParts(certs);
    DataShape(certs, 0);
  }

  // ---- the table in raw bytes --------------------------------------------------------------

  /** Entries of 24 bytes, up to a zero one or the last whole one. */
  ghost predicate TableOf(blob: seq<byte>, n: nat) {
    && 24 * n <= |blob|
    && (forall i :: 0 <= i < n ==> exists k :: 24 * i <= k < 24 * i + 24 && blob[k] != 0)
    && (24 * n + 24 <= |blob| ==> forall k :: 24 * n <= k < 24 * n + 24 ==> blob[k] == 0)
  }

  function RawNumber(blob: seq<byte>, at: nat): nat
    requires at + 4 <= |blob|
  {
    blob[at] as nat + 256 * blob[at + 1] as nat + 65536 * blob[at + 2] as nat + 16777216 * blob[at + 3] as nat
  }

  /** Entry `i` names `guid`, and its bytes lie behind the header and inside the blob. */
  ghost predicate RawServes(blob: seq<byte>, n: nat, guid: seq<byte>, i: nat)
    requires i < n && 24 * n <= |blob|
  {
    var header := if 24 * n + 24 <= |blob| then 24 * n + 24 else 24 * n;
    && blob[24 * i..24 * i + 16] == guid
    && header <= RawNumber(blob, 24 * i + 16)
    && RawNumber(blob, 24 * i + 16) + RawNumber(blob, 24 * i + 20) <= |blob|
  }

  lemma RawEntry(blob: seq<byte>, i: nat)
    requires 24 * i + 24 <= |blob|
    ensures var e := EntryAt(blob, i);
            && (IsZero(e) <==> forall k :: 24 * i <= k < 24 * i + 24 ==> blob[k] == 0)
            && Guid(e) == blob[24 * i..24 * i + 16]
            && Offset(e) == RawNumber(blob, 24 * i + 16) && End(e) == Offset(e) + RawNumber(blob, 24 * i + 20)
  {
    var e := EntryAt(blob, i);
    assert forall k :: 0 <= k < 24 ==> e[k] == blob[24 * i + k];
    if IsZero(e) {
      forall k | 24 * i <= k < 24 * i + 24 ensures blob[k] == 0 { assert e[k - 24 * i] == blob[k]; }
    }
  }

  lemma {:induction false} RawCount(blob: seq<byte>, n: nat, from: nat)
    requires TableOf(blob, n) && from <= n
    ensures Count(blob, from) == n
    decreases n - from
  {
    hide EntryAt, IsZero;
    if 24 * from + 24 <= |blob| { RawEntry(blob, from); }
    if from < n { RawCount(blob, n, from + 1); }
  }

  /** In raw bytes: the answer is the slice that the first such entry gives, and there is none exactly
      if there is no such entry. */
  lemma AnswerInBytes(blob: seq<byte>, n: nat, guid: seq<byte>, r: Option<seq<byte>>)
    requires TableOf(blob, n)
    ensures IsAnswer(blob, guid, r) <==>
            match r
            case None => forall i :: 0 <= i < n ==> !RawServes(blob, n, guid, i)
            case Some(cert) =>
              exists i :: 0 <= i < n && RawServes(blob, n, guid, i) && (forall j :: 0 <= j < i ==> !RawServes(blob, n, guid, j))
                && var offset := RawNumber(blob, 24 * i + 16);
                cert == blob[offset..offset + RawNumber(blob, 24 * i + 20)]
  {
    hide EntryAt, IsZero, Count, Guid, Offset, End, RawNumber;
    RawCount(blob, n, 0);
    forall i | 0 <= i < n ensures Serves(blob, guid, i) == RawServes(blob, n, guid, i) { RawEntry(blob, i); }
    forall i | 0 <= i < n && RawServes(blob, n, guid, i)
      ensures var offset := RawNumber(blob, 24 * i + 16);
              CertOf(blob, i) == blob[offset..offset + RawNumber(blob, 24 * i + 20)]
    {
      RawEntry(blob, i);
    }
  }
}
