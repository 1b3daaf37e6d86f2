/** The searching, splitting and trimming that Rust's slices and `str` provide. */
module Text {
  import opened Wrappers

  // ---- searching ---------------------------------------------------------------------------

  predicate OccursAt<T(==)>(s: seq<T>, sub: seq<T>, i: nat) {
    i + |sub| <= |s| && s[i..i + |sub|] == sub
  }

  ghost predicate Contains<T>(s: seq<T>, sub: seq<T>) {
    exists i: nat :: OccursAt(s, sub, i)
  }

  /** `windows(sub.len()).position(..)`: where `sub` first occurs. */
  function Find<T(==)>(s: seq<T>, sub: seq<T>): (r: Option<nat>)
    ensures r.None? ==> !Contains(s, sub)
    ensures r.Some? ==> OccursAt(s, sub, r.value) && forall j: nat :: j < r.value ==> !OccursAt(s, sub, j)
  {
    FindFrom(s, sub, 0)
  }

  function FindFrom<T(==)>(s: seq<T>, sub: seq<T>, from: nat): (r: Option<nat>)
    ensures r.None? ==> forall j: nat :: from <= j ==> !OccursAt(s, sub, j)
    ensures r.Some? ==> from <= r.value && OccursAt(s, sub, r.value)
    ensures r.Some? ==> forall j: nat :: from <= j < r.value ==> !OccursAt(s, sub, j)
    decreases |s| - from
  {
    if from + |sub| > |s| then None
    else if OccursAt(s, sub, from) then Some(from)
    else FindFrom(s, sub, from + 1)
  }

  /** No proper end of `sep` is also its beginning, so two occurrences never overlap. */
  predicate BorderFree<T(==)>(sep: seq<T>) {
    sep != [] && forall k :: 0 < k < |sep| ==> sep[k..] != sep[..|sep| - k]
  }

  /** The first occurrence does not move when text is appended. */
  lemma FindStable<T>(s: seq<T>, t: seq<T>, sub: seq<T>)
    requires Find(s, sub).Some?
    ensures Find(s + t, sub) == Find(s, sub)
  {
    var i := Find(s, sub).value;
    forall j: nat | j <= i ensures OccursAt(s + t, sub, j) == OccursAt(s, sub, j) {
      assert (s + t)[j..j + |sub|] == s[j..j + |sub|];
    }
    assert OccursAt(s + t, sub, i);
  }

  /** An occurrence that starts inside `a` lies inside `a`, or makes `sep` overlap itself. */
  lemma EarlierOccurrence<T>(a: seq<T>, sep: seq<T>, b: seq<T>, j: nat)
    requires j < |a| && OccursAt(a + sep + b, sep, j)
    ensures Contains(a, sep) || !BorderFree(sep)
  {
    var s := a + sep + b;
    if j + |sep| <= |a| {
      assert a[j..j + |sep|] == s[j..j + |sep|];
      assert OccursAt(a, sep, j);
    } else {
      var k := |a| - j;
      assert s[j..j + |sep|][k..] == s[|a|..j + |sep|];
      assert sep[..|sep| - k] == s[|a|..j + |sep|];
    }
  }

  /** A separator is first found after the text before it, provided that text does not contain it. */
  lemma FindSeparator<T>(a: seq<T>, sep: seq<T>, b: seq<T>)
    requires BorderFree(sep) && !Contains(a, sep)
    ensures Find(a + sep + b, sep) == Some(|a|)
  {
    var s := a + sep + b;
    assert s[|a|..|a| + |sep|] == sep;
    assert OccursAt(s, sep, |a|);
    var i := Find(s, sep).value;
    if i < |a| { EarlierOccurrence(a, sep, b, i); }
  }

  /** A separated pair is determined by the text it makes. */
  lemma SeparatorInjective<T>(a: seq<T>, b: seq<T>, a': seq<T>, b': seq<T>, sep: seq<T>)
    requires BorderFree(sep) && !Contains(a, sep) && !Contains(a', sep)
    requires a + sep + b == a' + sep + b'
    ensures a == a' && b == b'
  {
    FindSeparator(a, sep, b);
    FindSeparator(a', sep, b');
    var s := a + sep + b;
    assert a == s[..|a|] && a' == s[..|a|];
    assert b == s[|a| + |sep|..] && b' == s[|a| + |sep|..];
  }

  lemma SingletonOccurrence<T>(s: seq<T>, x: T)
    ensures BorderFree([x])
    ensures Contains(s, [x]) <==> x in s
  {
    if x in s {
      var i :| 0 <= i < |s| && s[i] == x;
      assert s[i..i + 1] == [x];
      assert OccursAt(s, [x], i);
    }
    if Contains(s, [x]) {
      var i: nat :| OccursAt(s, [x], i);
      assert s[i..i + 1][0] == x;
    }
  }

  lemma SingletonNotBefore<T>(s: seq<T>, x: T, i: nat)
    requires i <= |s| && forall j: nat :: j < i ==> !OccursAt(s, [x], j)
    ensures x !in s[..i]
  {
    forall j: nat | j < i ensures s[j] != x {
      assert s[j..j + 1] == [s[j]];
      assert !OccursAt(s, [x], j);
    }
  }

  lemma ContainsElements<T>(s: seq<T>, sub: seq<T>, x: T)
    requires x in sub
    ensures Contains(s, sub) ==> x in s
  {
    if i: nat :| OccursAt(s, sub, i) {
      var k :| 0 <= k < |sub| && sub[k] == x;
      assert s[i..i + |sub|][k] == s[i + k];
    }
  }

  /** Text without the first element of `sub` adds no occurrence before `b`. */
  lemma ContainsAfter<T>(a: seq<T>, b: seq<T>, sub: seq<T>)
    requires sub != [] && sub[0] !in a
    ensures Contains(a + b, sub) ==> Contains(b, sub)
  {
    if i: nat :| OccursAt(a + b, sub, i) {
      assert (a + b)[i] == (a + b)[i..i + |sub|][0] == sub[0];
      assert (a + b)[i..i + |sub|] == b[i - |a|..i - |a| + |sub|];
      assert OccursAt(b, sub, i - |a|);
    }
  }

  lemma PartContains<T>(a: seq<T>, b: seq<T>, c: seq<T>, sub: seq<T>)
    requires Contains(b, sub)
    ensures Contains(a + b + c, sub)
  {
    var i: nat :| OccursAt(b, sub, i);
    assert (a + b + c)[|a| + i..|a| + i + |sub|] == b[i..i + |sub|];
    assert OccursAt(a + b + c, sub, |a| + i);
  }

  // ---- splitting ---------------------------------------------------------------------------

  /** `str::split_once` on one character. */
  function SplitOnce(s: string, c: char): (r: Option<(string, string)>)
    ensures r.None? ==> c !in s
    ensures r.Some? ==> s == r.value.0 + [c] + r.value.1 && c !in r.value.0
  {
    match Find(s, [c])
    case None =>
      SingletonOccurrence(s, c);
      None
    case Some(i) =>
      assert s[i..i + 1] == [c];
      SingletonNotBefore(s, c, i);
      Some((s[..i], s[i + 1..]))
  }

  lemma SplitOnceNone(s: string, c: char)
    requires c !in s
    ensures SplitOnce(s, c).None?
  {
    SingletonOccurrence(s, c);
  }

  lemma SplitOnceAt(a: string, c: char, b: string)
    requires c !in a
    ensures SplitOnce(a + [c] + b, c) == Some((a, b))
  {
    SingletonOccurrence(a, c);
    var s := a + [c] + b;
    var r := SplitOnce(s, c);
    assert s[|a|] == c;
    SingletonOccurrence(r.value.0, c);
    SeparatorInjective(a, b, r.value.0, r.value.1, [c]);
  }

  /** `str::split` on one character: there is always at least one part. */
  function Split(s: string, c: char): (r: seq<string>)
    ensures |r| >= 1
    decreases |s|
  {
    match SplitOnce(s, c)
    case None => [s]
    case Some((a, b)) => [a] + Split(b, c)
  }

  /** The lines of a text, each with its line feed; the last one may lack it. */
  function CutLines(s: string): seq<string>
    decreases |s|
  {
    match SplitOnce(s, '\n')
    case None => if s == "" then [] else [s]
    case Some((a, b)) => [a + "\n"] + CutLines(b)
  }

  predicate IsTextLine(l: string) { l != "" && l[|l| - 1] == '\n' && '\n' !in l[..|l| - 1] }

  lemma CutFirst(a: string, b: string)
    requires '\n' !in a
    ensures CutLines(a + "\n" + b) == [a + "\n"] + CutLines(b)
  {
    SplitOnceAt(a, '\n', b);
  }

  /** The first line begins with what comes before any line feed. */
  lemma CutStart(a: string, b: string)
    requires a != "" && '\n' !in a
    ensures CutLines(a + b) != [] && a <= CutLines(a + b)[0]
  {
    hide SplitOnce;
    match SplitOnce(b, '\n') {
      case None =>
        SplitOnceNone(a + b, '\n');
      case Some((x, y)) =>
        assert a + b == (a + x) + "\n" + y;
        CutFirst(a + x, y);
        assert (a + x + "\n")[..|a|] == a;
    }
  }

  /** Text that ends in a line feed is cut independently of what follows. */
  lemma {:induction false} CutAppend(s: string, t: string)
    requires s != "" && s[|s| - 1] == '\n'
    ensures CutLines(s) != [] && CutLines(s + t) == CutLines(s) + CutLines(t)
    decreases |s|
  {
    hide SplitOnce;
    var (a, b) := SplitOnce(s, '\n').value;
    assert s + t == a + "\n" + (b + t);
    CutFirst(a, b + t);
    if b == "" {
      assert b + t == t && CutLines(b) == [];
    } else {
      assert b[|b| - 1] == s[|s| - 1];
      CutAppend(b, t);
    }
  }

  lemma {:induction false} CutIsLines(s: string)
    requires s == "" || s[|s| - 1] == '\n'
    ensures forall l :: l in CutLines(s) ==> IsTextLine(l)
    decreases |s|
  {
    hide SplitOnce;
    if s != "" {
      var (a, b) := SplitOnce(s, '\n').value;
      assert IsTextLine(a + "\n") by { assert (a + "\n")[..|a|] == a; }
      if b != "" { assert b[|b| - 1] == s[|s| - 1]; }
      CutIsLines(b);
    }
  }

  function Join(parts: seq<string>, c: char): string {
    if |parts| == 0 then ""
    else if |parts| == 1 then parts[0]
    else parts[0] + [c] + Join(parts[1..], c)
  }

  /** Splitting inverts joining for parts without the separator. */
  lemma {:induction false} SplitJoin(parts: seq<string>, c: char)
    requires |parts| >= 1
    requires forall p :: p in parts ==> c !in p
    ensures Split(Join(parts, c), c) == parts
  {
    if |parts| == 1 {
      assert parts[0] in parts;
      assert SplitOnce(parts[0], c).None?;
    } else {
      assert parts[0] in parts;
      SplitOnceAt(parts[0], c, Join(parts[1..], c));
      SplitJoin(parts[1..], c);
    }
  }

  // ---- trimming ----------------------------------------------------------------------------

  /** The Unicode White_Space property, as `char::is_whitespace` has it. */
  predicate IsWhitespace(c: char) {
    var cp := c as int;
    || 0x09 <= cp <= 0x0D || cp == 0x20 || cp == 0x85 || cp == 0xA0 || cp == 0x1680
    || 0x2000 <= cp <= 0x200A || cp == 0x2028 || cp == 0x2029 || cp == 0x202F
    || cp == 0x205F || cp == 0x3000
  }

  function TrimStart<T>(s: seq<T>, p: T -> bool): seq<T> {
    if s != [] && p(s[0]) then TrimStart(s[1..], p) else s
  }

  function TrimEnd<T>(s: seq<T>, p: T -> bool): seq<T> {
    if s != [] && p(s[|s| - 1]) then TrimEnd(s[..|s| - 1], p) else s
  }

  lemma TrimStartRound<T>(s: seq<T>, p: T -> bool)
    ensures TrimStart(s, p) == if s != [] && p(s[0]) then TrimStart(s[1..], p) else s
  {}

  lemma TrimEndRound<T>(s: seq<T>, p: T -> bool)
    ensures TrimEnd(s, p) == if s != [] && p(s[|s| - 1]) then TrimEnd(s[..|s| - 1], p) else s
  {}

  function TrimBy<T>(s: seq<T>, p: T -> bool): seq<T> { TrimEnd(TrimStart(s, p), p) }

  /** `str::trim`. */
  function Trim(s: string): string { TrimBy(s, IsWhitespace) }

  /** Neither end of `s` would be trimmed. */
  predicate Trimmed<T>(s: seq<T>, p: T -> bool) {
    s == [] || (!p(s[0]) && !p(s[|s| - 1]))
  }

  lemma {:induction false} TrimStartPadding<T>(pad: seq<T>, s: seq<T>, p: T -> bool)
    requires forall i :: 0 <= i < |pad| ==> p(pad[i])
    ensures TrimStart(pad + s, p) == TrimStart(s, p)
  {
    if pad == [] {
      assert pad + s == s;
    } else {
      assert (pad + s)[0] == pad[0] && (pad + s)[1..] == pad[1..] + s;
      TrimStartPadding(pad[1..], s, p);
    }
  }

  lemma {:induction false} TrimEndPadding<T>(s: seq<T>, pad: seq<T>, p: T -> bool)
    requires forall i :: 0 <= i < |pad| ==> p(pad[i])
    ensures TrimEnd(s + pad, p) == TrimEnd(s, p)
  {
    if pad == [] {
      assert s + pad == s;
    } else {
      var t := s + pad;
      assert t[|t| - 1] == pad[|pad| - 1] && t[..|t| - 1] == s + pad[..|pad| - 1];
      TrimEndPadding(s, pad[..|pad| - 1], p);
    }
  }

  lemma {:induction false} TrimEndAfter<T>(pre: seq<T>, s: seq<T>, p: T -> bool)
    requires pre != [] && !p(pre[|pre| - 1])
    ensures TrimEnd(pre + s, p) == pre + TrimEnd(s, p)
  {
    if s == [] {
      assert pre + s == pre;
    } else {
      var t := pre + s;
      assert t[..|t| - 1] == pre + s[..|s| - 1];
      TrimEndAfter(pre, s[..|s| - 1], p);
    }
  }

  lemma {:induction false} TrimEndPrefix<T>(s: seq<T>, p: T -> bool)
    ensures TrimEnd(s, p) <= s
  {
    if s != [] { TrimEndPrefix(s[..|s| - 1], p); }
  }

  /** Trimming removes exactly the padding around a trimmed text. */
  lemma TrimPadded<T>(pre: seq<T>, s: seq<T>, suf: seq<T>, p: T -> bool)
    requires forall i :: 0 <= i < |pre| ==> p(pre[i])
    requires forall i :: 0 <= i < |suf| ==> p(suf[i])
    requires Trimmed(s, p)
    ensures TrimBy(pre + s + suf, p) == s
  {
    assert pre + s + suf == pre + (s + suf);
    TrimStartPadding(pre, s + suf, p);
    if s == [] {
      assert s + suf == suf + [];
      TrimStartPadding(suf, [], p);
    } else {
      assert TrimStart(s + suf, p) == s + suf;
      TrimEndPadding(s, suf, p);
    }
  }

  lemma {:induction false} TrimStartShape<T>(s: seq<T>, p: T -> bool) returns (pre: seq<T>)
    ensures s == pre + TrimStart(s, p) && forall i :: 0 <= i < |pre| ==> p(pre[i])
    ensures TrimStart(s, p) != [] ==> !p(TrimStart(s, p)[0])
  {
    pre := [];
    if s != [] && p(s[0]) {
      var rest := TrimStartShape(s[1..], p);
      pre := [s[0]] + rest;
    }
  }

  lemma {:induction false} TrimEndShape<T>(s: seq<T>, p: T -> bool) returns (suf: seq<T>)
    ensures s == TrimEnd(s, p) + suf && forall i :: 0 <= i < |suf| ==> p(suf[i])
    ensures TrimEnd(s, p) != [] ==> !p(TrimEnd(s, p)[|TrimEnd(s, p)| - 1])
  {
    suf := [];
    if s != [] && p(s[|s| - 1]) {
      var rest := TrimEndShape(s[..|s| - 1], p);
      suf := rest + [s[|s| - 1]];
    }
  }

  /** What trimming returns is trimmed, and is the middle of the text between two paddings. */
  lemma TrimShape<T>(s: seq<T>, p: T -> bool) returns (pre: seq<T>, suf: seq<T>)
    ensures s == pre + TrimBy(s, p) + suf
    ensures forall i :: 0 <= i < |pre| ==> p(pre[i])
    ensures forall i :: 0 <= i < |suf| ==> p(suf[i])
    ensures Trimmed(TrimBy(s, p), p)
  {
    hide TrimStart, TrimEnd;
    pre := TrimStartShape(s, p);
    suf := TrimEndShape(TrimStart(s, p), p);
  }

  // ---- ASCII case --------------------------------------------------------------------------

  function LowerChar(c: char): char {
    if 'A' <= c <= 'Z' then (c as int + 32) as char else c
  }

  /** `to_ascii_lowercase`. */
  function Lower(s: string): (r: string)
    ensures |r| == |s| && forall i :: 0 <= i < |s| ==> r[i] == LowerChar(s[i])
  {
    seq(|s|, i requires 0 <= i < |s| => LowerChar(s[i]))
  }

  lemma LowerIdempotent(s: string)
    ensures Lower(Lower(s)) == Lower(s)
  {}
}
