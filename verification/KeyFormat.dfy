/** Database keys: a prefix byte and fixed-width segments, so that byte order is the order of the versions in them. */
module KeyFormat {
  import opened Bytes
  import opened ByteSuccessor
  import opened SortedList
  import opened PrefixRange

  datatype Format = Format(prefix: Byte, layout: seq<nat>)

  /** A segment filled up on the left. */
  function Padded(s: Bytes, width: nat): (r: Bytes)
    requires |s| <= width
    ensures |r| == width
  {
    Zeros(width - |s|) + s
  }

  /** The segments fit the layout; otherwise formatting panics. */
  predicate FitsLayout(layout: seq<nat>, segments: seq<Bytes>) {
    |segments| <= |layout| && forall i :: 0 <= i < |segments| ==> |segments[i]| <= layout[i]
  }

  function Tail(layout: seq<nat>, segments: seq<Bytes>): Bytes
    requires FitsLayout(layout, segments)
  {
    if segments == [] then [] else Padded(segments[0], layout[0]) + Tail(layout[1..], segments[1..])
  }

  /** `KeyBytes`. */
  function KeyBytes(f: Format, segments: seq<Bytes>): Bytes
    requires FitsLayout(f.layout, segments)
  {
    [f.prefix] + Tail(f.layout, segments)
  }

  function Total(layout: seq<nat>): nat {
    if layout == [] then 0 else layout[0] + Total(layout[1..])
  }

  lemma TailCons(layout: seq<nat>, s: Bytes, segments: seq<Bytes>)
    requires FitsLayout(layout, [s] + segments) && |s| == layout[0]
    ensures FitsLayout(layout[1..], segments) && Tail(layout, [s] + segments) == s + Tail(layout[1..], segments)
  {
    var all := [s] + segments;
    assert all[1..] == segments;
    assert forall i :: 0 <= i < |segments| ==> segments[i] == all[i + 1];
    assert Zeros(0) + s == s;
  }

  lemma {:induction false} TailSnoc(layout: seq<nat>, segments: seq<Bytes>, k: nat)
    requires FitsLayout(layout, segments) && k < |segments|
    ensures Tail(layout, segments[..k + 1]) == Tail(layout, segments[..k]) + Padded(segments[k], layout[k])
  {
    if k == 0 {
      assert segments[..1][1..] == [] && segments[..0] == [];
    } else {
      assert segments[..k + 1][1..] == segments[1..][..k] && segments[..k][1..] == segments[1..][..k - 1];
      TailSnoc(layout[1..], segments[1..], k - 1);
    }
  }

  lemma KeyNext(f: Format, segments: seq<Bytes>, i: nat)
    requires i < |segments| <= |f.layout| && FitsLayout(f.layout, segments[..i]) && |segments[i]| <= f.layout[i]
    ensures FitsLayout(f.layout, segments[..i + 1])
    ensures KeyBytes(f, segments[..i + 1]) == KeyBytes(f, segments[..i]) + Padded(segments[i], f.layout[i])
  {
    var s := segments[..i + 1];
    assert s[..i] == segments[..i] && s[..i + 1] == s;
    assert forall j :: 0 <= j < i ==> s[j] == segments[..i][j];
    TailSnoc(f.layout, s, i);
  }

  /** `copy` of a segment to the right end of its slot in a buffer that is still zero from there on. */
  method CopySegment(key: array<Byte>, n: nat, l: nat, s: Bytes)
    requires |s| <= l && n + l <= key.Length && forall j :: n <= j < key.Length ==> key[j] == 0
    modifies key
    ensures key[..n] == old(key[..n]) && key[n..n + l] == Padded(s, l)
    ensures forall j :: n + l <= j < key.Length ==> key[j] == 0
  {
    var from := n + l - |s|;
    for j := 0 to |s|
      invariant key[..n] == old(key[..n]) && key[from..from + j] == s[..j]
      invariant forall i :: n <= i < from || n + l <= i < key.Length ==> key[i] == 0
    {
      key[from + j] := s[j];
    }
    assert key[n..n + l] == key[n..from] + key[from..n + l];
    assert key[n..from] == Zeros(l - |s|);
  }

  /** `KeyBytes`, filling a zeroed buffer at a running offset. */
  method RunKeyBytes(f: Format, segments: seq<Bytes>) returns (r: Option<Bytes>)
    ensures r == if FitsLayout(f.layout, segments) then Some(KeyBytes(f, segments)) else None
  {
    if |segments| > |f.layout| { return None; }
    var key := new Byte[1 + Total(f.layout)](_ => 0);
    key[0] := f.prefix;
    var n := 1;
    assert key[..1] == KeyBytes(f, []);
    for i := 0 to |segments|
      invariant FitsLayout(f.layout, segments[..i]) && n == 1 + Total(f.layout[..i]) <= key.Length
      invariant key[..n] == KeyBytes(f, segments[..i])
      invariant forall j :: n <= j < key.Length ==> key[j] == 0
    {
      var s, l := segments[i], f.layout[i];
      if |s| > l { return None; }
      TotalSnoc(f.layout, i);
      KeyNext(f, segments, i);
      CopySegment(key, n, l, s);
      assert key[..n + l] == key[..n] + key[n..n + l];
      n := n + l;
    }
    assert segments[..|segments|] == segments;
    r := Some(key[..n]);
  }

  lemma {:induction false} TotalSnoc(layout: seq<nat>, i: nat)
    requires i < |layout|
    ensures Total(layout[..i + 1]) == Total(layout[..i]) + layout[i] <= Total(layout)
  {
    if i == 0 {
      assert layout[..1][1..] == [] && layout[..0] == [];
    } else {
      assert layout[..i + 1][1..] == layout[1..][..i] && layout[..i][1..] == layout[1..][..i - 1];
      TotalSnoc(layout[1..], i - 1);
    }
  }

  /** `ScanBytes`: the segments that are there in full. */
  function ScanBytes(f: Format, key: Bytes): seq<Bytes> {
    if key == [] then [] else ScanTail(f.layout, key[1..])
  }

  function ScanTail(layout: seq<nat>, rest: Bytes): seq<Bytes> {
    if layout == [] || layout[0] > |rest| then [] else [rest[..layout[0]]] + ScanTail(layout[1..], rest[layout[0]..])
  }

  /** No empty slot follows the segments, so that scanning stops behind them. */
  predicate EndsThere(layout: seq<nat>, n: nat) {
    n < |layout| ==> layout[n] > 0
  }

  /** Scanning a key gives its segments back, padded, and then only empty slots. */
  lemma {:induction false} ScanKey(layout: seq<nat>, segments: seq<Bytes>)
    requires FitsLayout(layout, segments)
    ensures var scanned := ScanTail(layout, Tail(layout, segments));
            |segments| <= |scanned| && (|scanned| == |segments| <==> EndsThere(layout, |segments|)) &&
            forall i :: 0 <= i < |segments| ==> scanned[i] == Padded(segments[i], layout[i])
  {
    if segments != [] {
      ScanKey(layout[1..], segments[1..]);
      var first, rest := Padded(segments[0], layout[0]), Tail(layout[1..], segments[1..]);
      assert (first + rest)[..layout[0]] == first && (first + rest)[layout[0]..] == rest;
    }
  }

  /** So a key gives back the segments themselves if and only if they fill their slots and no empty slot follows. */
  lemma FormatRoundTrip(f: Format, segments: seq<Bytes>)
    requires FitsLayout(f.layout, segments)
    ensures var scanned := ScanBytes(f, KeyBytes(f, segments));
            |segments| <= |scanned| && (forall i :: 0 <= i < |segments| ==> scanned[i] == Padded(segments[i], f.layout[i])) &&
            (scanned == segments <==>
             EndsThere(f.layout, |segments|) && forall i :: 0 <= i < |segments| ==> |segments[i]| == f.layout[i])
  {
    ScanKey(f.layout, segments);
    assert KeyBytes(f, segments)[1..] == Tail(f.layout, segments);
    forall i | 0 <= i < |segments| && |segments[i]| == f.layout[i] ensures Padded(segments[i], f.layout[i]) == segments[i] {
      assert Zeros(0) + segments[i] == segments[i];
    }
  }

  // ---------- numbers as bytes ----------

  function Pow256(n: nat): nat {
    if n == 0 then 1 else 256 * Pow256(n - 1)
  }

  /** The low `n` bytes of a number, most significant first. */
  function BigEndian(v: nat, n: nat): (b: Bytes)
    ensures |b| == n
    decreases n
  {
    if n == 0 then [] else BigEndian(v / 256, n - 1) + [v % 256]
  }

  function NumberOf(b: Bytes): nat {
    if b == [] then 0 else 256 * NumberOf(b[..|b| - 1]) + b[|b| - 1]
  }

  lemma {:induction false} BigEndianRoundTrip(v: nat, n: nat)
    requires v < Pow256(n)
    ensures NumberOf(BigEndian(v, n)) == v
    decreases n
  {
    if n > 0 {
      BigEndianRoundTrip(v / 256, n - 1);
      assert BigEndian(v, n)[..n - 1] == BigEndian(v / 256, n - 1);
    }
  }

  /** Big-endian bytes of one width are ordered like the numbers. */
  lemma {:induction false} BigEndianOrder(v: nat, w: nat, n: nat)
    requires v < Pow256(n) && w < Pow256(n)
    ensures Lt(BigEndian(v, n), BigEndian(w, n)) <==> v < w
    ensures BigEndian(v, n) == BigEndian(w, n) <==> v == w
    decreases n
  {
    BigEndianRoundTrip(v, n);
    BigEndianRoundTrip(w, n);
    if n > 0 {
      BigEndianOrder(v / 256, w / 256, n - 1);
      BigEndianRoundTrip(v / 256, n - 1);
      BigEndianRoundTrip(w / 256, n - 1);
      var a, b := BigEndian(v, n), BigEndian(w, n);
      LtSnoc(a, b);
      assert a[..n - 1] == BigEndian(v / 256, n - 1) && b[..n - 1] == BigEndian(w / 256, n - 1);
    }
  }

  /** Filling up on the left keeps the number that the bytes write. */
  lemma {:induction false} PaddedNumber(s: Bytes, width: nat)
    requires |s| <= width
    ensures NumberOf(Padded(s, width)) == NumberOf(s)
    decreases width
  {
    if s == [] {
      assert Padded(s, width) == Zeros(width);
      if width > 0 {
        assert Zeros(width)[..width - 1] == Padded(s, width - 1);
        PaddedNumber(s, width - 1);
      }
    } else {
      var init := s[..|s| - 1];
      assert Padded(s, width)[..width - 1] == Padded(init, width - 1);
      PaddedNumber(init, width - 1);
    }
  }

  lemma {:induction false} NumberBelow(b: Bytes)
    ensures NumberOf(b) < Pow256(|b|) && (NumberOf(b) == Pow256(|b|) - 1 <==> AllFF(b))
  {
    if b != [] {
      var n := |b| - 1;
      NumberBelow(b[..n]);
      assert b == b[..n] + [b[n]];
      assert AllFF(b) <==> AllFF(b[..n]) && b[n] == 255;
    }
  }

  /** `cpIncr` adds one to the number that the key writes; the greatest one of its width becomes a longer zero. */
  lemma CpIncrAdds(b: Bytes)
    ensures if NumberOf(b) + 1 < Pow256(|b|) then NumberOf(CpIncr(b)) == NumberOf(b) + 1 && |CpIncr(b)| == |b|
            else NumberOf(CpIncr(b)) == 0 && |CpIncr(b)| == |b| + 1
  {
    NumberBelow(b);
    if AllFF(b) { ZeroNumber(|b| + 1); } else { IncrAdds(b); }
  }

  lemma ZeroNumber(n: nat)
    ensures NumberOf(Zeros(n)) == 0
  {
    PaddedNumber([], n);
    assert Padded([], n) == Zeros(n);
  }

  lemma {:induction false} IncrAdds(b: Bytes)
    requires !AllFF(b)
    ensures NumberOf(Incr(b)) == NumberOf(b) + 1
  {
    var n := |b| - 1;
    assert Incr(b)[..n] == if b[n] < 255 then b[..n] else Incr(b[..n]);
    if b[n] == 255 { IncrAdds(b[..n]); }
  }

  // ---------- versions in keys ----------

  /** The key formats of the node database. */
  const NODE := Format(110, [32])
  const ORPHAN := Format(111, [8, 8, 32])
  const ROOT := Format(114, [8])

  /** Versions are non-negative `int64` values. */
  predicate IsVersion(v: int) {
    0 <= v < 0x8000_0000_0000_0000
  }

  lemma VersionFits(v: int)
    requires IsVersion(v)
    ensures v < Pow256(8)
  {
    assert Pow256(8) == 256 * 256 * 256 * 256 * Pow256(4) && Pow256(4) == 256 * 256 * 256 * 256;
  }

  function RootKey(v: int): (k: Bytes)
    requires IsVersion(v)
  {
    KeyBytes(ROOT, [BigEndian(v, 8)])
  }

  function OrphanKey(to: int, from: int, hash: Bytes): (k: Bytes)
    requires IsVersion(to) && IsVersion(from) && |hash| == 32
  {
    KeyBytes(ORPHAN, [BigEndian(to, 8), BigEndian(from, 8), hash])
  }

  lemma OneSegment(f: Format, s: Bytes)
    requires |f.layout| > 0 && |s| == f.layout[0]
    ensures KeyBytes(f, [s]) == [f.prefix] + s
  {
    assert [s][1..] == [];
    assert Zeros(0) + s == s && s + [] == s;
    assert Tail(f.layout, [s]) == Padded(s, f.layout[0]) + Tail(f.layout[1..], []);
  }

  /** A range of root keys holds the roots of a range of versions. */
  lemma RootRange(v: int, from: int, to: int)
    requires IsVersion(v) && IsVersion(from) && IsVersion(to)
    ensures InDomain(RootKey(v), Some(RootKey(from)), Some(RootKey(to))) <==> from <= v < to
  {
    RootOrder(v, from);
    RootOrder(from, v);
    RootOrder(v, to);
  }

  lemma RootOrder(v: int, w: int)
    requires IsVersion(v) && IsVersion(w)
    ensures Lt(RootKey(v), RootKey(w)) <==> v < w
    ensures RootKey(v) == RootKey(w) <==> v == w
  {
    VersionFits(v);
    VersionFits(w);
    OneSegment(ROOT, BigEndian(v, 8));
    OneSegment(ROOT, BigEndian(w, 8));
    BigEndianOrder(v, w, 8);
    PrefixOrder([ROOT.prefix], BigEndian(v, 8), BigEndian(w, 8));
  }

  /** The keys that start with `o` and a version are the orphans that live until that version. */
  lemma OrphanPrefix(v: int, to: int, from: int, hash: Bytes)
    requires IsVersion(v) && IsVersion(to) && IsVersion(from) && |hash| == 32
    ensures OrphansOf(v) <= OrphanKey(to, from, hash) <==> v == to
  {
    VersionFits(v);
    VersionFits(to);
    var a, b := BigEndian(v, 8), BigEndian(to, 8);
    OneSegment(ORPHAN, a);
    BigEndianOrder(v, to, 8);
    var rest := OrphanRest(to, from, hash);
    SamePrefix([ORPHAN.prefix], a, b, rest);
  }

  lemma OrphanRest(to: int, from: int, hash: Bytes) returns (rest: Bytes)
    requires IsVersion(to) && IsVersion(from) && |hash| == 32
    ensures OrphanKey(to, from, hash) == [ORPHAN.prefix] + BigEndian(to, 8) + rest
  {
    var b, segments := BigEndian(to, 8), [BigEndian(from, 8), hash];
    TailCons(ORPHAN.layout, b, segments);
    rest := Tail(ORPHAN.layout[1..], segments);
    assert [b] + segments == [b, BigEndian(from, 8), hash];
    assert [ORPHAN.prefix] + (b + rest) == [ORPHAN.prefix] + b + rest;
  }

  lemma SamePrefix(p: Bytes, a: Bytes, b: Bytes, rest: Bytes)
    requires |a| == |b|
    ensures p + a <= p + b + rest <==> a == b
  {
    assert (p + b + rest)[..|p| + |b|] == p + b;
    if p + a == p + b { assert a == (p + a)[|p|..] && b == (p + b)[|p|..]; }
  }

  // ---------- entries of different kinds ----------

  function NodeKey(hash: Bytes): (k: Bytes)
    requires |hash| == 32
  {
    KeyBytes(NODE, [hash])
  }

  function OrphansOf(v: int): (k: Bytes)
    requires IsVersion(v)
  {
    KeyBytes(ORPHAN, [BigEndian(v, 8)])
  }

  /** A key of another kind lies in no range of root keys. */
  lemma OutsideRoots(k: Bytes, from: int, to: int)
    requires IsVersion(from) && IsVersion(to) && k != [] && k[0] != ROOT.prefix
    ensures !InDomain(k, Some(RootKey(from)), Some(RootKey(to)))
  {
  }

  /** And under no prefix of orphan keys. */
  lemma NoOrphan(k: Bytes, v: int)
    requires IsVersion(v) && k != [] && k[0] != ORPHAN.prefix
    ensures !(OrphansOf(v) <= k)
  {
    assert OrphansOf(v)[0] == ORPHAN.prefix;
  }

  /** Iterating roots meets no node and no orphan entry, iterating orphans no node and no root, and no two entries of
      different kinds share a key. */
  lemma KindsApart(v: int, to: int, from: int, hash: Bytes, node: Bytes, low: int, high: int)
    requires IsVersion(v) && IsVersion(to) && IsVersion(from) && IsVersion(low) && IsVersion(high) && |hash| == |node| == 32
    ensures !InDomain(OrphanKey(to, from, hash), Some(RootKey(low)), Some(RootKey(high)))
    ensures !InDomain(NodeKey(node), Some(RootKey(low)), Some(RootKey(high)))
    ensures !(OrphansOf(v) <= RootKey(low)) && !(OrphansOf(v) <= NodeKey(node))
    ensures NodeKey(node) != RootKey(v) && RootKey(v) != OrphanKey(to, from, hash) && OrphanKey(to, from, hash) != NodeKey(node)
  {
    OutsideRoots(OrphanKey(to, from, hash), low, high);
    OutsideRoots(NodeKey(node), low, high);
    NoOrphan(RootKey(low), v);
    NoOrphan(NodeKey(node), v);
    assert NodeKey(node)[0] == NODE.prefix && RootKey(v)[0] == ROOT.prefix && OrphanKey(to, from, hash)[0] == ORPHAN.prefix;
  }
}
