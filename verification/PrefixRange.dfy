/** `PrefixEndBytes`, and why the range from a prefix to its end holds exactly the keys with that prefix. */
module PrefixRange {
  import opened Bytes
  import opened SortedList

  /** The end of the range of keys with a prefix; absent if that range is unbounded. */
  function PrefixEnd(p: Bytes): Option<Bytes> {
    if p == [] then None
    else
      var n := |p| - 1;
      if p[n] != 255 then Some(p[..n] + [p[n] + 1]) else PrefixEnd(p[..n])
  }

  /** `PrefixEndBytes`: shrinks and increments a copy of the prefix. */
  method PrefixEndBytes(prefix: Bytes) returns (r: Option<Bytes>)
    ensures r == PrefixEnd(prefix)
  {
    if |prefix| == 0 { return None; }
    var end := prefix;
    while true
      invariant end != [] && PrefixEnd(end) == PrefixEnd(prefix)
      decreases |end|
    {
      var n := |end| - 1;
      if end[n] != 255 {
        assert end[n := end[n] + 1] == end[..n] + [end[n] + 1];
        end := end[n := end[n] + 1];
        return Some(end);
      }
      end := end[..n];
      if |end| == 0 { return None; }
    }
  }

  lemma {:induction false} PrefixEndCons(b: Byte, q: Bytes)
    ensures PrefixEnd([b] + q) ==
            match PrefixEnd(q) { case Some(e) => Some([b] + e) case None => if b == 255 then None else Some([b + 1]) }
  {
    var n := |q| - 1;
    if q == [] {
      assert [b] + q == [b] && [b][..0] == [];
      assert [b][..0] + [b + 1] == [b + 1];
    } else {
      assert ([b] + q)[..n + 1] == [b] + q[..n];
      if q[n] == 255 {
        PrefixEndCons(b, q[..n]);
      } else {
        assert ([b] + q[..n]) + [q[n] + 1] == [b] + (q[..n] + [q[n] + 1]);
      }
    }
  }

  /** Exactness: a key lies in `[p, PrefixEnd(p))` if and only if it has prefix `p`. */
  lemma {:induction false} PrefixRangeExact(p: Bytes, k: Key)
    ensures InDomain(k, Some(p), PrefixEnd(p)) <==> p <= k
  {
    if p == [] {
    } else {
      assert p == [p[0]] + p[1..];
      PrefixEndCons(p[0], p[1..]);
      if k != [] {
        assert k == [k[0]] + k[1..];
        PrefixRangeExact(p[1..], k[1..]);
        PrefixHead(p, k);
        var end := PrefixEnd(p[1..]);
        if end.Some? {
          assert ([p[0]] + end.value)[1..] == end.value;
        } else if p[0] != 255 {
          assert PrefixEnd(p) == Some([p[0] + 1]) && [p[0] + 1][1..] == [];
          assert Lt(k, [p[0] + 1]) <==> k[0] <= p[0];
        }
      }
    }
  }

  lemma PrefixHead(p: Bytes, k: Bytes)
    requires p != [] && k != []
    ensures p <= k <==> p[0] == k[0] && p[1..] <= k[1..]
    ensures Le(p, k) <==> p[0] < k[0] || (p[0] == k[0] && Le(p[1..], k[1..]))
  {
    if p[0] == k[0] && p[1..] <= k[1..] {
      assert p == [p[0]] + p[1..] && k == [k[0]] + k[1..];
      assert k[..|p|] == [k[0]] + k[1..][..|p| - 1];
    }
    if p[0] == k[0] && p[1..] == k[1..] { assert p == [p[0]] + p[1..] && k == [k[0]] + k[1..]; }
  }

  /** Appending to a common prefix keeps the order. */
  lemma {:induction false} PrefixOrder(p: Bytes, a: Bytes, b: Bytes)
    ensures Lt(p + a, p + b) <==> Lt(a, b)
    ensures p + a == p + b <==> a == b
  {
    if p == [] {
      assert p + a == a && p + b == b;
    } else {
      assert (p + a)[1..] == p[1..] + a && (p + b)[1..] == p[1..] + b;
      PrefixOrder(p[1..], a, b);
      if p + a == p + b { assert a == (p + a)[|p|..] && b == (p + b)[|p|..]; }
    }
  }

  // ---------- the submap under a prefix ----------

  /** The entries whose keys have the prefix, with the prefix stripped. */
  ghost function Sub(m: map<Key, Value>, p: Bytes): map<Key, Value> {
    map k | k in (set x | x in m && p <= x :: x[|p|..]) && p + k in m :: m[p + k]
  }

  lemma SubKey(m: map<Key, Value>, p: Bytes, k: Key)
    ensures k in Sub(m, p) <==> p + k in m
    ensures k in Sub(m, p) ==> Sub(m, p)[k] == m[p + k]
  {
    if p + k in m { assert p <= p + k && (p + k)[|p|..] == k; }
  }

  lemma SubSet(m: map<Key, Value>, p: Bytes, k: Key, v: Value)
    ensures Sub(m[p + k := v], p) == Sub(m, p)[k := v]
  {
    var m1 := m[p + k := v];
    var s, s1 := Sub(m, p)[k := v], Sub(m1, p);
    forall x ensures (x in s1 <==> x in s) && (x in s1 ==> s1[x] == s[x]) {
      SubKey(m, p, x);
      SubKey(m1, p, x);
      PrefixOrder(p, x, k);
    }
  }

  lemma SubDelete(m: map<Key, Value>, p: Bytes, k: Key)
    ensures Sub(m - {p + k}, p) == Sub(m, p) - {k}
  {
    var m1 := m - {p + k};
    var s, s1 := Sub(m, p) - {k}, Sub(m1, p);
    forall x ensures (x in s1 <==> x in s) && (x in s1 ==> s1[x] == s[x]) {
      SubKey(m, p, x);
      SubKey(m1, p, x);
      PrefixOrder(p, x, k);
    }
  }

  // ---------- iterating under a prefix ----------

  function PrefixStart(p: Bytes, start: Option<Key>): Key {
    p + if start.Some? then start.value else []
  }

  /** The parent's bounds for a domain under a prefix. */
  function PrefixStop(p: Bytes, end: Option<Key>): Option<Key> {
    if end.Some? then Some(p + end.value) else PrefixEnd(p)
  }

  lemma AfterPrefix(p: Bytes, k: Key)
    ensures Le(p, p + k)
  {
    PrefixOrder(p, [], k);
    assert p + [] == p;
  }

  /** The parent's domain holds only keys with the prefix. */
  lemma PrefixedDomain(p: Bytes, x: Key, start: Option<Key>, end: Option<Key>)
    requires InDomain(x, Some(PrefixStart(p, start)), PrefixStop(p, end))
    ensures p <= x
  {
    AfterPrefix(p, if start.Some? then start.value else []);
    PrefixRangeExact(p, x);
    if end.Some? { PrefixRangeExact(p, p + end.value); }
    LtTotalOrder();
  }

  /** And of those it holds the ones whose rest lies in the domain. */
  lemma DomainShift(p: Bytes, k: Key, start: Option<Key>, end: Option<Key>)
    ensures InDomain(p + k, Some(PrefixStart(p, start)), PrefixStop(p, end)) <==> InDomain(k, start, end)
  {
    PrefixOrder(p, if start.Some? then start.value else [], k);
    if end.Some? { PrefixOrder(p, k, end.value); } else { PrefixRangeExact(p, p + k); }
  }

  lemma SubRestrict(m: map<Key, Value>, p: Bytes, start: Option<Key>, end: Option<Key>)
    ensures Sub(Restrict(m, Some(PrefixStart(p, start)), PrefixStop(p, end)), p) == Restrict(Sub(m, p), start, end)
  {
    var r := Restrict(m, Some(PrefixStart(p, start)), PrefixStop(p, end));
    var s, s1 := Restrict(Sub(m, p), start, end), Sub(r, p);
    forall x ensures (x in s1 <==> x in s) && (x in s1 ==> s1[x] == s[x]) {
      SubKey(m, p, x);
      SubKey(r, p, x);
      DomainShift(p, x, start, end);
    }
  }

  /** What the prefix iterator makes of the parent's rows: the run with the prefix, stripped. */
  function Strip(rows: Entries<Value>, p: Bytes): Entries<Value> {
    if rows == [] || !(p <= rows[0].0) then [] else [(rows[0].0[|p|..], rows[0].1)] + Strip(rows[1..], p)
  }

  lemma {:induction false} StripAfter(k: Key, rows: Entries<Value>, p: Bytes, ascending: bool)
    requires AllAfter(p + k, rows, ascending)
    ensures AllAfter(k, Strip(rows, p), ascending)
  {
    if rows != [] && p <= rows[0].0 {
      StripAfter(k, rows[1..], p, ascending);
      var x := rows[0].0[|p|..];
      assert rows[0].0 == p + x;
      PrefixOrder(p, k, x);
      PrefixOrder(p, x, k);
    }
  }

  lemma {:induction false} StripLists(rows: Entries<Value>, p: Bytes, ascending: bool)
    requires Ordered(rows, ascending) && forall i :: 0 <= i < |rows| ==> p <= rows[i].0
    ensures Lists(Strip(rows, p), Sub(ToMap(rows), p), ascending)
  {
    if rows != [] {
      OrderedTail(rows, ascending);
      StripLists(rows[1..], p, ascending);
      var x := rows[0].0[|p|..];
      assert rows[0].0 == p + x;
      StripAfter(x, rows[1..], p, ascending);
      OrderedCons((x, rows[0].1), Strip(rows[1..], p), ascending);
      SubSet(ToMap(rows[1..]), p, x, rows[0].1);
    }
  }

  /** Iterating the parent over the shifted domain and stripping is iterating the submap. */
  lemma PrefixIteration(rows: Entries<Value>, m: map<Key, Value>, p: Bytes, start: Option<Key>, end: Option<Key>, ascending: bool)
    requires Lists(rows, Restrict(m, Some(PrefixStart(p, start)), PrefixStop(p, end)), ascending)
    ensures Lists(Strip(rows, p), Restrict(Sub(m, p), start, end), ascending)
  {
    forall i | 0 <= i < |rows| ensures p <= rows[i].0 {
      ToMapAt(rows, i, ascending);
      PrefixedDomain(p, rows[i].0, start, end);
    }
    StripLists(rows, p, ascending);
    SubRestrict(m, p, start, end);
  }
}
