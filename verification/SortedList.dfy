/** Lists of key/value entries in key order, in either direction, and the maps they stand for. */
module SortedList {
  import opened Bytes
  import opened Sequences

  type Entries<V> = seq<(Key, V)>

  /** `a` comes before `b` in an iteration of this direction. */
  predicate Precedes(a: Key, b: Key, ascending: bool) {
    if ascending then Lt(a, b) else Lt(b, a)
  }

  predicate Ordered<V>(s: Entries<V>, ascending: bool) {
    forall i, j :: 0 <= i < j < |s| ==> Precedes(s[i].0, s[j].0, ascending)
  }

  /** Every key of the list comes after `k`. */
  predicate AllAfter<V>(k: Key, s: Entries<V>, ascending: bool) {
    forall i :: 0 <= i < |s| ==> Precedes(k, s[i].0, ascending)
  }

  function ToMap<V>(s: Entries<V>): map<Key, V> {
    if s == [] then map[] else ToMap(s[1..])[s[0].0 := s[0].1]
  }

  /** `s` is the sorted list of `m`. */
  ghost predicate Lists<V>(s: Entries<V>, m: map<Key, V>, ascending: bool) {
    Ordered(s, ascending) && ToMap(s) == m
  }

  lemma PrecedesIrreflexive(a: Key, ascending: bool)
    ensures !Precedes(a, a, ascending)
  {
    LtIrreflexive(a);
  }

  lemma PrecedesTransitive(a: Key, b: Key, c: Key, ascending: bool)
    requires Precedes(a, b, ascending) && Precedes(b, c, ascending)
    ensures Precedes(a, c, ascending)
  {
    if ascending { LtTransitive(a, b, c); } else { LtTransitive(c, b, a); }
  }

  lemma PrecedesTrichotomy(a: Key, b: Key, ascending: bool)
    ensures a == b || Precedes(a, b, ascending) || Precedes(b, a, ascending)
  {
    LtTrichotomy(a, b);
  }

  lemma OrderedTail<V>(s: Entries<V>, ascending: bool)
    requires s != [] && Ordered(s, ascending)
    ensures Ordered(s[1..], ascending) && AllAfter(s[0].0, s[1..], ascending)
  {
  }

  lemma OrderedCons<V>(e: (Key, V), s: Entries<V>, ascending: bool)
    requires Ordered(s, ascending) && AllAfter(e.0, s, ascending)
    ensures Ordered([e] + s, ascending) && ([e] + s)[1..] == s
    ensures ToMap([e] + s) == ToMap(s)[e.0 := e.1]
  {
  }

  lemma AllAfterTransitive<V>(a: Key, b: Key, s: Entries<V>, ascending: bool)
    requires Precedes(a, b, ascending) && AllAfter(b, s, ascending)
    ensures AllAfter(a, s, ascending)
  {
    forall i | 0 <= i < |s| ensures Precedes(a, s[i].0, ascending) { PrecedesTransitive(a, b, s[i].0, ascending); }
  }

  /** The keys of the map are the keys of the list. */
  lemma {:induction false} ToMapKeys<V>(s: Entries<V>, k: Key)
    ensures k in ToMap(s) <==> exists i :: 0 <= i < |s| && s[i].0 == k
  {
    if s != [] {
      ToMapKeys(s[1..], k);
      if i :| 0 <= i < |s| && s[i].0 == k {
        if i > 0 { assert s[1..][i - 1] == s[i]; }
      }
      if j :| 0 <= j < |s[1..]| && s[1..][j].0 == k { assert s[j + 1].0 == k; }
    }
  }

  lemma {:induction false} ToMapAt<V>(s: Entries<V>, i: nat, ascending: bool)
    requires Ordered(s, ascending) && i < |s|
    ensures s[i].0 in ToMap(s) && ToMap(s)[s[i].0] == s[i].1
  {
    if i > 0 {
      OrderedTail(s, ascending);
      ToMapAt(s[1..], i - 1, ascending);
      PrecedesIrreflexive(s[0].0, ascending);
    }
  }

  /** A key before the whole list is not in it. */
  lemma AbsentBefore<V>(k: Key, s: Entries<V>, ascending: bool)
    requires AllAfter(k, s, ascending)
    ensures k !in ToMap(s)
  {
    ToMapKeys(s, k);
    PrecedesIrreflexive(k, ascending);
  }

  lemma HeadInMap<V>(s: Entries<V>)
    ensures s == [] <==> ToMap(s) == map[]
    ensures s != [] ==> s[0].0 in ToMap(s)
  {
  }

  /** The sorted list of a map is unique. */
  lemma {:induction false} ListsUnique<V>(s: Entries<V>, t: Entries<V>, ascending: bool)
    requires Ordered(s, ascending) && Ordered(t, ascending) && ToMap(s) == ToMap(t)
    ensures s == t
    decreases |s|
  {
    HeadInMap(s);
    HeadInMap(t);
    if s != [] {
      SameHead(s, t, ascending);
      OrderedTail(s, ascending);
      OrderedTail(t, ascending);
      AbsentBefore(s[0].0, s[1..], ascending);
      AbsentBefore(t[0].0, t[1..], ascending);
      assert ToMap(s[1..]) == ToMap(s) - {s[0].0};
      assert ToMap(t[1..]) == ToMap(t) - {t[0].0};
      ListsUnique(s[1..], t[1..], ascending);
      assert s == [s[0]] + s[1..] && t == [t[0]] + t[1..];
    }
  }

  lemma SameHead<V>(s: Entries<V>, t: Entries<V>, ascending: bool)
    requires Ordered(s, ascending) && Ordered(t, ascending) && ToMap(s) == ToMap(t) && s != [] && t != []
    ensures s[0] == t[0]
  {
    ToMapAt(s, 0, ascending);
    ToMapAt(t, 0, ascending);
    ToMapKeys(s, t[0].0);
    ToMapKeys(t, s[0].0);
    var i :| 0 <= i < |s| && s[i].0 == t[0].0;
    var j :| 0 <= j < |t| && t[j].0 == s[0].0;
    if i > 0 && j > 0 {
      PrecedesTransitive(s[0].0, s[i].0, s[0].0, ascending);
      PrecedesIrreflexive(s[0].0, ascending);
    }
  }

  // ---------- directions ----------

  /** The list in iteration order; memory keeps it ascending. */
  function InOrder<V>(s: Entries<V>, ascending: bool): Entries<V> {
    if ascending then s else Reversed(s)
  }

  lemma {:induction false} InOrderLists<V>(s: Entries<V>, ascending: bool)
    requires Ordered(s, true)
    ensures Lists(InOrder(s, ascending), ToMap(s), ascending)
  {
    if !ascending {
      var r := Reversed(s);
      forall i | 0 <= i < |s| ensures r[i] == s[|s| - 1 - i] { ReversedAt(s, i); }
      forall k ensures k in ToMap(s) <==> k in ToMap(r) {
        ToMapKeys(s, k);
        ToMapKeys(r, k);
        if i :| 0 <= i < |s| && s[i].0 == k { assert r[|s| - 1 - i].0 == k; }
        if i :| 0 <= i < |s| && r[i].0 == k { assert s[|s| - 1 - i].0 == k; }
      }
      forall k | k in ToMap(s) ensures ToMap(r)[k] == ToMap(s)[k] {
        ToMapKeys(s, k);
        var i :| 0 <= i < |s| && s[i].0 == k;
        ToMapAt(s, i, true);
        ToMapAt(r, |s| - 1 - i, false);
      }
      assert ToMap(r) == ToMap(s);
    }
  }

  // ---------- domains ----------

  /** `IsKeyInDomain`: `[start, end)`, with absent bounds open. */
  predicate InDomain(k: Key, start: Option<Key>, end: Option<Key>) {
    (start.Some? ==> Le(start.value, k)) && (end.Some? ==> Lt(k, end.value))
  }

  function Restrict<V>(m: map<Key, V>, start: Option<Key>, end: Option<Key>): map<Key, V> {
    map k | k in m && InDomain(k, start, end) :: m[k]
  }
}
