/** What the cache's merge iterator yields: the parent's entries overlaid with the cache's, deletions left out. */
module CacheMerge {
  import opened Bytes
  import opened SortedList

  /** A cache item; an absent value is a deletion. */
  type Item = (Key, Option<Value>)

  /** A map overlaid with writes, where an absent value is a deletion. */
  function Overlay(m: map<Key, Value>, writes: map<Key, Option<Value>>): map<Key, Value> {
    map k | k in m.Keys + writes.Keys && (k in writes ==> writes[k].Some?) :: if k in writes then writes[k].value else m[k]
  }

  /** A cache item as an entry, unless it is a deletion. */
  function Live(e: Item): Entries<Value> {
    if e.1.Some? then [(e.0, e.1.value)] else []
  }

  /** The merge of what is left of the parent's and of the cache's iteration. */
  function Merge(p: Entries<Value>, c: seq<Item>, ascending: bool): Entries<Value>
    decreases |p| + |c|
  {
    if c == [] then p
    else if p == [] then Live(c[0]) + Merge(p, c[1..], ascending)
    else if p[0].0 == c[0].0 then Live(c[0]) + Merge(p[1..], c[1..], ascending)
    else if Precedes(p[0].0, c[0].0, ascending) then [p[0]] + Merge(p[1..], c, ascending)
    else Live(c[0]) + Merge(p, c[1..], ascending)
  }

  /** The front of the merge is a front that exists. */
  predicate Settled(p: Entries<Value>, c: seq<Item>, ascending: bool) {
    (p != [] || c != []) && (c != [] && (p == [] || p[0].0 == c[0].0 || !Precedes(p[0].0, c[0].0, ascending)) ==> c[0].1.Some?)
  }

  /** One step of the merge, from a settled front. */
  lemma MergeStep(p: Entries<Value>, c: seq<Item>, ascending: bool)
    requires Settled(p, c, ascending)
    ensures Merge(p, c, ascending)[1..] ==
            if c == [] then p[1..]
            else if p == [] then Merge(p, c[1..], ascending)
            else if p[0].0 == c[0].0 then Merge(p[1..], c[1..], ascending)
            else if Precedes(p[0].0, c[0].0, ascending) then Merge(p[1..], c, ascending)
            else Merge(p, c[1..], ascending)
  {
  }

  lemma OverlayNone(m: map<Key, Value>)
    ensures Overlay(m, map[]) == m
  {
  }

  lemma OverlayParent(m: map<Key, Value>, writes: map<Key, Option<Value>>, k: Key, v: Value)
    requires k !in writes
    ensures Overlay(m[k := v], writes) == Overlay(m, writes)[k := v]
  {
    assert Overlay(m[k := v], writes) == Overlay(m, writes)[k := v];
  }

  predicate SameExcept(m: map<Key, Value>, m1: map<Key, Value>, k: Key) {
    (forall x :: x in m && x != k ==> x in m1 && m[x] == m1[x]) && (forall x :: x in m1 && x != k ==> x in m)
  }

  lemma OverlayWrite(m: map<Key, Value>, m1: map<Key, Value>, writes: map<Key, Option<Value>>, k: Key, v: Option<Value>)
    requires k !in writes && SameExcept(m, m1, k) && (k in m1 ==> v.Some?)
    ensures Overlay(m, writes[k := v]) == if v.Some? then Overlay(m1, writes)[k := v.value] else Overlay(m1, writes)
  {
    var r := if v.Some? then Overlay(m1, writes)[k := v.value] else Overlay(m1, writes);
    assert Overlay(m, writes[k := v]) == r;
  }

  /** A key before both lists is before their merge. */
  lemma {:induction false} MergeAfter(k: Key, p: Entries<Value>, c: seq<Item>, ascending: bool)
    requires AllAfter(k, p, ascending) && AllAfter(k, c, ascending)
    ensures AllAfter(k, Merge(p, c, ascending), ascending)
    decreases |p| + |c|
  {
    if c != [] {
      if p == [] {
        MergeAfter(k, p, c[1..], ascending);
      } else {
        if p[0].0 == c[0].0 {
          MergeAfter(k, p[1..], c[1..], ascending);
        } else if Precedes(p[0].0, c[0].0, ascending) {
          MergeAfter(k, p[1..], c, ascending);
        } else {
          MergeAfter(k, p, c[1..], ascending);
        }
      }
    }
  }

  /** The first cache item is written on top of everything that follows it. */
  lemma LiveFirst(c: Item, rest: Entries<Value>, ascending: bool, m: map<Key, Value>)
    requires Lists(rest, m, ascending) && AllAfter(c.0, rest, ascending)
    ensures Lists(Live(c) + rest, if c.1.Some? then m[c.0 := c.1.value] else m, ascending)
  {
    if c.1.Some? {
      OrderedCons((c.0, c.1.value), rest, ascending);
    } else {
      assert Live(c) + rest == rest;
    }
  }

  /** The merge of two sorted lists is the sorted list of the overlaid map. */
  lemma {:induction false} MergeLists(p: Entries<Value>, c: seq<Item>, ascending: bool)
    requires Ordered(p, ascending) && Ordered(c, ascending)
    ensures Lists(Merge(p, c, ascending), Overlay(ToMap(p), ToMap(c)), ascending)
    decreases |p| + |c|
  {
    if c == [] {
      OverlayNone(ToMap(p));
    } else {
      OrderedTail(c, ascending);
      AbsentBefore(c[0].0, c[1..], ascending);
      if p == [] {
        MergeCacheFirst(p, c, ascending);
      } else {
        OrderedTail(p, ascending);
        PrecedesTrichotomy(p[0].0, c[0].0, ascending);
        if p[0].0 == c[0].0 {
          MergeBoth(p, c, ascending);
        } else if Precedes(p[0].0, c[0].0, ascending) {
          MergeParentFirst(p, c, ascending);
        } else {
          MergeCacheFirst(p, c, ascending);
        }
      }
    }
  }

  lemma {:induction false} MergeParentFirst(p: Entries<Value>, c: seq<Item>, ascending: bool)
    requires Ordered(p, ascending) && Ordered(c, ascending) && p != [] && c != [] && Precedes(p[0].0, c[0].0, ascending)
    ensures Lists(Merge(p, c, ascending), Overlay(ToMap(p), ToMap(c)), ascending)
    decreases |p| + |c|, 0
  {
    OrderedTail(p, ascending);
    MergeLists(p[1..], c, ascending);
    OrderedTail(c, ascending);
    AllAfterTransitive(p[0].0, c[0].0, c[1..], ascending);
    assert AllAfter(p[0].0, c, ascending);
    MergeAfter(p[0].0, p[1..], c, ascending);
    AbsentBefore(p[0].0, c, ascending);
    PrecedesIrreflexive(p[0].0, ascending);
    OrderedCons(p[0], Merge(p[1..], c, ascending), ascending);
    OverlayParent(ToMap(p[1..]), ToMap(c), p[0].0, p[0].1);
  }

  lemma {:induction false} MergeCacheFirst(p: Entries<Value>, c: seq<Item>, ascending: bool)
    requires Ordered(p, ascending) && Ordered(c, ascending) && c != []
    requires p != [] ==> Precedes(c[0].0, p[0].0, ascending) && !Precedes(p[0].0, c[0].0, ascending)
    ensures Lists(Merge(p, c, ascending), Overlay(ToMap(p), ToMap(c)), ascending)
    decreases |p| + |c|, 0
  {
    OrderedTail(c, ascending);
    MergeLists(p, c[1..], ascending);
    if p != [] {
      OrderedTail(p, ascending);
      AllAfterTransitive(c[0].0, p[0].0, p[1..], ascending);
    }
    PrecedesIrreflexive(c[0].0, ascending);
    assert AllAfter(c[0].0, p, ascending);
    MergeAfter(c[0].0, p, c[1..], ascending);
    AbsentBefore(c[0].0, p, ascending);
    AbsentBefore(c[0].0, c[1..], ascending);
    LiveFirst(c[0], Merge(p, c[1..], ascending), ascending, Overlay(ToMap(p), ToMap(c[1..])));
    OverlayWrite(ToMap(p), ToMap(p), ToMap(c[1..]), c[0].0, c[0].1);
  }

  lemma {:induction false} MergeBoth(p: Entries<Value>, c: seq<Item>, ascending: bool)
    requires Ordered(p, ascending) && Ordered(c, ascending) && p != [] && c != [] && p[0].0 == c[0].0
    ensures Lists(Merge(p, c, ascending), Overlay(ToMap(p), ToMap(c)), ascending)
    decreases |p| + |c|, 0
  {
    OrderedTail(p, ascending);
    OrderedTail(c, ascending);
    MergeLists(p[1..], c[1..], ascending);
    MergeAfter(c[0].0, p[1..], c[1..], ascending);
    AbsentBefore(c[0].0, p[1..], ascending);
    AbsentBefore(c[0].0, c[1..], ascending);
    LiveFirst(c[0], Merge(p[1..], c[1..], ascending), ascending, Overlay(ToMap(p[1..]), ToMap(c[1..])));
    OverlayWrite(ToMap(p), ToMap(p[1..]), ToMap(c[1..]), c[0].0, c[0].1);
  }
}
