/** The write-back cache as values: what its map, its unsorted keys and its sorted list mean together. */
module CacheState {
  import opened Bytes
  import opened SortedList
  import opened CacheMerge

  /** A cached value.  A clean entry repeats the parent; a dirty one is a pending write or deletion. */
  datatype CValue = CValue(value: Option<Value>, deleted: bool, dirty: bool)

  type Cache = map<Key, CValue>

  function Lookup(m: map<Key, Value>, k: Key): Option<Value> {
    if k in m then Some(m[k]) else None
  }

  /** The pending writes. */
  function Writes(cache: Cache): map<Key, Option<Value>> {
    map k | k in cache && cache[k].dirty :: cache[k].value
  }

  /** The values cached for some keys. */
  function Values(cache: Cache, keys: set<Key>): map<Key, Option<Value>> {
    map k | k in keys && k in cache :: cache[k].value
  }

  lemma ValuesAdd(cache: Cache, keys: set<Key>, k: Key)
    requires k in cache
    ensures Values(cache, keys + {k}) == Values(cache, keys)[k := cache[k].value]
  {
    assert Values(cache, keys + {k}) == Values(cache, keys)[k := cache[k].value];
  }

  /** Clean entries agree with the parent, and a dirty entry has a value unless it is a deletion. */
  predicate Faithful(cache: Cache, parent: map<Key, Value>) {
    forall k :: k in cache ==>
      if cache[k].dirty then cache[k].value.None? <==> cache[k].deleted
      else !cache[k].deleted && cache[k].value == Lookup(parent, k)
  }

  /** Every pending write is in the sorted list, unless it is marked unsorted; a marked one may be there with an old value. */
  ghost predicate Tracked(cache: Cache, unsorted: set<Key>, list: seq<Item>) {
    Ordered(list, true) && ToMap(list).Keys + unsorted == Writes(cache).Keys &&
    forall k :: k in ToMap(list) && k !in unsorted ==> ToMap(list)[k] == cache[k].value
  }

  /** A read through the cache. */
  lemma CachedRead(cache: Cache, parent: map<Key, Value>, k: Key)
    requires Faithful(cache, parent)
    ensures Lookup(Overlay(parent, Writes(cache)), k) == if k in cache then cache[k].value else Lookup(parent, k)
  {
  }

  /** Remembering a read changes nothing. */
  lemma RememberRead(cache: Cache, parent: map<Key, Value>, unsorted: set<Key>, list: seq<Item>, k: Key)
    requires Faithful(cache, parent) && Tracked(cache, unsorted, list) && k !in cache
    ensures var c := cache[k := CValue(Lookup(parent, k), false, false)];
            Faithful(c, parent) && Writes(c) == Writes(cache) && Tracked(c, unsorted, list)
  {
    var c := cache[k := CValue(Lookup(parent, k), false, false)];
    assert Writes(c) == Writes(cache);
  }

  /** A write lands on top of everything. */
  lemma PendingWrite(cache: Cache, parent: map<Key, Value>, unsorted: set<Key>, list: seq<Item>, k: Key, v: Option<Value>)
    requires Faithful(cache, parent) && Tracked(cache, unsorted, list)
    ensures var c, m := cache[k := CValue(v, v.None?, true)], Overlay(parent, Writes(cache));
            Faithful(c, parent) && Tracked(c, unsorted + {k}, list) &&
            Overlay(parent, Writes(c)) == if v.Some? then m[k := v.value] else m - {k}
  {
    var c := cache[k := CValue(v, v.None?, true)];
    assert Writes(c) == Writes(cache)[k := v];
    OverlayOn(parent, Writes(cache), k, v);
    StillTracked(cache, unsorted, list, k, CValue(v, v.None?, true));
  }

  lemma OverlayOn(parent: map<Key, Value>, writes: map<Key, Option<Value>>, k: Key, v: Option<Value>)
    ensures Overlay(parent, writes[k := v]) ==
            if v.Some? then Overlay(parent, writes)[k := v.value] else Overlay(parent, writes) - {k}
  {
    if v.Some? {
      assert Overlay(parent, writes[k := v]) == Overlay(parent, writes)[k := v.value];
    } else {
      assert Overlay(parent, writes[k := v]) == Overlay(parent, writes) - {k};
    }
  }

  lemma StillTracked(cache: Cache, unsorted: set<Key>, list: seq<Item>, k: Key, e: CValue)
    requires Tracked(cache, unsorted, list) && e.dirty
    ensures Tracked(cache[k := e], unsorted + {k}, list)
  {
    assert Writes(cache[k := e]).Keys == Writes(cache).Keys + {k};
  }

  /** Restricting to a domain commutes with overlaying. */
  lemma RestrictOverlay(m: map<Key, Value>, writes: map<Key, Option<Value>>, start: Option<Key>, end: Option<Key>)
    ensures Restrict(Overlay(m, writes), start, end) == Overlay(Restrict(m, start, end), Restrict(writes, start, end))
  {
  }

  // ---------- sorting ----------

  function Insert<V>(e: (Key, V), s: Entries<V>): Entries<V> {
    if s == [] || Lt(e.0, s[0].0) then [e] + s
    else if e.0 == s[0].0 then [e] + s[1..]
    else [s[0]] + Insert(e, s[1..])
  }

  lemma {:induction false} InsertLists<V>(e: (Key, V), s: Entries<V>)
    requires Ordered(s, true)
    ensures Lists(Insert(e, s), ToMap(s)[e.0 := e.1], true)
    ensures forall k :: Lt(k, e.0) && AllAfter(k, s, true) ==> AllAfter(k, Insert(e, s), true)
  {
    if s == [] || Lt(e.0, s[0].0) {
      InsertFront(e, s);
    } else {
      OrderedTail(s, true);
      if e.0 == s[0].0 {
        OrderedCons(e, s[1..], true);
      } else {
        InsertLists(e, s[1..]);
        LtTrichotomy(e.0, s[0].0);
        OrderedCons(s[0], Insert(e, s[1..]), true);
      }
    }
  }

  lemma InsertFront<V>(e: (Key, V), s: Entries<V>)
    requires Ordered(s, true) && (s == [] || Lt(e.0, s[0].0))
    ensures Lists([e] + s, ToMap(s)[e.0 := e.1], true)
  {
    if s != [] {
      OrderedTail(s, true);
      AllAfterTransitive(e.0, s[0].0, s[1..], true);
    }
    assert AllAfter(e.0, s, true);
    OrderedCons(e, s, true);
  }

  /** `sort.Slice` by key. */
  function SortEntries<V>(s: Entries<V>): Entries<V> {
    if s == [] then [] else Insert(s[0], SortEntries(s[1..]))
  }

  lemma {:induction false} SortLists<V>(s: Entries<V>)
    ensures Lists(SortEntries(s), ToMap(s), true)
  {
    if s != [] {
      SortLists(s[1..]);
      InsertLists(s[0], SortEntries(s[1..]));
    }
  }

  // ---------- merging unsorted items into the sorted list ----------

  function MergeInto(u: seq<Item>, s: seq<Item>): seq<Item>
    decreases |u| + |s|
  {
    if u == [] then s
    else if s == [] then u
    else if u[0].0 == s[0].0 then [u[0]] + MergeInto(u[1..], s[1..])
    else if Lt(u[0].0, s[0].0) then [u[0]] + MergeInto(u[1..], s)
    else [s[0]] + MergeInto(u, s[1..])
  }

  lemma {:induction false} MergeIntoAfter(k: Key, u: seq<Item>, s: seq<Item>)
    requires AllAfter(k, u, true) && AllAfter(k, s, true)
    ensures AllAfter(k, MergeInto(u, s), true)
    decreases |u| + |s|
  {
    if u != [] && s != [] {
      if u[0].0 == s[0].0 {
        MergeIntoAfter(k, u[1..], s[1..]);
      } else if Lt(u[0].0, s[0].0) {
        MergeIntoAfter(k, u[1..], s);
      } else {
        MergeIntoAfter(k, u, s[1..]);
      }
    }
  }

  /** The merged list is sorted; new items replace old ones of the same key, and nothing is lost. */
  lemma {:induction false} MergeIntoLists(u: seq<Item>, s: seq<Item>)
    requires Ordered(u, true) && Ordered(s, true)
    ensures Lists(MergeInto(u, s), ToMap(s) + ToMap(u), true)
    decreases |u| + |s|
  {
    if u == [] {
      assert ToMap(s) + ToMap(u) == ToMap(s);
    } else if s == [] {
      assert ToMap(s) + ToMap(u) == ToMap(u);
    } else {
      OrderedTail(u, true);
      OrderedTail(s, true);
      LtTrichotomy(u[0].0, s[0].0);
      if u[0].0 == s[0].0 {
        MergeIntoBoth(u, s);
      } else if Lt(u[0].0, s[0].0) {
        MergeIntoNew(u, s);
      } else {
        MergeIntoOld(u, s);
      }
    }
  }

  lemma {:induction false} MergeIntoBoth(u: seq<Item>, s: seq<Item>)
    requires Ordered(u, true) && Ordered(s, true) && u != [] && s != [] && u[0].0 == s[0].0
    ensures Lists(MergeInto(u, s), ToMap(s) + ToMap(u), true)
    decreases |u| + |s|, 0
  {
    OrderedTail(u, true);
    OrderedTail(s, true);
    MergeIntoLists(u[1..], s[1..]);
    MergeIntoAfter(u[0].0, u[1..], s[1..]);
    OrderedCons(u[0], MergeInto(u[1..], s[1..]), true);
    assert ToMap(s) + ToMap(u) == (ToMap(s[1..]) + ToMap(u[1..]))[u[0].0 := u[0].1];
  }

  lemma {:induction false} MergeIntoNew(u: seq<Item>, s: seq<Item>)
    requires Ordered(u, true) && Ordered(s, true) && u != [] && s != [] && Lt(u[0].0, s[0].0)
    ensures Lists(MergeInto(u, s), ToMap(s) + ToMap(u), true)
    decreases |u| + |s|, 0
  {
    OrderedTail(u, true);
    OrderedTail(s, true);
    MergeIntoLists(u[1..], s);
    AllAfterTransitive(u[0].0, s[0].0, s[1..], true);
    assert AllAfter(u[0].0, s, true);
    LtIrreflexive(u[0].0);
    MergeIntoAfter(u[0].0, u[1..], s);
    OrderedCons(u[0], MergeInto(u[1..], s), true);
    assert ToMap(s) + ToMap(u) == (ToMap(s) + ToMap(u[1..]))[u[0].0 := u[0].1];
  }

  lemma {:induction false} MergeIntoOld(u: seq<Item>, s: seq<Item>)
    requires Ordered(u, true) && Ordered(s, true) && u != [] && s != [] && Lt(s[0].0, u[0].0)
    ensures Lists(MergeInto(u, s), ToMap(s) + ToMap(u), true)
    decreases |u| + |s|, 0
  {
    OrderedTail(u, true);
    OrderedTail(s, true);
    MergeIntoLists(u, s[1..]);
    AllAfterTransitive(s[0].0, u[0].0, u[1..], true);
    assert AllAfter(s[0].0, u, true);
    AbsentBefore(s[0].0, u, true);
    LtTotalOrder();
    MergeIntoAfter(s[0].0, u, s[1..]);
    OrderedCons(s[0], MergeInto(u, s[1..]), true);
    assert ToMap(s) + ToMap(u) == (ToMap(s[1..]) + ToMap(u))[s[0].0 := s[0].1];
  }

  /** After the items of a domain are merged in, the list holds the pending writes of that domain. */
  lemma DirtyItemsTracked(cache: Cache, unsorted: set<Key>, list: seq<Item>, u: seq<Item>, start: Option<Key>, end: Option<Key>)
    requires Tracked(cache, unsorted, list) && Ordered(u, true)
    requires ToMap(u) == Values(cache, set k | k in unsorted && InDomain(k, start, end))
    ensures var rest := set k | k in unsorted && !InDomain(k, start, end);
            Tracked(cache, rest, MergeInto(u, list)) &&
            Restrict(ToMap(MergeInto(u, list)), start, end) == Restrict(Writes(cache), start, end)
  {
    var rest := set k | k in unsorted && !InDomain(k, start, end);
    MergeIntoLists(u, list);
    assert forall k :: k in unsorted ==> k in Writes(cache);
    assert (ToMap(list) + ToMap(u)).Keys + rest == Writes(cache).Keys;
    DirtyRestricted(cache, unsorted, ToMap(list), ToMap(u), start, end);
  }

  lemma DirtyRestricted(cache: Cache, unsorted: set<Key>, sorted: map<Key, Option<Value>>, added: map<Key, Option<Value>>,
                        start: Option<Key>, end: Option<Key>)
    requires sorted.Keys + unsorted == Writes(cache).Keys
    requires forall k :: k in sorted && k !in unsorted ==> sorted[k] == cache[k].value
    requires added == Values(cache, set k | k in unsorted && InDomain(k, start, end))
    ensures Restrict(sorted + added, start, end) == Restrict(Writes(cache), start, end)
  {
    forall k | InDomain(k, start, end)
      ensures k in sorted + added <==> k in Writes(cache)
      ensures k in sorted + added ==> (sorted + added)[k] == Writes(cache)[k]
    {
      assert k in sorted.Keys + unsorted <==> k in Writes(cache).Keys;
    }
  }
}
