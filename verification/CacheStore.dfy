/** `cachekv.Store`: a write-back cache around a parent store, nested to any depth. */
module CacheStore {
  import opened Bytes
  import opened SortedList
  import opened CacheMerge
  import opened CacheIterator
  import opened CacheState

  /** If there is no parent cache, the parent is a plain store with contents `base`. */
  class Store {
    const parent: Store?
    var base: map<Key, Value>
    var cache: Cache
    var unsortedCache: set<Key>
    var sortedCache: seq<Item>
    ghost const Repr: set<object>

    /** The chain of parents is finite. */
    ghost predicate Chained()
      reads Repr
      decreases Repr
    {
      this in Repr && (parent != null ==> parent in Repr && parent.Repr < Repr && this !in parent.Repr && parent.Chained())
    }

    ghost predicate Valid()
      reads Repr
      decreases Repr
    {
      Chained() && (parent != null ==> parent.Valid()) &&
      Faithful(cache, ParentView()) && Tracked(cache, unsortedCache, sortedCache)
    }

    /** The parents are sound. */
    ghost predicate Linked()
      reads Repr
    {
      Chained() && (parent != null ==> parent.Valid())
    }

    /** The parent's contents. */
    ghost function ParentView(): map<Key, Value>
      requires Chained()
      reads Repr
      decreases Repr, 1
    {
      if parent == null then base else parent.View()
    }

    /** The simple map that the store stands for. */
    ghost function View(): map<Key, Value>
      requires Chained()
      reads Repr
      decreases Repr, 2
    {
      Overlay(ParentView(), Writes(cache))
    }

    constructor (parent: Store?, base: map<Key, Value>)
      requires parent != null ==> parent.Valid()
      ensures Valid() && this.parent == parent && View() == (if parent == null then base else parent.View())
      ensures fresh(Repr - if parent == null then {} else parent.Repr)
    {
      this.parent, this.base := parent, base;
      cache, unsortedCache, sortedCache := map[], {}, [];
      Repr := {this} + if parent == null then {} else parent.Repr;
    }

    /** The frame of operations that only read: caches on the way may fill up and get sorted. */
    ghost function ParentRepr(): set<object>
      reads this
    {
      if parent == null then {} else parent.Repr
    }

    method ParentGet(key: Key) returns (v: Option<Value>)
      requires Linked()
      modifies ParentRepr()
      ensures Linked() && ParentView() == old(ParentView()) && v == Lookup(ParentView(), key)
      decreases Repr, 0
    {
      if parent == null { v := if key in base then Some(base[key]) else None; } else { v := parent.Get(key); }
    }

    /** Reads like the simple map, and changes nothing that a caller can see. */
    method Get(key: Key) returns (v: Option<Value>)
      requires Valid()
      modifies Repr
      ensures Valid() && View() == old(View()) && ParentView() == old(ParentView())
      ensures v == Lookup(View(), key)
      decreases Repr, 1
    {
      CachedRead(cache, ParentView(), key);
      if key !in cache {
        v := ParentGet(key);
        RememberRead(cache, ParentView(), unsortedCache, sortedCache, key);
        SetCacheValue(key, v, false, false);
      } else {
        v := cache[key].value;
      }
    }

    method Has(key: Key) returns (b: bool)
      requires Valid()
      modifies Repr
      ensures Valid() && View() == old(View()) && ParentView() == old(ParentView())
      ensures b <==> key in View()
    {
      var v := Get(key);
      b := v.Some?;
    }

    /** The only method that changes `cache`. */
    method SetCacheValue(key: Key, value: Option<Value>, deleted: bool, dirty: bool)
      modifies this
      ensures cache == old(cache)[key := CValue(value, deleted, dirty)]
      ensures unsortedCache == if dirty then old(unsortedCache) + {key} else old(unsortedCache)
      ensures sortedCache == old(sortedCache) && base == old(base)
    {
      cache := cache[key := CValue(value, deleted, dirty)];
      if dirty { unsortedCache := unsortedCache + {key}; }
    }

    method Set(key: Key, value: Value)
      requires Valid()
      modifies this
      ensures Valid() && View() == old(View())[key := value] && ParentView() == old(ParentView())
    {
      PendingWrite(cache, ParentView(), unsortedCache, sortedCache, key, Some(value));
      SetCacheValue(key, Some(value), false, true);
    }

    method Delete(key: Key)
      requires Valid()
      modifies this
      ensures Valid() && View() == old(View()) - {key} && ParentView() == old(ParentView())
    {
      PendingWrite(cache, ParentView(), unsortedCache, sortedCache, key, None);
      SetCacheValue(key, None, true, true);
    }

    // ---------- writing back ----------

    method ParentWrite(key: Key, value: Option<Value>)
      requires Linked()
      modifies this`base, if parent == null then {} else {parent}
      ensures Linked() && ParentView() == if value.Some? then old(ParentView())[key := value.value] else old(ParentView()) - {key}
    {
      if parent == null {
        base := if value.Some? then base[key := value.value] else base - {key};
      } else if value.Some? {
        parent.Set(key, value.value);
      } else {
        parent.Delete(key);
      }
    }

    /** One step of `Write`: after it, the parent has the pending writes of one more key. */
    method WriteKey(key: Key, ghost before: map<Key, Value>, ghost done: set<Key>)
      requires Linked() && key in cache && (cache[key].value.None? <==> cache[key].deleted)
      requires ParentView() == Overlay(before, Values(cache, done))
      modifies this`base, if parent == null then {} else {parent}
      ensures Linked() && ParentView() == Overlay(before, Values(cache, done + {key}))
    {
      var c := cache[key];
      ValuesAdd(cache, done, key);
      OverlayOn(before, Values(cache, done), key, c.value);
      if c.deleted {
        ParentWrite(key, None);
      } else if c.value.None? {
      } else {
        ParentWrite(key, c.value);
      }
    }

    /** The loop of `Write`. */
    method WriteBack(keys: seq<Key>)
      requires Valid() && forall k :: k in keys ==> k in cache && cache[k].dirty
      modifies this`base, if parent == null then {} else {parent}
      ensures Linked() && ParentView() == Overlay(old(ParentView()), Values(cache, set k | k in keys))
    {
      ghost var before, done: set<Key> := ParentView(), {};
      OverlayNone(before);
      assert forall k :: k in keys ==> (cache[k].value.None? <==> cache[k].deleted);
      for i := 0 to |keys|
        invariant forall k :: k in done <==> k in keys[..i]
        invariant Linked() && ParentView() == Overlay(before, Values(cache, done))
      {
        assert keys[i] in keys && keys[..i + 1] == keys[..i] + [keys[i]];
        WriteKey(keys[i], before, done);
        done := done + {keys[i]};
      }
      assert keys[..|keys|] == keys;
      assert done == set k | k in keys;
    }

    /** Makes the parent equal to the store, which itself does not change; nothing further down changes either. */
    method Write()
      requires Valid()
      modifies this, if parent == null then {} else {parent}
      ensures Valid() && View() == old(View()) && ParentView() == old(View()) && cache == map[]
    {
      var dirty := set k | k in cache && cache[k].dirty;
      var keys := SortedKeys(dirty);
      WriteBack(keys);
      assert dirty == set k | k in keys;
      assert Values(cache, dirty) == Writes(cache);
      Clear();
    }

    method Clear()
      requires Linked()
      modifies this`cache, this`unsortedCache, this`sortedCache
      ensures Valid() && View() == ParentView() == old(ParentView()) && cache == map[]
    {
      cache, unsortedCache, sortedCache := map[], {}, [];
      assert Writes(cache) == map[];
      OverlayNone(ParentView());
    }

    // ---------- iteration ----------

    method Relist(rest: set<Key>, list: seq<Item>)
      requires Valid() && Tracked(cache, rest, list)
      modifies this`unsortedCache, this`sortedCache
      ensures Valid() && View() == old(View()) && ParentView() == old(ParentView()) && sortedCache == list
    {
      unsortedCache, sortedCache := rest, list;
    }

    /** `dirtyItems`: merges the unsorted items of a domain into the sorted list, which stays strictly ascending. */
    method DirtyItems(start: Option<Key>, end: Option<Key>)
      requires Valid()
      modifies this`unsortedCache, this`sortedCache
      ensures Valid() && View() == old(View()) && ParentView() == old(ParentView())
      ensures Ordered(sortedCache, true) && Restrict(ToMap(sortedCache), start, end) == Restrict(Writes(cache), start, end)
    {
      assert unsortedCache <= Writes(cache).Keys;
      var rest, unsorted := TakeUnsorted(cache, unsortedCache, start, end);
      SortLists(unsorted);
      DirtyItemsTracked(cache, unsortedCache, sortedCache, SortEntries(unsorted), start, end);
      var list := MergeSorted(SortEntries(unsorted), sortedCache);
      Relist(rest, list);
    }

    /** Iteration yields exactly the entries of the simple map in the domain, each once, in key order. */
    method Iterate(start: Option<Key>, end: Option<Key>, ascending: bool) returns (it: MergeIterator)
      requires Valid()
      modifies Repr
      ensures Valid() && View() == old(View()) && ParentView() == old(ParentView())
      ensures it.Valid() && fresh(it.Repr) && Lists(it.Remaining(), Restrict(View(), start, end), ascending)
      decreases Repr, 1
    {
      var p, rows := ParentIterate(start, end, ascending);
      DirtyItems(start, end);
      it := MergeOver(p, rows, sortedCache, ParentView(), Writes(cache), start, end, ascending);
    }

    method ParentIterate(start: Option<Key>, end: Option<Key>, ascending: bool)
      returns (p: MergeIterator?, rows: Entries<Value>)
      requires Valid()
      modifies ParentRepr()
      ensures Valid() && View() == old(View()) && ParentView() == old(ParentView())
      ensures p != null ==> p.Valid() && fresh(p.Repr)
      ensures Lists(if p == null then rows else p.Remaining(), Restrict(ParentView(), start, end), ascending)
      decreases Repr, 0
    {
      p, rows := null, [];
      if parent == null { rows := PlainRows(base, start, end, ascending); } else { p := parent.Iterate(start, end, ascending); }
    }
  }

  /** The loop of `dirtyItems` over the unsorted keys: takes those of a domain, in any order, with their cached values. */
  method TakeUnsorted(cache: Cache, unsorted: set<Key>, start: Option<Key>, end: Option<Key>)
    returns (rest: set<Key>, items: seq<Item>)
    requires unsorted <= cache.Keys
    ensures rest == set k | k in unsorted && !InDomain(k, start, end)
    ensures ToMap(items) == Values(cache, set k | k in unsorted && InDomain(k, start, end))
  {
    var todo := unsorted;
    rest, items := unsorted, [];
    assert unsorted - rest == {};
    while todo != {}
      invariant todo <= rest <= unsorted
      invariant forall k :: k in unsorted && k !in todo ==> (k in rest <==> !InDomain(k, start, end))
      invariant ToMap(items) == Values(cache, unsorted - rest)
      decreases todo
    {
      var k :| k in todo;
      todo := todo - {k};
      if InDomain(k, start, end) {
        TakeOne(cache, unsorted, rest, k, items);
        items := [(k, cache[k].value)] + items;
        rest := rest - {k};
      }
    }
    assert unsorted - rest == set k | k in unsorted && InDomain(k, start, end);
  }

  lemma TakeOne(cache: Cache, unsorted: set<Key>, rest: set<Key>, k: Key, items: seq<Item>)
    requires k in rest && rest <= unsorted && k in cache && ToMap(items) == Values(cache, unsorted - rest)
    ensures ToMap([(k, cache[k].value)] + items) == Values(cache, unsorted - (rest - {k}))
  {
    ValuesAdd(cache, unsorted - rest, k);
    assert (unsorted - rest) + {k} == unsorted - (rest - {k});
    assert ([(k, cache[k].value)] + items)[1..] == items;
  }

  /** The merge loop of `dirtyItems`, which walks the list with a cursor and changes it in place. */
  method MergeSorted(items: seq<Item>, sorted: seq<Item>) returns (list: seq<Item>)
    ensures list == MergeInto(items, sorted)
  {
    var unsorted, e := items, 0;
    list := sorted;
    ghost var done, rest, target := [], list, MergeInto(items, list);
    assert done + target == target;
    while e < |list| && |unsorted| != 0
      invariant e == |done| && list == done + rest && done + MergeInto(unsorted, rest) == target
      decreases |unsorted| + |rest|
    {
      var u, s := unsorted[0], list[e];
      assert s == rest[0];
      if Lt(u.0, s.0) {
        LtIrreflexive(u.0);
        Shift(done, u, MergeInto(unsorted[1..], rest));
        list := list[..e] + [u] + list[e..];
        done := done + [u];
        unsorted := unsorted[1..];
      } else if u.0 == s.0 {
        Shift(done, u, MergeInto(unsorted[1..], rest[1..]));
        list := list[e := u];
        done, rest := done + [u], rest[1..];
        unsorted := unsorted[1..];
      } else {
        Shift(done, s, MergeInto(unsorted, rest[1..]));
        done, rest := done + [s], rest[1..];
      }
      e := e + 1;
    }
    list := list + unsorted;
  }

  /** The merge iterator over a parent's iteration and a sorted list of cache items. */
  method MergeOver(p: MergeIterator?, rows: Entries<Value>, list: seq<Item>, ghost parent: map<Key, Value>,
                   ghost writes: map<Key, Option<Value>>, start: Option<Key>, end: Option<Key>, ascending: bool)
    returns (it: MergeIterator)
    requires p != null ==> p.Valid()
    requires Lists(if p == null then rows else p.Remaining(), Restrict(parent, start, end), ascending)
    requires Ordered(list, true) && Restrict(ToMap(list), start, end) == Restrict(writes, start, end)
    ensures it.Valid() && fresh(it.Repr - if p == null then {} else p.Repr)
    ensures Lists(it.Remaining(), Restrict(Overlay(parent, writes), start, end), ascending)
  {
    var mem := new MemIterator(start, end, list, ascending);
    IterationLists(parent, writes, if p == null then rows else p.Remaining(), mem.Left(), start, end, ascending);
    it := new MergeIterator(p, rows, mem);
  }

  lemma IterationLists(parent: map<Key, Value>, writes: map<Key, Option<Value>>, p: Entries<Value>, c: seq<Item>,
                       start: Option<Key>, end: Option<Key>, ascending: bool)
    requires Lists(p, Restrict(parent, start, end), ascending) && Lists(c, Restrict(writes, start, end), ascending)
    ensures Lists(Merge(p, c, ascending), Restrict(Overlay(parent, writes), start, end), ascending)
  {
    MergeLists(p, c, ascending);
    RestrictOverlay(parent, writes, start, end);
  }

  lemma Shift(done: seq<Item>, e: Item, rest: seq<Item>)
    ensures done + ([e] + rest) == (done + [e]) + rest
  {
  }

  /** The rows that a plain store's iterator yields. */
  method PlainRows(m: map<Key, Value>, start: Option<Key>, end: Option<Key>, ascending: bool) returns (rows: Entries<Value>)
    ensures Lists(rows, Restrict(m, start, end), ascending)
  {
    var todo := m.Keys;
    rows := [];
    while todo != {}
      invariant todo <= m.Keys && Ordered(rows, true) && ToMap(rows) == Restrict(m - todo, start, end)
      decreases |todo|
    {
      var k :| k in todo;
      RestrictAdd(m, todo, k, start, end);
      if InDomain(k, start, end) {
        InsertLists((k, m[k]), rows);
        rows := Insert((k, m[k]), rows);
      }
      todo := todo - {k};
    }
    assert m - {} == m;
    InOrderLists(rows, ascending);
    rows := InOrder(rows, ascending);
  }

  lemma RestrictAdd(m: map<Key, Value>, todo: set<Key>, k: Key, start: Option<Key>, end: Option<Key>)
    requires k in todo && k in m
    ensures var r := Restrict(m - todo, start, end);
            Restrict(m - (todo - {k}), start, end) == if InDomain(k, start, end) then r[k := m[k]] else r
  {
    var r := Restrict(m - todo, start, end);
    if InDomain(k, start, end) {
      assert Restrict(m - (todo - {k}), start, end) == r[k := m[k]];
    } else {
      assert Restrict(m - (todo - {k}), start, end) == r;
    }
  }

  /** `sort.Strings` on the keys of a map. */
  method SortedKeys(s: set<Key>) returns (keys: seq<Key>)
    ensures forall k :: k in keys <==> k in s
    ensures forall i, j :: 0 <= i < j < |keys| ==> Lt(keys[i], keys[j])
  {
    var todo, list: Entries<()> := s, [];
    while todo != {}
      invariant todo <= s && Ordered(list, true) && ToMap(list).Keys == s - todo
      decreases |todo|
    {
      var k :| k in todo;
      InsertLists((k, ()), list);
      list := Insert((k, ()), list);
      todo := todo - {k};
    }
    keys := seq(|list|, i requires 0 <= i < |list| => list[i].0);
    forall k ensures k in keys <==> k in s {
      ToMapKeys(list, k);
      if i :| 0 <= i < |list| && list[i].0 == k { assert keys[i] == k; }
      if k in keys {
        var i :| 0 <= i < |keys| && keys[i] == k;
        assert list[i].0 == k;
      }
    }
  }
}
