/** The iterators of the cache store: `memIterator` over cache items, and `cacheMergeIterator` over a parent and those. */
module CacheIterator {
  import opened Bytes
  import opened SortedList
  import opened CacheMerge

  /** `memIterator`: the cache items of a domain.  Memory keeps them ascending; a descending iterator takes from the end. */
  class MemIterator {
    const ascending: bool
    var items: seq<Item>

    /** The items left, in iteration order. */
    function Left(): (s: seq<Item>)
      reads this
      ensures |s| == |items|
      ensures s != [] ==> s[0] == (if ascending then items[0] else items[|items| - 1])
    {
      InOrder(items, ascending)
    }

    /** `newMemIterator`: the items of a sorted list that lie in the domain. */
    constructor (start: Option<Key>, end: Option<Key>, list: seq<Item>, ascending: bool)
      requires Ordered(list, true)
      ensures this.ascending == ascending && Lists(Left(), Restrict(ToMap(list), start, end), ascending)
    {
      this.ascending := ascending;
      items := [];
      new;
      var i, entered := 0, false;
      ghost var from := 0;
      while i < |list|
        invariant 0 <= from <= i <= |list| && items == list[from..i] && (entered <==> items != [])
        invariant forall j :: 0 <= j < from ==> !InDomain(list[j].0, start, end)
        invariant forall j :: from <= j < i ==> InDomain(list[j].0, start, end)
      {
        if !InDomain(list[i].0, start, end) {
          if entered { break; }
          i := i + 1;
          from := i;
          assert list[i..i] == [];
          continue;
        }
        assert list[from..i + 1] == items + [list[i]];
        items := items + [list[i]];
        entered := true;
        i := i + 1;
      }
      assert i < |list| ==> from < i && InDomain(list[from].0, start, end) && !InDomain(list[i].0, start, end);
      DomainRun(list, from, i, start, end);
      InOrderLists(items, ascending);
    }

    method Next()
      requires items != []
      modifies this
      ensures Left() == old(Left())[1..]
    {
      if ascending { items := items[1..]; } else { items := items[..|items| - 1]; }
    }
  }

  /** A run of a sorted list that starts with the first key of the domain and stops at the first key behind it. */
  lemma DomainRun(list: seq<Item>, from: nat, i: nat, start: Option<Key>, end: Option<Key>)
    requires Ordered(list, true) && from <= i <= |list|
    requires forall j :: 0 <= j < from ==> !InDomain(list[j].0, start, end)
    requires forall j :: from <= j < i ==> InDomain(list[j].0, start, end)
    requires i < |list| ==> from < i && !InDomain(list[i].0, start, end)
    ensures Ordered(list[from..i], true) && ToMap(list[from..i]) == Restrict(ToMap(list), start, end)
  {
    forall j | i <= j < |list| ensures !InDomain(list[j].0, start, end) { BehindDomain(list, from, i, j, start, end); }
    RunRestricts(list, from, i, start, end);
  }

  lemma {:induction false} RunRestricts(list: seq<Item>, from: nat, i: nat, start: Option<Key>, end: Option<Key>)
    requires Ordered(list, true) && from <= i <= |list|
    requires forall j :: 0 <= j < |list| ==> (InDomain(list[j].0, start, end) <==> from <= j < i)
    ensures ToMap(list[from..i]) == Restrict(ToMap(list), start, end)
  {
    if list != [] {
      var tail := list[1..];
      OrderedTail(list, true);
      RestrictCons(ToMap(tail), list[0].0, list[0].1, start, end);
      AbsentBefore(list[0].0, tail, true);
      if InDomain(list[0].0, start, end) {
        RunRestricts(tail, 0, i - 1, start, end);
        assert list[0..i][1..] == tail[0..i - 1];
      } else {
        var f, l := if from > 0 then from - 1 else 0, if i > 0 then i - 1 else 0;
        RunRestricts(tail, f, l, start, end);
        assert list[from..i] == tail[f..l];
      }
    }
  }

  lemma RestrictCons<V>(m: map<Key, V>, k: Key, v: V, start: Option<Key>, end: Option<Key>)
    ensures InDomain(k, start, end) ==> Restrict(m[k := v], start, end) == Restrict(m, start, end)[k := v]
    ensures !InDomain(k, start, end) ==> Restrict(m[k := v], start, end) == Restrict(m, start, end)
  {
    if InDomain(k, start, end) {
      assert Restrict(m[k := v], start, end) == Restrict(m, start, end)[k := v];
    } else {
      assert Restrict(m[k := v], start, end) == Restrict(m, start, end);
    }
  }

  lemma BehindDomain(list: seq<Item>, from: nat, i: nat, j: nat, start: Option<Key>, end: Option<Key>)
    requires Ordered(list, true) && from < i <= j < |list|
    requires InDomain(list[from].0, start, end) && !InDomain(list[i].0, start, end)
    ensures !InDomain(list[j].0, start, end)
  {
    LtTotalOrder();
  }

  /** `cacheMergeIterator`.  If there is no parent iterator, the parent is a plain store's iterator with `rows` left. */
  class MergeIterator {
    const parent: MergeIterator?
    const cache: MemIterator
    const ascending: bool
    var rows: Entries<Value>
    ghost const Repr: set<object>

    ghost predicate Valid()
      reads Repr
      decreases Repr
    {
      this in Repr && cache in Repr && cache.ascending == ascending &&
      (parent != null ==>
         parent in Repr && parent.Repr < Repr && this !in parent.Repr && cache !in parent.Repr && parent.Valid())
    }

    /** What is left of the parent's iteration. */
    ghost function ParentLeft(): Entries<Value>
      requires Valid()
      reads Repr
      decreases Repr, 0
    {
      if parent == null then rows else parent.Remaining()
    }

    /** What the iterator has yet to yield. */
    ghost function Remaining(): Entries<Value>
      requires Valid()
      reads Repr
      decreases Repr, 1
    {
      Merge(ParentLeft(), cache.Left(), ascending)
    }

    constructor (parent: MergeIterator?, rows: Entries<Value>, cache: MemIterator)
      requires parent != null ==> parent.Valid() && cache !in parent.Repr
      ensures Valid() && fresh(Repr - {cache} - if parent == null then {} else parent.Repr)
      ensures Remaining() == Merge(if parent == null then rows else parent.Remaining(), cache.Left(), cache.ascending)
    {
      this.parent, this.rows, this.cache, ascending := parent, rows, cache, cache.ascending;
      Repr := {this, cache} + if parent == null then {} else parent.Repr;
    }

    // ---------- the parent ----------

    method ParentValid() returns (b: bool)
      requires Valid()
      modifies if parent == null then {} else parent.Repr
      ensures Valid() && ParentLeft() == old(ParentLeft()) && b == (ParentLeft() != [])
      decreases Repr, 0
    {
      if parent == null { b := rows != []; } else { b := parent.IsValid(); }
    }

    method ParentNext()
      requires Valid() && ParentLeft() != []
      modifies this, if parent == null then {} else parent.Repr
      ensures Valid() && ParentLeft() == old(ParentLeft())[1..]
      ensures Remaining() == Merge(ParentLeft(), old(cache.Left()), ascending)
      decreases Repr, 0
    {
      if parent == null { rows := rows[1..]; } else { parent.Next(); }
    }

    method ParentEntry() returns (e: (Key, Value))
      requires Valid() && ParentLeft() != []
      modifies if parent == null then {} else parent.Repr
      ensures Valid() && ParentLeft() == old(ParentLeft()) && e == ParentLeft()[0]
      decreases Repr, 0
    {
      if parent == null {
        e := rows[0];
      } else {
        var k := parent.Key();
        var v := parent.Value();
        e := (k, v);
      }
    }

    // ---------- the merge ----------

    /** Skips deletions before `until`; without a bound, to the end. */
    method SkipCacheDeletes(until: Option<Key>)
      requires Valid() && (ParentLeft() == [] <==> until == None)
      requires until.Some? ==> until.value == ParentLeft()[0].0
      modifies cache
      ensures Valid() && ParentLeft() == old(ParentLeft()) && Remaining() == old(Remaining())
      ensures |cache.Left()| <= old(|cache.Left()|)
      ensures cache.Left() != [] && cache.Left()[0].1.None? ==>
                until.Some? && !Precedes(cache.Left()[0].0, until.value, ascending)
      ensures until.Some? && old(cache.Left() != [] && cache.Left()[0].1.None? && Precedes(cache.Left()[0].0, until.value, ascending))
              ==> |cache.Left()| < old(|cache.Left()|)
    {
      ghost var p := ParentLeft();
      while cache.items != [] && CacheHead().1.None? && (until.None? || Precedes(CacheHead().0, until.value, ascending))
        invariant Valid() && ParentLeft() == p && Remaining() == old(Remaining())
        invariant |cache.Left()| <= old(|cache.Left()|)
        invariant cache.Left() == old(cache.Left()) || |cache.Left()| < old(|cache.Left()|)
        decreases |cache.items|
      {
        if until.Some? { PrecedesAsymmetric(CacheHead().0, until.value, ascending); }
        cache.Next();
      }
    }

    method CacheNext()
      requires Valid() && cache.items != []
      modifies cache
      ensures Valid() && ParentLeft() == old(ParentLeft()) && cache.Left() == old(cache.Left())[1..]
    {
      cache.Next();
    }

    function CacheHead(): Item
      requires cache.items != []
      reads this, cache
    {
      if cache.ascending then cache.items[0] else cache.items[|cache.items| - 1]
    }

    /** Steps over an entry of the parent that the cache deletes. */
    method SkipDeleted()
      requires Valid() && ParentLeft() != [] && cache.items != []
      requires ParentLeft()[0].0 == CacheHead().0 && CacheHead().1.None?
      modifies Repr
      ensures Valid() && Remaining() == old(Remaining())
      ensures |ParentLeft()| + |cache.Left()| < old(|ParentLeft()| + |cache.Left()|)
      decreases Repr, 1
    {
      ParentNext();
      CacheNext();
    }

    /** Fast-forwards to an entry that exists; tells whether there is one. */
    method SkipUntilExists() returns (b: bool)
      requires Valid()
      modifies Repr
      ensures Valid() && Remaining() == old(Remaining()) && b == (Remaining() != [])
      ensures b ==> Settled(ParentLeft(), cache.Left(), ascending)
      decreases Repr, 2
    {
      while true
        invariant Valid() && Remaining() == old(Remaining())
        decreases |ParentLeft()| + |cache.Left()|
      {
        var p := ParentValid();
        if !p {
          SkipCacheDeletes(None);
          return cache.items != [];
        }
        if cache.items == [] { return true; }
        var e := ParentEntry();
        var c := CacheHead();
        if e.0 == c.0 {
          if c.1.Some? { return true; }
          SkipDeleted();
        } else if Precedes(e.0, c.0, ascending) {
          return true;
        } else {
          if c.1.Some? { return true; }
          PrecedesTrichotomy(e.0, c.0, ascending);
          SkipCacheDeletes(Some(e.0));
        }
      }
    }

    method IsValid() returns (b: bool)
      requires Valid()
      modifies Repr
      ensures Valid() && Remaining() == old(Remaining()) && b == (Remaining() != [])
      decreases Repr, 3
    {
      b := SkipUntilExists();
    }

    method Next()
      requires Valid() && Remaining() != []
      modifies Repr
      ensures Valid() && Remaining() == old(Remaining())[1..]
      decreases Repr, 3
    {
      var b := SkipUntilExists();
      MergeStep(ParentLeft(), cache.Left(), ascending);
      var p := ParentValid();
      if !p {
        CacheNext();
      } else if cache.items == [] {
        ParentNext();
      } else {
        var e := ParentEntry();
        var c := CacheHead();
        if e.0 == c.0 {
          ParentNext();
          CacheNext();
        } else if Precedes(e.0, c.0, ascending) {
          ParentNext();
        } else {
          CacheNext();
        }
      }
    }

    method Key() returns (k: Key)
      requires Valid() && Remaining() != []
      modifies Repr
      ensures Valid() && Remaining() == old(Remaining()) && k == Remaining()[0].0
      decreases Repr, 3
    {
      var b := SkipUntilExists();
      var p := ParentValid();
      if !p { return CacheHead().0; }
      var e := ParentEntry();
      if cache.items == [] { return e.0; }
      k := if e.0 == CacheHead().0 || Precedes(e.0, CacheHead().0, ascending) then e.0 else CacheHead().0;
    }

    method Value() returns (v: Value)
      requires Valid() && Remaining() != []
      modifies Repr
      ensures Valid() && Remaining() == old(Remaining()) && v == Remaining()[0].1
      decreases Repr, 3
    {
      var b := SkipUntilExists();
      var p := ParentValid();
      if !p { return CacheHead().1.value; }
      var e := ParentEntry();
      if cache.items == [] { return e.1; }
      v := if e.0 != CacheHead().0 && Precedes(e.0, CacheHead().0, ascending) then e.1 else CacheHead().1.value;
    }
  }

  lemma PrecedesAsymmetric(a: Key, b: Key, ascending: bool)
    requires Precedes(a, b, ascending)
    ensures !Precedes(b, a, ascending) && a != b
  {
    PrecedesIrreflexive(a, ascending);
    if Precedes(b, a, ascending) { PrecedesTransitive(a, b, a, ascending); }
  }
}
