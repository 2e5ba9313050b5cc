/** `prefix.Store`: the part of a store whose keys start with a prefix, seen as a store of its own. */
module PrefixStore {
  import opened Bytes
  import opened SortedList
  import opened PrefixRange
  import opened CacheState
  import opened CacheIterator
  import opened CacheStore

  class PrefixIterator {
    const prefix: Bytes
    const iter: MergeIterator
    var valid: bool
    ghost const Repr: set<object>

    ghost predicate Valid()
      reads Repr
    {
      this in Repr && iter in Repr && iter.Repr < Repr && this !in iter.Repr && iter.Valid() &&
      (valid <==> iter.Remaining() != [] && prefix <= iter.Remaining()[0].0)
    }

    ghost function Remaining(): Entries<Value>
      requires Valid()
      reads Repr
    {
      Strip(iter.Remaining(), prefix)
    }

    constructor (prefix: Bytes, iter: MergeIterator)
      requires iter.Valid()
      modifies iter.Repr
      ensures Valid() && fresh(Repr - iter.Repr) && Remaining() == Strip(old(iter.Remaining()), prefix)
    {
      this.prefix, this.iter, valid := prefix, iter, false;
      Repr := {this} + iter.Repr;
      new;
      var b := iter.IsValid();
      if b {
        var k := iter.Key();
        valid := prefix <= k;
      }
    }

    method IsValid() returns (b: bool)
      requires Valid()
      modifies iter.Repr
      ensures Valid() && Remaining() == old(Remaining()) && b == (Remaining() != [])
    {
      b := valid;
      if b { b := iter.IsValid(); }
    }

    method Next()
      requires Valid() && Remaining() != []
      modifies Repr
      ensures Valid() && Remaining() == old(Remaining())[1..]
    {
      iter.Next();
      var b := iter.IsValid();
      if b {
        var k := iter.Key();
        b := prefix <= k;
      }
      if !b { valid := false; }
    }

    method Key() returns (k: Key)
      requires Valid() && Remaining() != []
      modifies iter.Repr
      ensures Valid() && Remaining() == old(Remaining()) && k == Remaining()[0].0
    {
      k := iter.Key();
      k := k[|prefix|..];
    }

    method Value() returns (v: Value)
      requires Valid() && Remaining() != []
      modifies iter.Repr
      ensures Valid() && Remaining() == old(Remaining()) && v == Remaining()[0].1
    {
      v := iter.Value();
    }
  }

  class PrefixedStore {
    const parent: Store
    const prefix: Bytes

    constructor (parent: Store, prefix: Bytes)
      ensures this.parent == parent && this.prefix == prefix
    {
      this.parent, this.prefix := parent, prefix;
    }

    /** The simple map that the store stands for. */
    ghost function View(): map<Key, Value>
      requires parent.Chained()
      reads parent.Repr
    {
      Sub(parent.View(), prefix)
    }

    method Get(key: Key) returns (v: Option<Value>)
      requires parent.Valid()
      modifies parent.Repr
      ensures parent.Valid() && parent.View() == old(parent.View()) && v == Lookup(View(), key)
    {
      v := parent.Get(prefix + key);
      SubKey(parent.View(), prefix, key);
    }

    method Has(key: Key) returns (b: bool)
      requires parent.Valid()
      modifies parent.Repr
      ensures parent.Valid() && parent.View() == old(parent.View()) && (b <==> key in View())
    {
      b := parent.Has(prefix + key);
      SubKey(parent.View(), prefix, key);
    }

    /** Writes under the prefix, and leaves every key without the prefix alone. */
    method Set(key: Key, value: Value)
      requires parent.Valid()
      modifies parent
      ensures parent.Valid() && View() == old(View())[key := value]
      ensures forall k :: !(prefix <= k) ==> Lookup(parent.View(), k) == old(Lookup(parent.View(), k))
    {
      SubSet(parent.View(), prefix, key, value);
      parent.Set(prefix + key, value);
    }

    method Delete(key: Key)
      requires parent.Valid()
      modifies parent
      ensures parent.Valid() && View() == old(View()) - {key}
      ensures forall k :: !(prefix <= k) ==> Lookup(parent.View(), k) == old(Lookup(parent.View(), k))
    {
      SubDelete(parent.View(), prefix, key);
      parent.Delete(prefix + key);
    }

    /** `Iterator` and `ReverseIterator`: exactly the entries of the stripped submap in the domain, in key order. */
    method Iterate(start: Option<Key>, end: Option<Key>, ascending: bool) returns (it: PrefixIterator)
      requires parent.Valid()
      modifies parent.Repr
      ensures parent.Valid() && parent.View() == old(parent.View())
      ensures it.Valid() && fresh(it.Repr) && Lists(it.Remaining(), Restrict(View(), start, end), ascending)
    {
      var iter := ParentIterate(start, end, ascending);
      assert iter.Repr !! parent.Repr;
      it := new PrefixIterator(prefix, iter);
    }

    /** The parent's iterator over the shifted domain. */
    method ParentIterate(start: Option<Key>, end: Option<Key>, ascending: bool) returns (iter: MergeIterator)
      requires parent.Valid()
      modifies parent.Repr
      ensures parent.Valid() && parent.View() == old(parent.View()) && iter.Valid() && fresh(iter.Repr)
      ensures Lists(Strip(iter.Remaining(), prefix), Restrict(View(), start, end), ascending)
    {
      var newStart := prefix + if start.Some? then start.value else [];
      var newEnd: Option<Key>;
      if end.None? { newEnd := PrefixEndBytes(prefix); } else { newEnd := Some(prefix + end.value); }
      iter := parent.Iterate(Some(newStart), newEnd, ascending);
      PrefixIteration(iter.Remaining(), parent.View(), prefix, start, end, ascending);
    }
  }
}
