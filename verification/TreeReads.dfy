/** Reading a tree: `Get`, `Has` and `GetByIndex`. */
module TreeReads {
  import opened Bytes
  import opened Tree

  /** The number of smaller keys, and the value if the key is present. */
  function Get(n: Node, k: Key): (int, Option<Value>) {
    if n.Leaf? then
      if Lt(n.key, k) then (1, None) else if Lt(k, n.key) then (0, None) else (0, Some(n.value))
    else if Lt(k, n.key) then Get(n.left, k)
    else
      var (index, value) := Get(n.right, k);
      (index + n.size - Size(n.right), value)
  }

  /** Stops as soon as it meets the key, even on an inner node. */
  predicate Has(n: Node, k: Key) {
    n.key == k || (n.Inner? && if Lt(k, n.key) then Has(n.left, k) else Has(n.right, k))
  }

  function GetByIndex(n: Node, index: int): Option<(Key, Value)> {
    if n.Leaf? then if index == 0 then Some((n.key, n.value)) else None
    else if index < Size(n.left) then GetByIndex(n.left, index)
    else GetByIndex(n.right, index - Size(n.left))
  }

  /** The leaves are in strictly ascending key order within the tree's bounds, one per unit of size. */
  lemma {:induction false} LeavesSorted(n: Node)
    requires Wf(n)
    ensures |Leaves(n)| == Size(n)
    ensures forall i :: 0 <= i < |Leaves(n)| ==> Le(MinKey(n), Leaves(n)[i].key) && Le(Leaves(n)[i].key, MaxKey(n))
    ensures forall i, j :: 0 <= i < j < |Leaves(n)| ==> Lt(Leaves(n)[i].key, Leaves(n)[j].key)
  {
    if n.Inner? {
      LeavesSorted(n.left);
      LeavesSorted(n.right);
      InnerBounds(n);
      LtTotalOrder();
    }
  }

  /** The leaves hold exactly the pairs of the map. */
  lemma {:induction false} LeavesContent(n: Node, k: Key)
    requires Wf(n)
    ensures k in Content(n) <==> exists i :: 0 <= i < |Leaves(n)| && Leaves(n)[i].key == k
    ensures forall i :: 0 <= i < |Leaves(n)| && Leaves(n)[i].key == k ==> k in Content(n) && Content(n)[k] == Leaves(n)[i].value
  {
    if n.Inner? {
      LeavesContent(n.left, k);
      LeavesContent(n.right, k);
      Sides(n, k);
      var l, r := Leaves(n.left), Leaves(n.right);
      if k in Content(n.left) {
        var i :| 0 <= i < |l| && l[i].key == k;
        assert Leaves(n)[i].key == k;
      } else if k in Content(n.right) {
        var i :| 0 <= i < |r| && r[i].key == k;
        assert Leaves(n)[|l| + i].key == k;
      }
    } else {
      assert Leaves(n)[0].key == n.key;
    }
  }

  lemma Sides(n: Node, k: Key)
    requires Wf(n) && n.Inner?
    ensures k in Content(n.left) ==> Lt(k, n.key) && k !in Content(n.right)
    ensures k in Content(n.right) ==> !Lt(k, n.key)
  {
    ContentBounds(n.left);
    ContentBounds(n.right);
    LtTotalOrder();
  }

  /** `Get` finds exactly the pairs of the map. */
  lemma {:induction false} GetContent(n: Node, k: Key)
    requires Wf(n)
    ensures Get(n, k).1 == if k in Content(n) then Some(Content(n)[k]) else None
  {
    if n.Leaf? {
      LtTotalOrder();
    } else {
      Sides(n, k);
      GetContent(if Lt(k, n.key) then n.left else n.right, k);
    }
  }

  /** `Has`, although it may stop on a routing key, agrees with `Get`. */
  lemma {:induction false} HasContent(n: Node, k: Key)
    requires Wf(n)
    ensures Has(n, k) <==> k in Content(n)
  {
    if n.Inner? {
      Sides(n, k);
      ContentBounds(n.right);
      HasContent(if Lt(k, n.key) then n.left else n.right, k);
    }
  }

  /** `Get`'s index is the rank of the key, present or not. */
  lemma {:induction false} GetRank(n: Node, k: Key)
    requires Wf(n)
    ensures 0 <= Get(n, k).0 <= |Leaves(n)|
    ensures forall i :: 0 <= i < |Leaves(n)| ==> (i < Get(n, k).0 <==> Lt(Leaves(n)[i].key, k))
  {
    LtTotalOrder();
    if n.Inner? {
      LeavesSorted(n.left);
      LeavesSorted(n.right);
      GetRank(if Lt(k, n.key) then n.left else n.right, k);
    }
  }

  lemma {:induction false} ContentSize(n: Node)
    requires Wf(n)
    ensures |Content(n).Keys| == Size(n)
  {
    if n.Inner? {
      ContentSize(n.left);
      ContentSize(n.right);
      var l, r := Content(n.left).Keys, Content(n.right).Keys;
      forall x | x in l ensures x !in r { Sides(n, x); }
      assert Content(n).Keys == l + r;
      assert |l + r| == |l| + |r|;
    } else {
      assert Content(n).Keys == {n.key};
    }
  }

  /** The keys of a map below `k`. */
  function Smaller<V>(m: map<Key, V>, k: Key): set<Key> {
    set x | x in m && Lt(x, k)
  }

  /** Which side of an inner node the smaller keys are on. */
  lemma SmallerSide(n: Node, k: Key, x: Key)
    requires Wf(n) && n.Inner?
    ensures x in Content(n.right) && Lt(x, k) ==> x !in Content(n.left) && !Lt(k, n.key)
    ensures x in Content(n.left) && !Lt(k, n.key) ==> Lt(x, k)
  {
    Sides(n, x);
    LtTotalOrder();
  }

  lemma SmallerSides(n: Node, k: Key)
    requires Wf(n) && n.Inner?
    ensures var l, r := Content(n.left), Content(n.right);
            if Lt(k, n.key) then Smaller(Content(n), k) == Smaller(l, k)
            else Smaller(Content(n), k) == l.Keys + Smaller(r, k) && l.Keys !! Smaller(r, k)
  {
    forall x ensures
      (x in Content(n.right) && Lt(x, k) ==> x !in Content(n.left) && !Lt(k, n.key)) &&
      (x in Content(n.left) && !Lt(k, n.key) ==> Lt(x, k))
    {
      SmallerSide(n, k, x);
    }
  }

  /** Seen from the map, `Get`'s index counts its smaller keys. */
  lemma {:induction false} GetCounts(n: Node, k: Key)
    requires Wf(n)
    ensures Get(n, k).0 == |Smaller(Content(n), k)|
  {
    if n.Leaf? {
      assert Smaller(Content(n), k) == if Lt(n.key, k) then {n.key} else {};
    } else {
      SmallerSides(n, k);
      if Lt(k, n.key) {
        GetCounts(n.left, k);
      } else {
        GetCounts(n.right, k);
        ContentSize(n.left);
      }
    }
  }

  /** `GetByIndex` is selection by rank, and finds nothing outside the tree's size. */
  lemma {:induction false} GetByIndexSelects(n: Node, i: int)
    requires Wf(n)
    ensures |Leaves(n)| == Size(n)
    ensures GetByIndex(n, i) ==
            if 0 <= i < Size(n) then Some((Leaves(n)[i].key, Leaves(n)[i].value)) else None
  {
    LeavesSorted(n);
    if n.Inner? {
      LeavesSorted(n.left);
      LeavesSorted(n.right);
      MeasuresNonNegative(n.left);
      MeasuresNonNegative(n.right);
      if i < Size(n.left) { GetByIndexSelects(n.left, i); } else { GetByIndexSelects(n.right, i - Size(n.left)); }
    }
  }

  /** The rank of the `i`-th leaf's key is `i`. */
  lemma RankOfLeaf(n: Node, i: nat)
    requires Wf(n) && i < |Leaves(n)|
    ensures Get(n, Leaves(n)[i].key) == (i, Some(Leaves(n)[i].value))
  {
    var x := Leaves(n)[i].key;
    LeavesSorted(n);
    GetRank(n, x);
    GetContent(n, x);
    LeavesContent(n, x);
    LtIrreflexive(x);
    if i > 0 { assert Lt(Leaves(n)[i - 1].key, x); }
  }

  /** Rank and select are inverse. */
  lemma RankSelect(n: Node, i: int, k: Key)
    requires Wf(n)
    ensures 0 <= i < Size(n) ==> GetByIndex(n, i).Some? && Get(n, GetByIndex(n, i).value.0) == (i, Some(GetByIndex(n, i).value.1))
    ensures k in Content(n) ==> GetByIndex(n, Get(n, k).0) == Some((k, Content(n)[k]))
  {
    LeavesSorted(n);
    GetByIndexSelects(n, i);
    if 0 <= i < Size(n) { RankOfLeaf(n, i); }
    if k in Content(n) {
      LeavesContent(n, k);
      var j :| 0 <= j < |Leaves(n)| && Leaves(n)[j].key == k;
      RankOfLeaf(n, j);
      GetByIndexSelects(n, j);
    }
  }
}
