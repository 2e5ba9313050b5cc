/** A textbook AVL tree over plain entries, and that `Set` and `Remove` build exactly its trees: stored heights, sizes and
    routing keys, path copies and the shortcuts taken on the way make no difference. */
module AvlReference {
  import opened Bytes
  import opened Tree
  import opened TreeMutation

  /** A value and the version at which it was set. */
  datatype Stamped = Stamped(value: Value, version: int)

  datatype Avl = Tip(key: Key, entry: Stamped) | Fork(left: Avl, right: Avl)

  function Depth(a: Avl): nat {
    if a.Tip? then 0 else 1 + if Depth(a.left) < Depth(a.right) then Depth(a.right) else Depth(a.left)
  }

  function Least(a: Avl): Key {
    if a.Tip? then a.key else Least(a.left)
  }

  /** Joins neighbouring trees, with a single or a double rotation if one is too deep. */
  function Join(l: Avl, r: Avl): Avl {
    if l.Fork? && Depth(l) > Depth(r) + 1 then
      if Depth(l.left) >= Depth(l.right) || l.right.Tip? then Fork(l.left, Fork(l.right, r))
      else Fork(Fork(l.left, l.right.left), Fork(l.right.right, r))
    else if r.Fork? && Depth(r) > Depth(l) + 1 then
      if Depth(r.right) >= Depth(r.left) || r.left.Tip? then Fork(Fork(l, r.left), r.right)
      else Fork(Fork(l, r.left.left), Fork(r.left.right, r.right))
    else Fork(l, r)
  }

  function AvlInsert(a: Avl, k: Key, e: Stamped): Avl {
    match a
    case Tip(x, _) => if Lt(k, x) then Fork(Tip(k, e), a) else if Lt(x, k) then Fork(a, Tip(k, e)) else Tip(k, e)
    case Fork(l, r) => if Lt(k, Least(r)) then Join(AvlInsert(l, k, e), r) else Join(l, AvlInsert(r, k, e))
  }

  /** Absent when nothing is left. */
  function AvlDelete(a: Avl, k: Key): Option<Avl> {
    match a
    case Tip(x, _) => if x == k then None else Some(a)
    case Fork(l, r) =>
      if Lt(k, Least(r)) then
        var l' := AvlDelete(l, k);
        if l'.None? then Some(r) else Some(Join(l'.value, r))
      else
        var r' := AvlDelete(r, k);
        if r'.None? then Some(l) else Some(Join(l, r'.value))
  }

  function Shape(n: Node): Avl {
    if n.Leaf? then Tip(n.key, Stamped(n.value, n.version)) else Fork(Shape(n.left), Shape(n.right))
  }

  function ShapeOf(t: Option<Node>): Option<Avl> {
    if t.None? then None else Some(Shape(t.value))
  }

  /** The stored measures and keys are those of the shape. */
  lemma {:induction false} ShapeReads(n: Node)
    requires Wf(n)
    ensures Depth(Shape(n)) == Height(n) && Least(Shape(n)) == MinKey(n)
  {
    if n.Inner? {
      ShapeReads(n.left);
      ShapeReads(n.right);
    }
  }

  lemma BalancedJoin(n: Node)
    requires n.Inner? && Wf(n.left) && Wf(n.right) && -1 <= Balance(n) <= 1
    ensures Join(Shape(n.left), Shape(n.right)) == Shape(n)
  {
    ShapeReads(n.left);
    ShapeReads(n.right);
  }

  lemma LeftHeavyJoin(n: Node, version: int)
    requires Rebalancable(n) && Balance(n) > 1
    ensures Shape(Rebalance(n, version).0) == Join(Shape(n.left), Shape(n.right))
  {
    ShapeReads(n.left);
    ShapeReads(n.right);
    MeasuresNonNegative(n.right);
    ShapeReads(n.left.left);
    ShapeReads(n.left.right);
    MeasuresNonNegative(n.left.left);
  }

  lemma RightHeavyJoin(n: Node, version: int)
    requires Rebalancable(n) && Balance(n) < -1
    ensures Shape(Rebalance(n, version).0) == Join(Shape(n.left), Shape(n.right))
  {
    ShapeReads(n.left);
    ShapeReads(n.right);
    MeasuresNonNegative(n.left);
    ShapeReads(n.right.left);
    ShapeReads(n.right.right);
    MeasuresNonNegative(n.right.right);
  }

  /** `balance` is the textbook join. */
  lemma RebalanceIsJoin(n: Node, version: int)
    requires Rebalancable(n)
    ensures Shape(Rebalance(n, version).0) == Join(Shape(n.left), Shape(n.right))
  {
    if Balance(n) > 1 {
      LeftHeavyJoin(n, version);
    } else if Balance(n) < -1 {
      RightHeavyJoin(n, version);
    } else {
      BalancedJoin(n);
    }
  }

  /** `Set` is the textbook insertion. */
  lemma {:induction false} SetIsInsert(n: Node, k: Key, v: Value, version: int)
    requires Wf(n)
    ensures Shape(RecursiveSet(n, k, v, version).node) == AvlInsert(Shape(n), k, Stamped(v, version))
  {
    if n.Inner? {
      var child := if Lt(k, n.key) then n.left else n.right;
      var sub := RecursiveSet(child, k, v, version);
      SetIsInsert(child, k, v, version);
      ShapeReads(n.right);
      SetChildShape(n, k, sub.node, sub.updated, version);
      var node := SetChild(n, k, sub.node, version);
      if sub.updated { BalancedJoin(node); } else { RebalanceIsJoin(CalcHeightAndSize(node), version); }
    }
  }

  /** `Remove` is the textbook deletion. */
  lemma {:induction false} RemoveIsDelete(n: Node, k: Key, version: int)
    requires Wf(n)
    ensures ShapeOf(RecursiveRemove(n, k, version).node) == AvlDelete(Shape(n), k)
  {
    if n.Inner? {
      ShapeReads(n.right);
      if Lt(k, n.key) {
        var sub := RecursiveRemove(n.left, k, version);
        RemoveIsDelete(n.left, k, version);
        RemoveLeftShape(n, sub, version);
        if sub.orphans == [] { BalancedJoin(n); } else if sub.node.Some? { RebalanceIsJoin(RemoveLeft(n, sub, version), version); }
      } else {
        var sub := RecursiveRemove(n.right, k, version);
        RemoveIsDelete(n.right, k, version);
        RemoveRightShape(n, sub, version);
        if sub.orphans == [] { BalancedJoin(n); } else if sub.node.Some? { RebalanceIsJoin(RemoveRight(n, sub, version), version); }
      }
    }
  }

  // ---------- the entries ----------

  /** The map that a shape stands for. */
  function Stamps(a: Avl): map<Key, Stamped> {
    if a.Tip? then map[a.key := a.entry] else Stamps(a.left) + Stamps(a.right)
  }

  function StampsOf(t: Option<Node>): map<Key, Stamped> {
    if t.None? then map[] else Stamps(Shape(t.value))
  }

  lemma JoinStamps(l: Avl, r: Avl)
    ensures Stamps(Join(l, r)) == Stamps(l) + Stamps(r)
  {
    if l.Fork? && Depth(l) > Depth(r) + 1 {
      LeftJoinStamps(l.left, l.right, r);
    } else if r.Fork? && Depth(r) > Depth(l) + 1 {
      RightJoinStamps(l, r.left, r.right);
    }
  }

  lemma LeftJoinStamps(a: Avl, b: Avl, c: Avl)
    requires Depth(Fork(a, b)) > Depth(c) + 1
    ensures Stamps(Join(Fork(a, b), c)) == Stamps(Fork(Fork(a, b), c))
  {
    if b.Fork? { RotatedTwice(a, b.left, b.right, c); }
    RotatedOnce(a, b, c);
  }

  lemma RightJoinStamps(a: Avl, b: Avl, c: Avl)
    requires Depth(Fork(b, c)) > Depth(a) + 1
    ensures Stamps(Join(a, Fork(b, c))) == Stamps(Fork(a, Fork(b, c)))
  {
    if b.Fork? { RotatedTwice(a, b.left, b.right, c); }
    RotatedOnce(a, b, c);
  }

  lemma RotatedOnce(a: Avl, b: Avl, c: Avl)
    ensures Stamps(Fork(a, Fork(b, c))) == Stamps(Fork(Fork(a, b), c)) == (Stamps(a) + Stamps(b)) + Stamps(c)
  {
    UnionAssociates(Stamps(a), Stamps(b), Stamps(c));
  }

  lemma RotatedTwice(a: Avl, b: Avl, c: Avl, d: Avl)
    ensures Stamps(Fork(Fork(a, b), Fork(c, d))) == Stamps(Fork(Fork(a, Fork(b, c)), d)) == Stamps(Fork(a, Fork(Fork(b, c), d)))
  {
    RotatedOnce(Fork(a, b), c, d);
    RotatedOnce(a, b, c);
    RotatedOnce(a, Fork(b, c), d);
  }

  lemma UnionAssociates<V>(a: map<Key, V>, b: map<Key, V>, c: map<Key, V>)
    ensures (a + b) + c == a + (b + c)
  {
  }

  /** Without the versions, those are the pairs of the tree. */
  lemma {:induction false} StampsRead(n: Node)
    ensures Stamps(Shape(n)).Keys == Content(n).Keys
    ensures forall k :: k in Content(n) ==> Stamps(Shape(n))[k].value == Content(n)[k]
  {
    if n.Inner? {
      StampsRead(n.left);
      StampsRead(n.right);
    }
  }

  /** `Set` stamps its key with the working version, and no other. */
  lemma {:induction false} SetStamps(n: Node, k: Key, v: Value, version: int)
    requires Wf(n)
    ensures Stamps(Shape(RecursiveSet(n, k, v, version).node)) == Stamps(Shape(n))[k := Stamped(v, version)]
  {
    SetIsInsert(n, k, v, version);
    InsertStamps(n, k, Stamped(v, version));
  }

  /** An entry can only be on the side that its key routes to. */
  lemma SideOfStamps(n: Node, k: Key)
    requires Wf(n) && n.Inner?
    ensures Least(Shape(n.right)) == n.key && k !in Stamps(if Lt(k, n.key) then Shape(n.right) else Shape(n.left))
  {
    ShapeReads(n.right);
    SideOf(n, k);
    StampsRead(n.left);
    StampsRead(n.right);
  }

  lemma {:induction false} InsertStamps(n: Node, k: Key, e: Stamped)
    requires Wf(n)
    ensures Stamps(AvlInsert(Shape(n), k, e)) == Stamps(Shape(n))[k := e]
  {
    if n.Leaf? {
      InsertTip(n.key, Stamped(n.value, n.version), k, e);
    } else {
      var l, r := Shape(n.left), Shape(n.right);
      SideOfStamps(n, k);
      if Lt(k, n.key) {
        InsertStamps(n.left, k, e);
        JoinStamps(AvlInsert(l, k, e), r);
        UpdateLeftOfUnion(Stamps(l), Stamps(r), k, e);
      } else {
        InsertStamps(n.right, k, e);
        JoinStamps(l, AvlInsert(r, k, e));
        UpdateRightOfUnion(Stamps(l), Stamps(r), k, e);
      }
    }
  }

  lemma InsertTip(x: Key, d: Stamped, k: Key, e: Stamped)
    ensures Stamps(AvlInsert(Tip(x, d), k, e)) == map[x := d][k := e]
  {
    LtTrichotomy(k, x);
    LtIrreflexive(k);
  }

  function StampsLeft(a: Option<Avl>): map<Key, Stamped> {
    if a.None? then map[] else Stamps(a.value)
  }

  lemma {:induction false} DeleteStamps(n: Node, k: Key)
    requires Wf(n)
    ensures StampsLeft(AvlDelete(Shape(n), k)) == Stamps(Shape(n)) - {k}
  {
    if n.Inner? {
      var l, r := Shape(n.left), Shape(n.right);
      SideOfStamps(n, k);
      if Lt(k, n.key) {
        DeleteStamps(n.left, k);
        if AvlDelete(l, k).Some? { JoinStamps(AvlDelete(l, k).value, r); }
        RemoveLeftOfUnion(Stamps(l), Stamps(r), k);
        DeletedUnion(StampsLeft(AvlDelete(l, k)), Stamps(r));
      } else {
        DeleteStamps(n.right, k);
        if AvlDelete(r, k).Some? { JoinStamps(l, AvlDelete(r, k).value); }
        RemoveRightOfUnion(Stamps(l), Stamps(r), k);
        DeletedUnion(Stamps(l), StampsLeft(AvlDelete(r, k)));
      }
    }
  }

  lemma DeletedUnion<V>(a: map<Key, V>, b: map<Key, V>)
    ensures (a == map[] ==> a + b == b) && (b == map[] ==> a + b == a)
  {
  }

  /** `Remove` takes its key away, and leaves all other stamps alone. */
  lemma RemoveStamps(n: Node, k: Key, version: int)
    requires Wf(n)
    ensures StampsOf(RecursiveRemove(n, k, version).node) == Stamps(Shape(n)) - {k}
  {
    RemoveIsDelete(n, k, version);
    DeleteStamps(n, k);
  }
}
