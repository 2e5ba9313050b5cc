/** What the trees before and after `Set` and `Remove` share: all but the path to the key and what a rotation takes apart. */
module Sharing {
  import opened Bytes
  import opened Tree
  import opened TreeMutation

  /** A node made by the operation. */
  predicate Fresh(m: Node, version: int) {
    m.Inner? && m.version == version && !m.persisted
  }

  // ---------- nothing else is new ----------

  lemma RotateRightFresh(n: Node, version: int, m: Node)
    requires n.Inner? && n.left.Inner? && Within(m, RotateRight(n, version).0)
    ensures Fresh(m, version) || Within(m, n.left.left) || Within(m, n.left.right) || Within(m, n.right)
  {
  }

  lemma RotateLeftFresh(n: Node, version: int, m: Node)
    requires n.Inner? && n.right.Inner? && Within(m, RotateLeft(n, version).0)
    ensures Fresh(m, version) || Within(m, n.left) || Within(m, n.right.left) || Within(m, n.right.right)
  {
  }

  lemma RebalanceFresh(n: Node, version: int, m: Node)
    requires Rebalancable(n) && n.version == version && Within(m, Rebalance(n, version).0)
    ensures Fresh(m, version) || Within(m, n.left) || Within(m, n.right)
  {
    MeasuresNonNegative(n.left);
    MeasuresNonNegative(n.right);
    if Balance(n) > 1 {
      if Balance(n.left) >= 0 {
        RotateRightFresh(n, version, m);
      } else {
        MeasuresNonNegative(n.left.left);
        MeasuresNonNegative(n.left.right);
        var l := RotateLeft(n.left, version).0;
        RotateRightFresh(n.(left := l), version, m);
        if Within(m, l) { RotateLeftFresh(n.left, version, m); }
      }
    } else if Balance(n) < -1 {
      if Balance(n.right) <= 0 {
        RotateLeftFresh(n, version, m);
      } else {
        MeasuresNonNegative(n.right.left);
        MeasuresNonNegative(n.right.right);
        var r := RotateRight(n.right, version).0;
        RotateLeftFresh(n.(right := r), version, m);
        if Within(m, r) { RotateRightFresh(n.right, version, m); }
      }
    }
  }

  /** Whatever the tree holds after `Set` it held before, or it is the new leaf, or a new inner node of this version. */
  lemma {:induction false} SetFresh(n: Node, k: Key, v: Value, version: int, m: Node)
    requires Wf(n) && Within(m, RecursiveSet(n, k, v, version).node)
    ensures Within(m, n) || Fresh(m, version) || m == NewNode(k, v, version)
  {
    if n.Inner? {
      var child := if Lt(k, n.key) then n.left else n.right;
      var sub := RecursiveSet(child, k, v, version);
      var node := SetChild(n, k, sub.node, version);
      SetChildShape(n, k, sub.node, sub.updated, version);
      if !sub.updated { RebalanceFresh(CalcHeightAndSize(node), version, m); }
      if Within(m, sub.node) { SetFresh(child, k, v, version, m); }
    }
  }

  /** Whatever the tree holds after `Remove` it held before, or it is a new inner node of this version. */
  lemma {:induction false} RemoveFresh(n: Node, k: Key, version: int, m: Node)
    requires Wf(n) && RecursiveRemove(n, k, version).node.Some? && Within(m, RecursiveRemove(n, k, version).node.value)
    ensures Within(m, n) || Fresh(m, version)
  {
    if n.Inner? {
      if Lt(k, n.key) {
        var sub := RecursiveRemove(n.left, k, version);
        RemoveLeftShape(n, sub, version);
        if sub.orphans != [] && sub.node.Some? {
          RebalanceFresh(RemoveLeft(n, sub, version), version, m);
          if Within(m, sub.node.value) { RemoveFresh(n.left, k, version, m); }
        }
      } else {
        var sub := RecursiveRemove(n.right, k, version);
        RemoveRightShape(n, sub, version);
        if sub.orphans != [] && sub.node.Some? {
          RebalanceFresh(RemoveRight(n, sub, version), version, m);
          if Within(m, sub.node.value) { RemoveFresh(n.right, k, version, m); }
        }
      }
    }
  }

  // ---------- what is kept ----------

  /** `m` hangs off the path to `k`. */
  predicate Hangs(m: Node, n: Node, k: Key) {
    n.Inner? && if Lt(k, n.key) then m == n.right || Hangs(m, n.left, k) else m == n.left || Hangs(m, n.right, k)
  }

  lemma {:induction false} HangsBelow(m: Node, n: Node, k: Key)
    requires Wf(n) && Hangs(m, n, k)
    ensures Height(m) < Height(n)
  {
    if Lt(k, n.key) {
      if m != n.right { HangsBelow(m, n.left, k); }
    } else {
      if m != n.left { HangsBelow(m, n.right, k); }
    }
  }

  /** Rotating to the right keeps the right subtree, and on the left whatever is no higher. */
  lemma RightwardKeeps(n: Node, version: int, m: Node)
    requires Rebalancable(n) && Balance(n) >= -1
    requires m == n.right || (Within(m, n.left) && (Height(m) <= Height(n.right) || Balance(n) <= 1))
    ensures Within(m, Rebalance(n, version).0)
  {
    MeasuresNonNegative(n.left);
    MeasuresNonNegative(n.right);
    if Balance(n) > 1 && Balance(n.left) < 0 {
      MeasuresNonNegative(n.left.left);
      MeasuresNonNegative(n.left.right);
    }
  }

  lemma LeftwardKeeps(n: Node, version: int, m: Node)
    requires Rebalancable(n) && Balance(n) <= 1
    requires m == n.left || (Within(m, n.right) && (Height(m) <= Height(n.left) || Balance(n) >= -1))
    ensures Within(m, Rebalance(n, version).0)
  {
    MeasuresNonNegative(n.left);
    MeasuresNonNegative(n.right);
    if Balance(n) < -1 && Balance(n.right) > 0 {
      MeasuresNonNegative(n.right.left);
      MeasuresNonNegative(n.right.right);
    }
  }

  /** `Set` copies nothing but the path: every subtree that hangs off it is in the new tree as it was. */
  lemma {:induction false} SetKeeps(n: Node, k: Key, v: Value, version: int, m: Node)
    requires Wf(n) && Hangs(m, n, k)
    ensures Within(m, RecursiveSet(n, k, v, version).node)
  {
    var left := Lt(k, n.key);
    var child, beside := if left then n.left else n.right, if left then n.right else n.left;
    var sub := RecursiveSet(child, k, v, version);
    if m != beside {
      SetKeeps(child, k, v, version, m);
      HangsBelow(m, child, k);
    }
    SetChildShape(n, k, sub.node, sub.updated, version);
    if !sub.updated {
      var node := CalcHeightAndSize(SetChild(n, k, sub.node, version));
      if left { RightwardKeeps(node, version, m); } else { LeftwardKeeps(node, version, m); }
    }
  }

  /** What a rotation takes apart stays in pieces: the outer part, and the inner one or its two halves. */
  predicate InPieces(outer: Node, inner: Node, t: Node) {
    Within(outer, t) && (Within(inner, t) || (inner.Inner? && Within(inner.left, t) && Within(inner.right, t)))
  }

  /** `Remove` leaves what was beside the path where it was, and alone if its sibling is gone.  Only a subtree that is
      then two levels higher than its sibling is taken apart by a rotation. */
  lemma RemoveKeeps(n: Node, k: Key, version: int)
    requires Wf(n) && n.Inner? && RecursiveRemove(n, k, version).orphans != []
    ensures var left := Lt(k, n.key);
            var sub, beside := RecursiveRemove(if left then n.left else n.right, k, version).node, if left then n.right else n.left;
            var t := RecursiveRemove(n, k, version).node;
            if sub.None? then t == Some(beside)
            else t.Some? && Within(sub.value, t.value) &&
                 if Height(beside) <= Height(sub.value) + 1 then Within(beside, t.value)
                 else beside.Inner? && if left then InPieces(beside.right, beside.left, t.value)
                                       else InPieces(beside.left, beside.right, t.value)
  {
    if Lt(k, n.key) { RemoveLeftKeeps(n, k, version); } else { RemoveRightKeeps(n, k, version); }
  }

  lemma RemoveLeftKeeps(n: Node, k: Key, version: int)
    requires Wf(n) && n.Inner? && Lt(k, n.key) && RecursiveRemove(n, k, version).orphans != []
    ensures var sub, t := RecursiveRemove(n.left, k, version).node, RecursiveRemove(n, k, version).node;
            if sub.None? then t == Some(n.right)
            else t.Some? && Within(sub.value, t.value) &&
                 if Height(n.right) <= Height(sub.value) + 1 then Within(n.right, t.value)
                 else n.right.Inner? && InPieces(n.right.right, n.right.left, t.value)
  {
    var sub := RecursiveRemove(n.left, k, version);
    RemoveLeftShape(n, sub, version);
    if sub.node.Some? { LeftwardPieces(RemoveLeft(n, sub, version), version); }
  }

  lemma RemoveRightKeeps(n: Node, k: Key, version: int)
    requires Wf(n) && n.Inner? && !Lt(k, n.key) && RecursiveRemove(n, k, version).orphans != []
    ensures var sub, t := RecursiveRemove(n.right, k, version).node, RecursiveRemove(n, k, version).node;
            if sub.None? then t == Some(n.left)
            else t.Some? && Within(sub.value, t.value) &&
                 if Height(n.left) <= Height(sub.value) + 1 then Within(n.left, t.value)
                 else n.left.Inner? && InPieces(n.left.left, n.left.right, t.value)
  {
    var sub := RecursiveRemove(n.right, k, version);
    RemoveRightShape(n, sub, version);
    if sub.node.Some? { RightwardPieces(RemoveRight(n, sub, version), version); }
  }

  lemma LeftwardPieces(n: Node, version: int)
    requires Rebalancable(n) && Balance(n) <= 1
    ensures var t := Rebalance(n, version).0;
            Within(n.left, t) && if Balance(n) >= -1 then Within(n.right, t)
                                 else n.right.Inner? && InPieces(n.right.right, n.right.left, t)
  {
    MeasuresNonNegative(n.left);
    MeasuresNonNegative(n.right);
    if Balance(n) < -1 && Balance(n.right) <= 0 {
      assert Within(n.right.left, Rebalance(n, version).0.left);
    } else if Balance(n) < -1 {
      MeasuresNonNegative(n.right.left);
      MeasuresNonNegative(n.right.right);
      var t := Rebalance(n, version).0;
      assert Within(n.right.left.left, t.left) && Within(n.right.left.right, t.right) && Within(n.right.right, t.right);
    }
  }

  lemma RightwardPieces(n: Node, version: int)
    requires Rebalancable(n) && Balance(n) >= -1
    ensures var t := Rebalance(n, version).0;
            Within(n.right, t) && if Balance(n) <= 1 then Within(n.left, t)
                                  else n.left.Inner? && InPieces(n.left.left, n.left.right, t)
  {
    MeasuresNonNegative(n.left);
    MeasuresNonNegative(n.right);
    if Balance(n) > 1 && Balance(n.left) >= 0 {
      assert Within(n.left.right, Rebalance(n, version).0.right);
    } else if Balance(n) > 1 {
      MeasuresNonNegative(n.left.left);
      MeasuresNonNegative(n.left.right);
      var t := Rebalance(n, version).0;
      assert Within(n.left.right.right, t.right) && Within(n.left.right.left, t.left) && Within(n.left.left, t.left);
    }
  }
}
