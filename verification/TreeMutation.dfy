/** `Set` and `Remove` on the working tree: path copying, rotations and orphan collection. */
module TreeMutation {
  import opened Bytes
  import opened Tree

  /** A fresh unpersisted copy under the working version; the source refuses to clone a leaf. */
  function Clone(n: Node, version: int): (c: Node)
    requires n.Inner?
    ensures c.Inner? && !c.persisted && c.version == version
  {
    Inner(n.key, n.height, n.size, version, n.left, n.right, false)
  }

  function CalcHeightAndSize(n: Node): Node
    requires n.Inner?
  {
    n.(height := Max(Height(n.left), Height(n.right)) + 1, size := Size(n.left) + Size(n.right))
  }

  /** The new subtree root and the node it replaces. */
  function RotateRight(n: Node, version: int): (Node, Node)
    requires n.Inner? && n.left.Inner?
  {
    var orphaned := n.left;
    var node := CalcHeightAndSize(Clone(n, version).(left := orphaned.right));
    (CalcHeightAndSize(Clone(orphaned, version).(right := node)), orphaned)
  }

  function RotateLeft(n: Node, version: int): (Node, Node)
    requires n.Inner? && n.right.Inner?
  {
    var orphaned := n.right;
    var node := CalcHeightAndSize(Clone(n, version).(right := orphaned.left));
    (CalcHeightAndSize(Clone(orphaned, version).(left := node)), orphaned)
  }

  /** `balance` is called on measured nodes whose subtrees are well formed and at most two levels apart. */
  predicate Rebalancable(n: Node) {
    n.Inner? && !n.persisted && Measured(n) && Routed(n) && Wf(n.left) && Wf(n.right) && -2 <= Balance(n) <= 2
  }

  /** Rebalances, returning the new subtree root and the nodes to orphan. */
  function Rebalance(n: Node, version: int): (Node, seq<Node>)
    requires Rebalancable(n)
  {
    MeasuresNonNegative(n.left);
    MeasuresNonNegative(n.right);
    if Balance(n) > 1 then
      if Balance(n.left) >= 0 then
        var (node, orphaned) := RotateRight(n, version);
        (node, [orphaned])
      else
        var left := n.left;
        MeasuresNonNegative(left.left);
        MeasuresNonNegative(left.right);
        var (newLeft, leftOrphaned) := RotateLeft(left, version);
        var (node, rightOrphaned) := RotateRight(n.(left := newLeft), version);
        (node, [left, leftOrphaned, rightOrphaned])
    else if Balance(n) < -1 then
      if Balance(n.right) <= 0 then
        var (node, orphaned) := RotateLeft(n, version);
        (node, [orphaned])
      else
        var right := n.right;
        MeasuresNonNegative(right.left);
        MeasuresNonNegative(right.right);
        var (newRight, rightOrphaned) := RotateRight(right, version);
        var (node, leftOrphaned) := RotateLeft(n.(right := newRight), version);
        (node, [right, leftOrphaned, rightOrphaned])
    else (n, [])
  }

  /** A rotation regroups three subtrees and changes nothing that can be read. */
  lemma RotateRightReads(n: Node, version: int)
    requires n.Inner? && n.left.Inner? && Routed(n) && Routed(n.left)
    ensures var r := RotateRight(n, version).0;
            MinKey(r) == MinKey(n) && MaxKey(r) == MaxKey(n) && Content(r) == Content(n) &&
            Routed(r) && Routed(r.right) && Measured(r) && Measured(r.right)
  {
    var r := RotateRight(n, version).0;
    assert r.left == n.left.left && r.right.left == n.left.right && r.right.right == n.right;
    assert Content(r) == Content(n);
  }

  lemma RotateLeftReads(n: Node, version: int)
    requires n.Inner? && n.right.Inner? && Routed(n) && Routed(n.right)
    ensures var r := RotateLeft(n, version).0;
            MinKey(r) == MinKey(n) && MaxKey(r) == MaxKey(n) && Content(r) == Content(n) &&
            Routed(r) && Routed(r.left) && Measured(r) && Measured(r.left)
  {
    var r := RotateLeft(n, version).0;
    assert r.left.left == n.left && r.left.right == n.right.left && r.right == n.right.right;
    assert Content(r) == Content(n);
  }

  /** What `balance` must deliver for `n`. */
  predicate Rebalanced(n: Node, r: Node)
    requires n.Inner?
  {
    Wf(r) && r.Inner? && !r.persisted && MinKey(r) == MinKey(n) && MaxKey(r) == MaxKey(n) &&
    Content(r) == Content(n) && n.height - 1 <= r.height <= n.height && r.size == n.size
  }

  lemma LeftLeftCase(n: Node, version: int)
    requires Rebalancable(n) && Balance(n) == 2 && n.left.Inner? && Balance(n.left) >= 0
    ensures Rebalanced(n, RotateRight(n, version).0)
  {
    RotateRightReads(n, version);
  }

  lemma RightRightCase(n: Node, version: int)
    requires Rebalancable(n) && Balance(n) == -2 && n.right.Inner? && Balance(n.right) <= 0
    ensures Rebalanced(n, RotateLeft(n, version).0)
  {
    RotateLeftReads(n, version);
  }

  lemma LeftRightCase(n: Node, version: int)
    requires Rebalancable(n) && Balance(n) == 2 && n.left.Inner? && Balance(n.left) < 0 && n.left.right.Inner?
    ensures var m := n.(left := RotateLeft(n.left, version).0);
            Rebalanced(n, RotateRight(m, version).0)
  {
    assert Wf(n.left.right);
    RotateLeftReads(n.left, version);
    RotateRightReads(n.(left := RotateLeft(n.left, version).0), version);
  }

  lemma RightLeftCase(n: Node, version: int)
    requires Rebalancable(n) && Balance(n) == -2 && n.right.Inner? && Balance(n.right) > 0 && n.right.left.Inner?
    ensures var m := n.(right := RotateRight(n.right, version).0);
            Rebalanced(n, RotateLeft(m, version).0)
  {
    assert Wf(n.right.left);
    RotateRightReads(n.right, version);
    RotateLeftReads(n.(right := RotateRight(n.right, version).0), version);
  }

  /** `balance` restores the AVL condition and keeps the contents; the height drops by at most one. */
  lemma RebalanceCorrect(n: Node, version: int)
    requires Rebalancable(n)
    ensures Rebalanced(n, Rebalance(n, version).0)
    ensures -1 <= Balance(n) <= 1 ==> Rebalance(n, version).0 == n
  {
    MeasuresNonNegative(n.left);
    MeasuresNonNegative(n.right);
    if Balance(n) > 1 {
      if Balance(n.left) >= 0 {
        LeftLeftCase(n, version);
      } else {
        MeasuresNonNegative(n.left.left);
        LeftRightCase(n, version);
      }
    } else if Balance(n) < -1 {
      if Balance(n.right) <= 0 {
        RightRightCase(n, version);
      } else {
        MeasuresNonNegative(n.right.right);
        RightLeftCase(n, version);
      }
    }
  }

  datatype SetResult = SetResult(node: Node, updated: bool, orphans: seq<Node>)

  function NewNode(k: Key, v: Value, version: int): Node {
    Leaf(k, v, version, false)
  }

  /** How a rewritten subtree relates to the one it replaces. */
  predicate SetShape(n: Node, k: Key, node: Node, updated: bool) {
    Wf(node) &&
    (updated ==> Height(node) == Height(n) && Size(node) == Size(n)) &&
    (!updated ==> Height(n) <= Height(node) <= Height(n) + 1 && Size(node) == Size(n) + 1) &&
    MinKey(node) == (if Lt(k, MinKey(n)) then k else MinKey(n)) &&
    MaxKey(node) == (if Lt(MaxKey(n), k) then k else MaxKey(n))
  }

  /** `recursiveSet`: the rewritten subtree, whether the key was already present, and the nodes passed over. */
  function RecursiveSet(n: Node, k: Key, v: Value, version: int): (r: SetResult)
    requires Wf(n)
    ensures SetShape(n, k, r.node, r.updated)
  {
    if n.Leaf? then
      SetLeafShape(n, k, v, version);
      SetLeaf(n, k, v, version)
    else
      var sub := RecursiveSet(if Lt(k, n.key) then n.left else n.right, k, v, version);
      var node := SetChild(n, k, sub.node, version);
      SetChildShape(n, k, sub.node, sub.updated, version);
      if sub.updated then SetResult(node, true, [n] + sub.orphans)
      else
        var node := CalcHeightAndSize(node);
        RebalanceCorrect(node, version);
        var (balanced, orphans) := Rebalance(node, version);
        SetResult(balanced, false, [n] + sub.orphans + orphans)
  }

  function SetLeaf(n: Node, k: Key, v: Value, version: int): SetResult
    requires n.Leaf?
  {
    if Lt(k, n.key) then
      SetResult(Inner(n.key, 1, 2, version, NewNode(k, v, version), n, false), false, [])
    else if Lt(n.key, k) then
      SetResult(Inner(k, 1, 2, version, n, NewNode(k, v, version), false), false, [])
    else SetResult(NewNode(k, v, version), true, [n])
  }

  /** The clone of `n` with its rewritten child in place, on the side that `k` routes to. */
  function SetChild(n: Node, k: Key, child: Node, version: int): Node
    requires n.Inner?
  {
    var c := Clone(n, version);
    if Lt(k, n.key) then c.(left := child) else c.(right := child)
  }

  lemma SetLeafShape(n: Node, k: Key, v: Value, version: int)
    requires n.Leaf?
    ensures var r := SetLeaf(n, k, v, version); SetShape(n, k, r.node, r.updated)
  {
    LtTotalOrder();
  }

  lemma SetChildShape(n: Node, k: Key, child: Node, updated: bool, version: int)
    requires Wf(n) && n.Inner? && SetShape(if Lt(k, n.key) then n.left else n.right, k, child, updated)
    ensures var node := SetChild(n, k, child, version);
            MinKey(node) == (if Lt(k, MinKey(n)) then k else MinKey(n)) &&
            MaxKey(node) == (if Lt(MaxKey(n), k) then k else MaxKey(n)) &&
            if updated then Wf(node)
            else
              var node := CalcHeightAndSize(node);
              Rebalancable(node) && n.height <= node.height <= n.height + 1 && node.size == n.size + 1 &&
              (node.height == n.height + 1 || -1 <= Balance(node) <= 1)
  {
    SetRouting(n, k);
    var node := SetChild(n, k, child, version);
    assert Routed(node);
  }

  /** Where a key falls relative to an inner node's bounds. */
  lemma SetRouting(n: Node, k: Key)
    requires Wf(n) && n.Inner?
    ensures Lt(k, n.key) ==> !Lt(MaxKey(n), k)
    ensures !Lt(k, n.key) ==> !Lt(k, MinKey(n))
  {
    InnerBounds(n);
    LtTotalOrder();
  }

  /** `Set` is map update, and reports whether the key was there before. */
  lemma {:induction false} SetContent(n: Node, k: Key, v: Value, version: int)
    requires Wf(n)
    ensures var r := RecursiveSet(n, k, v, version);
            Content(r.node) == Content(n)[k := v] && (r.updated <==> k in Content(n))
  {
    if n.Leaf? {
      LtTotalOrder();
    } else {
      var sub := RecursiveSet(if Lt(k, n.key) then n.left else n.right, k, v, version);
      SetContent(if Lt(k, n.key) then n.left else n.right, k, v, version);
      SideOf(n, k);
      SetChildContent(n, k, v, sub.node, version);
      SetChildShape(n, k, sub.node, sub.updated, version);
      if !sub.updated { RebalanceCorrect(CalcHeightAndSize(SetChild(n, k, sub.node, version)), version); }
    }
  }

  lemma SetChildContent(n: Node, k: Key, v: Value, child: Node, version: int)
    requires n.Inner? && Content(child) == Content(if Lt(k, n.key) then n.left else n.right)[k := v]
    requires Lt(k, n.key) ==> k !in Content(n.right)
    ensures var node := SetChild(n, k, child, version);
            Content(node) == Content(n)[k := v] == Content(CalcHeightAndSize(node))
  {
    if Lt(k, n.key) {
      UpdateLeftOfUnion(Content(n.left), Content(n.right), k, v);
    } else {
      UpdateRightOfUnion(Content(n.left), Content(n.right), k, v);
    }
  }

  lemma UpdateLeftOfUnion<V>(a: map<Key, V>, b: map<Key, V>, k: Key, v: V)
    requires k !in b
    ensures a[k := v] + b == (a + b)[k := v]
  {
  }

  lemma UpdateRightOfUnion<V>(a: map<Key, V>, b: map<Key, V>, k: Key, v: V)
    ensures a + b[k := v] == (a + b)[k := v]
  {
  }

  /** A key can only be on the side it routes to. */
  lemma SideOf(n: Node, k: Key)
    requires Wf(n) && n.Inner?
    ensures Lt(k, n.key) ==> k !in Content(n.right)
    ensures !Lt(k, n.key) ==> k !in Content(n.left)
  {
    ContentBounds(n.left);
    ContentBounds(n.right);
    LtTotalOrder();
  }

  /** An empty `orphans` means that the key was not found; `node` is absent when the subtree vanished. */
  datatype RemoveResult = RemoveResult(node: Option<Node>, newKey: Option<Key>, value: Option<Value>, orphans: seq<Node>)

  predicate RemoveShape(n: Node, r: RemoveResult) {
    if r.orphans == [] then r == RemoveResult(Some(n), None, None, [])
    else if r.node.None? then n.Leaf?
    else n.Inner? && Shrunk(n, r.node.value, r.newKey)
  }

  /** `m` is `n` less one leaf; `newKey` reports a changed least key. */
  predicate Shrunk(n: Node, m: Node, newKey: Option<Key>) {
    Wf(m) && Height(n) - 1 <= Height(m) <= Height(n) && Size(m) == Size(n) - 1 &&
    Le(MaxKey(m), MaxKey(n)) && Le(MinKey(n), MinKey(m)) &&
    MinKey(m) == if newKey.Some? then newKey.value else MinKey(n)
  }

  /** `recursiveRemove`: the subtree without `k`, its new least key if that changed, and the removed value. */
  function RecursiveRemove(n: Node, k: Key, version: int): (r: RemoveResult)
    requires Wf(n)
    ensures RemoveShape(n, r)
  {
    if n.Leaf? then
      if k == n.key then RemoveResult(None, None, Some(n.value), [n]) else RemoveResult(Some(n), None, None, [])
    else if Lt(k, n.key) then
      var sub := RecursiveRemove(n.left, k, version);
      RemoveLeftShape(n, sub, version);
      if sub.orphans == [] then RemoveResult(Some(n), None, sub.value, [])
      else if sub.node.None? then RemoveResult(Some(n.right), Some(n.key), sub.value, sub.orphans + [n])
      else
        var (balanced, orphans) := Rebalance(RemoveLeft(n, sub, version), version);
        RemoveResult(Some(balanced), sub.newKey, sub.value, sub.orphans + [n] + orphans)
    else
      var sub := RecursiveRemove(n.right, k, version);
      RemoveRightShape(n, sub, version);
      if sub.orphans == [] then RemoveResult(Some(n), None, sub.value, [])
      else if sub.node.None? then RemoveResult(Some(n.left), None, sub.value, sub.orphans + [n])
      else
        var (balanced, orphans) := Rebalance(RemoveRight(n, sub, version), version);
        RemoveResult(Some(balanced), None, sub.value, sub.orphans + [n] + orphans)
  }

  /** The clone of `n` over its shrunken left subtree. */
  function RemoveLeft(n: Node, sub: RemoveResult, version: int): Node
    requires n.Inner? && sub.node.Some?
  {
    var c := Clone(n, version);
    CalcHeightAndSize(c.(left := sub.node.value))
  }

  /** The clone of `n` over its shrunken right subtree, with the routing key repaired. */
  function RemoveRight(n: Node, sub: RemoveResult, version: int): Node
    requires n.Inner? && sub.node.Some?
  {
    var c := Clone(n, version);
    var key := if sub.newKey.Some? then sub.newKey.value else n.key;
    CalcHeightAndSize(c.(key := key, right := sub.node.value))
  }

  lemma RemoveLeftShape(n: Node, sub: RemoveResult, version: int)
    requires Wf(n) && n.Inner? && RemoveShape(n.left, sub)
    ensures sub.orphans != [] && sub.node.None? ==> Shrunk(n, n.right, Some(n.key))
    ensures sub.orphans != [] && sub.node.Some? ==>
      var node := RemoveLeft(n, sub, version);
      Rebalancable(node) && Shrunk(n, Rebalance(node, version).0, sub.newKey)
  {
    if sub.orphans != [] {
      InnerBounds(n);
      if sub.node.None? {
        MeasuresNonNegative(n.right);
      } else {
        LeLtTransitive(MaxKey(sub.node.value), MaxKey(n.left), n.key);
        RebalanceCorrect(RemoveLeft(n, sub, version), version);
      }
    }
  }

  lemma RemoveRightShape(n: Node, sub: RemoveResult, version: int)
    requires Wf(n) && n.Inner? && RemoveShape(n.right, sub)
    ensures sub.orphans != [] && sub.node.None? ==> Shrunk(n, n.left, None)
    ensures sub.orphans != [] && sub.node.Some? ==>
      var node := RemoveRight(n, sub, version);
      Rebalancable(node) && Shrunk(n, Rebalance(node, version).0, None)
  {
    if sub.orphans != [] {
      InnerBounds(n);
      if sub.node.None? {
        MeasuresNonNegative(n.left);
      } else {
        LtLeTransitive(MaxKey(n.left), n.key, MinKey(sub.node.value));
        RebalanceCorrect(RemoveRight(n, sub, version), version);
      }
    }
  }

  function ContentOf(t: Option<Node>): map<Key, Value> {
    if t.None? then map[] else Content(t.value)
  }

  /** `Remove` is map deletion; it returns the removed value, and finds the key exactly when it is there. */
  lemma {:induction false} RemoveContent(n: Node, k: Key, version: int)
    requires Wf(n)
    ensures var r := RecursiveRemove(n, k, version);
            ContentOf(r.node) == Content(n) - {k} && (r.orphans != [] <==> k in Content(n)) &&
            r.value == if k in Content(n) then Some(Content(n)[k]) else None
  {
    if n.Leaf? {
    } else {
      SideOf(n, k);
      if Lt(k, n.key) {
        RemoveContent(n.left, k, version);
        RemoveLeftOfUnion(Content(n.left), Content(n.right), k);
        RemoveLeftContent(n, k, version);
      } else {
        RemoveContent(n.right, k, version);
        RemoveRightOfUnion(Content(n.left), Content(n.right), k);
        RemoveRightContent(n, k, version);
      }
    }
  }

  lemma RemoveLeftOfUnion<V>(a: map<Key, V>, b: map<Key, V>, k: Key)
    requires k !in b
    ensures (a - {k}) + b == (a + b) - {k} && (k in a + b <==> k in a) && (k in a ==> (a + b)[k] == a[k])
  {
  }

  lemma RemoveRightOfUnion<V>(a: map<Key, V>, b: map<Key, V>, k: Key)
    requires k !in a
    ensures a + (b - {k}) == (a + b) - {k} && (k in a + b <==> k in b) && (k in b ==> (a + b)[k] == b[k])
  {
  }

  lemma RemoveLeftContent(n: Node, k: Key, version: int)
    requires Wf(n) && n.Inner? && Lt(k, n.key)
    ensures ContentOf(RecursiveRemove(n, k, version).node)
         == ContentOf(RecursiveRemove(n.left, k, version).node) + Content(n.right)
  {
    var sub := RecursiveRemove(n.left, k, version);
    RemoveLeftShape(n, sub, version);
    if sub.orphans != [] && sub.node.Some? { RebalanceCorrect(RemoveLeft(n, sub, version), version); }
  }

  lemma RemoveRightContent(n: Node, k: Key, version: int)
    requires Wf(n) && n.Inner? && !Lt(k, n.key)
    ensures ContentOf(RecursiveRemove(n, k, version).node)
         == Content(n.left) + ContentOf(RecursiveRemove(n.right, k, version).node)
  {
    var sub := RecursiveRemove(n.right, k, version);
    RemoveRightShape(n, sub, version);
    if sub.orphans != [] && sub.node.Some? { RebalanceCorrect(RemoveRight(n, sub, version), version); }
  }
}
