/** Orphan accounting: every persisted node that an operation drops from the tree is handed to `addOrphans`. */
module Orphans {
  import opened Bytes
  import opened Tree
  import opened TreeMutation

  function Own(n: Node, h: Blob): nat {
    if n.persisted && Hash(n) == h then 1 else 0
  }

  /** How many persisted nodes of the tree have hash `h`. */
  function Persisted(n: Node, h: Blob): nat {
    if n.Leaf? then Own(n, h) else Own(n, h) + Persisted(n.left, h) + Persisted(n.right, h)
  }

  function PersistedOf(t: Option<Node>, h: Blob): nat {
    if t.None? then 0 else Persisted(t.value, h)
  }

  /** How often `addOrphans` records `h` for a list of nodes. */
  function Orphaned(s: seq<Node>, h: Blob): nat {
    if s == [] then 0 else Own(s[0], h) + Orphaned(s[1..], h)
  }

  lemma {:induction false} OrphanedConcat(s: seq<Node>, t: seq<Node>, h: Blob)
    ensures Orphaned(s + t, h) == Orphaned(s, h) + Orphaned(t, h)
  {
    if s == [] {
      assert s + t == t;
    } else {
      assert (s + t)[1..] == s[1..] + t;
      OrphanedConcat(s[1..], t, h);
    }
  }

  lemma OrphanedThree(a: Node, b: Node, c: Node, h: Blob)
    ensures Orphaned([a, b, c], h) == Own(a, h) + Own(b, h) + Own(c, h)
  {
    OrphanedConcat([a, b], [c], h);
    OrphanedConcat([a], [b], h);
    assert [a, b] + [c] == [a, b, c] && [a] + [b] == [a, b];
  }

  lemma RotateRightConserves(n: Node, version: int, h: Blob)
    requires n.Inner? && n.left.Inner?
    ensures var (r, o) := RotateRight(n, version);
            !r.persisted && Persisted(n, h) == Own(n, h) + Own(o, h) + Persisted(r, h)
  {
    var r := RotateRight(n, version).0;
    assert r.left == n.left.left && r.right.left == n.left.right && r.right.right == n.right;
  }

  lemma RotateLeftConserves(n: Node, version: int, h: Blob)
    requires n.Inner? && n.right.Inner?
    ensures var (r, o) := RotateLeft(n, version);
            !r.persisted && Persisted(n, h) == Own(n, h) + Own(o, h) + Persisted(r, h)
  {
    var r := RotateLeft(n, version).0;
    assert r.left.left == n.left && r.left.right == n.right.left && r.right == n.right.right;
  }

  lemma RebalanceLeftConserves(n: Node, version: int, h: Blob)
    requires Rebalancable(n) && Balance(n) > 1
    ensures var (r, orphans) := Rebalance(n, version);
            Persisted(n, h) == Persisted(r, h) + Orphaned(orphans, h)
  {
    MeasuresNonNegative(n.right);
    if Balance(n.left) >= 0 {
      RotateRightConserves(n, version, h);
    } else {
      MeasuresNonNegative(n.left.left);
      var (left, o1) := RotateLeft(n.left, version);
      RotateLeftConserves(n.left, version, h);
      RotateRightConserves(n.(left := left), version, h);
      OrphanedThree(n.left, o1, left, h);
    }
  }

  lemma RebalanceRightConserves(n: Node, version: int, h: Blob)
    requires Rebalancable(n) && Balance(n) < -1
    ensures var (r, orphans) := Rebalance(n, version);
            Persisted(n, h) == Persisted(r, h) + Orphaned(orphans, h)
  {
    MeasuresNonNegative(n.left);
    if Balance(n.right) <= 0 {
      RotateLeftConserves(n, version, h);
    } else {
      MeasuresNonNegative(n.right.right);
      var (right, o1) := RotateRight(n.right, version);
      RotateRightConserves(n.right, version, h);
      RotateLeftConserves(n.(right := right), version, h);
      OrphanedThree(n.right, right, o1, h);
    }
  }

  lemma RebalanceConserves(n: Node, version: int, h: Blob)
    requires Rebalancable(n)
    ensures var (r, orphans) := Rebalance(n, version);
            Persisted(n, h) == Persisted(r, h) + Orphaned(orphans, h)
  {
    if Balance(n) > 1 {
      RebalanceLeftConserves(n, version, h);
    } else if Balance(n) < -1 {
      RebalanceRightConserves(n, version, h);
    }
  }

  /** Conservation for `Set`: persisted before = persisted after + orphaned, hash by hash. */
  lemma {:induction false} SetConserves(n: Node, k: Key, v: Value, version: int, h: Blob)
    requires Wf(n)
    ensures var r := RecursiveSet(n, k, v, version);
            Persisted(n, h) == Persisted(r.node, h) + Orphaned(r.orphans, h)
  {
    if n.Inner? {
      var child := if Lt(k, n.key) then n.left else n.right;
      SetConserves(child, k, v, version, h);
      var sub := RecursiveSet(child, k, v, version);
      var node := SetChild(n, k, sub.node, version);
      OrphanedConcat([n], sub.orphans, h);
      SetChildShape(n, k, sub.node, sub.updated, version);
      if !sub.updated {
        var node := CalcHeightAndSize(node);
        RebalanceConserves(node, version, h);
        OrphanedConcat([n] + sub.orphans, Rebalance(node, version).1, h);
      }
    }
  }

  /** Conservation for `Remove`. */
  lemma {:induction false} RemoveConserves(n: Node, k: Key, version: int, h: Blob)
    requires Wf(n)
    ensures var r := RecursiveRemove(n, k, version);
            Persisted(n, h) == PersistedOf(r.node, h) + Orphaned(r.orphans, h)
  {
    if n.Inner? {
      if Lt(k, n.key) {
        RemoveConserves(n.left, k, version, h);
        RemoveLeftConserves(n, k, version, h);
      } else {
        RemoveConserves(n.right, k, version, h);
        RemoveRightConserves(n, k, version, h);
      }
    }
  }

  lemma RemoveLeftConserves(n: Node, k: Key, version: int, h: Blob)
    requires Wf(n) && n.Inner? && Lt(k, n.key)
    requires var sub := RecursiveRemove(n.left, k, version);
             Persisted(n.left, h) == PersistedOf(sub.node, h) + Orphaned(sub.orphans, h)
    ensures var r := RecursiveRemove(n, k, version);
            Persisted(n, h) == PersistedOf(r.node, h) + Orphaned(r.orphans, h)
  {
    var sub := RecursiveRemove(n.left, k, version);
    RemoveLeftShape(n, sub, version);
    OrphanedConcat(sub.orphans, [n], h);
    if sub.orphans != [] && sub.node.Some? {
      var node := RemoveLeft(n, sub, version);
      RebalanceConserves(node, version, h);
      OrphanedConcat(sub.orphans + [n], Rebalance(node, version).1, h);
    }
  }

  lemma RemoveRightConserves(n: Node, k: Key, version: int, h: Blob)
    requires Wf(n) && n.Inner? && !Lt(k, n.key)
    requires var sub := RecursiveRemove(n.right, k, version);
             Persisted(n.right, h) == PersistedOf(sub.node, h) + Orphaned(sub.orphans, h)
    ensures var r := RecursiveRemove(n, k, version);
            Persisted(n, h) == PersistedOf(r.node, h) + Orphaned(r.orphans, h)
  {
    var sub := RecursiveRemove(n.right, k, version);
    RemoveRightShape(n, sub, version);
    OrphanedConcat(sub.orphans, [n], h);
    if sub.orphans != [] && sub.node.Some? {
      var node := RemoveRight(n, sub, version);
      RebalanceConserves(node, version, h);
      OrphanedConcat(sub.orphans + [n], Rebalance(node, version).1, h);
    }
  }
}
