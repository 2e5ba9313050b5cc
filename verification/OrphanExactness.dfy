/** One `Set` or `Remove` orphans exactly the persisted nodes that it makes unreachable. */
module OrphanExactness {
  import opened Bytes
  import opened Tree
  import opened TreeMutation
  import opened Orphans
  import opened Persistence

  /** In any well-formed tree a persisted node is counted once, is reachable, and dates from a saved version. */
  lemma {:induction false} PersistedAtMostOnce(n: Node, saved: int, h: Blob)
    requires Wf(n) && Dated(n, saved)
    ensures Persisted(n, h) <= 1
    ensures Persisted(n, h) > 0 ==> Reach(Hash(n), h) && h.NodeSum? && h.version <= saved
  {
    MeasuresNonNegative(n);
    if n.Inner? {
      PersistedAtMostOnce(n.left, saved, h);
      PersistedAtMostOnce(n.right, saved, h);
      ReachDisjoint(n, h);
    }
  }

  /** No node is orphaned twice, and none is orphaned unless it was persisted, reachable before, and is not any more. */
  lemma SetOrphansExact(n: Node, k: Key, v: Value, saved: int, h: Blob)
    requires Wf(n) && Dated(n, saved)
    ensures var r := RecursiveSet(n, k, v, saved + 1);
            Orphaned(r.orphans, h) == if Persisted(n, h) > 0 && !Reach(Hash(r.node), h) then 1 else 0
  {
    var r := RecursiveSet(n, k, v, saved + 1);
    SetConserves(n, k, v, saved + 1, h);
    SetDated(n, k, v, saved);
    PersistedAtMostOnce(n, saved, h);
    if Persisted(n, h) > 0 { OldReachIsPersisted(r.node, saved, h); }
  }

  lemma RemoveOrphansExact(n: Node, k: Key, saved: int, h: Blob)
    requires Wf(n) && Dated(n, saved)
    ensures var r := RecursiveRemove(n, k, saved + 1);
            Orphaned(r.orphans, h) ==
            if Persisted(n, h) > 0 && !(r.node.Some? && Reach(Hash(r.node.value), h)) then 1 else 0
  {
    var r := RecursiveRemove(n, k, saved + 1);
    RemoveConserves(n, k, saved + 1, h);
    RemoveDated(n, k, saved);
    PersistedAtMostOnce(n, saved, h);
    if Persisted(n, h) > 0 && r.node.Some? { OldReachIsPersisted(r.node.value, saved, h); }
  }
}
