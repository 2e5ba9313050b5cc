/** How trees live in the node database: records keyed by hash, and reachability through hashes. */
module Persistence {
  import opened Bytes
  import opened Tree
  import opened TreeMutation
  import opened Orphans

  // ---------- versions and the persisted flag ----------

  /** Persisted nodes date from a saved version and have persisted children; the others date from the working version. */
  predicate Dated(n: Node, saved: int) {
    (if n.persisted then 1 <= n.version <= saved else n.version == saved + 1) &&
    (n.Inner? ==> Dated(n.left, saved) && Dated(n.right, saved) && (n.persisted ==> n.left.persisted && n.right.persisted))
  }

  predicate DatedRoot(t: Option<Node>, saved: int) {
    t.Some? ==> Dated(t.value, saved)
  }

  lemma RotateRightDated(n: Node, saved: int)
    requires n.Inner? && n.left.Inner? && Dated(n.left, saved) && Dated(n.right, saved)
    ensures Dated(RotateRight(n, saved + 1).0, saved)
  {
    var r := RotateRight(n, saved + 1).0;
    assert Dated(r.left, saved) && Dated(r.right.left, saved) && Dated(r.right.right, saved);
  }

  lemma RotateLeftDated(n: Node, saved: int)
    requires n.Inner? && n.right.Inner? && Dated(n.left, saved) && Dated(n.right, saved)
    ensures Dated(RotateLeft(n, saved + 1).0, saved)
  {
    var r := RotateLeft(n, saved + 1).0;
    assert Dated(r.right, saved) && Dated(r.left.left, saved) && Dated(r.left.right, saved);
  }

  lemma RebalanceDated(n: Node, saved: int)
    requires Rebalancable(n) && Dated(n, saved)
    ensures Dated(Rebalance(n, saved + 1).0, saved)
  {
    MeasuresNonNegative(n.left);
    MeasuresNonNegative(n.right);
    if Balance(n) > 1 {
      if Balance(n.left) >= 0 {
        RotateRightDated(n, saved);
      } else {
        MeasuresNonNegative(n.left.left);
        RotateLeftDated(n.left, saved);
        RotateRightDated(n.(left := RotateLeft(n.left, saved + 1).0), saved);
      }
    } else if Balance(n) < -1 {
      if Balance(n.right) <= 0 {
        RotateLeftDated(n, saved);
      } else {
        MeasuresNonNegative(n.right.right);
        RotateRightDated(n.right, saved);
        RotateLeftDated(n.(right := RotateRight(n.right, saved + 1).0), saved);
      }
    }
  }

  lemma {:induction false} SetDated(n: Node, k: Key, v: Value, saved: int)
    requires Wf(n) && Dated(n, saved)
    ensures Dated(RecursiveSet(n, k, v, saved + 1).node, saved)
  {
    if n.Inner? {
      var child := if Lt(k, n.key) then n.left else n.right;
      SetDated(child, k, v, saved);
      var sub := RecursiveSet(child, k, v, saved + 1);
      SetChildShape(n, k, sub.node, sub.updated, saved + 1);
      if !sub.updated { RebalanceDated(CalcHeightAndSize(SetChild(n, k, sub.node, saved + 1)), saved); }
    }
  }

  lemma {:induction false} RemoveDated(n: Node, k: Key, saved: int)
    requires Wf(n) && Dated(n, saved)
    ensures DatedRoot(RecursiveRemove(n, k, saved + 1).node, saved)
  {
    if n.Inner? {
      if Lt(k, n.key) {
        RemoveDated(n.left, k, saved);
        var sub := RecursiveRemove(n.left, k, saved + 1);
        RemoveLeftShape(n, sub, saved + 1);
        if sub.orphans != [] && sub.node.Some? { RebalanceDated(RemoveLeft(n, sub, saved + 1), saved); }
      } else {
        RemoveDated(n.right, k, saved);
        var sub := RecursiveRemove(n.right, k, saved + 1);
        RemoveRightShape(n, sub, saved + 1);
        if sub.orphans != [] && sub.node.Some? { RebalanceDated(RemoveRight(n, sub, saved + 1), saved); }
      }
    }
  }

  predicate AllPersisted(n: Node) {
    n.persisted && (n.Inner? ==> AllPersisted(n.left) && AllPersisted(n.right))
  }

  /** The tree as `SaveBranch` leaves it. */
  function MarkPersisted(n: Node): Node {
    match n
    case Leaf(k, v, ver, _) => Leaf(k, v, ver, true)
    case Inner(k, h, s, ver, l, r, _) => Inner(k, h, s, ver, MarkPersisted(l), MarkPersisted(r), true)
  }

  lemma {:induction false} MarkPersistedKeeps(n: Node, saved: int)
    requires Wf(n) && Dated(n, saved) && saved >= 0
    ensures var m := MarkPersisted(n);
            Hash(m) == Hash(n) && Wf(m) && AllPersisted(m) && Dated(m, saved + 1) && Content(m) == Content(n) &&
            MinKey(m) == MinKey(n) && MaxKey(m) == MaxKey(n)
  {
    if n.Inner? {
      MarkPersistedKeeps(n.left, saved);
      MarkPersistedKeeps(n.right, saved);
    }
  }

  // ---------- reachability through hashes ----------

  /** `b` is the hash of the node hashed to `a`, or of one of its descendants. */
  predicate Reach(a: Blob, b: Blob) {
    a.NodeSum? && (a == b || (a.height > 0 && (Reach(a.first, b) || Reach(a.second, b))))
  }

  /** The least key below a hashed node. */
  function LeastKey(h: Blob): Key {
    match h
    case NodeSum(height, _, _, first, _) =>
      if height > 0 then LeastKey(first) else if first.Raw? then first.bytes else []
    case _ => []
  }

  lemma {:induction false} LeastKeyOfHash(n: Node)
    requires Wf(n)
    ensures LeastKey(Hash(n)) == MinKey(n)
  {
    MeasuresNonNegative(n);
    if n.Inner? { LeastKeyOfHash(n.left); }
  }

  /** A reachable hash is no higher than the tree, and its least key lies within the tree's bounds. */
  lemma {:induction false} ReachBounds(n: Node, h: Blob)
    requires Wf(n) && Reach(Hash(n), h)
    ensures h.NodeSum? && h.height <= Height(n) && Le(MinKey(n), LeastKey(h)) && Le(LeastKey(h), MaxKey(n))
  {
    MeasuresNonNegative(n);
    InnerBounds(n);
    if h == Hash(n) {
      LeastKeyOfHash(n);
    } else if Reach(Hash(n.left), h) {
      ReachBounds(n.left, h);
      LtTotalOrder();
    } else {
      ReachBounds(n.right, h);
      LtTotalOrder();
    }
  }

  /** No hash occurs in both subtrees, nor below itself. */
  lemma ReachDisjoint(n: Node, h: Blob)
    requires Wf(n) && n.Inner?
    ensures !(Reach(Hash(n.left), h) && Reach(Hash(n.right), h))
    ensures Reach(Hash(n.left), h) || Reach(Hash(n.right), h) ==> h != Hash(n)
  {
    if Reach(Hash(n.left), h) {
      ReachBounds(n.left, h);
      if Reach(Hash(n.right), h) {
        ReachBounds(n.right, h);
        LeLtTransitive(LeastKey(h), MaxKey(n.left), n.key);
        LtLeTransitive(LeastKey(h), n.key, LeastKey(h));
        LtIrreflexive(LeastKey(h));
      }
    } else if Reach(Hash(n.right), h) {
      ReachBounds(n.right, h);
    }
  }

  /** In a persisted tree each reachable hash is counted exactly once. */
  lemma {:induction false} PersistedOnce(n: Node, h: Blob)
    requires Wf(n) && AllPersisted(n)
    ensures Persisted(n, h) == if Reach(Hash(n), h) then 1 else 0
  {
    MeasuresNonNegative(n);
    if n.Inner? {
      PersistedOnce(n.left, h);
      PersistedOnce(n.right, h);
      ReachDisjoint(n, h);
    }
  }

  /** Hashes of old versions are reachable from a working tree exactly through its persisted nodes. */
  lemma {:induction false} OldReachIsPersisted(n: Node, saved: int, h: Blob)
    requires Wf(n) && Dated(n, saved) && h.NodeSum? && h.version <= saved
    ensures Reach(Hash(n), h) <==> Persisted(n, h) > 0
  {
    MeasuresNonNegative(n);
    if n.Inner? {
      OldReachIsPersisted(n.left, saved, h);
      OldReachIsPersisted(n.right, saved, h);
    }
  }

  lemma {:induction false} ReachVersions(n: Node, saved: int, h: Blob)
    requires Wf(n) && Dated(n, saved) && saved >= 0 && Reach(Hash(n), h)
    ensures h.NodeSum? && 1 <= h.version <= saved + 1 && (n.persisted ==> h.version <= saved)
  {
    MeasuresNonNegative(n);
    if n.Inner? && h != Hash(n) {
      if Reach(Hash(n.left), h) { ReachVersions(n.left, saved, h); } else { ReachVersions(n.right, saved, h); }
    }
  }

  // ---------- records ----------

  /** What `writeBytes` stores for a node; unlike the hash it includes an inner node's key. */
  datatype Record =
    | LeafRecord(key: Key, value: Value, version: int)
    | InnerRecord(key: Key, height: int, size: int, version: int, leftHash: Blob, rightHash: Blob)

  function RecordOf(n: Node): Record {
    match n
    case Leaf(k, v, ver, _) => LeafRecord(k, v, ver)
    case Inner(k, h, s, ver, l, r, _) => InnerRecord(k, h, s, ver, Hash(l), Hash(r))
  }

  type Records = map<Blob, Record>

  /** The only record a well-formed node with this hash can have: routing keys are least keys on the right. */
  function RecordAt(h: Blob): Record
    requires h.NodeSum?
  {
    if h.height > 0 then InnerRecord(LeastKey(h.second), h.height, h.size, h.version, h.first, h.second)
    else LeafRecord(if h.first.Raw? then h.first.bytes else [], if h.second.ValueSum? then h.second.value else [], h.version)
  }

  lemma RecordOfHash(n: Node)
    requires Wf(n)
    ensures RecordOf(n) == RecordAt(Hash(n))
  {
    MeasuresNonNegative(n);
    if n.Inner? { LeastKeyOfHash(n.right); }
  }

  /** Every record in the database is the one its hash stands for. */
  predicate Canonical(db: Records) {
    forall h :: h in db ==> h.NodeSum? && db[h] == RecordAt(h)
  }

  /** Everything reachable from `h` is in the database. */
  ghost predicate Closed(db: Records, h: Blob) {
    forall x :: Reach(h, x) ==> x in db
  }

  /** What `SaveBranch` writes: the unpersisted part of the tree. */
  function NewRecords(n: Node): Records {
    if n.persisted then map[]
    else if n.Leaf? then map[Hash(n) := RecordOf(n)]
    else NewRecords(n.left) + NewRecords(n.right) + map[Hash(n) := RecordOf(n)]
  }

  /** The saved records are those of the nodes dated with the working version. */
  lemma {:induction false} NewRecordsDomain(n: Node, saved: int, h: Blob)
    requires Wf(n) && Dated(n, saved) && saved >= 0
    ensures h in NewRecords(n) <==> Reach(Hash(n), h) && h.NodeSum? && h.version == saved + 1
  {
    MeasuresNonNegative(n);
    if n.persisted {
      if Reach(Hash(n), h) { ReachVersions(n, saved, h); }
    } else if n.Inner? {
      NewRecordsDomain(n.left, saved, h);
      NewRecordsDomain(n.right, saved, h);
    }
  }

  lemma {:induction false} NewRecordsCanonical(n: Node)
    requires Wf(n)
    ensures Canonical(NewRecords(n))
  {
    RecordOfHash(n);
    if n.Inner? {
      NewRecordsCanonical(n.left);
      NewRecordsCanonical(n.right);
    }
  }

  /** Reads a whole tree back through `GetNode`; absent if some record is missing. */
  function LoadNode(db: Records, h: Blob): Option<Node>
    decreases h
  {
    if h !in db || !h.NodeSum? then None
    else match db[h]
      case LeafRecord(k, v, ver) => Some(Leaf(k, v, ver, true))
      case InnerRecord(k, height, size, ver, _, _) =>
        var l := LoadNode(db, h.first);
        var r := LoadNode(db, h.second);
        if l.None? || r.None? then None else Some(Inner(k, height, size, ver, l.value, r.value, true))
  }

  /** A tree whose hashes are all stored reads back as it was saved. */
  lemma {:induction false} LoadClosed(db: Records, n: Node)
    requires Canonical(db) && Wf(n) && AllPersisted(n) && Closed(db, Hash(n))
    ensures LoadNode(db, Hash(n)) == Some(n)
  {
    MeasuresNonNegative(n);
    RecordOfHash(n);
    assert Reach(Hash(n), Hash(n));
    if n.Inner? {
      LoadClosed(db, n.left);
      LoadClosed(db, n.right);
    }
  }
}
