/** Whole runs of the versioned tree, and the map of maps that they refine. */
module Runs {
  import opened Bytes
  import opened Tree
  import opened TreeMutation
  import opened TreeReads
  import opened AvlBound
  import opened AvlReference
  import opened Persistence
  import opened NodeStore
  import opened VersionedTree

  datatype Op =
    | SetOp(key: Key, value: Value)
    | RemoveOp(key: Key)
    | RollbackOp
    | SaveOp
    | DeleteOp(version: int)
    | OverwriteOp(target: int)
    | ReopenOp

  datatype Output =
    | Updated(updated: bool)
    | Removed(removed: Option<Value>)
    | Done
    | Saved(version: int)
    | Deleted(ok: bool)
    | Loaded(loaded: Option<int>)

  /** Target 0 is the one call that breaks the store; see `OverwriteZeroBreaks`. */
  predicate Sound(op: Op) {
    op.OverwriteOp? ==> op.target != 0
  }

  function Step(s: State, op: Op): (r: (State, Output))
    requires Inv(s) && Sound(op)
    ensures Inv(r.0)
  {
    match op
    case SetOp(k, v) => SetInv(s, k, v); var (s', b) := Set(s, k, v); (s', Updated(b))
    case RemoveOp(k) => RemoveInv(s, k); var (s', o) := Remove(s, k); (s', Removed(o))
    case RollbackOp => RollbackInv(s); (Rollback(s), Done)
    case SaveOp => SaveInv(s); (Save(s), Saved(s.version + 1))
    case DeleteOp(v) => DeleteInv(s, v); var (s', b) := Delete(s, v); (s', Deleted(b))
    case OverwriteOp(t) => LoadInv(s, t); var (s', o) := LoadForOverwriting(s, t); (s', Loaded(o))
    case ReopenOp => ReopenIsRollback(s); RollbackInv(s); var (s', v) := Reopen(s.store); (s', Loaded(Some(v)))
  }

  /** The state after a run, and everything the operations returned. */
  function Run(s: State, ops: seq<Op>): (r: (State, seq<Output>))
    requires Inv(s) && forall op :: op in ops ==> Sound(op)
    ensures Inv(r.0)
    decreases |ops|
  {
    if ops == [] then (s, [])
    else
      var (s', out) := Step(s, ops[0]);
      var (s'', outs) := Run(s', ops[1..]);
      (s'', [out] + outs)
  }

  lemma InitInv()
    ensures Inv(INIT)
  {
  }

  /** A run of a new tree over an empty database. */
  function RunNew(ops: seq<Op>): (r: (State, seq<Output>))
    requires forall op :: op in ops ==> Sound(op)
    ensures Inv(r.0)
  {
    InitInv();
    Run(INIT, ops)
  }

  // ---------- the simple machine ----------

  /** A working map, and the map that each surviving version had when it was saved.  A value carries the version in
      which it was set, which is part of what a root hash covers. */
  datatype Simple = Simple(working: map<Key, Stamped>, saved: map<int, map<Key, Stamped>>, version: int)

  const SIMPLE_INIT := Simple(map[], map[], 0)

  function SimpleStep(a: Simple, op: Op): (Simple, Output) {
    match op
    case SetOp(k, v) => (a.(working := a.working[k := Stamped(v, a.version + 1)]), Updated(k in a.working))
    case RemoveOp(k) => (a.(working := a.working - {k}), Removed(if k in a.working then Some(a.working[k].value) else None))
    case RollbackOp => (a.(working := if a.version in a.saved then a.saved[a.version] else map[]), Done)
    case SaveOp => (Simple(a.working, a.saved[a.version + 1 := a.working], a.version + 1), Saved(a.version + 1))
    case DeleteOp(v) =>
      if v in a.saved && v != a.version then (a.(saved := a.saved - {v}), Deleted(true)) else (a, Deleted(false))
    case OverwriteOp(t) =>
      if a.saved == map[] then (a, Loaded(if t >= 0 then Some(0) else None))
      else if t in a.saved then (Simple(a.saved[t], map v | v in a.saved && v <= t :: a.saved[v], t), Loaded(Some(t)))
      else (a, Loaded(None))
    case ReopenOp => (a.(working := if a.version in a.saved then a.saved[a.version] else map[]), Loaded(Some(a.version)))
  }

  function SimpleRun(a: Simple, ops: seq<Op>): (Simple, seq<Output>)
    decreases |ops|
  {
    if ops == [] then (a, [])
    else
      var (a', out) := SimpleStep(a, ops[0]);
      var (a'', outs) := SimpleRun(a', ops[1..]);
      (a'', [out] + outs)
  }

  /** What a state stands for: saved maps are read back from the database. */
  function Simplify(s: State): Simple {
    Simple(StampsOf(s.root), map v | v in s.store.roots :: StampsOf(TreeAt(s.store, v)), s.version)
  }

  lemma InsertedNode(n: Node, k: Key, v: Value, version: int)
    requires Wf(n)
    ensures var r, m := RecursiveSet(n, k, v, version), Stamps(Shape(n));
            StampsOf(Some(r.node)) == m[k := Stamped(v, version)] && (r.updated <==> k in m)
  {
    SetContent(n, k, v, version);
    SetStamps(n, k, v, version);
    StampsRead(n);
  }

  lemma ApplySetRefines(s: State, k: Key, v: Value, r: SetResult)
    requires StampsOf(Some(r.node)) == StampsOf(s.root)[k := Stamped(v, s.version + 1)] && (r.updated <==> k in StampsOf(s.root))
    ensures var (s', b) := ApplySet(s, r); (Simplify(s'), Updated(b)) == SimpleStep(Simplify(s), SetOp(k, v))
  {
  }

  lemma SetRefines(s: State, k: Key, v: Value)
    requires WfRoot(s.root)
    ensures var (s', b) := Set(s, k, v); (Simplify(s'), Updated(b)) == SimpleStep(Simplify(s), SetOp(k, v))
  {
    if s.root.Some? {
      var n, version := s.root.value, s.version + 1;
      var r := RecursiveSet(n, k, v, version);
      SetApplies(s, n, k, v, version, r);
      InsertedNode(n, k, v, version);
      ApplySetRefines(s, k, v, r);
    }
  }

  lemma RemovedNode(n: Node, k: Key, version: int)
    requires Wf(n)
    ensures var r, m := RecursiveRemove(n, k, version), Stamps(Shape(n));
            StampsOf(if r.orphans == [] then Some(n) else r.node) == m - {k} &&
            (if r.orphans == [] then None else r.value) == if k in m then Some(m[k].value) else None
  {
    RemoveContent(n, k, version);
    RemoveStamps(n, k, version);
    StampsRead(n);
  }

  lemma ApplyRemoveRefines(s: State, k: Key, r: RemoveResult)
    requires StampsOf(if r.orphans == [] then s.root else r.node) == StampsOf(s.root) - {k}
    requires (if r.orphans == [] then None else r.value) == if k in StampsOf(s.root) then Some(StampsOf(s.root)[k].value) else None
    ensures var (s', o) := ApplyRemove(s, r); (Simplify(s'), Removed(o)) == SimpleStep(Simplify(s), RemoveOp(k))
  {
  }

  lemma RemoveRefines(s: State, k: Key)
    requires WfRoot(s.root)
    ensures var (s', o) := Remove(s, k); (Simplify(s'), Removed(o)) == SimpleStep(Simplify(s), RemoveOp(k))
  {
    if s.root.Some? {
      var n := s.root.value;
      var r := RecursiveRemove(n, k, s.version + 1);
      assert Remove(s, k) == ApplyRemove(s, r);
      RemovedNode(n, k, s.version + 1);
      assert s.root == Some(n);
      ApplyRemoveRefines(s, k, r);
    } else {
      assert StampsOf(s.root) - {k} == StampsOf(s.root);
      assert Remove(s, k) == (s, None);
    }
  }

  lemma RollbackRefines(s: State)
    requires Inv(s)
    ensures (Simplify(Rollback(s)), Done) == SimpleStep(Simplify(s), RollbackOp)
  {
  }

  lemma ReopenRefines(s: State)
    requires Inv(s)
    ensures var (s', v) := Reopen(s.store); (Simplify(s'), Loaded(Some(v))) == SimpleStep(Simplify(s), ReopenOp)
  {
    ReopenIsRollback(s);
    RollbackRefines(s);
  }

  lemma {:induction false} MarkedShape(n: Node)
    ensures Shape(MarkPersisted(n)) == Shape(n)
  {
    if n.Inner? {
      MarkedShape(n.left);
      MarkedShape(n.right);
    }
  }

  lemma SavedMaps(s: State)
    requires WfRoot(s.root) && DatedRoot(s.root, s.version) && s.version >= 0
    requires TreeAt(Save(s).store, s.version + 1) == MarkRoot(s.root)
    requires forall v :: v in s.store.roots ==> TreeAt(Save(s).store, v) == TreeAt(s.store, v)
    ensures (Simplify(Save(s)), Saved(s.version + 1)) == SimpleStep(Simplify(s), SaveOp)
  {
    if s.root.Some? { MarkedShape(s.root.value); }
    assert Simplify(Save(s)).saved == Simplify(s).saved[s.version + 1 := StampsOf(s.root)];
  }

  lemma SaveRefines(s: State)
    requires Inv(s)
    ensures (Simplify(Save(s)), Saved(s.version + 1)) == SimpleStep(Simplify(s), SaveOp)
  {
    SaveInv(s);
    SavedMaps(s);
  }

  lemma DeleteRefines(s: State, v: int)
    requires Inv(s)
    ensures var (s', b) := Delete(s, v); (Simplify(s'), Deleted(b)) == SimpleStep(Simplify(s), DeleteOp(v))
  {
    DeleteInv(s, v);
    var (s', b) := Delete(s, v);
    if b { assert Simplify(s').saved == Simplify(s).saved - {v}; }
  }

  lemma OverwriteRefines(s: State, t: int)
    requires Inv(s) && t != 0
    ensures var (s', o) := LoadForOverwriting(s, t); (Simplify(s'), Loaded(o)) == SimpleStep(Simplify(s), OverwriteOp(t))
  {
    var s' := LoadForOverwriting(s, t).0;
    var a := Simplify(s).saved;
    assert a == map[] <==> s.store.roots == map[] by {
      assert a.Keys == s.store.roots.Keys;
    }
    if t in s.store.roots {
      LoadInv(s, t);
      TruncatePruned(s, t);
      assert Simplify(s').saved == map v | v in a && v <= t :: a[v];
    }
  }

  /** Every operation does to the tree what it does to plain maps, and returns the same. */
  lemma StepRefines(s: State, op: Op)
    requires Inv(s) && Sound(op)
    ensures var r := Step(s, op); (Simplify(r.0), r.1) == SimpleStep(Simplify(s), op)
  {
    match op
    case SetOp(k, v) => SetRefines(s, k, v);
    case RemoveOp(k) => RemoveRefines(s, k);
    case RollbackOp => RollbackRefines(s);
    case SaveOp => SaveRefines(s);
    case DeleteOp(v) => DeleteRefines(s, v);
    case OverwriteOp(t) => OverwriteRefines(s, t);
    case ReopenOp => ReopenRefines(s);
  }

  /** Whole runs refine the simple machine: same outputs, same maps, current and saved. */
  lemma {:induction false} RunRefines(s: State, ops: seq<Op>)
    requires Inv(s) && forall op :: op in ops ==> Sound(op)
    ensures var r := Run(s, ops); (Simplify(r.0), r.1) == SimpleRun(Simplify(s), ops)
    decreases |ops|
  {
    if ops != [] {
      StepRefines(s, ops[0]);
      RunRefines(Step(s, ops[0]).0, ops[1..]);
    }
  }

  /** From an empty database, a run is a run of plain maps. */
  lemma RunNewRefines(ops: seq<Op>)
    requires forall op :: op in ops ==> Sound(op)
    ensures var r := RunNew(ops); (Simplify(r.0), r.1) == SimpleRun(SIMPLE_INIT, ops)
  {
    InitInv();
    RunRefines(INIT, ops);
    assert Simplify(INIT) == SIMPLE_INIT;
  }

  // ---------- theorems over runs ----------

  /** Over every run, the stored nodes are exactly those reachable from the roots of surviving versions, and each
      is reachable in precisely the surviving versions of its lifetime. */
  lemma PruningExact(ops: seq<Op>, h: Blob, v: int)
    requires forall op :: op in ops ==> Sound(op)
    ensures var s := RunNew(ops).0.store;
            (h in s.nodes <==> exists w :: w in s.roots && Reached(s.roots[w], h)) &&
            (h in s.nodes && v in s.roots ==> (Reached(s.roots[v], h) <==> Alive(s, h, v)))
  {
    var s := RunNew(ops).0;
    PrunedExact(s.store, s.version, h);
  }

  /** Over every run, no orphan waiting to be saved expires before it comes alive. */
  lemma OrphansNeverExpire(ops: seq<Op>, h: Blob)
    requires forall op :: op in ops ==> Sound(op)
    requires h in RunNew(ops).0.orphans
    ensures var s := RunNew(ops).0; !Expires(s.orphans[h], Previous(s.store.roots.Keys, s.version + 1))
  {
    var s := RunNew(ops).0;
    OrphansLive(s.store, s.version, s.lastSaved, s.root, s.orphans, h);
  }

  /** Over every run, the working tree's height fits `int8` as long as its size fits `int64`. */
  lemma HeightsFit(ops: seq<Op>)
    requires forall op :: op in ops ==> Sound(op)
    ensures var root := RunNew(ops).0.root;
            root.Some? && Size(root.value) <= 0x7FFF_FFFF_FFFF_FFFF ==>
              Height(root.value) <= 125 && Size(root.value) == |Leaves(root.value)|
  {
    var root := RunNew(ops).0.root;
    if root.Some? && Size(root.value) <= 0x7FFF_FFFF_FFFF_FFFF {
      HeightFitsInt8(root.value);
      LeavesSorted(root.value);
    }
  }

  /** The next version never exists already, so saving never meets an older save. */
  lemma SaveIsFresh(s: State)
    requires Inv(s)
    ensures s.version + 1 !in s.versions
  {
  }

  /** Whatever the working tree shares with saved versions can be loaded. */
  lemma WorkingLoadable(s: State, h: Blob)
    requires Inv(s) && Reached(HashOf(s.root), h) && h.NodeSum? && h.version <= s.version
    ensures h in s.store.nodes && s.store.nodes[h] == RecordAt(h)
  {
    WorkingReach(s.store, s.version, s.lastSaved, s.root, s.orphans, h);
  }

  /** `GetVersioned` reads the saved map, with the rank of the key in it. */
  lemma GetVersionedReads(s: State, k: Key, v: int)
    requires Inv(s)
    ensures v !in s.versions ==> GetVersioned(s, k, v) == (-1, None)
    ensures v in s.versions ==>
      var m := Simplify(s).saved[v];
      GetVersioned(s, k, v) == (|Smaller(m, k)|, if k in m then Some(m[k].value) else None)
  {
    if v in s.versions {
      var t := TreeAt(s.store, v);
      if t.Some? {
        GetContent(t.value, k);
        GetCounts(t.value, k);
        StampsRead(t.value);
        assert Smaller(Stamps(Shape(t.value)), k) == Smaller(Content(t.value), k);
      } else {
        assert Smaller(StampsOf(None), k) == {};
      }
    }
  }

  /** The operation neither deletes `v` nor rolls back past it. */
  predicate Spares(op: Op, v: int) {
    op != DeleteOp(v) && (op.OverwriteOp? ==> op.target >= v)
  }

  lemma StepKeepsVersion(s: State, op: Op, v: int)
    requires Inv(s) && Sound(op) && v in s.store.roots && Spares(op, v)
    ensures var s' := Step(s, op).0; v in s'.store.roots && TreeAt(s'.store, v) == TreeAt(s.store, v)
  {
    match op
    case SaveOp => SaveInv(s);
    case DeleteOp(w) => DeleteInv(s, w);
    case OverwriteOp(t) =>
      LoadInv(s, t);
      if t in s.store.roots { TruncatePruned(s, t); }
    case ReopenOp => ReopenIsRollback(s);
    case _ =>
  }

  /** Saved versions are immutable: a run that spares `v` leaves every read of it as it was. */
  lemma {:induction false} SavedVersionsImmutable(s: State, ops: seq<Op>, v: int)
    requires Inv(s) && v in s.versions && forall op :: op in ops ==> Sound(op) && Spares(op, v)
    ensures var s' := Run(s, ops).0;
            v in s'.versions && TreeAt(s'.store, v) == TreeAt(s.store, v) &&
            forall k :: GetVersioned(s', k, v) == GetVersioned(s, k, v)
    decreases |ops|
  {
    if ops != [] {
      StepKeepsVersion(s, ops[0], v);
      SavedVersionsImmutable(Step(s, ops[0]).0, ops[1..], v);
    }
  }

  /** Rolling back to a saved version is exact: later nodes and obsolete lifetimes are gone, the rest reads as before. */
  lemma RollbackExact(s: State, t: int)
    requires Inv(s) && t in s.versions
    ensures var s' := LoadForOverwriting(s, t).0;
            && s'.version == t && s'.versions == (set v | v in s.versions && v <= t)
            && Pruned(s'.store, t)
            && (forall h :: h in s'.store.nodes <==> h in s.store.nodes && h.version <= t)
            && (forall e :: e in s'.store.orphans ==> e in s.store.orphans && e.to < t)
            && (forall v, k :: v in s'.versions ==> GetVersioned(s', k, v) == GetVersioned(s, k, v))
  {
    var s' := LoadForOverwriting(s, t).0;
    LoadInv(s, t);
    TruncatePruned(s, t);
    if s.version > t {
      forall h ensures h in s'.store.nodes <==> h in s.store.nodes && h.version <= t { TruncatedNodes(s.store, s.version, t, h); }
    }
    forall e | e in s'.store.orphans ensures e.to < t { assert GoodOrphan(s'.store, t, e); }
  }

  /** Target 0 loads the latest tree and then deletes every record it stands on. */
  lemma OverwriteZeroBreaks(s: State)
    requires Inv(s) && s.version > 0
    ensures var s' := LoadForOverwriting(s, 0).0;
            s'.version == s.version && s'.root == s.lastSaved && s'.store.nodes == map[] && s'.versions == {} && !Inv(s')
  {
    var s' := LoadForOverwriting(s, 0).0;
    forall h | h in s.store.nodes ensures h !in s'.store.nodes {
      if e :| e in s.store.orphans && e.hash == h {
        assert GoodOrphan(s.store, s.version, e);
      } else {
        assert Alive(s.store, h, s.version);
      }
    }
    assert s'.store.nodes == map[];
  }

  /** Exactly which rollbacks keep the store sound. */
  lemma OverwriteSoundIff(s: State, t: int)
    requires Inv(s)
    ensures Inv(LoadForOverwriting(s, t).0) <==> t != 0 || s.version == 0
  {
    if t != 0 {
      LoadInv(s, t);
    } else if s.version > 0 {
      OverwriteZeroBreaks(s);
    } else {
      assert forall v :: v !in s.store.roots;
      assert s.store.roots == map[];
    }
  }
}
