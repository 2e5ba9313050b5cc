/** The versioned tree as a state machine over its public operations, and the invariant that they keep. */
module VersionedTree {
  import opened Bytes
  import opened Tree
  import opened TreeMutation
  import opened TreeReads
  import opened Orphans
  import opened Persistence
  import opened NodeStore

  /** `MutableTree` over its node database; `lastSaved` is the tree of `version`. */
  datatype State = State(
    store: Store, root: Option<Node>, lastSaved: Option<Node>, version: int, orphans: map<Blob, int>, versions: set<int>)

  const INIT := State(Store(map[], {}, map[]), None, None, 0, map[], {})

  /** `addOrphans`: records persisted nodes under their hash with the version they date from. */
  function AddOrphans(orphans: map<Blob, int>, ns: seq<Node>): map<Blob, int>
    decreases |ns|
  {
    if ns == [] then orphans
    else AddOrphans(if ns[0].persisted then orphans[Hash(ns[0]) := ns[0].version] else orphans, ns[1..])
  }

  /** The tree of a saved version, read back from the database; an empty root reads as no tree. */
  function TreeAt(s: Store, v: int): Option<Node>
    requires v in s.roots
  {
    if s.roots[v].None? then None else LoadNode(s.nodes, s.roots[v].value)
  }

  /** Every surviving version reads back as a well-formed saved tree with the root hash on record. */
  ghost predicate Readable(s: Store) {
    forall v :: v in s.roots ==> SavedTree(TreeAt(s, v), v) && HashOf(TreeAt(s, v)) == s.roots[v]
  }

  ghost predicate Inv(s: State) {
    && Working(s.store, s.version, s.lastSaved, s.root, s.orphans)
    && Readable(s.store)
    && s.versions == s.store.roots.Keys
    && (s.version in s.store.roots ==> s.lastSaved == TreeAt(s.store, s.version))
  }

  // ---------- operations ----------

  function Set(s: State, k: Key, v: Value): (State, bool)
    requires WfRoot(s.root)
  {
    if s.root.None? then (s.(root := Some(NewNode(k, v, s.version + 1))), false)
    else ApplySet(s, RecursiveSet(s.root.value, k, v, s.version + 1))
  }

  function ApplySet(s: State, r: SetResult): (State, bool) {
    (s.(root := Some(r.node), orphans := AddOrphans(s.orphans, r.orphans)), r.updated)
  }

  function Remove(s: State, k: Key): (State, Option<Value>)
    requires WfRoot(s.root)
  {
    if s.root.None? then (s, None) else ApplyRemove(s, RecursiveRemove(s.root.value, k, s.version + 1))
  }

  function ApplyRemove(s: State, r: RemoveResult): (State, Option<Value>) {
    if r.orphans == [] then (s, None)
    else (s.(root := r.node, orphans := AddOrphans(s.orphans, r.orphans)), r.value)
  }

  function Rollback(s: State): State {
    s.(root := if s.version > 0 then s.lastSaved else None, orphans := map[])
  }

  function MarkRoot(t: Option<Node>): Option<Node> {
    if t.None? then None else Some(MarkPersisted(t.value))
  }

  /** `SaveVersion`, when the next version does not exist yet. */
  function Save(s: State): State {
    var version := s.version + 1;
    State(SaveVersion(s.store, version, s.root, s.orphans), MarkRoot(s.root), MarkRoot(s.root), version, map[], s.versions + {version})
  }

  /** `DeleteVersion`: refuses version 0, the latest version and versions that do not exist. */
  function Delete(s: State, v: int): (State, bool) {
    if v == 0 || v == s.version || v !in s.versions then (s, false)
    else (s.(store := DeleteVersion(s.store, v), versions := s.versions - {v}), true)
  }

  function VersionSet(vs: seq<int>): set<int> {
    set v | v in vs
  }

  /** Every one of the versions can be deleted. */
  predicate AllDeletable(s: State, vs: seq<int>) {
    forall v :: v in vs ==> v != 0 && v != s.version && v in s.versions
  }

  /** `DeleteVersions`: all of them in one batch, or none. */
  function DeleteTogether(s: State, vs: seq<int>): (State, bool) {
    if AllDeletable(s, vs) then
      (s.(store := DeleteVersions(s.store, VersionSet(vs)), versions := s.versions - VersionSet(vs)), true)
    else (s, false)
  }

  /** `LoadVersionForOverwriting`: loads `t` and deletes everything after it; absent on an error.
      A target of 0 loads the latest version and then deletes every version. */
  function LoadForOverwriting(s: State, t: int): (State, Option<int>) {
    if s.store.roots == map[] then (s, if t >= 0 then Some(0) else None)
    else if t in s.store.roots && t != 0 then
      var tree := TreeAt(s.store, t);
      (Truncate(s, t, t, tree), Some(t))
    else if t == 0 && s.version in s.store.roots then
      (Truncate(s, s.version, 0, TreeAt(s.store, s.version)), Some(s.version))
    else (s, None)
  }

  /** The state after loading `tree` as version `loaded` and dropping the versions above `t`. */
  function Truncate(s: State, loaded: int, t: int, tree: Option<Node>): State {
    var store :=
      if s.version <= t || s.version !in s.store.roots then s.store
      else DeleteVersionsFrom(s.store, s.version, t + 1);
    State(store, tree, tree, loaded, map[], set v | v in s.versions && v <= t)
  }

  /** A tree just opened over a database: nothing is loaded yet. */
  function Opened(store: Store): State {
    State(store, None, None, 0, map[], {})
  }

  /** The greatest of some versions. */
  function Latest(versions: set<int>): (v: int)
    requires versions != {}
    ensures v in versions && forall w :: w in versions ==> w <= v
  {
    LatestExists(versions);
    var v :| v in versions && forall w :: w in versions ==> w <= v;
    v
  }

  lemma NonEmpty(s: set<int>)
    ensures s == {} || exists v :: v in s
  {
    if !exists v :: v in s { assert s == {}; }
  }

  lemma {:induction false} LatestExists(versions: set<int>)
    requires versions != {}
    ensures exists v :: v in versions && forall w :: w in versions ==> w <= v
    decreases versions
  {
    NonEmpty(versions);
    var x :| x in versions;
    var rest := versions - {x};
    if rest == {} {
      assert versions == {x};
    } else {
      LatestExists(rest);
      var y :| y in rest && forall w :: w in rest ==> w <= y;
      var v := if x < y then y else x;
      assert forall w :: w in versions ==> w in rest || w == x;
      assert v in versions && forall w :: w in versions ==> w <= v;
    }
  }

  /** Opening a database and loading its latest version, with the version loaded. */
  function Reopen(store: Store): (State, int) {
    if store.roots.Keys == {} then (Opened(store), 0)
    else
      var v := Latest(store.roots.Keys);
      var tree := TreeAt(store, v);
      (State(store, tree, tree, v, map[], store.roots.Keys), v)
  }

  /** `GetVersioned`: nothing for a version that does not exist. */
  function GetVersioned(s: State, k: Key, v: int): (int, Option<Value>) {
    if v !in s.versions || v !in s.store.roots then (-1, None)
    else
      var t := TreeAt(s.store, v);
      if t.None? then (0, None) else Get(t.value, k)
  }

  // ---------- the invariant ----------

  lemma {:induction false} AddOrphansDomain(orphans: map<Blob, int>, ns: seq<Node>, h: Blob)
    ensures h in AddOrphans(orphans, ns) <==> h in orphans || Orphaned(ns, h) > 0
    ensures h in AddOrphans(orphans, ns) && (h in orphans ==> h.NodeSum? && orphans[h] == h.version)
            ==> h.NodeSum? && AddOrphans(orphans, ns)[h] == h.version
    decreases |ns|
  {
    if ns != [] {
      AddOrphansDomain(if ns[0].persisted then orphans[Hash(ns[0]) := ns[0].version] else orphans, ns[1..], h);
    }
  }

  /** Replacing the working tree keeps the books balanced when the operation conserves persisted nodes. */
  lemma AccountedStep(last: Option<Node>, v: int, root: Option<Node>, root': Option<Node>, orphans: map<Blob, int>, ns: seq<Node>)
    requires Accounted(last, root, orphans) && SavedTree(last, v)
    requires forall h :: PersistedOf(root, h) == PersistedOf(root', h) + Orphaned(ns, h)
    ensures Accounted(last, root', AddOrphans(orphans, ns))
  {
    var orphans' := AddOrphans(orphans, ns);
    forall h ensures PersistedOf(last, h) == PersistedOf(root', h) + if h in orphans' then 1 else 0 {
      if last.Some? { PersistedOnce(last.value, h); }
      AddOrphansDomain(orphans, ns, h);
      assert PersistedOf(last, h) == PersistedOf(root, h) + if h in orphans then 1 else 0;
      assert PersistedOf(root, h) == PersistedOf(root', h) + Orphaned(ns, h);
    }
    forall h | h in orphans' ensures h.NodeSum? && orphans'[h] == h.version { AddOrphansDomain(orphans, ns, h); }
  }

  /** A new working tree that conserves persisted nodes. */
  ghost predicate Replaces(root: Option<Node>, root': Option<Node>, ns: seq<Node>, version: int) {
    && WfRoot(root') && DatedRoot(root', version)
    && forall h :: PersistedOf(root, h) == PersistedOf(root', h) + Orphaned(ns, h)
  }

  lemma SetReplaces(root: Node, k: Key, v: Value, version: int)
    requires Wf(root) && Dated(root, version)
    ensures var r := RecursiveSet(root, k, v, version + 1); Replaces(Some(root), Some(r.node), r.orphans, version)
  {
    var r := RecursiveSet(root, k, v, version + 1);
    SetDated(root, k, v, version);
    forall h ensures PersistedOf(Some(root), h) == PersistedOf(Some(r.node), h) + Orphaned(r.orphans, h) {
      SetConserves(root, k, v, version + 1, h);
    }
  }

  lemma RemoveReplaces(root: Node, k: Key, version: int, r: RemoveResult)
    requires Wf(root) && Dated(root, version) && r == RecursiveRemove(root, k, version + 1)
    ensures Replaces(Some(root), r.node, r.orphans, version)
  {
    RemoveDated(root, k, version);
    forall h ensures PersistedOf(Some(root), h) == PersistedOf(r.node, h) + Orphaned(r.orphans, h) {
      RemoveConserves(root, k, version + 1, h);
    }
  }

  lemma ReplaceInv(s: State, root': Option<Node>, ns: seq<Node>)
    requires Inv(s) && Replaces(s.root, root', ns, s.version)
    ensures Inv(s.(root := root', orphans := AddOrphans(s.orphans, ns)))
  {
    AccountedStep(s.lastSaved, s.version, s.root, root', s.orphans, ns);
  }

  lemma ApplySetInv(s: State, root: Node, r: SetResult)
    requires Inv(s) && s.root == Some(root) && Replaces(Some(root), Some(r.node), r.orphans, s.version)
    ensures Inv(ApplySet(s, r).0)
  {
    ReplaceInv(s, Some(r.node), r.orphans);
  }

  lemma ApplyRemoveInv(s: State, root: Node, r: RemoveResult)
    requires Inv(s) && s.root == Some(root) && Replaces(Some(root), r.node, r.orphans, s.version)
    ensures Inv(ApplyRemove(s, r).0)
  {
    if r.orphans != [] { ReplaceInv(s, r.node, r.orphans); }
  }

  lemma SetInv(s: State, k: Key, v: Value)
    requires Inv(s)
    ensures Inv(Set(s, k, v).0)
  {
    if s.root.Some? {
      UpdateInv(s, s.root.value, k, v);
      SetIsUpdate(s, k, v);
    } else {
      FirstSetInv(s, NewNode(k, v, s.version + 1));
    }
  }

  lemma SetIsUpdate(s: State, k: Key, v: Value)
    requires s.root.Some? && Wf(s.root.value)
    ensures Set(s, k, v) == ApplySet(s, RecursiveSet(s.root.value, k, v, s.version + 1))
  {
  }

  lemma SetApplies(s: State, root: Node, k: Key, v: Value, version: int, r: SetResult)
    requires s.root == Some(root) && Wf(root) && version == s.version + 1 && r == RecursiveSet(root, k, v, version)
    ensures Set(s, k, v) == ApplySet(s, r)
  {
    SetIsUpdate(s, k, v);
  }

  lemma UpdateInv(s: State, root: Node, k: Key, v: Value)
    requires Inv(s) && s.root == Some(root)
    ensures Inv(ApplySet(s, RecursiveSet(root, k, v, s.version + 1)).0)
  {
    SetReplaces(root, k, v, s.version);
    ApplySetInv(s, root, RecursiveSet(root, k, v, s.version + 1));
  }

  lemma FirstSetInv(s: State, leaf: Node)
    requires Inv(s) && s.root.None? && leaf.Leaf? && !leaf.persisted && leaf.version == s.version + 1
    ensures Inv(s.(root := Some(leaf)))
  {
    ReplaceInv(s, Some(leaf), []);
  }

  lemma RemoveInv(s: State, k: Key)
    requires Inv(s)
    ensures Inv(Remove(s, k).0)
  {
    if s.root.Some? {
      var r := RecursiveRemove(s.root.value, k, s.version + 1);
      ShrinkInv(s, s.root.value, k, r);
      RemoveIsShrink(s, s.root.value, k, s.version + 1, r);
    }
  }

  lemma RemoveIsShrink(s: State, root: Node, k: Key, version: int, r: RemoveResult)
    requires s.root == Some(root) && Wf(root) && version == s.version + 1 && r == RecursiveRemove(root, k, version)
    ensures Remove(s, k) == ApplyRemove(s, r)
  {
  }

  lemma ShrinkInv(s: State, root: Node, k: Key, r: RemoveResult)
    requires Inv(s) && s.root == Some(root) && r == RecursiveRemove(root, k, s.version + 1)
    ensures Inv(ApplyRemove(s, r).0)
  {
    RemoveReplaces(root, k, s.version, r);
    ApplyRemoveInv(s, root, r);
  }

  lemma RollbackInv(s: State)
    requires Inv(s)
    ensures Inv(Rollback(s))
  {
  }

  /** Reopening the database is rolling the tree back: what was saved is all there, and nothing else is. */
  lemma ReopenIsRollback(s: State)
    requires Inv(s)
    ensures Reopen(s.store) == (Rollback(s), s.version)
  {
  }

  /** A version reads the same from any database that still holds all it reaches. */
  lemma TreeAtFrame(s: Store, s': Store, v: int)
    requires v in s.roots && v in s'.roots && s.roots[v] == s'.roots[v]
    requires SavedTree(TreeAt(s, v), v) && HashOf(TreeAt(s, v)) == s.roots[v]
    requires Canonical(s'.nodes) && forall h :: Reached(s'.roots[v], h) ==> h in s'.nodes
    ensures TreeAt(s', v) == TreeAt(s, v)
  {
    if s.roots[v].Some? {
      var t := TreeAt(s, v).value;
      assert forall h :: Reach(Hash(t), h) ==> Reached(s'.roots[v], h);
      LoadClosed(s'.nodes, t);
    }
  }

  lemma SaveInv(s: State)
    requires Inv(s)
    ensures Inv(Save(s))
    ensures TreeAt(Save(s).store, s.version + 1) == MarkRoot(s.root)
    ensures forall v :: v in s.store.roots ==> v != s.version + 1 && TreeAt(Save(s).store, v) == TreeAt(s.store, v)
  {
    var s' := Save(s);
    SavePruned(s.store, s.version, s.lastSaved, s.root, s.orphans);
    forall v | v in s.store.roots ensures TreeAt(s'.store, v) == TreeAt(s.store, v) { TreeAtFrame(s.store, s'.store, v); }
    SaveRoot(s'.store, s.version, s.root);
    FreshBooks(s'.root);
  }

  lemma FreshBooks(t: Option<Node>)
    ensures Accounted(t, t, map[])
  {
  }

  lemma SaveRoot(s: Store, version: int, root: Option<Node>)
    requires Stocked(s, version + 1) && version + 1 in s.roots && s.roots[version + 1] == HashOf(root)
    requires WfRoot(root) && DatedRoot(root, version) && version >= 0
    ensures var t := MarkRoot(root);
            TreeAt(s, version + 1) == t && SavedTree(t, version + 1) && HashOf(t) == HashOf(root)
  {
    if root.Some? {
      MarkPersistedKeeps(root.value, version);
      LoadRoot(s, version + 1, MarkPersisted(root.value));
    }
  }

  /** A saved tree whose hash is on record reads back. */
  lemma LoadRoot(s: Store, v: int, t: Node)
    requires Stocked(s, v) && v in s.roots && s.roots[v] == Some(Hash(t)) && Wf(t) && AllPersisted(t)
    ensures TreeAt(s, v) == Some(t)
  {
    assert forall h :: Reach(Hash(t), h) ==> Reached(s.roots[v], h);
    LoadClosed(s.nodes, t);
  }

  lemma DeleteInv(s: State, v: int)
    requires Inv(s)
    ensures Inv(Delete(s, v).0)
    ensures Delete(s, v).1 <==> v in s.versions && v != s.version
    ensures var (s', ok) := Delete(s, v); if ok then s'.versions == s.versions - {v} else s' == s
    ensures forall w :: w in Delete(s, v).0.store.roots ==> w in s.store.roots && TreeAt(Delete(s, v).0.store, w) == TreeAt(s.store, w)
  {
    var s' := Delete(s, v).0;
    if Delete(s, v).1 {
      DeletePruned(s.store, s.version, v);
      forall w | w in s'.store.roots ensures TreeAt(s'.store, w) == TreeAt(s.store, w) { TreeAtFrame(s.store, s'.store, w); }
    }
  }

  /** Deleting versions together keeps the invariant if and only if they are separate; other versions read as before
      in any case. */
  lemma DeleteTogetherInv(s: State, vs: seq<int>)
    requires Inv(s)
    ensures var (s', ok) := DeleteTogether(s, vs);
            && (ok <==> forall v :: v in vs ==> v in s.versions && v != s.version)
            && (ok ==> (Inv(s') <==> Separate(s.store, VersionSet(vs)))) && (!ok ==> s' == s)
            && (forall w :: w in s'.store.roots ==> w in s.store.roots && TreeAt(s'.store, w) == TreeAt(s.store, w))
  {
    var s' := DeleteTogether(s, vs).0;
    if AllDeletable(s, vs) {
      assert VersionSet(vs) <= s.store.roots.Keys by { assert forall v :: v in VersionSet(vs) ==> v in s.versions; }
      DeletedPrunedIff(s.store, s.version, VersionSet(vs));
      forall w | w in s'.store.roots ensures TreeAt(s'.store, w) == TreeAt(s.store, w) { DeletedTree(s, VersionSet(vs), w); }
    }
  }

  lemma DeletedTree(s: State, vs: set<int>, w: int)
    requires Inv(s) && Deletable(s.store, s.version, vs) && w in s.store.roots && w !in vs
    ensures TreeAt(DeleteVersions(s.store, vs), w) == TreeAt(s.store, w)
  {
    var s' := DeleteVersions(s.store, vs);
    forall h | Reached(s'.roots[w], h) ensures h in s'.nodes { DeletedKeepsReached(s.store, s.version, vs, w, h); }
    TreeAtFrame(s.store, s', w);
  }

  lemma TruncatePruned(s: State, t: int)
    requires Inv(s) && t in s.store.roots
    ensures var s' := Truncate(s, t, t, TreeAt(s.store, t));
            Pruned(s'.store, t) && s'.store.roots.Keys == s'.versions == set v | v in s.versions && v <= t
    ensures var s' := Truncate(s, t, t, TreeAt(s.store, t));
            forall v :: v in s'.store.roots ==>
              v in s.store.roots && s'.store.roots[v] == s.store.roots[v] && TreeAt(s'.store, v) == TreeAt(s.store, v)
  {
    var s' := Truncate(s, t, t, TreeAt(s.store, t));
    if s.version > t { TruncatedPruned(s.store, s.version, t); }
    forall v | v in s'.store.roots ensures TreeAt(s'.store, v) == TreeAt(s.store, v) { TreeAtFrame(s.store, s'.store, v); }
  }

  /** Rolling back to a saved version keeps the invariant and every surviving tree. */
  lemma LoadInv(s: State, t: int)
    requires Inv(s) && t != 0
    ensures Inv(LoadForOverwriting(s, t).0)
    ensures var s' := LoadForOverwriting(s, t).0;
            forall w :: w in s'.store.roots ==> w in s.store.roots && TreeAt(s'.store, w) == TreeAt(s.store, w)
  {
    var s' := LoadForOverwriting(s, t).0;
    if t in s.store.roots {
      TruncatePruned(s, t);
      FreshBooks(s'.root);
    }
  }
}
