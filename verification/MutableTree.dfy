/** `MutableTree` as an object over its node database; each method does what the state machine of `VersionedTree` says. */
module MutableTree {
  import opened Bytes
  import opened Tree
  import opened TreeMutation
  import TreeReads
  import opened Persistence
  import NodeStore
  import opened NodeDb
  import V = VersionedTree

  class MutableTree {
    const ndb: NodeDB
    var root: Option<Node>
    var lastSaved: Option<Node>
    var version: int
    var orphans: map<Blob, int>
    var versions: set<int>

    ghost function State(): V.State
      reads this, ndb
    {
      V.State(ndb.db, root, lastSaved, version, orphans, versions)
    }

    /** Between calls nothing is pending; the cached latest version is the loaded one, or not known yet. */
    ghost predicate Valid()
      reads this, ndb
    {
      ndb.Valid() && ndb.batch == [] && V.Inv(State()) && version < MAX_VERSION && ndb.latestVersion in {0, version}
    }

    /** `NewMutableTree` over a database that may hold versions already; they are there once one has been loaded. */
    constructor (committed: NodeStore.Store, cacheSize: nat)
      requires Canonical(committed.nodes)
      ensures State() == V.Opened(committed) && fresh(ndb) && ndb.Valid() && ndb.batch == [] && ndb.latestVersion == 0
      ensures committed == V.INIT.store ==> Valid() && State() == V.INIT
    {
      ndb := new NodeDB(committed, cacheSize);
      root, lastSaved, version, orphans, versions := None, None, 0, map[], {};
    }

    /** Records the persisted nodes among those dropped by an operation. */
    method AddOrphans(ns: seq<Node>)
      modifies this`orphans
      ensures orphans == V.AddOrphans(old(orphans), ns)
    {
      for i := 0 to |ns|
        invariant V.AddOrphans(orphans, ns[i..]) == V.AddOrphans(old(orphans), ns)
      {
        assert ns[i..][1..] == ns[i + 1..];
        if ns[i].persisted {
          orphans := orphans[Hash(ns[i]) := ns[i].version];
        }
      }
    }

    method Set(k: Key, v: Value) returns (updated: bool)
      requires Valid()
      modifies this
      ensures Valid() && (State(), updated) == V.Set(old(State()), k, v)
    {
      V.SetInv(State(), k, v);
      if root.None? {
        Plant(NewNode(k, v, version + 1));
        return false;
      }
      var r := Insertion(k, v);
      updated := AdoptInsertion(r);
    }

    /** Makes a leaf the working tree. */
    method Plant(leaf: Node)
      modifies this`root
      ensures State() == old(State()).(root := Some(leaf))
    {
      root := Some(leaf);
    }

    /** The insertion of a pair into the working tree, as the state machine applies it. */
    method Insertion(k: Key, v: Value) returns (r: SetResult)
      requires root.Some? && Wf(root.value)
      ensures V.Set(State(), k, v) == V.ApplySet(State(), r)
    {
      r := RecursiveSet(root.value, k, v, version + 1);
      V.SetApplies(State(), root.value, k, v, version + 1, r);
    }

    method AdoptInsertion(r: SetResult) returns (updated: bool)
      modifies this`root, this`orphans
      ensures (State(), updated) == V.ApplySet(old(State()), r)
    {
      Adopt(Some(r.node), r.orphans);
      updated := r.updated;
    }

    /** Makes a changed tree the working tree, and records what it dropped. */
    method Adopt(tree: Option<Node>, dropped: seq<Node>)
      modifies this`root, this`orphans
      ensures State() == old(State()).(root := tree, orphans := V.AddOrphans(old(orphans), dropped))
    {
      root := tree;
      AddOrphans(dropped);
    }

    method Remove(k: Key) returns (value: Option<Value>)
      requires Valid()
      modifies this
      ensures Valid() && (State(), value) == V.Remove(old(State()), k)
    {
      V.RemoveInv(State(), k);
      if root.None? { return None; }
      var r := Removal(k);
      value := AdoptRemoval(r);
    }

    /** The removal of a key from the working tree, as the state machine applies it. */
    method Removal(k: Key) returns (r: RemoveResult)
      requires root.Some? && Wf(root.value)
      ensures V.Remove(State(), k) == V.ApplyRemove(State(), r)
    {
      r := RecursiveRemove(root.value, k, version + 1);
      V.RemoveIsShrink(State(), root.value, k, version + 1, r);
    }

    method AdoptRemoval(r: RemoveResult) returns (value: Option<Value>)
      modifies this`root, this`orphans
      ensures (State(), value) == V.ApplyRemove(old(State()), r)
    {
      if r.orphans == [] { return None; }
      Adopt(r.node, r.orphans);
      value := r.value;
    }

    method Rollback()
      requires Valid()
      modifies this
      ensures Valid() && State() == V.Rollback(old(State()))
    {
      V.RollbackInv(State());
      root := if version > 0 then lastSaved else None;
      orphans := map[];
    }

    /** Writes the working tree, its orphans and its root in one batch. */
    method WriteVersion(saved: int) returns (hash: Option<Blob>)
      requires ndb.Valid() && ndb.batch == [] && saved == version + 1 && version >= 0
      requires NodeStore.WfRoot(root) && DatedRoot(root, version)
      requires forall h :: h in orphans ==> !NodeStore.Expires(orphans[h], NodeStore.Previous(ndb.db.roots.Keys, saved))
      requires version == if ndb.latestVersion == 0 then NodeStore.Previous(ndb.db.roots.Keys, MAX_VERSION) else ndb.latestVersion
      modifies this`root, ndb
      ensures ndb.Valid() && ndb.batch == [] && ndb.latestVersion == saved && root == V.MarkRoot(old(root))
      ensures ndb.db == NodeStore.SaveVersion(old(ndb.db), saved, old(root), orphans) && hash == NodeStore.HashOf(old(root))
    {
      if root.Some? {
        DatedClosed(root.value, version);
        var marked := ndb.SaveBranch(root.value);
        MarkPersistedKeeps(root.value, version);
        root := Some(marked);
      }
      ndb.SaveOrphans(saved, orphans);
      hash := NodeStore.HashOf(root);
      var ok := ndb.SaveRoot(saved, hash);
      ndb.Commit();
    }

    /** Writes the working tree and makes it the last saved one. */
    method Advance(saved: int) returns (hash: Option<Blob>)
      requires ndb.Valid() && ndb.batch == [] && saved == version + 1 && version >= 0
      requires NodeStore.WfRoot(root) && DatedRoot(root, version)
      requires forall h :: h in orphans ==> !NodeStore.Expires(orphans[h], NodeStore.Previous(ndb.db.roots.Keys, saved))
      requires version == if ndb.latestVersion == 0 then NodeStore.Previous(ndb.db.roots.Keys, MAX_VERSION) else ndb.latestVersion
      modifies this, ndb
      ensures ndb.Valid() && ndb.batch == [] && ndb.latestVersion == saved
      ensures State() == V.Save(old(State())) && hash == NodeStore.HashOf(old(root))
    {
      hash := WriteVersion(saved);
      version, versions := saved, versions + {saved};
      lastSaved, orphans := root, map[];
    }

    /** Saves the working tree as the next version, and returns its root hash. */
    method SaveVersion() returns (hash: Option<Blob>, saved: int)
      requires Valid() && version + 1 < MAX_VERSION
      modifies this, ndb
      ensures Valid() && State() == V.Save(old(State())) && saved == old(version) + 1
      ensures hash == NodeStore.HashOf(old(root)) && saved in ndb.db.roots && ndb.db.roots[saved] == hash
    {
      V.SaveInv(State());
      saved := version + 1;
      assert saved !in versions;
      LatestKnown(ndb.db, version);
      forall h | h in orphans ensures !NodeStore.Expires(orphans[h], NodeStore.Previous(ndb.db.roots.Keys, saved)) {
        NodeStore.OrphansLive(ndb.db, version, lastSaved, root, orphans, h);
      }
      hash := Advance(saved);
    }

    /** Deletes one version; refuses version 0, the latest version and versions that do not exist. */
    method DeleteVersion(v: int) returns (ok: bool)
      requires Valid()
      modifies this, ndb
      ensures Valid() && (State(), ok) == V.Delete(old(State()), v)
    {
      V.DeleteInv(State(), v);
      LatestKnown(ndb.db, version);
      if v == 0 || v == version || v !in versions { return false; }
      EndVersionFirst(ndb.db, v);
      ndb.DeleteVersion(v);
      ndb.Commit();
      versions := versions - {v};
      ok := true;
    }

    /** Deletes several versions in one batch; an error leaves the database as it was, with a batch begun. */
    method DeleteVersions(vs: seq<int>) returns (ok: bool)
      requires Valid()
      modifies this, ndb
      ensures (State(), ok) == V.DeleteTogether(old(State()), vs)
      ensures ok ==> (Valid() <==> NodeStore.Separate(old(ndb.db), V.VersionSet(vs)))
    {
      V.DeleteTogetherInv(State(), vs);
      ok := BatchDeletions(vs);
      if !ok { return; }
      ndb.Commit();
      versions := versions - V.VersionSet(vs);
    }

    /** Batches the deletion of each version in turn, up to the first that cannot be deleted. */
    method BatchDeletions(vs: seq<int>) returns (ok: bool)
      requires Valid()
      modifies ndb
      ensures ndb.Valid() && ndb.db == old(ndb.db) && ndb.latestVersion in {0, version}
      ensures ok <==> V.AllDeletable(old(State()), vs)
      ensures ok ==> ndb.Pending() == NodeStore.DeleteVersions(ndb.db, V.VersionSet(vs))
    {
      ghost var s := State();
      NothingDeleted(s.store);
      for i := 0 to |vs|
        invariant ndb.Valid() && ndb.db == s.store && ndb.latestVersion in {0, version}
        invariant V.AllDeletable(s, vs[..i])
        invariant ndb.Pending() == NodeStore.DeleteVersions(s.store, V.VersionSet(vs[..i]))
      {
        assert vs[i] in vs;
        if vs[i] == 0 || vs[i] == version || vs[i] !in versions { return false; }
        BatchDeletion(vs, i);
        assert vs[..i + 1] == vs[..i] + [vs[i]];
      }
      assert vs[..|vs|] == vs;
      ok := true;
    }

    method BatchDeletion(vs: seq<int>, i: nat)
      requires ndb.Valid() && NodeStore.Pruned(ndb.db, version) && version < MAX_VERSION && ndb.latestVersion in {0, version}
      requires i < |vs| && vs[i] in ndb.db.roots && vs[i] != version
      requires ndb.Pending() == NodeStore.DeleteVersions(ndb.db, V.VersionSet(vs[..i]))
      modifies ndb
      ensures ndb.Valid() && ndb.db == old(ndb.db) && ndb.latestVersion in {0, version}
      ensures ndb.Pending() == NodeStore.DeleteVersions(ndb.db, V.VersionSet(vs[..i + 1]))
    {
      LatestKnown(ndb.db, version);
      NextDeleted(ndb.db, version, vs, i);
      ndb.DeleteVersion(vs[i]);
    }

    /** `Get` below a stored node, loading nodes as it descends. */
    method GetBelow(h: Blob, k: Key, ghost n: Node) returns (index: int, value: Option<Value>)
      requires ndb.Valid() && ndb.batch == [] && Wf(n) && h == Hash(n) && Closed(ndb.db.nodes, h)
      modifies ndb`cache, ndb`queue
      ensures ndb.Valid() && (index, value) == TreeReads.Get(n, k)
      decreases n
    {
      BranchStored(ndb.db.nodes, ndb.db.nodes, n, 0);
      RecordOfHash(n);
      var node := ndb.Fetch(h);
      if node.LeafRecord? {
        return if Lt(node.key, k) then 1 else 0, if Lt(node.key, k) || Lt(k, node.key) then None else Some(node.value);
      }
      if Lt(k, node.key) {
        index, value := GetBelow(node.leftHash, k, n.left);
      } else {
        BranchStored(ndb.db.nodes, ndb.db.nodes, n.right, 0);
        RecordOfHash(n.right);
        var right := ndb.Fetch(node.rightHash);
        index, value := GetBelow(node.rightHash, k, n.right);
        index := index + node.size - if right.LeafRecord? then 1 else right.size;
      }
    }

    /** Reads a key at a saved version, through the node database. */
    method GetVersioned(k: Key, v: int) returns (index: int, value: Option<Value>)
      requires Valid()
      modifies ndb
      ensures Valid() && State() == old(State()) && (index, value) == V.GetVersioned(State(), k, v)
    {
      if v !in versions { return -1, None; }
      var h := ndb.db.roots[v];
      if h.None? { return 0, None; }
      ghost var t := V.TreeAt(ndb.db, v);
      ReachedClosed(ndb.db, version, v, t);
      index, value := GetBelow(h.value, k, t.value);
    }

    /** Loads a whole stored branch. */
    method LoadBranch(h: Blob, ghost n: Node) returns (m: Node)
      requires ndb.Valid() && ndb.batch == [] && Wf(n) && AllPersisted(n) && h == Hash(n) && Closed(ndb.db.nodes, h)
      modifies ndb`cache, ndb`queue
      ensures ndb.Valid() && m == n
      decreases n
    {
      BranchStored(ndb.db.nodes, ndb.db.nodes, n, 0);
      RecordOfHash(n);
      var node := ndb.Fetch(h);
      if node.LeafRecord? { return Leaf(node.key, node.value, node.version, true); }
      var left := LoadBranch(node.leftHash, n.left);
      var right := LoadBranch(node.rightHash, n.right);
      m := Inner(node.key, node.height, node.size, node.version, left, right, true);
    }

    /** The greatest saved version up to `t`, or of all versions when `t` is 0. */
    method FindVersion(t: int) returns (latest: int)
      requires forall v :: v in ndb.db.roots ==> v >= 1
      ensures latest == 0 || (latest in ndb.db.roots && (t == 0 || latest <= t))
      ensures latest >= 0 && forall v :: v in ndb.db.roots && (t == 0 || v <= t) ==> v <= latest
    {
      latest := 0;
      var todo := ndb.db.roots.Keys;
      ghost var done: set<int> := {};
      while todo != {}
        invariant done + todo == ndb.db.roots.Keys && latest >= 0
        invariant latest == 0 || (latest in ndb.db.roots && (t == 0 || latest <= t))
        invariant forall v :: v in done && (t == 0 || v <= t) ==> v <= latest
        decreases todo
      {
        V.NonEmpty(todo);
        var v :| v in todo;
        todo, done := todo - {v}, done + {v};
        if v > latest && (t == 0 || v <= t) { latest := v; }
      }
      assert done == ndb.db.roots.Keys;
    }

    /** Loads version `t`, or the latest one when `t` is 0, from a database as some state `s` left it; absent if there is
        no such version.  The object may be that state or one that was just opened. */
    method LoadVersion(t: int, ghost s: V.State) returns (loaded: Option<int>)
      requires ndb.Valid() && ndb.batch == [] && V.Inv(s) && s.store == ndb.db && versions <= ndb.db.roots.Keys
      modifies this, ndb`cache, ndb`queue
      ensures ndb.Valid() && versions == ndb.db.roots.Keys
      ensures ndb.db.roots == map[] ==> loaded == Some(0) && State() == old(State())
      ensures ndb.db.roots != map[] ==>
        var v := if t == 0 then s.version else t;
        if v in ndb.db.roots then
          loaded == Some(v) && version == v && root == lastSaved == V.TreeAt(ndb.db, v) && orphans == map[]
        else loaded == None && State() == old(State()).(versions := ndb.db.roots.Keys)
      ensures ndb.db.roots != map[] && loaded == Some(s.version) ==> State() == V.Rollback(s)
    {
      if ndb.db.roots == map[] { return Some(0); }
      V.ReopenIsRollback(s);
      versions := versions + ndb.db.roots.Keys;
      var latest := FindVersion(t);
      if !(t == 0 || latest == t) { return None; }
      if t == 0 { LatestFound(ndb.db, s.version, latest); }
      ghost var tree := V.TreeAt(ndb.db, latest);
      ReachedClosed(ndb.db, s.version, latest, tree);
      var h := ndb.db.roots[latest];
      if h.Some? {
        var n := LoadBranch(h.value, tree.value);
        root := Some(n);
      } else {
        root := None;
      }
      lastSaved, version, orphans := root, latest, map[];
      loaded := Some(latest);
    }

    /** `Load` on a tree just opened: whatever state `s` the database was left in, the tree is `s` rolled back. */
    method Load(ghost s: V.State) returns (loaded: int)
      requires ndb.Valid() && ndb.batch == [] && V.Inv(s) && s.version < MAX_VERSION && State() == V.Opened(s.store)
      requires ndb.latestVersion in {0, s.version}
      modifies this, ndb`cache, ndb`queue
      ensures Valid() && State() == V.Rollback(s) && loaded == s.version
    {
      V.RollbackInv(s);
      V.ReopenIsRollback(s);
      var v := LoadVersion(0, s);
      loaded := v.value;
    }

    /** Deletes the versions above `t`, given the latest version and its tree, and makes `loaded` the latest. */
    method DropLater(t: int, loaded: int, ghost latest: int, ghost tree: Option<Node>) returns (ok: bool)
      requires ndb.Valid() && ndb.batch == []
      requires latest == if ndb.latestVersion == 0 then NodeStore.Previous(ndb.db.roots.Keys, MAX_VERSION) else ndb.latestVersion
      requires latest in ndb.db.roots ==>
        NodeStore.HashOf(tree) == ndb.db.roots[latest] && (tree.Some? ==> Wf(tree.value) && Closed(ndb.db.nodes, Hash(tree.value)))
      modifies this`versions, ndb
      ensures ndb.Valid() && ndb.batch == []
      ensures ok <==> latest <= t || latest in old(ndb.db.roots)
      ensures ok ==> ndb.latestVersion == loaded && versions == set v | v in old(versions) && v <= t
      ensures ok ==> ndb.db == if latest <= t then old(ndb.db) else NodeStore.DeleteVersionsFrom(old(ndb.db), latest, t + 1)
      ensures !ok ==> versions == old(versions) && ndb.db == old(ndb.db) && ndb.latestVersion == latest
    {
      ok := ndb.DeleteVersionsFrom(t + 1, tree);
      if !ok { return; }
      ndb.Commit();
      ndb.latestVersion := loaded;
      versions := set v | v in versions && v <= t;
    }

    /** Deletes the versions above `t` from the database of state `s`, and makes `loaded` the latest. */
    method DropAfter(t: int, loaded: int, ghost s: V.State) returns (ok: bool)
      requires ndb.Valid() && ndb.batch == [] && V.Inv(s) && s.version < MAX_VERSION && ndb.latestVersion in {0, s.version}
      requires s.store == ndb.db
      modifies this`versions, ndb
      ensures ndb.Valid() && ndb.batch == [] && ndb.latestVersion == if ok then loaded else s.version
      ensures ok <==> s.store.roots != map[] || t >= 0
      ensures ok ==> versions == (set v | v in old(versions) && v <= t) && ndb.db == V.Truncate(s, loaded, t, root).store
      ensures !ok ==> State() == old(State())
    {
      LatestKnown(s.store, s.version);
      if s.version in s.store.roots { ReachedClosed(s.store, s.version, s.version, s.lastSaved); }
      ok := DropLater(t, loaded, s.version, s.lastSaved);
    }

    /** Loads version `t` and deletes every later one.  Target 0 leaves the object without its records. */
    method LoadVersionForOverwriting(t: int) returns (loaded: Option<int>)
      requires Valid()
      modifies this, ndb
      ensures (State(), loaded) == V.LoadForOverwriting(old(State()), t)
      ensures t != 0 ==> Valid()
    {
      if t != 0 { V.LoadInv(State(), t); }
      loaded := Overwrite(t);
    }

    /** What the loading does, and that it leaves nothing pending. */
    method Overwrite(t: int) returns (loaded: Option<int>)
      requires Valid()
      modifies this, ndb
      ensures (State(), loaded) == V.LoadForOverwriting(old(State()), t)
      ensures ndb.Valid() && ndb.batch == [] && version < MAX_VERSION && ndb.latestVersion in {0, version}
    {
      ghost var s := State();
      loaded := LoadVersion(t, s);
      if loaded.None? { return; }
      var ok := DropAfter(t, loaded.value, s);
      if !ok { return None; }
      assert s.store.roots == map[] ==> versions == s.versions && s.version == 0;
    }
  }

  /** The tree of a surviving version can be loaded completely. */
  lemma ReachedClosed(s: NodeStore.Store, latest: int, v: int, t: Option<Node>)
    requires NodeStore.Stocked(s, latest) && V.Readable(s) && v in s.roots && t == V.TreeAt(s, v)
    ensures NodeStore.HashOf(t) == s.roots[v]
    ensures t.Some? ==> Wf(t.value) && AllPersisted(t.value) && Closed(s.nodes, Hash(t.value))
  {
    if t.Some? {
      forall x | Reach(Hash(t.value), x) ensures x in s.nodes { assert NodeStore.Reached(s.roots[v], x); }
    }
  }

  lemma NothingDeleted(s: NodeStore.Store)
    ensures V.VersionSet([]) == {} && NodeStore.DeleteVersions(s, {}) == s
  {
    assert NodeStore.DeleteVersions(s, {}).orphans == s.orphans;
  }

  /** One deletion more in a batch. */
  lemma NextDeleted(s: NodeStore.Store, latest: int, vs: seq<int>, i: nat)
    requires NodeStore.Pruned(s, latest) && i < |vs|
    ensures var before, after := V.VersionSet(vs[..i]), V.VersionSet(vs[..i + 1]);
            EndVersion(NodeStore.DeleteVersions(s, before), s, vs[i]) == NodeStore.DeleteVersions(s, after)
  {
    var before := V.VersionSet(vs[..i]);
    assert V.VersionSet(vs[..i + 1]) == before + {vs[i]};
    NodeStore.MovedIsNew(s, latest, before);
    EndVersionNext(s, before, vs[i]);
  }

  lemma LatestFound(s: NodeStore.Store, latest: int, found: int)
    requires NodeStore.Surviving(s, latest) && s.roots != map[]
    requires found == 0 || found in s.roots
    requires forall v :: v in s.roots ==> v <= found
    ensures found == latest && latest in s.roots
  {
    assert s.roots.Keys == {} ==> s.roots == map[];
    V.NonEmpty(s.roots.Keys);
  }

  lemma {:induction false} DatedClosed(n: Node, saved: int)
    requires Dated(n, saved)
    ensures PersistedClosed(n) && (n.persisted ==> AllPersisted(n))
  {
    if n.Inner? {
      DatedClosed(n.left, saved);
      DatedClosed(n.right, saved);
    }
  }

  /** The latest version is the greatest root. */
  lemma LatestKnown(s: NodeStore.Store, latest: int)
    requires NodeStore.Surviving(s, latest) && latest < MAX_VERSION
    ensures NodeStore.Previous(s.roots.Keys, MAX_VERSION) == latest
  {
  }
}
