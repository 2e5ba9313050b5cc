/** The node database as an object: committed entries, a pending batch, and a bounded least-recently-used node cache. */
module NodeDb {
  import opened Bytes
  import opened Tree
  import opened Persistence
  import opened NodeStore
  import SortedList
  import KeyFormat

  /** One entry of a write batch. */
  datatype Write =
    | PutNode(hash: Blob, record: Record)
    | DropNode(hash: Blob)
    | PutOrphan(orphan: Orphan)
    | DropOrphan(orphan: Orphan)
    | PutRoot(version: int, root: Option<Blob>)
    | DropRoot(version: int)

  function Apply(s: Store, w: Write): Store {
    match w
    case PutNode(h, r) => s.(nodes := s.nodes[h := r])
    case DropNode(h) => s.(nodes := s.nodes - {h})
    case PutOrphan(e) => s.(orphans := s.orphans + {e})
    case DropOrphan(e) => s.(orphans := s.orphans - {e})
    case PutRoot(v, h) => s.(roots := s.roots[v := h])
    case DropRoot(v) => s.(roots := s.roots - {v})
  }

  /** Writes take effect in the order they were batched. */
  function ApplyAll(s: Store, batch: seq<Write>): Store {
    if batch == [] then s else Apply(ApplyAll(s, batch[..|batch| - 1]), batch[|batch| - 1])
  }

  /** One lifetime is ended, with its node, or moved back to end at `predecessor`. */
  function EndOne(s: Store, predecessor: int, e: Orphan): Store {
    if predecessor < e.from || e.from == e.to then s.(orphans := s.orphans - {e}, nodes := s.nodes - {e.hash})
    else s.(orphans := s.orphans - {e} + {Orphan(predecessor, e.from, e.hash)})
  }

  /** The lifetimes in `done` have been ended or shortened. */
  function EndLifetimes(s: Store, predecessor: int, done: set<Orphan>): Store {
    var doomed := set e | e in done && (predecessor < e.from || e.from == e.to) :: e.hash;
    var moved := set e | e in done && !(predecessor < e.from || e.from == e.to) :: Orphan(predecessor, e.from, e.hash);
    s.(nodes := s.nodes - doomed, orphans := s.orphans - done + moved)
  }

  lemma EndLifetimesStep(s: Store, predecessor: int, done: set<Orphan>, e: Orphan)
    requires e !in done && e.to != predecessor
    ensures EndLifetimes(s, predecessor, done + {e}) == EndOne(EndLifetimes(s, predecessor, done), predecessor, e)
  {
    var a := EndLifetimes(s, predecessor, done + {e});
    var b := EndOne(EndLifetimes(s, predecessor, done), predecessor, e);
    assert a.nodes == b.nodes;
    assert a.orphans == b.orphans;
  }

  /** What deleting version `v`, as database `s` has it, makes of a pending store. */
  function EndVersion(pending: Store, s: Store, v: int): Store {
    EndLifetimes(pending, Previous(s.roots.Keys, v), Ending(s, {v})).(roots := pending.roots - {v})
  }

  lemma EndVersionParts(pending: Store, s: Store, v: int)
    ensures EndVersion(pending, s, v) ==
            Store(pending.nodes - AllDoomed(s, {v}), pending.orphans - Ending(s, {v}) + AllMoved(s, {v}), pending.roots - {v})
  {
    var ending, p := Ending(s, {v}), Previous(s.roots.Keys, v);
    assert AllDoomed(s, {v}) == set e | e in ending && (p < e.from || e.from == e.to) :: e.hash;
    assert AllMoved(s, {v}) == set e | e in ending && !(p < e.from || e.from == e.to) :: Orphan(p, e.from, e.hash);
  }

  lemma EndingMore(s: Store, vs: set<int>, v: int)
    ensures Ending(s, vs + {v}) == Ending(s, vs) + Ending(s, {v})
    ensures AllDoomed(s, vs + {v}) == AllDoomed(s, vs) + AllDoomed(s, {v})
    ensures AllMoved(s, vs + {v}) == AllMoved(s, vs) + AllMoved(s, {v})
  {
  }

  /** Deleting one version more in the same batch. */
  lemma EndVersionNext(s: Store, vs: set<int>, v: int)
    requires AllMoved(s, vs) !! s.orphans
    ensures EndVersion(DeleteVersions(s, vs), s, v) == DeleteVersions(s, vs + {v})
  {
    var a, b := EndVersion(DeleteVersions(s, vs), s, v), DeleteVersions(s, vs + {v});
    EndVersionParts(DeleteVersions(s, vs), s, v);
    EndingMore(s, vs, v);
    assert a.nodes == b.nodes;
    assert a.orphans == b.orphans;
    assert a.roots == b.roots;
  }

  lemma EndVersionFirst(s: Store, v: int)
    ensures EndVersion(s, s, v) == NodeStore.DeleteVersion(s, v)
  {
    EndVersionParts(s, s, v);
  }

  class NodeDB {
    var db: Store
    var batch: seq<Write>
    var latestVersion: int
    var cache: map<Blob, Record>
    var queue: seq<Blob>
    const cacheSize: nat

    /** What the database will hold once the batch is committed. */
    ghost function Pending(): Store
      reads this
    {
      ApplyAll(db, batch)
    }

    /** Records are canonical everywhere, and the cache only holds nodes that are not being pruned. */
    ghost predicate Valid()
      reads this
    {
      Canonical(db.nodes) && Canonical(Pending().nodes) && Canonical(cache) && cache.Keys <= Pending().nodes.Keys && Bounded()
    }

    /** The cache holds no more than its queue, which is no longer than the cache size. */
    ghost predicate Bounded()
      reads this
    {
      |queue| <= cacheSize && forall h :: h in cache ==> h in queue
    }

    /** A node database over what is committed already. */
    constructor (committed: Store, size: nat)
      requires Canonical(committed.nodes)
      ensures Valid() && db == committed && batch == [] && latestVersion == 0 && cacheSize == size
    {
      db := committed;
      batch := [];
      latestVersion := 0;
      cache := map[];
      queue := [];
      cacheSize := size;
    }

    method Write(w: Write)
      modifies this`batch
      ensures batch == old(batch) + [w] && Pending() == Apply(old(Pending()), w)
    {
      batch := batch + [w];
    }

    /** Adds a node to the cache, evicting the least recently used one if the queue is full. */
    method CacheNode(h: Blob, r: Record)
      requires Bounded()
      modifies this`cache, this`queue
      ensures Bounded()
      ensures (cache, queue) == Cached(old(cache), old(queue), cacheSize, h, r)
    {
      queue := queue + [h];
      cache := cache[h := r];
      if |queue| > cacheSize {
        ghost var q := queue;
        assert forall x :: x in q && x != q[0] ==> x in q[1..];
        cache := cache - {queue[0]};
        queue := queue[1..];
      }
    }

    method UncacheNode(h: Blob)
      requires Bounded()
      modifies this`cache, this`queue
      ensures Bounded() && cache == old(cache) - {h} && queue == if h in old(cache) then Without(old(queue), h) else old(queue)
    {
      if h in cache {
        WithoutKeeps(queue, h);
        queue := Without(queue, h);
        cache := cache - {h};
      }
    }

    /** The record of a stored node, from the cache or from the database; the source panics on a missing one. */
    method GetNode(h: Blob) returns (r: Record)
      requires Valid() && h in db.nodes && h in Pending().nodes
      modifies this`cache, this`queue
      ensures Valid() && r == db.nodes[h] == RecordAt(h)
      ensures (cache, queue) == if h in old(cache) then (old(cache), Without(old(queue), h) + [h])
                                else Cached(old(cache), old(queue), cacheSize, h, r)
    {
      if h in cache {
        WithoutKeeps(queue, h);
        queue := Without(queue, h) + [h];
        return cache[h];
      }
      r := db.nodes[h];
      CacheNode(h, r);
    }

    /** The same, for callers that do not depend on what is cached. */
    method Fetch(h: Blob) returns (r: Record)
      requires Valid() && h in db.nodes && h in Pending().nodes
      modifies this`cache, this`queue
      ensures Valid() && r == db.nodes[h] == RecordAt(h)
    {
      r := GetNode(h);
    }

    /** Batches a node and caches it. */
    method SaveNode(n: Node)
      requires Valid() && Wf(n) && !n.persisted
      modifies this`batch, this`cache, this`queue
      ensures Valid() && Pending() == old(Pending()).(nodes := old(Pending()).nodes[Hash(n) := RecordOf(n)])
      ensures (cache, queue) == Cached(old(cache), old(queue), cacheSize, Hash(n), RecordOf(n))
    {
      RecordOfHash(n);
      Write(PutNode(Hash(n), RecordOf(n)));
      CacheNode(Hash(n), RecordOf(n));
    }

    /** The same, for callers that do not depend on what is cached. */
    method Keep(n: Node)
      requires Valid() && Wf(n) && !n.persisted
      modifies this`batch, this`cache, this`queue
      ensures Valid() && Pending() == old(Pending()).(nodes := old(Pending()).nodes[Hash(n) := RecordOf(n)])
    {
      SaveNode(n);
    }

    /** Saves the unpersisted part of a branch, children first, and marks it persisted. */
    method SaveBranch(n: Node) returns (m: Node)
      requires Valid() && Wf(n) && (n.persisted ==> AllPersisted(n))
      requires PersistedClosed(n)
      modifies this`batch, this`cache, this`queue
      ensures Valid() && m == MarkPersisted(n)
      ensures Pending() == old(Pending()).(nodes := old(Pending()).nodes + NewRecords(n))
      decreases n
    {
      if n.persisted {
        MarkAllPersisted(n);
        assert old(Pending()).nodes + NewRecords(n) == old(Pending()).nodes;
        return n;
      }
      if n.Leaf? {
        Keep(n);
        m := Leaf(n.key, n.value, n.version, true);
      } else {
        var left := SaveBranch(n.left);
        var right := SaveBranch(n.right);
        Keep(n);
        m := Inner(n.key, n.height, n.size, n.version, left, right, true);
        UnionOfThree(old(Pending()).nodes, NewRecords(n.left), NewRecords(n.right), Hash(n), RecordOf(n));
      }
    }

    method SaveOrphan(h: Blob, fromVersion: int, toVersion: int)
      requires !Expires(fromVersion, toVersion)
      modifies this`batch
      ensures Pending() == old(Pending()).(orphans := old(Pending()).orphans + {Orphan(toVersion, fromVersion, h)})
    {
      Write(PutOrphan(Orphan(toVersion, fromVersion, h)));
    }

    /** The greatest committed version below `version`, looked for downwards; `LastRootKey` says that this is the
        entry at which the source's reverse iterator over the root keys starts. */
    method GetPreviousVersion(version: int) returns (p: int)
      ensures p == Previous(db.roots.Keys, version)
    {
      p := version - 1;
      while p >= 1 && p !in db.roots
        invariant p >= 0 || version < 1
        invariant Previous(db.roots.Keys, version) == Previous(db.roots.Keys, p + 1)
        decreases p
      {
        p := p - 1;
      }
      if p < 0 { p := 0; }
    }

    /** Gives every orphan of the working tree a lifetime that ends at the previous version. */
    method SaveOrphans(version: int, orphans: map<Blob, int>)
      requires Valid()
      requires forall h :: h in orphans ==> !Expires(orphans[h], Previous(db.roots.Keys, version))
      modifies this`batch
      ensures Valid()
      ensures var to := Previous(db.roots.Keys, version);
              Pending() == old(Pending()).(orphans := old(Pending()).orphans + set h | h in orphans :: Orphan(to, orphans[h], h))
    {
      var to := GetPreviousVersion(version);
      var todo := orphans.Keys;
      ghost var done := {};
      while todo != {}
        invariant Valid() && done + todo == orphans.Keys
        invariant Pending() == old(Pending()).(orphans := old(Pending()).orphans + set h | h in done :: Orphan(to, orphans[h], h))
        decreases todo
      {
        var h :| h in todo;
        SaveOrphan(h, orphans[h], to);
        todo, done := todo - {h}, done + {h};
      }
    }

    method GetLatestVersion() returns (v: int)
      modifies this`latestVersion
      ensures v == latestVersion == if old(latestVersion) == 0 then Previous(db.roots.Keys, MAX_VERSION) else old(latestVersion)
    {
      if latestVersion == 0 {
        latestVersion := GetPreviousVersion(MAX_VERSION);
      }
      v := latestVersion;
    }

    /** Ends or shortens every lifetime that ends at `version`. */
    method DeleteOrphans(version: int)
      requires Valid() && version >= 1
      modifies this`batch, this`cache, this`queue
      ensures Valid()
      ensures Pending() == EndLifetimes(old(Pending()), Previous(db.roots.Keys, version), Ending(db, {version}))
    {
      var predecessor := GetPreviousVersion(version);
      var todo := Ending(db, {version});
      ghost var all := todo;
      ghost var done: set<Orphan> := {};
      ghost var before := Pending();
      EndNoLifetimes(before, predecessor);
      while todo != {}
        invariant Valid() && done !! todo && done + todo == all
        invariant Pending() == EndLifetimes(before, predecessor, done)
        decreases todo
      {
        var e :| e in todo;
        EndLifetimesStep(before, predecessor, done, e);
        Write(DropOrphan(e));
        if predecessor < e.from || e.from == e.to {
          DeleteNode(e.hash);
        } else {
          SaveOrphan(e.hash, e.from, predecessor);
        }
        todo, done := todo - {e}, done + {e};
      }
      assert done == all;
    }

    /** Batches the deletion of one version; the source panics on the latest one.  Lookups do not see the batch. */
    method DeleteVersion(version: int)
      requires Valid() && version >= 1
      requires version != if latestVersion == 0 then Previous(db.roots.Keys, MAX_VERSION) else latestVersion
      modifies this
      ensures Valid() && db == old(db) && Pending() == EndVersion(old(Pending()), db, version)
      ensures latestVersion == if old(latestVersion) == 0 then Previous(db.roots.Keys, MAX_VERSION) else old(latestVersion)
    {
      DeleteOrphans(version);
      var latest := GetLatestVersion();
      Write(DropRoot(version));
    }

    /** Batches the deletion of the nodes of a branch that date from `version` or later. */
    method DeleteNodesFrom(version: int, h: Blob, ghost n: Node)
      requires Valid() && Wf(n) && h == Hash(n)
      requires Closed(db.nodes, h) && Closed(Pending().nodes, h)
      modifies this`batch, this`cache, this`queue
      ensures Valid() && Pending() == old(Pending()).(nodes := old(Pending()).nodes - DatedFrom(db.nodes, h, version))
      decreases n
    {
      BranchStored(db.nodes, Pending().nodes, n, version);
      RecordOfHash(n);
      var node := Fetch(h);
      ghost var before := Pending().nodes;
      if node.InnerRecord? {
        DeleteNodesFrom(version, node.leftHash, n.left);
        DeleteNodesFrom(version, node.rightHash, n.right);
      }
      if node.version >= version { DeleteNode(h); }
      DroppedParts(db.nodes, before, n, version);
    }

    method DeleteNode(h: Blob)
      requires Valid()
      modifies this`batch, this`cache, this`queue
      ensures Valid() && Pending() == old(Pending()).(nodes := old(Pending()).nodes - {h})
    {
      Write(DropNode(h));
      UncacheNode(h);
    }

    /** Drops the lifetimes that a rollback to before `version` makes obsolete, with the nodes that start in them. */
    method DropOrphansFrom(version: int)
      requires Valid() && Pending().orphans == db.orphans
      modifies this`batch, this`cache, this`queue
      ensures Valid()
      ensures Pending() == CutLifetimes(old(Pending()), db.orphans, version)
    {
      var todo := db.orphans;
      ghost var done: set<Orphan> := {};
      CutNone(Pending(), version);
      while todo != {}
        invariant Valid() && done !! todo && done + todo == db.orphans
        invariant Pending() == CutLifetimes(old(Pending()), done, version)
        decreases todo
      {
        var e :| e in todo;
        CutStep(old(Pending()), done, version, e);
        if e.from >= version {
          Write(DropOrphan(e));
          DeleteNode(e.hash);
        } else if e.to >= version - 1 {
          Write(DropOrphan(e));
        }
        todo, done := todo - {e}, done + {e};
      }
      assert done == db.orphans;
    }

    method DropRootsFrom(version: int)
      requires Valid() && Pending().roots == db.roots
      modifies this`batch
      ensures Valid()
      ensures Pending() == old(Pending()).(roots := db.roots - set v | v in db.roots && v >= version)
    {
      var todo := set v | v in db.roots && v >= version;
      ghost var all, done := todo, {};
      assert db.roots - {} == db.roots;
      while todo != {}
        invariant Valid() && done + todo == all && Pending() == old(Pending()).(roots := db.roots - done)
        decreases todo
      {
        var v :| v in todo;
        Write(DropRoot(v));
        todo, done := todo - {v}, done + {v};
        assert db.roots - (done - {v}) - {v} == db.roots - done;
      }
      assert done == all;
    }

    /** Batches the deletion of all versions from `version` upwards; fails if the latest root is missing. */
    method DeleteVersionsFrom(version: int, ghost tree: Option<Node>) returns (ok: bool)
      requires Valid() && batch == []
      requires var latest := if latestVersion == 0 then Previous(db.roots.Keys, MAX_VERSION) else latestVersion;
               latest in db.roots ==> HashOf(tree) == db.roots[latest] && (tree.Some? ==> Wf(tree.value) && Closed(db.nodes, Hash(tree.value)))
      modifies this
      ensures Valid() && db == old(db)
      ensures latestVersion == if old(latestVersion) == 0 then Previous(db.roots.Keys, MAX_VERSION) else old(latestVersion)
      ensures ok <==> latestVersion < version || latestVersion in db.roots
      ensures latestVersion < version || !ok ==> batch == []
      ensures latestVersion >= version && ok ==> Pending() == NodeStore.DeleteVersionsFrom(db, latestVersion, version)
    {
      var latest := GetLatestVersion();
      if latest < version { return true; }
      if latest !in db.roots { return false; }
      var root := db.roots[latest];
      if root.Some? { DeleteNodesFrom(version, root.value, tree.value); }
      DropOrphansFrom(version);
      DropRootsFrom(version);
      CutIsDeleteVersionsFrom(db, latest, version);
      ok := true;
    }

    method Commit()
      requires Valid()
      modifies this`db, this`batch
      ensures Valid() && db == old(Pending()) && batch == []
    {
      db := ApplyBatch(db, batch);
      batch := [];
    }

    /** Batches the root of the next version. */
    method SaveRoot(version: int, root: Option<Blob>) returns (ok: bool)
      requires Valid()
      modifies this`batch, this`latestVersion
      ensures var latest := if old(latestVersion) == 0 then Previous(db.roots.Keys, MAX_VERSION) else old(latestVersion);
              && (ok <==> version == latest + 1)
              && (ok ==> latestVersion == version && Pending() == old(Pending()).(roots := old(Pending()).roots[version := root]))
              && (!ok ==> latestVersion == latest && batch == old(batch))
      ensures Valid()
    {
      var latest := GetLatestVersion();
      if version != latest + 1 { return false; }
      Write(PutRoot(version, root));
      latestVersion := version;
      ok := true;
    }
  }

  /** The lifetimes in `done` have been cut by a rollback to before `version`. */
  function CutLifetimes(s: Store, done: set<Orphan>, version: int): Store {
    var dead := set e | e in done && e.from >= version :: e.hash;
    var cut := set e | e in done && (e.from >= version || e.to >= version - 1);
    s.(nodes := s.nodes - dead, orphans := s.orphans - cut)
  }

  lemma CutNone(s: Store, version: int)
    ensures CutLifetimes(s, {}, version) == s
  {
    assert CutLifetimes(s, {}, version).nodes == s.nodes;
  }

  lemma CutStep(s: Store, done: set<Orphan>, version: int, e: Orphan)
    ensures var c := CutLifetimes(s, done, version);
            CutLifetimes(s, done + {e}, version) ==
            if e.from >= version then c.(nodes := c.nodes - {e.hash}, orphans := c.orphans - {e})
            else if e.to >= version - 1 then c.(orphans := c.orphans - {e}) else c
  {
    var c := CutLifetimes(s, done, version);
    var d := CutLifetimes(s, done + {e}, version);
    if e.from >= version {
      assert d.nodes == c.nodes - {e.hash} && d.orphans == c.orphans - {e};
    } else {
      assert d.nodes == c.nodes && d.orphans == if e.to >= version - 1 then c.orphans - {e} else c.orphans;
    }
  }

  lemma CutIsDeleteVersionsFrom(s: Store, latest: int, version: int)
    requires latest in s.roots
    ensures var active := if s.roots[latest].Some? then DatedFrom(s.nodes, s.roots[latest].value, version) else {};
            CutLifetimes(s.(nodes := s.nodes - active), s.orphans, version).(roots := s.roots - set v | v in s.roots && v >= version)
            == NodeStore.DeleteVersionsFrom(s, latest, version)
  {
    var active := if s.roots[latest].Some? then DatedFrom(s.nodes, s.roots[latest].value, version) else {};
    var a := CutLifetimes(s.(nodes := s.nodes - active), s.orphans, version).(roots := s.roots - set v | v in s.roots && v >= version);
    var b := NodeStore.DeleteVersionsFrom(s, latest, version);
    assert a.nodes == b.nodes;
    assert a.orphans == b.orphans;
    assert a.roots == b.roots;
  }

  const MAX_VERSION: int := 0x7FFF_FFFF_FFFF_FFFF

  lemma EndNoLifetimes(s: Store, predecessor: int)
    ensures EndLifetimes(s, predecessor, {}) == s
  {
    assert EndLifetimes(s, predecessor, {}).nodes == s.nodes;
  }

  /** The hashes below `h` that date from `version` or later. */
  function DatedFrom(nodes: Records, h: Blob, version: int): set<Blob> {
    set x | x in nodes && Reach(h, x) && x.NodeSum? && x.version >= version
  }

  /** A branch's nodes are stored, and deleting from the left subtree leaves the right one alone. */
  lemma BranchStored(nodes: Records, pending: Records, n: Node, version: int)
    requires Wf(n) && Closed(nodes, Hash(n)) && Closed(pending, Hash(n))
    ensures Hash(n) in nodes && Hash(n) in pending
    ensures n.Inner? ==> n.height > 0 && Closed(nodes, Hash(n.left)) && Closed(pending, Hash(n.left)) && Closed(nodes, Hash(n.right))
    ensures n.Inner? ==> Closed(pending - DatedFrom(nodes, Hash(n.left), version), Hash(n.right))
  {
    MeasuresNonNegative(n);
    assert Reach(Hash(n), Hash(n));
    if n.Inner? {
      forall x | Reach(Hash(n.right), x) ensures x in pending - DatedFrom(nodes, Hash(n.left), version) { ReachDisjoint(n, x); }
    }
  }

  lemma DroppedParts(nodes: Records, before: Records, n: Node, version: int)
    requires Wf(n) && Hash(n) in nodes
    ensures var own := if n.version >= version then {Hash(n)} else {};
            before - DatedFrom(nodes, Hash(n), version) ==
            if n.Leaf? then before - own
            else before - DatedFrom(nodes, Hash(n.left), version) - DatedFrom(nodes, Hash(n.right), version) - own
  {
    MeasuresNonNegative(n);
  }

  /** Writing a batch, entry by entry. */
  method ApplyBatch(s: Store, batch: seq<Write>) returns (r: Store)
    ensures r == ApplyAll(s, batch)
  {
    r := s;
    for i := 0 to |batch|
      invariant r == ApplyAll(s, batch[..i])
    {
      assert batch[..i + 1][..i] == batch[..i];
      r := Apply(r, batch[i]);
    }
    assert batch[..|batch|] == batch;
  }

  /** Persistence is closed downwards. */
  predicate PersistedClosed(n: Node) {
    n.Inner? ==> (n.left.persisted ==> AllPersisted(n.left)) && (n.right.persisted ==> AllPersisted(n.right)) &&
                 PersistedClosed(n.left) && PersistedClosed(n.right)
  }

  lemma {:induction false} MarkAllPersisted(n: Node)
    requires AllPersisted(n)
    ensures MarkPersisted(n) == n
  {
    if n.Inner? {
      MarkAllPersisted(n.left);
      MarkAllPersisted(n.right);
    }
  }

  lemma UnionOfThree(a: Records, b: Records, c: Records, h: Blob, r: Record)
    ensures (a + b + c)[h := r] == a + (b + c + map[h := r])
  {
  }

  /** A node joins the cache, at the back of the queue; if that is then too long, the node at its front leaves both. */
  function Cached(cache: map<Blob, Record>, queue: seq<Blob>, size: nat, h: Blob, r: Record): (map<Blob, Record>, seq<Blob>) {
    var c, q := cache[h := r], queue + [h];
    if |q| <= size then (c, q) else (c - {q[0]}, q[1..])
  }

  /** The queue without one element, as `list.Remove` leaves it: the last one, to which the cache points. */
  function Without(q: seq<Blob>, h: Blob): seq<Blob> {
    if q == [] then [] else if q[|q| - 1] == h then q[..|q| - 1] else Without(q[..|q| - 1], h) + [q[|q| - 1]]
  }

  /** It is one shorter, and no other element is lost. */
  lemma {:induction false} WithoutKeeps(q: seq<Blob>, h: Blob)
    ensures |Without(q, h)| == if h in q then |q| - 1 else |q|
    ensures forall x :: x in q && x != h ==> x in Without(q, h)
  {
    if q != [] {
      var last := |q| - 1;
      assert q == q[..last] + [q[last]];
      if q[last] != h { WithoutKeeps(q[..last], h); }
    }
  }

  lemma {:induction false} WithoutSplit(a: seq<Blob>, h: Blob, b: seq<Blob>)
    requires h !in b
    ensures Without(a + [h] + b, h) == a + b
  {
    var q := a + [h] + b;
    if b == [] {
      assert q[..|q| - 1] == a && a + b == a;
    } else {
      var init := b[..|b| - 1];
      assert q[..|q| - 1] == a + [h] + init;
      WithoutSplit(a, h, init);
      assert a + b == (a + init) + [b[|b| - 1]];
    }
  }

  // ---------- the keys of the entries ----------

  /** The previous version is the one whose root key is the last in the range from version 1 up to `v`. */
  lemma LastRootKey(versions: set<int>, v: int)
    requires v >= 1 && KeyFormat.IsVersion(v) && forall w :: w in versions ==> KeyFormat.IsVersion(w)
    ensures var p := Previous(versions, v);
            var from, to := Some(KeyFormat.RootKey(1)), Some(KeyFormat.RootKey(v));
            (p != 0 ==> p in versions && SortedList.InDomain(KeyFormat.RootKey(p), from, to)) &&
            forall w :: w in versions && SortedList.InDomain(KeyFormat.RootKey(w), from, to) ==>
                          p != 0 && Le(KeyFormat.RootKey(w), KeyFormat.RootKey(p))
  {
    var p := Previous(versions, v);
    var from, to := Some(KeyFormat.RootKey(1)), Some(KeyFormat.RootKey(v));
    if p != 0 { KeyFormat.RootRange(p, 1, v); }
    forall w | w in versions && SortedList.InDomain(KeyFormat.RootKey(w), from, to)
      ensures p != 0 && Le(KeyFormat.RootKey(w), KeyFormat.RootKey(p))
    {
      KeyFormat.RootRange(w, 1, v);
      KeyFormat.RootOrder(w, p);
    }
  }
}
