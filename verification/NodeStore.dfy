/** The contents of the node database and what saving, deleting and rolling back versions does to them. */
module NodeStore {
  import opened Bytes
  import opened Tree
  import opened Orphans
  import opened Persistence

  /** A database entry `o<to><from><hash>`: the node is needed by the versions `from..to` and by no later one. */
  datatype Orphan = Orphan(to: int, from: int, hash: Blob)

  /** `roots` maps a version to its root hash; an empty tree has the empty root. */
  datatype Store = Store(nodes: Records, orphans: set<Orphan>, roots: map<int, Option<Blob>>)

  /** `getPreviousVersion`: the greatest saved version below `v`, or 0. */
  function Previous(versions: set<int>, v: int): (p: int)
    ensures p == 0 || (p in versions && 1 <= p < v)
    ensures forall w :: w in versions && 1 <= w < v ==> w <= p
    decreases v
  {
    if v <= 1 then 0 else if v - 1 in versions then v - 1 else Previous(versions, v - 1)
  }

  predicate Reached(root: Option<Blob>, h: Blob) {
    root.Some? && Reach(root.value, h)
  }

  /** `saveOrphan` panics on an orphan that expires before it comes alive. */
  predicate Expires(fromVersion: int, toVersion: int) {
    fromVersion > toVersion
  }

  /** What becomes of an entry when its last version goes: it ends with the version before. */
  function Moved(s: Store, e: Orphan): Orphan {
    Orphan(Previous(s.roots.Keys, e.to), e.from, e.hash)
  }

  /** There is no version before that it could end with, so its node goes. */
  predicate Doomed(s: Store, e: Orphan) {
    Expires(e.from, Previous(s.roots.Keys, e.to)) || e.from == e.to
  }

  /** `DeleteVersions`, in one batch: every lifetime is looked up in the database as it was before. */
  function DeleteVersions(s: Store, vs: set<int>): Store {
    Store(s.nodes - AllDoomed(s, vs), s.orphans - Ending(s, vs) + AllMoved(s, vs), s.roots - vs)
  }

  /** The lifetimes that end at some of the versions. */
  function Ending(s: Store, vs: set<int>): set<Orphan> {
    set e | e in s.orphans && e.to in vs
  }

  function AllDoomed(s: Store, vs: set<int>): set<Blob> {
    set e | e in Ending(s, vs) && Doomed(s, e) :: e.hash
  }

  function AllMoved(s: Store, vs: set<int>): set<Orphan> {
    set e | e in Ending(s, vs) && !Doomed(s, e) :: Moved(s, e)
  }

  /** `DeleteVersion`: lifetimes that end at `v` end earlier, or take their node with them. */
  function DeleteVersion(s: Store, v: int): Store {
    DeleteVersions(s, {v})
  }

  /** `DeleteVersionsFrom`: drops every version from `version` upwards, given the latest one. */
  function DeleteVersionsFrom(s: Store, latest: int, version: int): Store
    requires latest in s.roots
  {
    var active := set h | h in s.nodes && Reached(s.roots[latest], h) && h.NodeSum? && h.version >= version;
    var dead := set e | e in s.orphans && e.from >= version :: e.hash;
    Store(s.nodes - active - dead,
          set e | e in s.orphans && e.from < version && e.to < version - 1,
          map v | v in s.roots && v < version :: s.roots[v])
  }

  function HashOf(t: Option<Node>): Option<Blob> {
    if t.None? then None else Some(Hash(t.value))
  }

  /** `SaveVersion`: writes the unpersisted nodes, the root, and the orphans, which lived until the previous version. */
  function SaveVersion(s: Store, version: int, root: Option<Node>, orphans: map<Blob, int>): Store {
    var to := Previous(s.roots.Keys, version);
    Store(if root.None? then s.nodes else s.nodes + NewRecords(root.value),
          s.orphans + (set h | h in orphans :: Orphan(to, orphans[h], h)),
          s.roots[version := HashOf(root)])
  }

  // ---------- the pruning invariant ----------

  /** The lifetime of a stored node covers `v`: it starts at the node's version and ends with its orphan entry. */
  ghost predicate Alive(s: Store, h: Blob, v: int) {
    h.NodeSum? && h.version <= v && forall e :: e in s.orphans && e.hash == h ==> v <= e.to
  }

  ghost predicate GoodOrphan(s: Store, latest: int, e: Orphan) {
    e.hash in s.nodes && e.hash.NodeSum? && e.from == e.hash.version && e.from <= e.to < latest && e.to in s.roots
  }

  /** The surviving versions, the latest of which is never deleted. */
  ghost predicate Surviving(s: Store, latest: int) {
    0 <= latest && (forall v :: v in s.roots ==> 1 <= v <= latest) && (latest > 0 ==> latest in s.roots)
  }

  /** What is reachable is stored, under its own record. */
  ghost predicate Stocked(s: Store, latest: int) {
    && Canonical(s.nodes)
    && (forall h :: h in s.nodes ==> 1 <= h.version <= latest)
    && (forall v, h :: v in s.roots && Reached(s.roots[v], h) ==> h in s.nodes)
  }

  /** Orphan entries are about stored nodes, at most one each, and end at surviving versions. */
  ghost predicate Entries(s: Store, latest: int) {
    && (forall e :: e in s.orphans ==> GoodOrphan(s, latest, e))
    && (forall e, f :: e in s.orphans && f in s.orphans && e.hash == f.hash ==> e == f)
  }

  /** Each stored node is reachable in exactly the surviving versions of its lifetime. */
  ghost predicate Lifetimes(s: Store) {
    forall v, h :: v in s.roots && h in s.nodes ==> (Reached(s.roots[v], h) <==> Alive(s, h, v))
  }

  ghost predicate Pruned(s: Store, latest: int) {
    Surviving(s, latest) && Stocked(s, latest) && Entries(s, latest) && Lifetimes(s)
  }

  /** Nothing needed is lost and nothing leaks. */
  lemma PrunedExact(s: Store, latest: int, h: Blob)
    requires Pruned(s, latest)
    ensures h in s.nodes <==> exists v :: v in s.roots && Reached(s.roots[v], h)
  {
    if h in s.nodes {
      if e :| e in s.orphans && e.hash == h {
        assert GoodOrphan(s, latest, e);
        assert Alive(s, h, e.to);
        assert Reached(s.roots[e.to], h);
      } else {
        assert Alive(s, h, latest);
        assert Reached(s.roots[latest], h);
      }
    }
  }

  // ---------- deleting versions ----------

  /** No lifetime is moved to a version that goes in the same batch. */
  ghost predicate Separate(s: Store, vs: set<int>) {
    forall e :: e in s.orphans && e.to in vs && !Doomed(s, e) ==> Previous(s.roots.Keys, e.to) !in vs
  }

  ghost predicate Deletable(s: Store, latest: int, vs: set<int>) {
    Pruned(s, latest) && vs <= s.roots.Keys && latest !in vs
  }

  /** Where an entry comes from. */
  lemma MovedFrom(s: Store, vs: set<int>, e: Orphan) returns (e0: Orphan)
    requires e in DeleteVersions(s, vs).orphans
    ensures e0 in s.orphans && e == if e0.to in vs then Moved(s, e0) else e0
    ensures e0.to in vs ==> !Doomed(s, e0)
  {
    if e in s.orphans && e.to !in vs {
      e0 := e;
    } else {
      e0 :| e0 in s.orphans && e0.to in vs && !Doomed(s, e0) && e == Moved(s, e0);
    }
  }

  lemma MovedTo(s: Store, vs: set<int>, e: Orphan)
    requires e in s.orphans && !(e.to in vs && Doomed(s, e))
    ensures (if e.to in vs then Moved(s, e) else e) in DeleteVersions(s, vs).orphans
  {
  }

  /** A moved lifetime is not on record before: a node has one only. */
  lemma MovedIsNew(s: Store, latest: int, vs: set<int>)
    requires Pruned(s, latest)
    ensures AllMoved(s, vs) !! s.orphans
  {
    forall e | e in Ending(s, vs) ensures Moved(s, e) !in s.orphans {
      assert GoodOrphan(s, latest, e);
      assert Moved(s, e).to < e.to;
    }
  }

  /** A node whose lifetime is kept or moved is kept. */
  lemma KeptNode(s: Store, latest: int, vs: set<int>, e: Orphan)
    requires Deletable(s, latest, vs) && e in s.orphans && !(e.to in vs && Doomed(s, e))
    ensures e.hash in DeleteVersions(s, vs).nodes
  {
    assert GoodOrphan(s, latest, e);
  }

  lemma DeletedGoodOrphan(s: Store, latest: int, vs: set<int>, e: Orphan)
    requires Deletable(s, latest, vs) && Separate(s, vs) && e in DeleteVersions(s, vs).orphans
    ensures GoodOrphan(DeleteVersions(s, vs), latest, e)
  {
    var e0 := MovedFrom(s, vs, e);
    assert GoodOrphan(s, latest, e0);
    KeptNode(s, latest, vs, e0);
  }

  lemma DeletedUnique(s: Store, latest: int, vs: set<int>, e: Orphan, f: Orphan)
    requires Deletable(s, latest, vs) && e in DeleteVersions(s, vs).orphans && f in DeleteVersions(s, vs).orphans && e.hash == f.hash
    ensures e == f
  {
    var e0 := MovedFrom(s, vs, e);
    var f0 := MovedFrom(s, vs, f);
    assert e0 == f0;
  }

  lemma DeletedKeepsReached(s: Store, latest: int, vs: set<int>, w: int, h: Blob)
    requires Deletable(s, latest, vs) && w in s.roots && w !in vs && Reached(s.roots[w], h)
    ensures h in DeleteVersions(s, vs).nodes
  {
    assert Alive(s, h, w);
    forall e | e in s.orphans && e.hash == h && e.to in vs ensures !Doomed(s, e) {
      assert GoodOrphan(s, latest, e);
      assert w <= Previous(s.roots.Keys, e.to);
    }
  }

  lemma DeletedAlive(s: Store, latest: int, vs: set<int>, w: int, h: Blob)
    requires Deletable(s, latest, vs) && w in s.roots && w !in vs && h in DeleteVersions(s, vs).nodes
    ensures Alive(DeleteVersions(s, vs), h, w) <==> Alive(s, h, w)
  {
    var s' := DeleteVersions(s, vs);
    forall e | e in s'.orphans && e.hash == h && Alive(s, h, w) ensures w <= e.to {
      var e0 := MovedFrom(s, vs, e);
      assert w <= e0.to;
    }
    forall e | e in s.orphans && e.hash == h && Alive(s', h, w) ensures w <= e.to {
      assert GoodOrphan(s, latest, e);
      MovedTo(s, vs, e);
    }
  }

  /** Deleting versions together keeps pruning exact if they are separate. */
  lemma DeletedPruned(s: Store, latest: int, vs: set<int>)
    requires Deletable(s, latest, vs) && Separate(s, vs)
    ensures Pruned(DeleteVersions(s, vs), latest)
  {
    var s' := DeleteVersions(s, vs);
    forall e | e in s'.orphans ensures GoodOrphan(s', latest, e) { DeletedGoodOrphan(s, latest, vs, e); }
    forall e, f | e in s'.orphans && f in s'.orphans && e.hash == f.hash ensures e == f {
      DeletedUnique(s, latest, vs, e, f);
    }
    forall w, h | w in s'.roots && Reached(s'.roots[w], h) ensures h in s'.nodes {
      DeletedKeepsReached(s, latest, vs, w, h);
    }
    forall w, h | w in s'.roots && h in s'.nodes ensures Reached(s'.roots[w], h) <==> Alive(s', h, w) {
      DeletedAlive(s, latest, vs, w, h);
    }
  }

  /** The exact condition: otherwise a lifetime ends at a version that is gone. */
  lemma DeletedPrunedIff(s: Store, latest: int, vs: set<int>)
    requires Deletable(s, latest, vs)
    ensures Pruned(DeleteVersions(s, vs), latest) <==> Separate(s, vs)
  {
    if Separate(s, vs) {
      DeletedPruned(s, latest, vs);
    } else {
      var e :| e in s.orphans && e.to in vs && !Doomed(s, e) && Previous(s.roots.Keys, e.to) in vs;
      MovedTo(s, vs, e);
      assert !GoodOrphan(DeleteVersions(s, vs), latest, Moved(s, e));
    }
  }

  /** A lifetime that ends at a version that is gone: nothing will end it any more. */
  ghost predicate Stuck(s: Store, e: Orphan) {
    e in s.orphans && e.hash in s.nodes && e.to !in s.roots && forall f :: f in s.orphans && f.hash == e.hash ==> f == e
  }

  /** If versions are not separate, deleting them together leaves such a lifetime behind. */
  lemma DeletedStuck(s: Store, latest: int, vs: set<int>) returns (e: Orphan)
    requires Deletable(s, latest, vs) && !Separate(s, vs)
    ensures Stuck(DeleteVersions(s, vs), e)
  {
    var e0 :| e0 in s.orphans && e0.to in vs && !Doomed(s, e0) && Previous(s.roots.Keys, e0.to) in vs;
    e := Moved(s, e0);
    MovedTo(s, vs, e0);
    KeptNode(s, latest, vs, e0);
    forall f | f in DeleteVersions(s, vs).orphans && f.hash == e.hash ensures f == e { DeletedUnique(s, latest, vs, e, f); }
  }

  /** Deletes existing versions one by one; others are refused. */
  function DeleteEach(s: Store, vs: seq<int>): Store
    decreases |vs|
  {
    if vs == [] then s else DeleteEach(if vs[0] in s.roots then DeleteVersion(s, vs[0]) else s, vs[1..])
  }

  /** Whatever is deleted later, the node of a stuck lifetime stays. */
  lemma {:induction false} StuckStays(s: Store, e: Orphan, vs: seq<int>)
    requires Stuck(s, e)
    ensures Stuck(DeleteEach(s, vs), e)
    decreases |vs|
  {
    if vs != [] {
      if vs[0] in s.roots { StuckOnce(s, e, vs[0]); }
      StuckStays(if vs[0] in s.roots then DeleteVersion(s, vs[0]) else s, e, vs[1..]);
    }
  }

  lemma StuckOnce(s: Store, e: Orphan, v: int)
    requires Stuck(s, e) && v in s.roots
    ensures Stuck(DeleteVersion(s, v), e)
  {
    MovedTo(s, {v}, e);
    forall f | f in DeleteVersion(s, v).orphans && f.hash == e.hash ensures f == e {
      var f0 := MovedFrom(s, {v}, f);
    }
  }

  /** A leak: a leaf of versions 1 to 3 outlives them all when 2 and 3 are deleted together and then 1. */
  lemma TogetherLeaks(a: Blob, b: Blob) returns (s: Store)
    requires a.NodeSum? && a.height == 0 && a.version == 1 && b.NodeSum? && b.height == 0 && b.version == 4
    ensures s.roots == map[1 := Some(a), 2 := Some(a), 3 := Some(a), 4 := Some(b)] && s.orphans == {Orphan(3, 1, a)}
    ensures Deletable(s, 4, {2, 3})
    ensures var s' := DeleteVersion(DeleteVersions(s, {2, 3}), 1);
            s'.roots == map[4 := Some(b)] && a in s'.nodes && !Reached(s'.roots[4], a)
  {
    s := Store(map[a := RecordAt(a), b := RecordAt(b)], {Orphan(3, 1, a)}, map[1 := Some(a), 2 := Some(a), 3 := Some(a), 4 := Some(b)]);
    FourVersions(s, a, b);
    var e := DeletedStuck(s, 4, {2, 3});
    var e0 := MovedFrom(s, {2, 3}, e);
    StuckOnce(DeleteVersions(s, {2, 3}), e, 1);
  }

  lemma FourVersions(s: Store, a: Blob, b: Blob)
    requires a.NodeSum? && a.height == 0 && a.version == 1 && b.NodeSum? && b.height == 0 && b.version == 4
    requires s.nodes == map[a := RecordAt(a), b := RecordAt(b)] && s.orphans == {Orphan(3, 1, a)}
    requires s.roots == map[1 := Some(a), 2 := Some(a), 3 := Some(a), 4 := Some(b)]
    ensures Deletable(s, 4, {2, 3}) && !Separate(s, {2, 3})
  {
    assert Previous(s.roots.Keys, 3) == 2;
    assert Orphan(3, 1, a) in s.orphans;
  }

  /** Deleting one version keeps pruning exact. */
  lemma DeletePruned(s: Store, latest: int, v: int)
    requires Pruned(s, latest) && v in s.roots && v != latest
    ensures Pruned(DeleteVersion(s, v), latest)
  {
    DeletedPruned(s, latest, {v});
  }

  /** Rolling back keeps exactly the nodes of versions up to the target. */
  lemma TruncatedNodes(s: Store, latest: int, t: int, h: Blob)
    requires Pruned(s, latest) && t in s.roots
    ensures h in DeleteVersionsFrom(s, latest, t + 1).nodes <==> h in s.nodes && h.version <= t
  {
    if h in s.nodes && h.version > t {
      if e :| e in s.orphans && e.hash == h {
        assert GoodOrphan(s, latest, e);
      } else {
        assert Alive(s, h, latest);
      }
    }
  }

  lemma TruncatedGoodOrphan(s: Store, latest: int, t: int, e: Orphan)
    requires Pruned(s, latest) && t in s.roots && e in DeleteVersionsFrom(s, latest, t + 1).orphans
    ensures GoodOrphan(DeleteVersionsFrom(s, latest, t + 1), t, e)
  {
    assert GoodOrphan(s, latest, e);
    TruncatedNodes(s, latest, t, e.hash);
  }

  lemma TruncatedAlive(s: Store, latest: int, t: int, v: int, h: Blob)
    requires Pruned(s, latest) && t in s.roots && v in s.roots && v <= t && h in s.nodes
    ensures Alive(DeleteVersionsFrom(s, latest, t + 1), h, v) <==> Alive(s, h, v)
  {
    var s' := DeleteVersionsFrom(s, latest, t + 1);
    if Alive(s', h, v) {
      forall e | e in s.orphans && e.hash == h ensures v <= e.to {
        assert GoodOrphan(s, latest, e);
      }
    }
  }

  /** Rolling back to a saved version makes pruning exact with that version as the latest. */
  lemma TruncatedPruned(s: Store, latest: int, t: int)
    requires Pruned(s, latest) && t in s.roots
    ensures Pruned(DeleteVersionsFrom(s, latest, t + 1), t)
  {
    var s' := DeleteVersionsFrom(s, latest, t + 1);
    forall h ensures h in s'.nodes <==> h in s.nodes && h.version <= t { TruncatedNodes(s, latest, t, h); }
    forall e | e in s'.orphans ensures GoodOrphan(s', t, e) { TruncatedGoodOrphan(s, latest, t, e); }
    forall v, h | v in s'.roots && Reached(s'.roots[v], h) ensures h in s'.nodes {
      assert Alive(s, h, v);
    }
    forall v, h | v in s'.roots && h in s'.nodes ensures Reached(s'.roots[v], h) <==> Alive(s', h, v) {
      TruncatedAlive(s, latest, t, v, h);
    }
  }

  // ---------- saving the working tree ----------

  predicate WfRoot(t: Option<Node>) {
    t.Some? ==> Wf(t.value)
  }

  predicate SavedTree(t: Option<Node>, version: int) {
    t.Some? ==> Wf(t.value) && AllPersisted(t.value) && Dated(t.value, version)
  }

  /** Every persisted node of the last saved tree is either still in the working tree or recorded as an orphan. */
  ghost predicate Accounted(last: Option<Node>, root: Option<Node>, orphans: map<Blob, int>) {
    && (forall h :: PersistedOf(last, h) == PersistedOf(root, h) + if h in orphans then 1 else 0)
    && (forall h :: h in orphans ==> h.NodeSum? && orphans[h] == h.version)
  }

  /** The working tree sits on top of a pruned store. */
  ghost predicate Working(s: Store, latest: int, last: Option<Node>, root: Option<Node>, orphans: map<Blob, int>) {
    && Pruned(s, latest)
    && (if latest in s.roots then s.roots[latest] == HashOf(last) else last.None?)
    && SavedTree(last, latest) && WfRoot(root) && DatedRoot(root, latest)
    && Accounted(last, root, orphans)
  }

  /** Old hashes in the working tree are those of the last saved tree that were not orphaned. */
  lemma WorkingReach(s: Store, latest: int, last: Option<Node>, root: Option<Node>, orphans: map<Blob, int>, h: Blob)
    requires Working(s, latest, last, root, orphans) && h.NodeSum? && h.version <= latest
    ensures Reached(HashOf(root), h) <==> Reached(HashOf(last), h) && h !in orphans
    ensures h in orphans ==> Reached(HashOf(last), h)
  {
    if root.Some? { OldReachIsPersisted(root.value, latest, h); }
    if last.Some? { PersistedOnce(last.value, h); }
    assert PersistedOf(last, h) == PersistedOf(root, h) + if h in orphans then 1 else 0;
  }

  /** Orphans die no earlier than they come alive, so `saveOrphan` never panics. */
  lemma OrphansLive(s: Store, latest: int, last: Option<Node>, root: Option<Node>, orphans: map<Blob, int>, h: Blob)
    requires Working(s, latest, last, root, orphans) && h in orphans
    ensures h in s.nodes && Previous(s.roots.Keys, latest + 1) == latest && 1 <= orphans[h] <= latest
    ensures !Expires(orphans[h], Previous(s.roots.Keys, latest + 1))
    ensures Reached(HashOf(last), h)
  {
    assert PersistedOf(last, h) == PersistedOf(root, h) + 1;
    PersistedOnce(last.value, h);
    ReachVersions(last.value, latest, h);
  }

  lemma SavedReach(s: Store, latest: int, last: Option<Node>, root: Option<Node>, orphans: map<Blob, int>, h: Blob)
    requires Working(s, latest, last, root, orphans) && Reached(HashOf(root), h)
    ensures h.NodeSum? && 1 <= h.version <= latest + 1
    ensures h.version == latest + 1 <==> h in NewRecords(root.value)
    ensures h.version <= latest ==> h in s.nodes
  {
    ReachVersions(root.value, latest, h);
    NewRecordsDomain(root.value, latest, h);
    if h.version <= latest {
      WorkingReach(s, latest, last, root, orphans, h);
    }
  }

  lemma SavedOrphan(s: Store, latest: int, last: Option<Node>, root: Option<Node>, orphans: map<Blob, int>, e: Orphan)
    requires Working(s, latest, last, root, orphans) && e in SaveVersion(s, latest + 1, root, orphans).orphans
    ensures GoodOrphan(SaveVersion(s, latest + 1, root, orphans), latest + 1, e)
    ensures e !in s.orphans ==> e == Orphan(latest, e.hash.version, e.hash) && Alive(s, e.hash, latest)
  {
    if e !in s.orphans {
      OrphansLive(s, latest, last, root, orphans, e.hash);
    } else {
      assert GoodOrphan(s, latest, e);
    }
  }

  ghost predicate Ended(s: Store, h: Blob) {
    exists e :: e in s.orphans && e.hash == h
  }

  lemma SavedEnded(s: Store, version: int, root: Option<Node>, orphans: map<Blob, int>, h: Blob)
    ensures Ended(SaveVersion(s, version, root, orphans), h) <==> Ended(s, h) || h in orphans
  {
    var s' := SaveVersion(s, version, root, orphans);
    if e :| e in s.orphans && e.hash == h { assert e in s'.orphans; }
    if h in orphans { assert Orphan(Previous(s.roots.Keys, version), orphans[h], h) in s'.orphans; }
  }

  /** A node lives at the latest version unless its lifetime was ended. */
  lemma AliveAtLatest(s: Store, latest: int, h: Blob)
    requires h.NodeSum? && h.version <= latest && forall e :: e in s.orphans ==> e.to < latest
    ensures Alive(s, h, latest) <==> !Ended(s, h)
  {
  }

  lemma SavedAliveNow(s: Store, latest: int, last: Option<Node>, root: Option<Node>, orphans: map<Blob, int>, h: Blob)
    requires Working(s, latest, last, root, orphans) && h in SaveVersion(s, latest + 1, root, orphans).nodes
    ensures Reached(HashOf(root), h) <==> Alive(SaveVersion(s, latest + 1, root, orphans), h, latest + 1)
  {
    var s' := SaveVersion(s, latest + 1, root, orphans);
    if root.Some? { NewRecordsDomain(root.value, latest, h); }
    forall e | e in s'.orphans ensures e.to < latest + 1 { SavedOrphan(s, latest, last, root, orphans, e); }
    AliveAtLatest(s', latest + 1, h);
    SavedEnded(s, latest + 1, root, orphans, h);
    if h in s.nodes {
      WorkingReach(s, latest, last, root, orphans, h);
      forall e | e in s.orphans ensures e.to < latest { assert GoodOrphan(s, latest, e); }
      AliveAtLatest(s, latest, h);
    } else {
      FreshNotEnded(s, latest, last, root, orphans, h);
    }
  }

  lemma FreshNotEnded(s: Store, latest: int, last: Option<Node>, root: Option<Node>, orphans: map<Blob, int>, h: Blob)
    requires Working(s, latest, last, root, orphans) && h !in s.nodes
    ensures !Ended(s, h) && h !in orphans
  {
    assert forall e :: e in s.orphans ==> e.hash in s.nodes by {
      forall e | e in s.orphans ensures e.hash in s.nodes { assert GoodOrphan(s, latest, e); }
    }
    if h in orphans { OrphansLive(s, latest, last, root, orphans, h); }
  }

  lemma SavedAliveBefore(s: Store, latest: int, last: Option<Node>, root: Option<Node>, orphans: map<Blob, int>, v: int, h: Blob)
    requires Working(s, latest, last, root, orphans) && v in s.roots
    requires h in SaveVersion(s, latest + 1, root, orphans).nodes
    ensures Reached(s.roots[v], h) <==> Alive(SaveVersion(s, latest + 1, root, orphans), h, v)
  {
    if root.Some? { NewRecordsDomain(root.value, latest, h); }
    if h in s.nodes {
      SavedAliveSame(s, latest, last, root, orphans, v, h);
    }
  }

  lemma SavedAliveSame(s: Store, latest: int, last: Option<Node>, root: Option<Node>, orphans: map<Blob, int>, v: int, h: Blob)
    requires Working(s, latest, last, root, orphans) && v <= latest
    ensures Alive(SaveVersion(s, latest + 1, root, orphans), h, v) <==> Alive(s, h, v)
  {
    var s' := SaveVersion(s, latest + 1, root, orphans);
    forall e | e in s'.orphans && e !in s.orphans ensures e.to == latest {
      SavedOrphan(s, latest, last, root, orphans, e);
    }
    assert forall e :: e in s.orphans ==> e in s'.orphans;
  }

  lemma SavedUniqueOrphans(s: Store, latest: int, last: Option<Node>, root: Option<Node>, orphans: map<Blob, int>,
                           e: Orphan, f: Orphan)
    requires Working(s, latest, last, root, orphans) && e.hash == f.hash
    requires e in SaveVersion(s, latest + 1, root, orphans).orphans && f in SaveVersion(s, latest + 1, root, orphans).orphans
    ensures e == f
  {
    SavedOrphan(s, latest, last, root, orphans, e);
    SavedOrphan(s, latest, last, root, orphans, f);
    forall g | g in s.orphans ensures g.to < latest { assert GoodOrphan(s, latest, g); }
  }

  lemma SavedRecords(nodes: Records, latest: int, root: Node)
    requires Canonical(nodes) && Wf(root) && Dated(root, latest) && latest >= 0
    requires forall h :: h in nodes ==> 1 <= h.version <= latest
    ensures Canonical(nodes + NewRecords(root))
    ensures forall h :: h in nodes + NewRecords(root) ==> 1 <= h.version <= latest + 1
  {
    NewRecordsCanonical(root);
    forall h ensures h in NewRecords(root) ==> h.NodeSum? && h.version == latest + 1 {
      NewRecordsDomain(root, latest, h);
    }
  }

  lemma SavedStocked(s: Store, latest: int, last: Option<Node>, root: Option<Node>, orphans: map<Blob, int>)
    requires Working(s, latest, last, root, orphans)
    ensures Stocked(SaveVersion(s, latest + 1, root, orphans), latest + 1)
  {
    var s' := SaveVersion(s, latest + 1, root, orphans);
    if root.Some? { SavedRecords(s.nodes, latest, root.value); }
    forall v, h | v in s'.roots && Reached(s'.roots[v], h) ensures h in s'.nodes {
      if v == latest + 1 { SavedReach(s, latest, last, root, orphans, h); }
    }
  }

  lemma SavedEntries(s: Store, latest: int, last: Option<Node>, root: Option<Node>, orphans: map<Blob, int>)
    requires Working(s, latest, last, root, orphans)
    ensures Entries(SaveVersion(s, latest + 1, root, orphans), latest + 1)
  {
    var s' := SaveVersion(s, latest + 1, root, orphans);
    forall e | e in s'.orphans ensures GoodOrphan(s', latest + 1, e) { SavedOrphan(s, latest, last, root, orphans, e); }
    forall e, f | e in s'.orphans && f in s'.orphans && e.hash == f.hash ensures e == f {
      SavedUniqueOrphans(s, latest, last, root, orphans, e, f);
    }
  }

  lemma SavedLifetimes(s: Store, latest: int, last: Option<Node>, root: Option<Node>, orphans: map<Blob, int>)
    requires Working(s, latest, last, root, orphans)
    ensures Lifetimes(SaveVersion(s, latest + 1, root, orphans))
  {
    var s' := SaveVersion(s, latest + 1, root, orphans);
    forall v, h | v in s'.roots && h in s'.nodes ensures Reached(s'.roots[v], h) <==> Alive(s', h, v) {
      if v == latest + 1 {
        SavedAliveNow(s, latest, last, root, orphans, h);
      } else {
        SavedAliveBefore(s, latest, last, root, orphans, v, h);
      }
    }
  }

  /** Saving the working tree keeps pruning exact, with the new version as the latest. */
  lemma SavePruned(s: Store, latest: int, last: Option<Node>, root: Option<Node>, orphans: map<Blob, int>)
    requires Working(s, latest, last, root, orphans)
    ensures Pruned(SaveVersion(s, latest + 1, root, orphans), latest + 1)
  {
    SavedStocked(s, latest, last, root, orphans);
    SavedEntries(s, latest, last, root, orphans);
    SavedLifetimes(s, latest, last, root, orphans);
  }
}
