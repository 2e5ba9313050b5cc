/** What a walk of `getRangeProof` leaves behind, wherever it starts, and when the proof it builds verifies. */
module RangeWalk {
  import opened Bytes
  import opened Tree
  import opened TreeReads
  import opened Traversal
  import opened RangeProof
  import opened ProofPath
  import opened ProofSoundness
  import opened ProofVerify
  import opened ProofCompleteness
  import opened RangeProver
  import opened ProverWalk
  import opened RangeComplete
  import opened KeyProofs
  import opened ByteSuccessor

  // ---------- the builder ----------

  /** The paths collected so far have the form that the verifier expects. */
  ghost predicate GoodBuilder(b: Builder) {
    WellFormedInners(b.paths) && WellFormedPath(b.current) && IsLeftmost(b.current)
  }

  lemma VisitGood(r: Request, b: Builder, n: Node)
    requires GoodBuilder(b) && Wf(n)
    ensures GoodBuilder(Visit(r, b, n).0)
  {
    MeasuresNonNegative(n);
  }

  lemma {:induction false} FeedGood(ns: seq<Node>, r: Request, b: Builder)
    requires GoodBuilder(b) && forall i :: 0 <= i < |ns| ==> Wf(ns[i])
    ensures GoodBuilder(Feed(ns, b, Collect(r)).0)
  {
    if ns != [] {
      VisitGood(r, b, ns[0]);
      FeedGood(ns[1..], r, Visit(r, b, ns[0]).0);
    }
  }

  lemma {:induction false} VisitsWf(n: Node, w: Walk)
    requires Wf(n)
    ensures forall i :: 0 <= i < |Visits(n, w)| ==> Wf(Visits(n, w)[i])
  {
    if n.Inner? {
      VisitsWf(n.left, w);
      VisitsWf(n.right, w);
    }
  }

  /** Leaves, paths and pairs are only ever added. */
  lemma {:induction false} FeedExtends(ns: seq<Node>, r: Request, b: Builder)
    ensures var c := Feed(ns, b, Collect(r)).0; b.leaves <= c.leaves && b.paths <= c.paths && b.pairs <= c.pairs
  {
    if ns != [] { FeedExtends(ns[1..], r, Visit(r, b, ns[0]).0); }
  }

  /** The next leaf of the proof is the first leaf that the walk meets; it fills a limit that has room for one. */
  lemma {:induction false} FeedFirst(ns: seq<Node>, r: Request, b: Builder)
    ensures var c, met := Feed(ns, b, Collect(r)).0, Filter(ns, IsLeaf());
            if met == [] then c.leaves == b.leaves && c.paths == b.paths && c.pairs == b.pairs
            else met[0].Leaf? && b.leaves + [LeafOf(met[0])] <= c.leaves && (r.limit == |b.leaves| + 1 ==> c.pairs == b.pairs)
  {
    if ns != [] {
      var (b1, stop) := Visit(r, b, ns[0]);
      if ns[0].Leaf? {
        assert Filter(ns, IsLeaf())[0] == ns[0];
        FeedExtends(ns[1..], r, b1);
      } else {
        assert Filter(ns, IsLeaf()) == Filter(ns[1..], IsLeaf());
        FeedFirst(ns[1..], r, b1);
      }
    }
  }

  // ---------- the answer ----------

  /** The leaves from the increment of `left` on. */
  function Ahead(t: Node, left: Key): seq<Node> {
    RangeLeaves(t, Range(Some(CpIncr(left)), None, false))
  }

  /** The answer to a request that does not stop, in any well-formed tree. */
  lemma WalkAnswer(t: Node, start: Option<Key>, end: Option<Key>, limit: nat, path: Path, left: Node)
    requires Wf(t) && (start.Some? && end.Some? ==> Lt(start.value, end.value))
    requires (path, left) == PathToLeaf(t, StartKey(start)) && left.Leaf? && !Stops(end, limit, left.key)
    ensures var proof, met := GetRangeProof(t, start, end, limit).proof, Ahead(t, left.key);
            WellFormedProof(proof) && proof.leftPath == path &&
            if met == [] then proof == Proof(path, [], [LeafOf(left)])
            else met[0].Leaf? && [LeafOf(left), LeafOf(met[0])] <= proof.leaves
    ensures limit == 2 || Ahead(t, left.key) == [] ==>
            GetRangeProof(t, start, end, limit).pairs == FirstLeaf(start, end, path, left).pairs
  {
    var w, r, first := WalkFrom(CpIncr(left.key)), Request(path, end, limit), FirstLeaf(start, end, path, left);
    PathToLeafFollows(t, StartKey(start));
    TraverseFeeds(t, w, first, Collect(r));
    TraversalExact(t, w);
    VisitsWf(t, w);
    FeedGood(Visits(t, w), r, first);
    FeedFirst(Visits(t, w), r, first);
  }

  // ---------- when it verifies ----------

  /** The first leaf in range is the least. */
  lemma {:induction false} LeastInRange(ns: seq<Node>, range: Range, i: nat)
    requires i < |ns| && InRange(ns[i].key, range)
    requires forall j, k :: 0 <= j < k < |ns| ==> Lt(ns[j].key, ns[k].key)
    ensures var met := Filter(ns, KeyInRange(range)); met != [] && InRange(met[0].key, range) && Le(met[0].key, ns[i].key)
  {
    if !InRange(ns[0].key, range) {
      LeastInRange(ns[1..], range, i - 1);
    }
  }

  /** If the walk first meets the leaf behind `left`, the increment steps to it. */
  lemma MeetsNext(t: Node, i: nat, left: Key)
    requires Wf(t) && i + 1 < |Leaves(t)| && Leaves(t)[i].key == left
    requires Ahead(t, left) != [] && Ahead(t, left)[0].key == Leaves(t)[i + 1].key
    ensures NextKey(t, left, CpIncr(left))
  {
    forall x | x in Content(t) ensures Le(CpIncr(left), x) <==> Lt(left, x) { MeetsNextAt(t, i, left, x); }
  }

  lemma MeetsNextAt(t: Node, i: nat, left: Key, x: Key)
    requires Wf(t) && i + 1 < |Leaves(t)| && Leaves(t)[i].key == left && x in Content(t)
    requires Ahead(t, left) != [] && Ahead(t, left)[0].key == Leaves(t)[i + 1].key
    ensures Le(CpIncr(left), x) <==> Lt(left, x)
  {
    LeavesSorted(t);
    LeavesContent(t, x);
    var j :| 0 <= j < |Leaves(t)| && Leaves(t)[j].key == x;
    var range := Range(Some(CpIncr(left)), None, false);
    if Le(CpIncr(left), x) { LeastInRange(Leaves(t), range, j); }
    AheadReached(t, left);
    StepsTo(Leaves(t), i, j, CpIncr(left));
  }

  lemma StepsTo(ns: seq<Node>, i: nat, j: nat, a: Key)
    requires i + 1 < |ns| && j < |ns| && forall k, l :: 0 <= k < l < |ns| ==> Lt(ns[k].key, ns[l].key)
    requires Le(a, ns[i + 1].key) && (Le(a, ns[j].key) ==> Le(ns[i + 1].key, ns[j].key))
    ensures Le(a, ns[j].key) <==> Lt(ns[i].key, ns[j].key)
  {
    LtTotalOrder();
    assert Lt(ns[i].key, ns[i + 1].key);
  }

  lemma AheadReached(t: Node, left: Key)
    requires Ahead(t, left) != []
    ensures Le(CpIncr(left), Ahead(t, left)[0].key)
  {
    FilterHolds(Leaves(t), Range(Some(CpIncr(left)), None, false));
  }

  lemma {:induction false} FilterHolds(ns: seq<Node>, range: Range)
    ensures var met := Filter(ns, KeyInRange(range)); met != [] ==> InRange(met[0].key, range)
  {
    if ns != [] && !InRange(ns[0].key, range) {
      assert Filter(ns, KeyInRange(range)) == Filter(ns[1..], KeyInRange(range));
      FilterHolds(ns[1..], range);
    }
  }

  /** A walk that meets no leaf leaves a proof of the first leaf alone. */
  lemma NothingAhead(t: Node, left: Key)
    requires forall x :: x in Content(t) ==> Lt(x, CpIncr(left))
    requires Wf(t)
    ensures Ahead(t, left) == []
  {
    var range := Range(Some(CpIncr(left)), None, false);
    forall i | 0 <= i < |Leaves(t)| ensures !InRange(Leaves(t)[i].key, range) {
      LeavesContent(t, Leaves(t)[i].key);
      LtTotalOrder();
    }
    FilterNone(Leaves(t), KeyInRange(range));
  }

  lemma AheadNothing(t: Node, left: Key, x: Key)
    requires Wf(t) && Ahead(t, left) == [] && x in Content(t)
    ensures Lt(x, CpIncr(left))
  {
    LeavesSorted(t);
    LeavesContent(t, x);
    var i :| 0 <= i < |Leaves(t)| && Leaves(t)[i].key == x;
    if Le(CpIncr(left), x) { LeastInRange(Leaves(t), Range(Some(CpIncr(left)), None, false), i); }
    LtTrichotomy(x, CpIncr(left));
  }

  /** A verified proof goes on with the leaf behind its first one. */
  lemma SecondLeaf(proof: Proof, t: Node, treeEnd: bool, second: Node)
    requires Wf(t) && WellFormedProof(proof) && Proves(proof, t, treeEnd)
    requires second.Leaf? && |proof.leaves| > 1 && proof.leaves[1] == LeafOf(second)
    ensures Follows(t, proof.leftPath)
    ensures var i := Before(t, proof.leftPath); i + 1 < |Leaves(t)| && Leaves(t)[i + 1].key == second.key
  {
    VerifySound(proof, t, treeEnd);
    ProofLeavesAt(t);
    var i := Before(t, proof.leftPath);
    assert proof.leaves[1] == ProofLeaves(t)[i + 1];
  }

  /** The condition under which a request is answered with a proof that verifies: it stops at its first leaf, or the
      increment of that leaf's key steps to the next key, or passes all keys. */
  ghost predicate Provable(t: Node, start: Option<Key>, end: Option<Key>, limit: nat) {
    StepsOn(t, start, end, limit) || forall x :: x in Content(t) ==> Lt(x, CpIncr(PathToLeaf(t, StartKey(start)).1.key))
  }

  lemma VerifiedStepsOn(t: Node, start: Option<Key>, end: Option<Key>, limit: nat, treeEnd: bool)
    requires Wf(t) && (start.Some? && end.Some? ==> Lt(start.value, end.value))
    requires Proves(GetRangeProof(t, start, end, limit).proof, t, treeEnd)
    ensures Provable(t, start, end, limit)
  {
    var (path, left) := PathToLeaf(t, StartKey(start));
    var proof, met := GetRangeProof(t, start, end, limit).proof, Ahead(t, left.key);
    var i := NearestHolds(t, StartKey(start), path, left);
    if !Stops(end, limit, left.key) {
      WalkAnswer(t, start, end, limit, path, left);
      if met == [] {
        forall x | x in Content(t) ensures Lt(x, CpIncr(left.key)) { AheadNothing(t, left.key, x); }
      } else {
        SecondLeaf(proof, t, treeEnd, met[0]);
        MeetsNext(t, i, left.key);
      }
    }
  }

  lemma LastLeafVerifies(t: Node, start: Option<Key>, end: Option<Key>, limit: nat, path: Path, left: Node)
    requires Wf(t) && (start.Some? && end.Some? ==> Lt(start.value, end.value))
    requires (path, left) == PathToLeaf(t, StartKey(start)) && left.Leaf? && !Stops(end, limit, left.key)
    requires Ahead(t, left.key) == []
    ensures exists treeEnd :: Proves(GetRangeProof(t, start, end, limit).proof, t, treeEnd)
  {
    WalkAnswer(t, start, end, limit, path, left);
    OneLeafVerifies(t, StartKey(start), path, left);
  }

  lemma OneLeafVerifies(t: Node, key: Key, path: Path, left: Node)
    requires Wf(t) && (path, left) == PathToLeaf(t, key) && left.Leaf?
    ensures var proof := Proof(path, [], [LeafOf(left)]); WellFormedProof(proof) && Proves(proof, t, After(t, path) == [])
  {
    PathToLeafFollows(t, key);
    PrefixVerifies(t, path, 0);
    assert After(t, path)[..0] == [];
    assert [LeafOf(left)] + SegLeaves([]) == [LeafOf(left)];
  }

  /** The exact condition, for every request and every well-formed tree. */
  lemma RangeVerifiesIff(t: Node, start: Option<Key>, end: Option<Key>, limit: nat)
    requires Wf(t) && (start.Some? && end.Some? ==> Lt(start.value, end.value))
    ensures (exists treeEnd :: Proves(GetRangeProof(t, start, end, limit).proof, t, treeEnd)) <==> Provable(t, start, end, limit)
  {
    if StepsOn(t, start, end, limit) {
      RangeProofVerifies(t, start, end, limit);
    } else if Provable(t, start, end, limit) {
      var (path, left) := PathToLeaf(t, StartKey(start));
      PathToLeafIsLeaf(t, StartKey(start));
      NothingAhead(t, left.key);
      LastLeafVerifies(t, start, end, limit, path, left);
    }
    if treeEnd :| Proves(GetRangeProof(t, start, end, limit).proof, t, treeEnd) {
      VerifiedStepsOn(t, start, end, limit, treeEnd);
    }
  }

  /** Whatever the proof is worth, `GetWithProof` reads the map. */
  lemma GetWithProofValue(t: Node, key: Key)
    requires Wf(t) && Lt(key, CpIncr(key))
    ensures GetWithProof(t, key).0 == if key in Content(t) then Some(Content(t)[key]) else None
  {
    var (path, left) := PathToLeaf(t, key);
    NearestLeaf(t, key, path, left);
    if !Walks(left.key, key) {
      GetWithProofReads(t, key);
    } else {
      WalkAnswer(t, Some(key), Some(CpIncr(key)), 2, path, left);
    }
  }

  lemma BelowAll(m: map<Key, Value>, key: Key, left: Key)
    requires left in m && key != left && (Lt(key, left) ==> forall x :: x in m ==> Le(left, x))
    ensures !Lt(left, key) <==> forall x :: x in m ==> Lt(key, x)
  {
    LtTotalOrder();
  }

  /** A key lies below all others if it lies below the leaf that its path leads to. */
  lemma BelowLeaf(t: Node, key: Key, path: Path, left: Node)
    requires Wf(t) && (path, left) == PathToLeaf(t, key) && left.Leaf? && key != left.key
    ensures Lt(key, left.key) ==> IsLeftmost(path)
    ensures !Lt(left.key, key) <==> forall x :: x in Content(t) ==> Lt(key, x)
  {
    NearestLeaf(t, key, path, left);
    LeafNearest(t, key);
    ContentBounds(t);
    if Lt(key, left.key) { AboveIsFirst(t, key, path, left); }
    BelowAll(Content(t), key, left.key);
  }

  /** If there are leaves behind it, the first leaf alone shows a key absent only if that lies below all keys. */
  lemma FirstLeafAlone(t: Node, key: Key, path: Path, left: Node)
    requires Wf(t) && (path, left) == PathToLeaf(t, key) && left.Leaf? && key !in Content(t) && left.key != key
    requires var proof := Proof(path, [], [LeafOf(left)]); WellFormedProof(proof) && Proves(proof, t, false)
    ensures VerifyAbsence(Proof(path, [], [LeafOf(left)]), false, key) <==> forall x :: x in Content(t) ==> Lt(key, x)
  {
    var proof := Proof(path, [], [LeafOf(left)]);
    BelowLeaf(t, key, path, left);
    VerifyAbsenceExact(proof, t, false, key);
    SpansNext(proof, false, key, 1);
  }

  /** A key that the increment of `left` passes over lies behind the path. */
  lemma PassedBehind(t: Node, key: Key, path: Path, left: Node)
    requires Wf(t) && (path, left) == PathToLeaf(t, key) && left.Leaf?
    requires !NextKey(t, left.key, CpIncr(left.key)) && forall x :: x in Content(t) ==> Lt(x, CpIncr(left.key))
    ensures After(t, path) != []
  {
    var x :| x in Content(t) && !(Le(CpIncr(left.key), x) <==> Lt(left.key, x));
    if Le(CpIncr(left.key), x) {
      LeLtTransitive(CpIncr(left.key), x, CpIncr(left.key));
      LtIrreflexive(CpIncr(left.key));
    }
    HasBehind(t, key, path, left, x);
  }

  lemma PassedOver(t: Node, key: Key, path: Path, left: Node)
    requires Wf(t) && (path, left) == PathToLeaf(t, key) && left.Leaf? && key !in Content(t) && left.key != key
    requires Lt(key, CpIncr(key)) && !KeySteps(t, key) && Provable(t, Some(key), Some(CpIncr(key)), 2)
    ensures var proof := GetWithProof(t, key).1;
            proof.leaves != [] && Proves(proof, t, false) &&
            (VerifyAbsence(proof, false, key) <==> forall x :: x in Content(t) ==> Lt(key, x))
  {
    NothingAhead(t, left.key);
    WalkAnswer(t, Some(key), Some(CpIncr(key)), 2, path, left);
    PassedBehind(t, key, path, left);
    OneLeafVerifies(t, key, path, left);
    FirstLeafAlone(t, key, path, left);
  }

  /** The exact condition under which `GetWithProof` proves an absent key absent, in every well-formed tree. */
  lemma AbsenceProvedIff(t: Node, key: Key)
    requires Wf(t) && Lt(key, CpIncr(key)) && key !in Content(t)
    ensures var proof := GetWithProof(t, key).1;
            proof.leaves != [] &&
            ((exists treeEnd :: Proves(proof, t, treeEnd) && VerifyAbsence(proof, treeEnd, key)) <==>
             if KeySteps(t, key) then !CutOff(Content(t), key)
             else Provable(t, Some(key), Some(CpIncr(key)), 2) && forall x :: x in Content(t) ==> Lt(key, x))
  {
    var (path, left) := PathToLeaf(t, key);
    var proof := GetWithProof(t, key).1;
    NearestLeaf(t, key, path, left);
    if KeySteps(t, key) {
      GetWithProofExact(t, key);
    } else {
      WalkAnswer(t, Some(key), Some(CpIncr(key)), 2, path, left);
      RangeVerifiesIff(t, Some(key), Some(CpIncr(key)), 2);
      if Provable(t, Some(key), Some(CpIncr(key)), 2) { PassedOver(t, key, path, left); }
    }
  }

  // ---------- limits ----------

  /** The builder that a limit of `n` leaves makes of the unlimited one `u`: as many leaves and paths, and the pairs of
      all but the last of those leaves. */
  predicate Limited(c: Builder, u: Builder, b: Builder, n: nat)
    requires |b.leaves| < n
  {
    if |u.leaves| < n then c.leaves == u.leaves && c.paths == u.paths && c.pairs == u.pairs
    else
      var more := n - |b.leaves|;
      |u.paths| >= |b.paths| + more && |u.pairs| >= |b.pairs| + more - 1 &&
      c.leaves == u.leaves[..n] && c.paths == u.paths[..|b.paths| + more] && c.pairs == u.pairs[..|b.pairs| + more - 1]
  }

  /** One node: the limit makes a difference only at the leaf that fills it. */
  lemma VisitLimited(n: Node, r: Request, b: Builder)
    requires |b.leaves| < r.limit
    ensures var (c, stop), (u, halt) := Visit(r, b, n), Visit(r.(limit := 0), b, n);
            if n.Leaf? && |b.leaves| + 1 == r.limit then stop && c.leaves == u.leaves && c.paths == u.paths && c.pairs == b.pairs
            else c == u && stop == halt
    ensures var (u, halt) := Visit(r.(limit := 0), b, n);
            if n.Leaf? then |u.leaves| == |b.leaves| + 1 && |u.paths| == |b.paths| + 1 && b.pairs <= u.pairs &&
                            (!halt ==> |u.pairs| == |b.pairs| + 1)
            else u.leaves == b.leaves && u.paths == b.paths && u.pairs == b.pairs
  {
  }

  /** A walk with a limit goes as the unlimited one until the limit is reached. */
  lemma {:induction false} FeedLimited(ns: seq<Node>, r: Request, b: Builder)
    requires |b.leaves| < r.limit
    ensures Limited(Feed(ns, b, Collect(r)).0, Feed(ns, b, Collect(r.(limit := 0))).0, b, r.limit)
  {
    if ns != [] {
      var u := r.(limit := 0);
      var (b1, stop) := Visit(u, b, ns[0]);
      VisitLimited(ns[0], r, b);
      if ns[0].Leaf? && |b.leaves| + 1 == r.limit {
        FeedExtends(ns[1..], u, b1);
      } else if !stop {
        FeedLimited(ns[1..], r, b1);
      }
    }
  }

  /** The part `a` of an unlimited answer `u` that has `limit` leaves, or all of it; `first` pairs belong to its first
      leaf, and none to its last one unless that is the first. */
  predicate PartOf(a: Answer, u: Answer, limit: nat, first: nat)
    requires limit > 0
  {
    if |u.proof.leaves| < limit then a == u
    else
      var pairs := if limit == 1 then first else first + limit - 2;
      |u.proof.innerNodes| >= limit - 1 && |u.pairs| >= pairs &&
      a == Answer(Proof(u.proof.leftPath, u.proof.innerNodes[..limit - 1], u.proof.leaves[..limit]), u.pairs[..pairs])
  }

  lemma LimitedWalk(path: Path, ns: seq<Node>, r: Request, b: Builder)
    requires r.limit > 0 && |b.leaves| == 1 && b.paths == []
    ensures var c := if r.limit == 1 then b else Feed(ns, b, Collect(r)).0;
            var u := Feed(ns, b, Collect(r.(limit := 0))).0;
            PartOf(Answer(Proof(path, c.paths, c.leaves), c.pairs), Answer(Proof(path, u.paths, u.leaves), u.pairs), r.limit, |b.pairs|)
  {
    if r.limit == 1 {
      FeedExtends(ns, r.(limit := 0), b);
    } else {
      FeedLimited(ns, r, b);
    }
  }

  /** Limited requests are answered with a part of the unlimited answer, in any tree. */
  lemma RangeLimited(t: Node, start: Option<Key>, end: Option<Key>, limit: nat)
    requires (start.Some? && end.Some? ==> Lt(start.value, end.value)) && limit > 0
    ensures var left := PathToLeaf(t, StartKey(start)).1.key;
            var first := if (start.None? || Le(start.value, left)) && (end.None? || Lt(left, end.value)) then 1 else 0;
            PartOf(GetRangeProof(t, start, end, limit), GetRangeProof(t, start, end, 0), limit, first)
  {
    var (path, left) := PathToLeaf(t, StartKey(start));
    PathToLeafIsLeaf(t, StartKey(start));
    if !Stops(end, 0, left.key) {
      var b, r, w := FirstLeaf(start, end, path, left), Request(path, end, limit), WalkFrom(CpIncr(left.key));
      TraverseFeeds(t, w, b, Collect(r));
      TraverseFeeds(t, w, b, Collect(r.(limit := 0)));
      LimitedWalk(path, Visits(t, w), r, b);
    }
  }
}
