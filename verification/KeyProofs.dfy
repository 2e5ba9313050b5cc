/** `GetWithProof`: the value of a single key, with a proof that it is there or that it is not. */
module KeyProofs {
  import opened Bytes
  import opened Tree
  import opened TreeReads
  import opened RangeProof
  import opened ProofPath
  import opened ProofSoundness
  import opened ProofVerify
  import opened ProofCompleteness
  import opened RangeProver
  import opened ProverWalk
  import opened RangeComplete
  import opened ByteSuccessor

  /** The leaf that the path of a key leads to is a pair of the map, and the key's own if that is present. */
  lemma NearestLeaf(t: Node, key: Key, path: Path, left: Node)
    requires Wf(t) && (path, left) == PathToLeaf(t, key)
    ensures left.Leaf? && left.key in Content(t) && Content(t)[left.key] == left.value
    ensures key in Content(t) <==> left.key == key
  {
    PathToLeafFollows(t, key);
    AfterHolds(t, path);
    LeavesContent(t, left.key);
    if key in Content(t) {
      LeafNearest(t, key);
      ContentBounds(t);
      LtTotalOrder();
    }
  }

  /** Only a key below all others leads to a leaf above it, and then the path is the leftmost one. */
  lemma AboveIsFirst(t: Node, key: Key, path: Path, left: Node)
    requires Wf(t) && (path, left) == PathToLeaf(t, key) && Lt(key, left.key)
    ensures IsLeftmost(path)
  {
    PathToLeafFollows(t, key);
    AfterHolds(t, path);
    LeafNearest(t, key);
    FirstIsLeast(t, Before(t, path));
    LeftmostIffStart(t, path);
  }

  lemma FirstIsLeast(t: Node, i: nat)
    requires Wf(t) && i < |Leaves(t)| && Leaves(t)[i].key == MinKey(t)
    ensures i == 0
  {
    LeavesSorted(t);
    LeavesContent(t, Leaves(t)[0].key);
    ContentBounds(t);
    LtTotalOrder();
  }

  /** The leaves behind the path of a key lie above the key. */
  lemma BehindKey(t: Node, key: Key, path: Path, i: nat)
    requires Wf(t) && path == PathToLeaf(t, key).0 && i < |After(t, path)|
    ensures Lt(key, After(t, path)[i].leaf.key)
  {
    PathToLeafFollows(t, key);
    LeafNearest(t, key);
    AfterAbove(t, path, i);
  }

  /** `getRangeProof` walks on from leaf `left` when it is asked for `key` alone. */
  predicate Walks(left: Key, key: Key) {
    !Stops(Some(CpIncr(key)), 2, left)
  }

  /** `cpIncr` steps on from the leaf that the key's path leads to, if the walk takes place. */
  ghost predicate KeySteps(t: Node, key: Key) {
    StepsOn(t, Some(key), Some(CpIncr(key)), 2)
  }

  /** The proof for one key: the leaf its path leads to, and the next leaf if the walk takes place. */
  function KeyProof(t: Node, key: Key): Proof {
    var (path, left) := PathToLeaf(t, key);
    PathToLeafIsLeaf(t, key);
    var q := if Walks(left.key, key) && After(t, path) != [] then After(t, path)[..1] else [];
    Proof(path, Paths(q), [LeafOf(left)] + SegLeaves(q))
  }

  /** The range that `GetWithProof` asks for starts with the leaf that the key's path leads to. */
  lemma KeyAnswer(t: Node, key: Key, path: Path, left: Node)
    requires Wf(t) && KeySteps(t, key) && (path, left) == PathToLeaf(t, key) && left.Leaf? && Lt(key, CpIncr(key))
    ensures GetRangeProof(t, Some(key), Some(CpIncr(key)), 2) ==
            Answer(KeyProof(t, key), if Le(key, left.key) && Lt(left.key, CpIncr(key)) then [(left.key, left.value)] else [])
  {
    var start, end := Some(key), Some(CpIncr(key));
    var c := Built(t, start, end, 2, path, left);
    if Walks(left.key, key) {
      OneSegment(Request(path, end, 2), Begun(start, end, path, left), After(t, path));
    }
  }

  /** With limit 2 the walk takes one segment, and no pair with it. */
  lemma OneSegment(r: Request, b: Builder, q: seq<Seg>)
    requires r.limit == 2 && |b.leaves| == 1
    ensures var c := TakeSegs(r, b, q).0;
            var first := if q == [] then [] else q[..1];
            c.pairs == b.pairs && c.paths == b.paths + Paths(first) && c.leaves == b.leaves + SegLeaves(first)
  {
    if q != [] { assert Paths(q[..1]) == [q[0].path] && SegLeaves(q[..1]) == [q[0].leaf]; }
  }

  /** `GetWithProof` reads the map, and its answer carries the proof for that key. */
  lemma GetWithProofReads(t: Node, key: Key)
    requires Wf(t) && KeySteps(t, key) && Lt(key, CpIncr(key))
    ensures GetWithProof(t, key) == (if key in Content(t) then Some(Content(t)[key]) else None, KeyProof(t, key))
  {
    var (path, left) := PathToLeaf(t, key);
    NearestLeaf(t, key, path, left);
    KeyAnswer(t, key, path, left);
  }

  /** The proof for a key recomputes the root hash, and shows the key's value if it is present. */
  lemma KeyProofVerifies(t: Node, key: Key) returns (treeEnd: bool)
    requires Wf(t)
    ensures var proof := KeyProof(t, key);
            WellFormedProof(proof) && proof.leaves != [] && Proves(proof, t, treeEnd) &&
            (key in Content(t) ==> VerifyItem(proof.leaves, key, Content(t)[key]))
    ensures var (path, left) := PathToLeaf(t, key); treeEnd <==> |KeyProof(t, key).leaves| == 1 + |After(t, path)|
  {
    var (path, left) := PathToLeaf(t, key);
    var proof := KeyProof(t, key);
    PathToLeafFollows(t, key);
    NearestLeaf(t, key, path, left);
    var m := if Walks(left.key, key) && After(t, path) != [] then 1 else 0;
    PrefixVerifies(t, path, m);
    assert After(t, path)[..0] == [];
    treeEnd := m == |After(t, path)|;
    assert Proves(proof, t, treeEnd);
    if key in Content(t) {
      assert proof.leaves[0].key == key;
      VerifyItemExact(proof, t, treeEnd, key, Content(t)[key]);
    }
  }

  // ---------- absence ----------

  /** `k` is the greatest key of the map below `key`. */
  ghost predicate Nearest(m: map<Key, Value>, key: Key, k: Key) {
    k in m && Lt(k, key) && forall y :: y in m && Lt(y, key) ==> Le(y, k)
  }

  /** The walk ends too early to show that `key` is absent: a key lies above it, and the increment of the greatest key
      below it is not below its own. */
  ghost predicate CutOff(m: map<Key, Value>, key: Key) {
    (exists k :: Nearest(m, key, k) && !Walks(k, key)) && exists x :: x in m && Lt(key, x)
  }

  lemma NearestIs(m: map<Key, Value>, key: Key, left: Key, k: Key)
    requires left in m && key !in m && forall x :: x in m && Lt(left, x) ==> Lt(key, x)
    requires Lt(key, left) ==> forall x :: x in m ==> Le(left, x)
    ensures Nearest(m, key, k) <==> k == left && Lt(left, key)
  {
    LtTotalOrder();
  }

  /** The leaf that the path leads to is the greatest below the key, if there is one. */
  lemma NearestIsLeaf(t: Node, key: Key, path: Path, left: Node, k: Key)
    requires Wf(t) && (path, left) == PathToLeaf(t, key) && left.Leaf? && key !in Content(t)
    ensures Nearest(Content(t), key, k) <==> k == left.key && Lt(left.key, key)
  {
    NearestLeaf(t, key, path, left);
    LeafNearest(t, key);
    ContentBounds(t);
    NearestIs(Content(t), key, left.key, k);
  }

  /** A greater key of the map lies behind the path. */
  lemma HasBehind(t: Node, key: Key, path: Path, left: Node, x: Key)
    requires Wf(t) && (path, left) == PathToLeaf(t, key) && x in Content(t) && Lt(left.key, x)
    ensures After(t, path) != []
  {
    PathToLeafFollows(t, key);
    AfterHolds(t, path);
    LeavesSorted(t);
    LeavesContent(t, x);
    var i :| 0 <= i < |Leaves(t)| && Leaves(t)[i].key == x;
    LtIrreflexive(x);
    if i < Before(t, path) {
      LtTransitive(x, left.key, x);
    }
  }

  lemma CutOffAtLeaf(t: Node, key: Key, path: Path, left: Node)
    requires Wf(t) && (path, left) == PathToLeaf(t, key) && left.Leaf? && key !in Content(t)
    ensures CutOff(Content(t), key) <==> Lt(left.key, key) && After(t, path) != [] && !Walks(left.key, key)
  {
    forall k ensures Nearest(Content(t), key, k) <==> k == left.key && Lt(left.key, key) { NearestIsLeaf(t, key, path, left, k); }
    if CutOff(Content(t), key) {
      var x :| x in Content(t) && Lt(key, x);
      LtTransitive(left.key, key, x);
      HasBehind(t, key, path, left, x);
    }
    if Lt(left.key, key) && After(t, path) != [] {
      PathToLeafFollows(t, key);
      AfterAbove(t, path, 0);
      BehindKey(t, key, path, 0);
    }
  }

  /** A leaf next to the key, and perhaps the one behind it, span the key if nothing is left out. */
  lemma SpansNext(proof: Proof, treeEnd: bool, key: Key, behind: nat)
    requires 1 <= |proof.leaves| <= 2 && proof.leaves[0].key != key
    requires Lt(key, proof.leaves[0].key) ==> IsLeftmost(proof.leftPath)
    requires |proof.leaves| == 2 ==> Lt(key, proof.leaves[1].key)
    requires treeEnd <==> |proof.leaves| == 1 + behind
    ensures Spans(proof, treeEnd, key) <==> !Lt(proof.leaves[0].key, key) || |proof.leaves| == 2 || behind == 0
  {
    LtTotalOrder();
  }

  /** The proof for an absent key shows its absence unless the walk is cut off. */
  lemma KeyAbsent(t: Node, key: Key, treeEnd: bool)
    requires Wf(t) && key !in Content(t)
    requires var proof := KeyProof(t, key); WellFormedProof(proof) && Proves(proof, t, treeEnd)
    requires treeEnd <==> |KeyProof(t, key).leaves| == 1 + |After(t, PathToLeaf(t, key).0)|
    ensures VerifyAbsence(KeyProof(t, key), treeEnd, key) <==> !CutOff(Content(t), key)
  {
    var (path, left) := PathToLeaf(t, key);
    var proof := KeyProof(t, key);
    NearestLeaf(t, key, path, left);
    CutOffAtLeaf(t, key, path, left);
    VerifyAbsenceExact(proof, t, treeEnd, key);
    if After(t, path) != [] {
      BehindKey(t, key, path, 0);
      assert SegLeaves(After(t, path)[..1]) == [After(t, path)[0].leaf];
    }
    if Lt(key, left.key) { AboveIsFirst(t, key, path, left); }
    SpansNext(proof, treeEnd, key, |After(t, path)|);
  }

  /** Completeness of `GetWithProof`, with the exact condition for an absent key: the value is the map's, the proof
      verifies against the root hash and shows a present key with its value, and an absent key to be absent if and only
      if the walk is not cut off. */
  lemma GetWithProofExact(t: Node, key: Key)
    requires Wf(t) && KeySteps(t, key) && Lt(key, CpIncr(key))
    ensures var (value, proof) := GetWithProof(t, key);
            WellFormedProof(proof) && proof.leaves != [] && (value.Some? <==> key in Content(t)) &&
            (value.Some? ==> value.value == Content(t)[key] && VerifyItem(proof.leaves, key, value.value)) &&
            exists treeEnd :: Proves(proof, t, treeEnd) &&
              (value.None? ==> (VerifyAbsence(proof, treeEnd, key) <==> !CutOff(Content(t), key)))
  {
    GetWithProofReads(t, key);
    var treeEnd := KeyProofVerifies(t, key);
    if key !in Content(t) { KeyAbsent(t, key, treeEnd); }
  }

  /** Increments of keys of one width are ordered like the keys. */
  lemma IncrOrder(a: Key, b: Key)
    requires |a| == |b| && !AllFF(a) && !AllFF(b)
    ensures Lt(a, CpIncr(a))
    ensures Le(CpIncr(b), CpIncr(a)) <==> Le(b, a)
  {
    IncrIsNext(a, a);
    IncrIsNext(b, a);
    IncrIsNext(a, b);
    IncrIsNext(a, CpIncr(a));
    IncrIsNext(b, CpIncr(a));
    LtTotalOrder();
  }

  /** So the walk is never cut off for keys of one width none of which is all 0xFF, and every answer proves itself. */
  lemma GetWithProofComplete(t: Node, key: Key, width: nat)
    requires Wf(t) && FixedWidth(t, width) && |key| == width && !AllFF(key)
    ensures Lt(key, CpIncr(key))
    ensures var (value, proof) := GetWithProof(t, key);
            WellFormedProof(proof) && proof.leaves != [] && (value.Some? <==> key in Content(t)) &&
            (value.Some? ==> value.value == Content(t)[key] && VerifyItem(proof.leaves, key, value.value)) &&
            exists treeEnd :: Proves(proof, t, treeEnd) && (value.None? ==> VerifyAbsence(proof, treeEnd, key))
  {
    NeverCutOff(t, key, width);
    GetWithProofExact(t, key);
  }

  lemma NeverCutOff(t: Node, key: Key, width: nat)
    requires Wf(t) && FixedWidth(t, width) && |key| == width && !AllFF(key)
    ensures Lt(key, CpIncr(key)) && KeySteps(t, key) && !CutOff(Content(t), key)
  {
    FixedWidthSteppable(t, width);
    SteppableStepsOn(t, Some(key), Some(CpIncr(key)), 2);
    IncrOrder(key, key);
    forall k | k in Content(t) && Lt(k, key) ensures Walks(k, key) {
      IncrOrder(k, key);
      LtTotalOrder();
    }
  }

  /** With keys of several widths it can be: below `[1, 5]` lies `[1]`, whose increment `[2]` is above `[1, 6]`. */
  lemma AbsenceCutOff() returns (t: Node, key: Key, treeEnd: bool)
    ensures t == Inner([3], 1, 2, 1, Leaf([1], [], 1, true), Leaf([3], [], 1, true), true) && key == [1, 5]
    ensures Wf(t) && Steppable(t) && Lt(key, CpIncr(key)) && key !in Content(t)
    ensures var proof := GetWithProof(t, key).1;
            proof.leaves != [] && Proves(proof, t, treeEnd) && !VerifyAbsence(proof, treeEnd, key)
  {
    var a, b;
    a, b, key := Increments();
    t, treeEnd := CutOffBetween(a, b, key);
  }

  /** A key between two others whose walk is cut off. */
  ghost predicate Bracket(a: Key, b: Key, key: Key) {
    Lt(a, key) && Lt(key, b) && Lt(a, CpIncr(a)) && Le(CpIncr(a), b) && Lt(b, CpIncr(b)) && Lt(key, CpIncr(key)) && !Walks(a, key)
  }

  lemma Increments() returns (a: Key, b: Key, key: Key)
    ensures a == [1] && b == [3] && key == [1, 5] && Bracket(a, b, key)
  {
    a, b, key := [1], [3], [1, 5];
    IncrAt(a, 0);
    IncrAt(b, 0);
    IncrAt(key, 1);
    assert CpIncr(a) == [2] && CpIncr(b) == [4] && CpIncr(key) == [1, 6];
  }

  lemma CutOffBetween(a: Key, b: Key, key: Key) returns (t: Node, treeEnd: bool)
    requires Bracket(a, b, key)
    ensures t == Inner(b, 1, 2, 1, Leaf(a, [], 1, true), Leaf(b, [], 1, true), true)
    ensures Wf(t) && Steppable(t) && key !in Content(t)
    ensures var proof := GetWithProof(t, key).1;
            proof.leaves != [] && Proves(proof, t, treeEnd) && !VerifyAbsence(proof, treeEnd, key)
  {
    t := CutOffTree(a, b, key);
    SteppableStepsOn(t, Some(key), Some(CpIncr(key)), 2);
    GetWithProofExact(t, key);
    treeEnd :| Proves(GetWithProof(t, key).1, t, treeEnd);
  }

  lemma CutOffTree(a: Key, b: Key, key: Key) returns (t: Node)
    requires Bracket(a, b, key)
    ensures t == Inner(b, 1, 2, 1, Leaf(a, [], 1, true), Leaf(b, [], 1, true), true)
    ensures Wf(t) && Steppable(t) && key !in Content(t) && CutOff(Content(t), key)
  {
    t := Inner(b, 1, 2, 1, Leaf(a, [], 1, true), Leaf(b, [], 1, true), true);
    LtTransitive(a, key, b);
    TwoKeys(t, a, b);
    TwoNext(t, a, b, CpIncr(a), CpIncr(b));
    TwoSteps(t, a, b);
    TwoCutOff(Content(t), a, b, key);
  }

  lemma TwoKeys(t: Node, a: Key, b: Key)
    requires t == Inner(b, 1, 2, 1, Leaf(a, [], 1, true), Leaf(b, [], 1, true), true) && Lt(a, b)
    ensures Wf(t) && Content(t) == map[a := [], b := []]
  {
    LtIrreflexive(b);
  }

  lemma TwoSteps(t: Node, a: Key, b: Key)
    requires Content(t).Keys == {a, b} && NextKey(t, a, CpIncr(a)) && NextKey(t, b, CpIncr(b))
    ensures Steppable(t)
  {
  }

  lemma TwoNext(t: Node, a: Key, b: Key, next: Key, last: Key)
    requires Content(t).Keys == {a, b} && Lt(a, b) && Lt(a, next) && Le(next, b) && Lt(b, last)
    ensures NextKey(t, a, next) && NextKey(t, b, last)
  {
    LtTotalOrder();
  }

  lemma TwoCutOff(m: map<Key, Value>, a: Key, b: Key, key: Key)
    requires m.Keys == {a, b} && Lt(a, key) && Lt(key, b) && !Walks(a, key)
    ensures key !in m && CutOff(m, key)
  {
    LtTotalOrder();
    assert Nearest(m, key, a);
  }
}
