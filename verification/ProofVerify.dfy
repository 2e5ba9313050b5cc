/** `Verify`, `VerifyItem` and `VerifyAbsence`, and the truth of what they conclude. */
module ProofVerify {
  import opened Bytes
  import opened Tree
  import opened TreeReads
  import opened RangeProof
  import opened ProofPath
  import opened ProofSoundness

  /** The proof recomputes the root hash of tree `t`. */
  predicate Proves(proof: Proof, t: Node, treeEnd: bool) {
    ComputeRootHash(proof) == Some((Hash(t), treeEnd))
  }

  /** Soundness: the leaves of a verified proof are a contiguous run of the tree's leaves, starting where the left
      path leads, and `treeEnd` tells whether the run reaches the end of the tree. */
  lemma VerifySound(proof: Proof, t: Node, treeEnd: bool)
    requires Wf(t) && WellFormedProof(proof) && Proves(proof, t, treeEnd)
    ensures Follows(t, proof.leftPath) && proof.leaves != []
    ensures var i, all := Before(t, proof.leftPath), ProofLeaves(t);
            i + |proof.leaves| <= |all| && proof.leaves == all[i..i + |proof.leaves|] &&
            (treeEnd <==> i + |proof.leaves| == |all|)
  {
    ComputeSound(t, proof.leftPath, true, proof.leaves, proof.innerNodes);
  }

  /** Proof leaves are tree leaves. */
  lemma {:induction false} ProofLeavesAt(n: Node)
    ensures |ProofLeaves(n)| == |Leaves(n)|
    ensures forall i :: 0 <= i < |Leaves(n)| ==>
              ProofLeaves(n)[i] == ProofLeaf(Leaves(n)[i].key, ValueSum(Leaves(n)[i].value), Leaves(n)[i].version)
  {
    if n.Inner? {
      ProofLeavesAt(n.left);
      ProofLeavesAt(n.right);
    }
  }

  /** Strictly ascending keys. */
  predicate Ascending(leaves: seq<ProofLeaf>) {
    forall i, j :: 0 <= i < j < |leaves| ==> Lt(leaves[i].key, leaves[j].key)
  }

  /** The leaves of a verified proof ascend, and each is a pair of the map. */
  lemma VerifiedLeaves(proof: Proof, t: Node, treeEnd: bool)
    requires Wf(t) && WellFormedProof(proof) && Proves(proof, t, treeEnd)
    ensures Ascending(proof.leaves)
    ensures forall i :: 0 <= i < |proof.leaves| ==>
              proof.leaves[i].key in Content(t) && proof.leaves[i].valueHash == ValueSum(Content(t)[proof.leaves[i].key])
  {
    VerifySound(proof, t, treeEnd);
    ProofLeavesAt(t);
    LeavesSorted(t);
    var b := Before(t, proof.leftPath);
    forall i | 0 <= i < |proof.leaves|
      ensures proof.leaves[i].key in Content(t) && proof.leaves[i].valueHash == ValueSum(Content(t)[proof.leaves[i].key])
    {
      assert proof.leaves[i] == ProofLeaves(t)[b + i];
      LeavesContent(t, Leaves(t)[b + i].key);
    }
  }

  // ---------- VerifyItem ----------

  /** `sort.Search` over leaf keys: the first position in `[i, j)` whose key is not below `key`. */
  function Search(leaves: seq<ProofLeaf>, key: Key, i: nat, j: nat): (r: nat)
    requires i <= j <= |leaves|
    ensures i <= r <= j
    decreases j - i
  {
    if i == j then i
    else
      var h := (i + j) / 2;
      if !Le(key, leaves[h].key) then Search(leaves, key, h + 1, j) else Search(leaves, key, i, h)
  }

  lemma {:induction false} SearchFirst(leaves: seq<ProofLeaf>, key: Key, i: nat, j: nat, k: nat)
    requires i <= j <= |leaves| && Ascending(leaves) && k < |leaves| && leaves[k].key == key && i <= k <= j
    ensures Search(leaves, key, i, j) == k
    decreases j - i
  {
    if i != j {
      var h := (i + j) / 2;
      LtTotalOrder();
      if !Le(key, leaves[h].key) {
        SearchFirst(leaves, key, h + 1, j, k);
      } else {
        SearchFirst(leaves, key, i, h, k);
      }
    }
  }

  predicate VerifyItem(leaves: seq<ProofLeaf>, key: Key, value: Value) {
    var i := Search(leaves, key, 0, |leaves|);
    i < |leaves| && leaves[i].key == key && leaves[i].valueHash == ValueSum(value)
  }

  /** `VerifyItem` accepts exactly the pairs of the map whose key is in the proof. */
  lemma VerifyItemExact(proof: Proof, t: Node, treeEnd: bool, key: Key, value: Value)
    requires Wf(t) && WellFormedProof(proof) && Proves(proof, t, treeEnd)
    ensures VerifyItem(proof.leaves, key, value) <==>
            (exists i :: 0 <= i < |proof.leaves| && proof.leaves[i].key == key) && key in Content(t) && Content(t)[key] == value
  {
    VerifiedLeaves(proof, t, treeEnd);
    if i :| 0 <= i < |proof.leaves| && proof.leaves[i].key == key {
      SearchFirst(proof.leaves, key, 0, |proof.leaves|, i);
    }
  }

  // ---------- VerifyAbsence ----------

  /** The scan of `VerifyAbsence` from leaf `i` on: `Some(true)` if a greater key comes before any equal one. */
  function Scan(leaves: seq<ProofLeaf>, key: Key, i: nat): Option<bool>
    decreases |leaves| - i
  {
    if i >= |leaves| then None
    else if Lt(key, leaves[i].key) then Some(true)
    else if key == leaves[i].key then Some(false)
    else Scan(leaves, key, i + 1)
  }

  predicate VerifyAbsence(proof: Proof, treeEnd: bool, key: Key)
    requires proof.leaves != []
  {
    if Lt(key, proof.leaves[0].key) then IsLeftmost(proof.leftPath)
    else if key == proof.leaves[0].key then false
    else if proof.leftPath == [] || IsRightmost(proof.leftPath) then true
    else
      var scan := Scan(proof.leaves, key, 1);
      if scan.Some? then scan.value else treeEnd
  }

  lemma {:induction false} ScanMeaning(leaves: seq<ProofLeaf>, key: Key, i: nat)
    requires Ascending(leaves) && 1 <= i <= |leaves| && Lt(leaves[i - 1].key, key)
    ensures Scan(leaves, key, i).None? ==> Lt(leaves[|leaves| - 1].key, key)
    ensures Scan(leaves, key, i) == Some(true) ==>
              exists j :: i <= j < |leaves| && Lt(leaves[j - 1].key, key) && Lt(key, leaves[j].key)
    ensures Scan(leaves, key, i) == Some(false) ==> exists j :: i <= j < |leaves| && leaves[j].key == key
    decreases |leaves| - i
  {
    if i < |leaves| && !Lt(key, leaves[i].key) && key != leaves[i].key {
      LtTrichotomy(key, leaves[i].key);
      ScanMeaning(leaves, key, i + 1);
    }
  }

  /** A key strictly between two neighbouring leaves, before the first or after the last is not in the tree. */
  lemma Gap(t: Node, key: Key, i: int)
    requires Wf(t) && -1 <= i < |Leaves(t)|
    requires i >= 0 ==> Lt(Leaves(t)[i].key, key)
    requires i + 1 < |Leaves(t)| ==> Lt(key, Leaves(t)[i + 1].key)
    ensures key !in Content(t)
  {
    LeavesContent(t, key);
    LeavesSorted(t);
    if key in Content(t) {
      var k :| 0 <= k < |Leaves(t)| && Leaves(t)[k].key == key;
      NotInGap(Leaves(t), key, i, k);
    }
  }

  lemma NotInGap(ns: seq<Node>, key: Key, i: int, k: nat)
    requires -1 <= i < |ns| && k < |ns| && forall j, l :: 0 <= j < l < |ns| ==> Lt(ns[j].key, ns[l].key)
    requires (i >= 0 ==> Lt(ns[i].key, key)) && (i + 1 < |ns| ==> Lt(key, ns[i + 1].key))
    ensures ns[k].key != key
  {
    LtTotalOrder();
  }

  /** The proof reaches to both sides of the key: there is nothing before it that the proof does not show, nor behind it. */
  predicate Spans(proof: Proof, treeEnd: bool, key: Key)
    requires proof.leaves != []
  {
    (Lt(proof.leaves[0].key, key) || IsLeftmost(proof.leftPath)) &&
    (Lt(key, proof.leaves[|proof.leaves| - 1].key) || treeEnd)
  }

  /** `VerifyAbsence` accepts a key if and only if it is not in the tree and the proof spans it. */
  lemma VerifyAbsenceExact(proof: Proof, t: Node, treeEnd: bool, key: Key)
    requires Wf(t) && WellFormedProof(proof) && Proves(proof, t, treeEnd) && proof.leaves != []
    ensures VerifyAbsence(proof, treeEnd, key) <==> key !in Content(t) && Spans(proof, treeEnd, key)
  {
    VerifiedLeaves(proof, t, treeEnd);
    LtTrichotomy(key, proof.leaves[0].key);
    LtIrreflexive(key);
    if Lt(key, proof.leaves[0].key) {
      BeforeFirst(proof, t, treeEnd, key);
    } else if Lt(proof.leaves[0].key, key) {
      BehindFirst(proof, t, treeEnd, key);
    }
  }

  /** The place of a proof's leaves among the tree's. */
  lemma LeavesInTree(proof: Proof, t: Node, treeEnd: bool) returns (b: nat)
    requires Wf(t) && WellFormedProof(proof) && Proves(proof, t, treeEnd)
    ensures Follows(t, proof.leftPath) && b == Before(t, proof.leftPath) && b + |proof.leaves| <= |Leaves(t)|
    ensures forall j :: 0 <= j < |proof.leaves| ==> proof.leaves[j].key == Leaves(t)[b + j].key
    ensures treeEnd <==> b + |proof.leaves| == |Leaves(t)|
    ensures IsLeftmost(proof.leftPath) <==> b == 0
  {
    b := Before(t, proof.leftPath);
    VerifySound(proof, t, treeEnd);
    ProofLeavesAt(t);
    LeftmostIffStart(t, proof.leftPath);
    assert forall j :: 0 <= j < |proof.leaves| ==> proof.leaves[j] == ProofLeaves(t)[b + j];
  }

  lemma BeforeFirst(proof: Proof, t: Node, treeEnd: bool, key: Key)
    requires Wf(t) && WellFormedProof(proof) && Proves(proof, t, treeEnd) && proof.leaves != []
    requires Lt(key, proof.leaves[0].key) && Ascending(proof.leaves)
    ensures IsLeftmost(proof.leftPath) <==> key !in Content(t) && Spans(proof, treeEnd, key)
  {
    var b := LeavesInTree(proof, t, treeEnd);
    if b == 0 { Gap(t, key, -1); }
    var last := proof.leaves[|proof.leaves| - 1].key;
    if |proof.leaves| > 1 { LtTransitive(key, proof.leaves[0].key, last); }
    if Lt(proof.leaves[0].key, key) {
      LtTransitive(key, proof.leaves[0].key, key);
      LtIrreflexive(key);
    }
  }

  lemma BehindFirst(proof: Proof, t: Node, treeEnd: bool, key: Key)
    requires Wf(t) && WellFormedProof(proof) && Proves(proof, t, treeEnd) && proof.leaves != []
    requires Lt(proof.leaves[0].key, key) && Ascending(proof.leaves) && !Lt(key, proof.leaves[0].key)
    requires forall i :: 0 <= i < |proof.leaves| ==> proof.leaves[i].key in Content(t)
    ensures VerifyAbsence(proof, treeEnd, key) <==> key !in Content(t) && Spans(proof, treeEnd, key)
  {
    LtIrreflexive(key);
    if proof.leftPath == [] || IsRightmost(proof.leftPath) {
      OnlyLeaf(proof, t, treeEnd, key);
    } else {
      ScanExact(proof, t, treeEnd, key);
    }
  }

  /** Behind the last leaf of the tree there is nothing. */
  lemma OnlyLeaf(proof: Proof, t: Node, treeEnd: bool, key: Key)
    requires Wf(t) && WellFormedProof(proof) && Proves(proof, t, treeEnd) && proof.leaves != []
    requires Lt(proof.leaves[0].key, key) && (proof.leftPath == [] || IsRightmost(proof.leftPath))
    ensures key !in Content(t) && treeEnd
  {
    var b := LeavesInTree(proof, t, treeEnd);
    LeafAtPath(proof, t, treeEnd);
    RightmostIffEnd(t, proof.leftPath);
    ProofLeavesAt(t);
    Gap(t, key, b);
  }

  lemma ScanExact(proof: Proof, t: Node, treeEnd: bool, key: Key)
    requires Wf(t) && WellFormedProof(proof) && Proves(proof, t, treeEnd) && proof.leaves != []
    requires Lt(proof.leaves[0].key, key) && Ascending(proof.leaves)
    requires forall i :: 0 <= i < |proof.leaves| ==> proof.leaves[i].key in Content(t)
    ensures var scan := Scan(proof.leaves, key, 1);
            (if scan.Some? then scan.value else treeEnd) <==> key !in Content(t) && Spans(proof, treeEnd, key)
  {
    ScanOutcome(proof.leaves, key);
    ScanAbsent(proof, t, treeEnd, key);
  }

  lemma ScanAbsent(proof: Proof, t: Node, treeEnd: bool, key: Key)
    requires Wf(t) && WellFormedProof(proof) && Proves(proof, t, treeEnd) && proof.leaves != []
    requires Lt(proof.leaves[0].key, key) && Ascending(proof.leaves)
    ensures var scan := Scan(proof.leaves, key, 1);
            scan == Some(true) || (scan.None? && treeEnd) ==> key !in Content(t)
  {
    ScanMeaning(proof.leaves, key, 1);
    var scan, n := Scan(proof.leaves, key, 1), |proof.leaves|;
    if scan == Some(true) {
      var j :| 1 <= j < n && Lt(proof.leaves[j - 1].key, key) && Lt(key, proof.leaves[j].key);
      BetweenLeaves(proof, t, treeEnd, key, j);
    } else if scan.None? && treeEnd {
      BetweenLeaves(proof, t, treeEnd, key, n);
    }
  }

  /** What a scan says about the last leaf. */
  lemma ScanOutcome(leaves: seq<ProofLeaf>, key: Key)
    requires Ascending(leaves) && leaves != [] && Lt(leaves[0].key, key)
    ensures var scan, last := Scan(leaves, key, 1), leaves[|leaves| - 1].key;
            (scan == Some(true) ==>
               Lt(key, last) && exists j :: 1 <= j < |leaves| && Lt(leaves[j - 1].key, key) && Lt(key, leaves[j].key)) &&
            (scan == Some(false) ==> exists j :: 1 <= j < |leaves| && leaves[j].key == key) &&
            (scan.None? ==> Lt(last, key) && !Lt(key, last))
  {
    ScanMeaning(leaves, key, 1);
    var scan, last := Scan(leaves, key, 1), leaves[|leaves| - 1].key;
    if scan == Some(true) {
      var j :| 1 <= j < |leaves| && Lt(leaves[j - 1].key, key) && Lt(key, leaves[j].key);
      if j < |leaves| - 1 { LtTransitive(key, leaves[j].key, last); }
    } else if scan.None? && Lt(key, last) {
      LtTransitive(key, last, key);
      LtIrreflexive(key);
    }
  }

  /** A key between two neighbouring leaves of a proof, or behind the last one at the end of the tree, is absent. */
  lemma BetweenLeaves(proof: Proof, t: Node, treeEnd: bool, key: Key, j: nat)
    requires Wf(t) && WellFormedProof(proof) && Proves(proof, t, treeEnd)
    requires 1 <= j <= |proof.leaves| && Lt(proof.leaves[j - 1].key, key)
    requires if j < |proof.leaves| then Lt(key, proof.leaves[j].key) else treeEnd
    ensures key !in Content(t)
  {
    var b := LeavesInTree(proof, t, treeEnd);
    assert Leaves(t)[b + j - 1].key == proof.leaves[j - 1].key;
    Gap(t, key, b + j - 1);
  }

  /** The left path leads to a single leaf. */
  lemma LeafAtPath(proof: Proof, t: Node, treeEnd: bool)
    requires Wf(t) && WellFormedProof(proof) && Proves(proof, t, treeEnd)
    ensures Follows(t, proof.leftPath) && Upto(t, proof.leftPath) == Before(t, proof.leftPath) + 1
  {
    ComputeSound(t, proof.leftPath, true, proof.leaves, proof.innerNodes);
  }
}
