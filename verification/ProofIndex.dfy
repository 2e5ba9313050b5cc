/** `PathToLeaf.Index`: the position of a proof's first leaf, added up from the sizes along its path. */
module ProofIndex {
  import opened Tree
  import opened TreeReads
  import opened RangeProof
  import opened ProofPath
  import opened ProofSoundness
  import opened ProofVerify
  import opened ProverWalk

  predicate BothHashes(p: ProofInner) {
    p.left != NONE && p.right != NONE
  }

  /** What entry `i` adds: the size of the left child that the path passes by. */
  function Passed(path: Path, i: nat): int
    requires i < |path|
  {
    if path[i].left == NONE then 0
    else path[i].size - if i < |path| - 1 then path[i + 1].size else 1
  }

  function PassedUpto(path: Path, i: nat): int
    requires i <= |path|
  {
    if i == 0 then 0 else PassedUpto(path, i - 1) + Passed(path, i - 1)
  }

  /** `Index`; -1 for a path with an entry that carries both hashes. */
  function Index(path: Path): int {
    if exists i :: 0 <= i < |path| && BothHashes(path[i]) then -1 else PassedUpto(path, |path|)
  }

  method RunIndex(path: Path) returns (idx: int)
    ensures idx == Index(path)
  {
    idx := 0;
    for i := 0 to |path|
      invariant idx == PassedUpto(path, i) && forall j :: 0 <= j < i ==> !BothHashes(path[j])
    {
      if path[i].left == NONE { continue; }
      if path[i].right != NONE { return -1; }
      if i < |path| - 1 { idx := idx + path[i].size - path[i + 1].size; } else { idx := idx + path[i].size - 1; }
    }
  }

  /** The size in the next entry, or 1 at the end, is that of the node reached. */
  lemma SizeReached(n: Node, path: Path, i: nat)
    requires Wf(n) && Follows(n, path) && Descend(n, path).Leaf? && i <= |path|
    ensures var m := Descend(n, path[..i]);
            |ProofLeaves(m)| == (if i < |path| then path[i].size else 1) && (i < |path| ==> Describes(path[i], m))
  {
    var m := Descend(n, path[..i]);
    DescendWf(n, path[..i]);
    LeavesSorted(m);
    ProofLeavesAt(m);
    if i < |path| {
      FollowsPrefix(n, path, i + 1);
      assert path[..i + 1][..i] == path[..i] && path[..i + 1][i] == path[i];
    } else {
      assert path[..i] == path;
    }
  }

  lemma {:induction false} PassedIsBefore(n: Node, path: Path, i: nat)
    requires Wf(n) && Follows(n, path) && Descend(n, path).Leaf? && i <= |path|
    ensures PassedUpto(path, i) == Before(n, path[..i]) && forall j :: 0 <= j < i ==> !BothHashes(path[j])
  {
    if i > 0 {
      PassedIsBefore(n, path, i - 1);
      SizeReached(n, path, i - 1);
      SizeReached(n, path, i);
      assert path[..i][..i - 1] == path[..i - 1] && path[..i][i - 1] == path[i - 1];
    }
  }

  /** On a path of a tree that ends at a leaf, `Index` is the number of leaves before that leaf. */
  lemma IndexIsBefore(n: Node, path: Path)
    requires Wf(n) && Follows(n, path) && Descend(n, path).Leaf?
    ensures Index(path) == Before(n, path)
  {
    PassedIsBefore(n, path, |path|);
    assert path[..|path|] == path;
  }

  /** `LeftIndex`: the first leaf of a verified proof is the tree's leaf at that index. */
  lemma LeftIndexExact(proof: Proof, t: Node, treeEnd: bool)
    requires Wf(t) && WellFormedProof(proof) && Proves(proof, t, treeEnd)
    ensures var i := Index(proof.leftPath);
            proof.leaves != [] && 0 <= i < |ProofLeaves(t)| && proof.leaves[0] == ProofLeaves(t)[i]
  {
    ComputeSound(t, proof.leftPath, true, proof.leaves, proof.innerNodes);
    VerifySound(proof, t, treeEnd);
    IndexIsBefore(t, proof.leftPath);
    var b := Before(t, proof.leftPath);
    assert proof.leaves[0] == ProofLeaves(t)[b..b + |proof.leaves|][0];
  }
}
