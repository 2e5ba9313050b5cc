/** Merkle range proofs: their form, and the verifier that recomputes a root hash from one. */
module RangeProof {
  import opened Bytes
  import opened Tree

  /** The empty byte slice, which stands for an absent hash. */
  const NONE := Raw([])

  /** `ProofInnerNode`: an inner node on a path, with the hash of the child that is not on it. */
  datatype ProofInner = ProofInner(height: int, size: int, version: int, left: Blob, right: Blob)

  datatype ProofLeaf = ProofLeaf(key: Key, valueHash: Blob, version: int)

  /** `PathToLeaf`, from the root down. */
  type Path = seq<ProofInner>

  datatype Proof = Proof(leftPath: Path, innerNodes: seq<Path>, leaves: seq<ProofLeaf>)

  function InnerHash(p: ProofInner, child: Blob): Blob {
    if p.left == NONE then NodeSum(p.height, p.size, p.version, child, p.right)
    else NodeSum(p.height, p.size, p.version, p.left, child)
  }

  function LeafHash(l: ProofLeaf): Blob {
    NodeSum(0, 1, l.version, Raw(l.key), l.valueHash)
  }

  /** `PathToLeaf.computeRootHash`. */
  function PathHash(path: Path, h: Blob): Blob {
    if path == [] then h else PathHash(path[..|path| - 1], InnerHash(path[|path| - 1], h))
  }

  predicate IsLeftmost(path: Path) {
    forall i :: 0 <= i < |path| ==> path[i].left == NONE
  }

  predicate IsRightmost(path: Path) {
    forall i :: 0 <= i < |path| ==> path[i].right == NONE
  }

  /** `hash` and the queues that a call leaves behind, or an error. */
  datatype Outcome =
    | Mismatch
    | Computed(hash: Blob, treeEnd: bool, done: bool, leaves: seq<ProofLeaf>, inners: seq<Path>)

  /** `COMPUTEHASH`: proves the next leaf, and then further leaves along its path. */
  function ComputeHash(path: Path, rightmost: bool, leaves: seq<ProofLeaf>, inners: seq<Path>): (o: Outcome)
    requires |leaves| == |inners| + 1
    ensures o.Computed? && !o.done ==> 0 < |o.leaves| == |o.inners| < |leaves|
    ensures o.Computed? && o.done ==> o.leaves == []
    decreases |leaves|, 0
  {
    var hash := PathHash(path, LeafHash(leaves[0]));
    if |leaves| == 1 then Computed(hash, rightmost && IsRightmost(path), true, [], inners)
    else ProveAlong(path, rightmost, hash, leaves[1..], inners)
  }

  /** The loop of `COMPUTEHASH`: takes the nodes of the path from the leaf upwards; a right hash is proved from the queues. */
  function ProveAlong(path: Path, rightmost: bool, hash: Blob, leaves: seq<ProofLeaf>, inners: seq<Path>): (o: Outcome)
    requires 0 < |leaves| == |inners|
    ensures o.Computed? && !o.done ==> 0 < |o.leaves| == |o.inners| <= |leaves|
    ensures o.Computed? && o.done ==> o.leaves == []
    decreases |leaves|, |path| + 1
  {
    if path == [] then Computed(hash, false, false, leaves, inners)
    else
      var rpath, lpath := path[..|path| - 1], path[|path| - 1];
      if lpath.right == NONE then ProveAlong(rpath, rightmost, hash, leaves, inners)
      else
        var sub := ComputeHash(inners[0], rightmost && IsRightmost(rpath), leaves, inners[1..]);
        if sub.Mismatch? || sub.hash != lpath.right then Mismatch
        else if sub.done then Computed(hash, sub.treeEnd, true, sub.leaves, sub.inners)
        else ProveAlong(rpath, rightmost, hash, sub.leaves, sub.inners)
  }

  /** `_computeRootHash`: the root hash, and whether the last leaf ends the tree; absent on a malformed proof. */
  function ComputeRootHash(proof: Proof): Option<(Blob, bool)> {
    if |proof.leaves| == 0 || |proof.innerNodes| + 1 != |proof.leaves| then None
    else
      var o := ComputeHash(proof.leftPath, true, proof.leaves, proof.innerNodes);
      if o.Mismatch? || !o.done then None else Some((o.hash, o.treeEnd))
  }

  // ---------- the verifier as it runs ----------

  method RunPathHash(path: Path, leafHash: Blob) returns (hash: Blob)
    ensures hash == PathHash(path, leafHash)
  {
    hash := leafHash;
    var i := |path|;
    assert path[..i] == path;
    while i > 0
      invariant 0 <= i <= |path|
      invariant PathHash(path[..i], hash) == PathHash(path, leafHash)
    {
      i := i - 1;
      assert path[..i + 1][..i] == path[..i];
      hash := InnerHash(path[i], hash);
    }
  }

  method RunIsRightmost(path: Path) returns (b: bool)
    ensures b == IsRightmost(path)
  {
    for i := 0 to |path|
      invariant forall j :: 0 <= j < i ==> path[j].right == NONE
    {
      if path[i].right != NONE { return false; }
    }
    return true;
  }

  /** Never runs out of leaves or inner paths, and always terminates. */
  method RunComputeHash(path: Path, rightmost: bool, leaves: seq<ProofLeaf>, inners: seq<Path>) returns (o: Outcome)
    requires |leaves| == |inners| + 1
    ensures o == ComputeHash(path, rightmost, leaves, inners)
    decreases |leaves|
  {
    var hash := RunPathHash(path, LeafHash(leaves[0]));
    var rest := leaves[1..];
    if rest == [] {
      var r := RunIsRightmost(path);
      return Computed(hash, rightmost && r, true, [], inners);
    }
    var p, queue := path, inners;
    while p != []
      invariant 0 < |rest| == |queue| < |leaves|
      invariant ProveAlong(p, rightmost, hash, rest, queue) == ComputeHash(path, rightmost, leaves, inners)
      decreases |p|
    {
      var lpath := p[|p| - 1];
      p := p[..|p| - 1];
      if lpath.right == NONE { continue; }
      var r := RunIsRightmost(p);
      var sub := RunComputeHash(queue[0], rightmost && r, rest, queue[1..]);
      if sub.Mismatch? || sub.hash != lpath.right { return Mismatch; }
      if sub.done { return Computed(hash, sub.treeEnd, true, sub.leaves, sub.inners); }
      rest, queue := sub.leaves, sub.inners;
    }
    o := Computed(hash, false, false, rest, queue);
  }
}
