/** What a verified range proof proves about the tree whose root hash it matches. */
module ProofSoundness {
  import opened Tree
  import opened RangeProof
  import opened ProofPath

  /** A path entry of the form the prover emits: an inner height, and exactly one of the two hashes. */
  predicate WellFormed(p: ProofInner) {
    p.height > 0 && (p.left == NONE <==> p.right != NONE)
  }

  predicate WellFormedPath(path: Path) {
    forall i :: 0 <= i < |path| ==> WellFormed(path[i])
  }

  /** The inner paths carry only right hashes: each leads to the first leaf of its subtree. */
  predicate WellFormedInners(inners: seq<Path>) {
    forall i :: 0 <= i < |inners| ==> WellFormedPath(inners[i]) && IsLeftmost(inners[i])
  }

  predicate WellFormedProof(proof: Proof) {
    WellFormedPath(proof.leftPath) && WellFormedInners(proof.innerNodes)
  }

  /** A hash that matches an inner node's can only have been computed from that node's children. */
  lemma InnerHashSound(p: ProofInner, h: Blob, m: Node)
    requires WellFormed(p) && Wf(m) && InnerHash(p, h) == Hash(m)
    ensures Describes(p, m) && h == Hash(if GoesLeft(p) then m.left else m.right)
  {
    MeasuresNonNegative(m);
  }

  /** A path whose hash matches the root is a path of the tree, to the node with the hash it started from. */
  lemma {:induction false} PathSound(n: Node, path: Path, h: Blob)
    requires Wf(n) && WellFormedPath(path) && PathHash(path, h) == Hash(n)
    ensures Follows(n, path) && h == Hash(Descend(n, path))
  {
    if path != [] {
      var rpath, lpath := path[..|path| - 1], path[|path| - 1];
      PathSound(n, rpath, InnerHash(lpath, h));
      DescendWf(n, rpath);
      InnerHashSound(lpath, h, Descend(n, rpath));
    }
  }

  lemma LeafSound(l: ProofLeaf, m: Node)
    requires Wf(m) && LeafHash(l) == Hash(m)
    ensures m.Leaf? && ProofLeaves(m) == [l]
  {
    MeasuresNonNegative(m);
  }

  /** What a computation over subtree `n` has shown when it consumed leaves from position `start` of its own. */
  predicate Shown(n: Node, start: nat, rightmost: bool, leaves: seq<ProofLeaf>, o: Outcome)
    requires o.Computed?
  {
    var all, c := ProofLeaves(n), |leaves| - |o.leaves|;
    && 0 <= c && start + c <= |all| && leaves == all[start..start + c] + o.leaves
    && WellFormedInners(o.inners)
    && (if o.done then o.leaves == [] && (o.treeEnd <==> rightmost && start + c == |all|) else start + c == |all|)
  }

  /** A path and a leaf that hash to the root: the leaf is the tree's, at the place the path leads to. */
  lemma FirstLeafSound(n: Node, path: Path, l: ProofLeaf)
    requires Wf(n) && WellFormedPath(path) && PathHash(path, LeafHash(l)) == Hash(n)
    ensures Follows(n, path) && Descend(n, path).Leaf? && Before(n, path) < |ProofLeaves(n)| && ProofLeaves(n)[Before(n, path)] == l
    ensures Upto(n, path) == Before(n, path) + 1 && (IsRightmost(path) <==> Upto(n, path) == |ProofLeaves(n)|)
  {
    PathSound(n, path, LeafHash(l));
    DescendWf(n, path);
    LeafSound(l, Descend(n, path));
    SubtreeLeaves(n, path);
    RightmostIffEnd(n, path);
    assert ProofLeaves(n)[Before(n, path)..Upto(n, path)][0] == l;
  }

  lemma {:induction false} ComputeSound(n: Node, path: Path, rightmost: bool, leaves: seq<ProofLeaf>, inners: seq<Path>)
    requires |leaves| == |inners| + 1 && Wf(n) && WellFormedPath(path) && WellFormedInners(inners)
    requires var o := ComputeHash(path, rightmost, leaves, inners); o.Computed? && o.hash == Hash(n)
    ensures Follows(n, path) && Descend(n, path).Leaf?
    ensures Shown(n, Before(n, path), rightmost, leaves, ComputeHash(path, rightmost, leaves, inners))
    decreases |leaves|, 0, 0
  {
    var hash := PathHash(path, LeafHash(leaves[0]));
    HashKept(path, rightmost, leaves, inners);
    FirstLeafSound(n, path, leaves[0]);
    if |leaves| > 1 {
      AlongSound(n, path, rightmost, hash, leaves[1..], inners);
      ShownOneMore(n, Before(n, path), rightmost, leaves, ProveAlong(path, rightmost, hash, leaves[1..], inners));
    }
  }

  /** The hash a computation returns is that of its own first leaf. */
  lemma HashKept(path: Path, rightmost: bool, leaves: seq<ProofLeaf>, inners: seq<Path>)
    requires |leaves| == |inners| + 1
    ensures var o := ComputeHash(path, rightmost, leaves, inners); o.Computed? ==> o.hash == PathHash(path, LeafHash(leaves[0]))
  {
    if |leaves| > 1 { AlongHash(path, rightmost, PathHash(path, LeafHash(leaves[0])), leaves[1..], inners); }
  }

  lemma {:induction false} AlongHash(path: Path, rightmost: bool, hash: Blob, leaves: seq<ProofLeaf>, inners: seq<Path>)
    requires 0 < |leaves| == |inners|
    ensures var o := ProveAlong(path, rightmost, hash, leaves, inners); o.Computed? ==> o.hash == hash
    decreases |leaves|, |path|
  {
    if path != [] {
      var rpath, lpath := path[..|path| - 1], path[|path| - 1];
      if lpath.right == NONE {
        AlongHash(rpath, rightmost, hash, leaves, inners);
      } else {
        var sub := ComputeHash(inners[0], rightmost && IsRightmost(rpath), leaves, inners[1..]);
        if sub.Computed? && !sub.done { AlongHash(rpath, rightmost, hash, sub.leaves, sub.inners); }
      }
    }
  }

  lemma ShownOneMore(n: Node, start: nat, rightmost: bool, leaves: seq<ProofLeaf>, o: Outcome)
    requires leaves != [] && o.Computed? && start < |ProofLeaves(n)| && ProofLeaves(n)[start] == leaves[0]
    requires Shown(n, start + 1, rightmost, leaves[1..], o)
    ensures Shown(n, start, rightmost, leaves, o)
  {
    var all, c := ProofLeaves(n), |leaves| - |o.leaves|;
    assert all[start..start + c] == [all[start]] + all[start + 1..start + c];
    assert leaves == [leaves[0]] + leaves[1..];
  }

  lemma {:induction false} AlongSound(n: Node, path: Path, rightmost: bool, hash: Blob, leaves: seq<ProofLeaf>, inners: seq<Path>)
    requires 0 < |leaves| == |inners| && Wf(n) && Follows(n, path) && WellFormedPath(path) && WellFormedInners(inners)
    requires ProveAlong(path, rightmost, hash, leaves, inners).Computed?
    ensures Shown(n, Upto(n, path), rightmost, leaves, ProveAlong(path, rightmost, hash, leaves, inners))
    decreases |leaves|, |path| + 1, 1
  {
    if path == [] {
      ShownNothing(n, rightmost, leaves, ProveAlong(path, rightmost, hash, leaves, inners));
    } else if path[|path| - 1].right == NONE {
      UptoParent(n, path);
      AlongSound(n, path[..|path| - 1], rightmost, hash, leaves, inners);
    } else {
      SiblingSound(n, path, rightmost, hash, leaves, inners);
    }
  }

  lemma {:induction false} SiblingSound(n: Node, path: Path, rightmost: bool, hash: Blob, leaves: seq<ProofLeaf>, inners: seq<Path>)
    requires 0 < |leaves| == |inners| && Wf(n) && Follows(n, path) && WellFormedPath(path) && WellFormedInners(inners)
    requires path != [] && path[|path| - 1].right != NONE && ProveAlong(path, rightmost, hash, leaves, inners).Computed?
    ensures Shown(n, Upto(n, path), rightmost, leaves, ProveAlong(path, rightmost, hash, leaves, inners))
    decreases |leaves|, |path| + 1, 0
  {
    var o := ProveAlong(path, rightmost, hash, leaves, inners);
    var rpath := path[..|path| - 1];
    var m := Descend(n, rpath).right;
    var sub := ComputeHash(inners[0], rightmost && IsRightmost(rpath), leaves, inners[1..]);
    SiblingFirst(n, path, rightmost, leaves, inners, sub);
    if sub.done {
      ShownSibling(n, m, Upto(n, path), rightmost, IsRightmost(rpath), leaves, sub, o);
    } else {
      AlongSound(n, rpath, rightmost, hash, sub.leaves, sub.inners);
      ShownThen(n, m, Upto(n, path), Upto(n, rpath), rightmost, IsRightmost(rpath), leaves, sub, o);
    }
  }

  /** The next inner path leads into the right sibling, from its first leaf on. */
  lemma {:induction false} SiblingFirst(n: Node, path: Path, rightmost: bool, leaves: seq<ProofLeaf>, inners: seq<Path>, sub: Outcome)
    requires 0 < |leaves| == |inners| && Wf(n) && Follows(n, path) && WellFormedPath(path) && WellFormedInners(inners)
    requires path != [] && path[|path| - 1].right != NONE
    requires sub == ComputeHash(inners[0], rightmost && IsRightmost(path[..|path| - 1]), leaves, inners[1..])
    requires sub.Computed? && sub.hash == path[|path| - 1].right
    ensures var rpath := path[..|path| - 1];
            var m := Descend(n, rpath);
            Follows(n, rpath) && m.Inner? && Sibling(n, m.right, Upto(n, path)) &&
            Upto(n, rpath) == Upto(n, path) + |ProofLeaves(m.right)| &&
            (IsRightmost(rpath) <==> Upto(n, rpath) == |ProofLeaves(n)|) &&
            Shown(m.right, 0, rightmost && IsRightmost(rpath), leaves, sub)
    decreases |leaves|, 0, 2
  {
    var rpath := path[..|path| - 1];
    SiblingOf(n, path);
    FromFirstLeaf(Descend(n, rpath).right, inners[0], rightmost && IsRightmost(rpath), leaves, inners[1..]);
  }

  /** A computation over an inner path consumes its subtree from the first leaf on. */
  lemma {:induction false} FromFirstLeaf(m: Node, path: Path, rightmost: bool, leaves: seq<ProofLeaf>, inners: seq<Path>)
    requires |leaves| == |inners| + 1 && Wf(m) && WellFormedPath(path) && IsLeftmost(path) && WellFormedInners(inners)
    requires var o := ComputeHash(path, rightmost, leaves, inners); o.Computed? && o.hash == Hash(m)
    ensures Shown(m, 0, rightmost, leaves, ComputeHash(path, rightmost, leaves, inners))
    decreases |leaves|, 0, 1
  {
    ComputeSound(m, path, rightmost, leaves, inners);
    LeftmostIffStart(m, path);
  }

  /** The right sibling of a path that goes left holds the leaves that come next. */
  lemma SiblingOf(n: Node, path: Path)
    requires Wf(n) && Follows(n, path) && path != [] && WellFormed(path[|path| - 1]) && path[|path| - 1].right != NONE
    ensures var rpath := path[..|path| - 1];
            var m := Descend(n, rpath);
            Follows(n, rpath) && m.Inner? && Wf(m.right) && Hash(m.right) == path[|path| - 1].right &&
            Sibling(n, m.right, Upto(n, path)) && Upto(n, rpath) == Upto(n, path) + |ProofLeaves(m.right)| &&
            (IsRightmost(rpath) <==> Upto(n, path) + |ProofLeaves(m.right)| == |ProofLeaves(n)|)
  {
    var rpath := path[..|path| - 1];
    UptoParent(n, path);
    DescendWf(n, rpath);
    RightmostIffEnd(n, rpath);
  }

  /** Subtree `m` holds the leaves of `n` from `start` on. */
  predicate Sibling(n: Node, m: Node, start: nat) {
    start + |ProofLeaves(m)| <= |ProofLeaves(n)| && ProofLeaves(n)[start..start + |ProofLeaves(m)|] == ProofLeaves(m)
  }

  /** The proof ended inside a right sibling. */
  lemma ShownSibling(n: Node, m: Node, start: nat, rightmost: bool, last: bool, leaves: seq<ProofLeaf>, sub: Outcome, o: Outcome)
    requires sub.Computed? && sub.done && Shown(m, 0, rightmost && last, leaves, sub) && Sibling(n, m, start)
    requires last <==> start + |ProofLeaves(m)| == |ProofLeaves(n)|
    requires o.Computed? && o == Computed(o.hash, sub.treeEnd, true, sub.leaves, sub.inners)
    ensures Shown(n, start, rightmost, leaves, o)
  {
    var all, mine := ProofLeaves(n), ProofLeaves(m);
    assert all[start..start + |mine|][..|leaves|] == all[start..start + |leaves|];
  }

  /** A whole right sibling was consumed, and the rest goes on behind it. */
  lemma ShownThen(n: Node, m: Node, start: nat, mid: nat, rightmost: bool, last: bool, leaves: seq<ProofLeaf>, sub: Outcome, o: Outcome)
    requires sub.Computed? && !sub.done && o.Computed? && Shown(m, 0, rightmost && last, leaves, sub)
    requires Sibling(n, m, start) && mid == start + |ProofLeaves(m)|
    requires Shown(n, mid, rightmost, sub.leaves, o)
    ensures Shown(n, start, rightmost, leaves, o)
  {
    var all, mine := ProofLeaves(n), ProofLeaves(m);
    assert mine[0..|mine|] == mine;
    ChainLeaves(all, mine, start, mid, mid + |sub.leaves| - |o.leaves|, leaves, sub.leaves, o.leaves);
  }

  lemma ChainLeaves(all: seq<ProofLeaf>, mine: seq<ProofLeaf>, start: nat, mid: nat, end: nat,
                    leaves: seq<ProofLeaf>, rest: seq<ProofLeaf>, last: seq<ProofLeaf>)
    requires start <= mid <= end <= |all| && all[start..mid] == mine && leaves == mine + rest && rest == all[mid..end] + last
    ensures leaves == all[start..end] + last && end - start == |leaves| - |last|
  {
    assert all[start..end] == all[start..mid] + all[mid..end];
  }

  lemma ShownNothing(n: Node, rightmost: bool, leaves: seq<ProofLeaf>, o: Outcome)
    requires o.Computed? && !o.done && o.leaves == leaves && WellFormedInners(o.inners)
    ensures Shown(n, |ProofLeaves(n)|, rightmost, leaves, o)
  {
    var all := ProofLeaves(n);
    assert all[|all|..|all|] + leaves == leaves;
  }
}
