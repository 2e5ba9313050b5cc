/** How a proof path lies in a tree: the node it leads to, and the leaves before and after it. */
module ProofPath {
  import opened Tree
  import opened RangeProof

  /** The leaves of a tree in proof form, from left to right. */
  function ProofLeaves(n: Node): (s: seq<ProofLeaf>)
    ensures s != []
  {
    if n.Leaf? then [ProofLeaf(n.key, ValueSum(n.value), n.version)] else ProofLeaves(n.left) + ProofLeaves(n.right)
  }

  /** The entry goes left exactly when it carries no left hash. */
  predicate GoesLeft(p: ProofInner) {
    p.left == NONE
  }

  /** The entry was made from inner node `n`: it carries the hash of the other child. */
  predicate Describes(p: ProofInner, n: Node) {
    n.Inner? && p.height == n.height && p.size == n.size && p.version == n.version &&
    if GoesLeft(p) then p.right == Hash(n.right) else p.left == Hash(n.left) && p.right == NONE
  }

  /** The path is one of `n`; each entry describes the node it passes through. */
  predicate Follows(n: Node, path: Path) {
    path == [] ||
    (Follows(n, path[..|path| - 1]) && Describes(path[|path| - 1], Descend(n, path[..|path| - 1])))
  }

  /** The node at the end of the path. */
  function Descend(n: Node, path: Path): Node {
    if path == [] then n
    else
      var m := Descend(n, path[..|path| - 1]);
      if m.Leaf? then m else if GoesLeft(path[|path| - 1]) then m.left else m.right
  }

  /** How many leaves of `n` lie left of the node at the end of the path. */
  function Before(n: Node, path: Path): nat {
    if path == [] then 0
    else
      var m := Descend(n, path[..|path| - 1]);
      Before(n, path[..|path| - 1]) + if m.Leaf? || GoesLeft(path[|path| - 1]) then 0 else |ProofLeaves(m.left)|
  }

  /** How many leaves of `n` lie left of the end of that node. */
  function Upto(n: Node, path: Path): nat {
    Before(n, path) + |ProofLeaves(Descend(n, path))|
  }

  lemma {:induction false} DescendWf(n: Node, path: Path)
    requires Wf(n)
    ensures Wf(Descend(n, path))
  {
    if path != [] { DescendWf(n, path[..|path| - 1]); }
  }

  /** The subtree's leaves sit between `Before` and `Upto`. */
  lemma {:induction false} SubtreeLeaves(n: Node, path: Path)
    requires Follows(n, path)
    ensures Upto(n, path) <= |ProofLeaves(n)|
    ensures ProofLeaves(n)[Before(n, path)..Upto(n, path)] == ProofLeaves(Descend(n, path))
  {
    if path != [] {
      var rpath := path[..|path| - 1];
      SubtreeLeaves(n, rpath);
      var m := Descend(n, rpath);
      var l, r := ProofLeaves(m.left), ProofLeaves(m.right);
      var all, b := ProofLeaves(n), Before(n, rpath);
      HalvesOf(all, b, l, r);
    }
  }

  /** The two halves of a stretch of leaves. */
  lemma HalvesOf(all: seq<ProofLeaf>, b: nat, l: seq<ProofLeaf>, r: seq<ProofLeaf>)
    requires b + |l| + |r| <= |all| && all[b..b + |l| + |r|] == l + r
    ensures all[b..b + |l|] == l && all[b + |l|..b + |l| + |r|] == r
  {
    forall i | 0 <= i < |l| ensures all[b + i] == l[i] { assert all[b..b + |l| + |r|][i] == (l + r)[i]; }
    forall i | 0 <= i < |r| ensures all[b + |l| + i] == r[i] { assert all[b..b + |l| + |r|][|l| + i] == (l + r)[|l| + i]; }
  }

  /** Dropping the last entry ends the subtree at the same leaf, or after the right sibling. */
  lemma UptoParent(n: Node, path: Path)
    requires Follows(n, path) && path != []
    ensures var rpath, lpath := path[..|path| - 1], path[|path| - 1];
            var m := Descend(n, rpath);
            Follows(n, rpath) && m.Inner? &&
            if GoesLeft(lpath) then
              Upto(n, rpath) == Upto(n, path) + |ProofLeaves(m.right)| <= |ProofLeaves(n)| &&
              ProofLeaves(n)[Upto(n, path)..Upto(n, rpath)] == ProofLeaves(m.right)
            else Upto(n, rpath) == Upto(n, path)
  {
    var rpath := path[..|path| - 1];
    var m := Descend(n, rpath);
    SubtreeLeaves(n, rpath);
    var l, r := ProofLeaves(m.left), ProofLeaves(m.right);
    var all, b := ProofLeaves(n), Before(n, rpath);
    HalvesOf(all, b, l, r);
  }

  /** A path ends the tree exactly when it carries no right hash. */
  lemma {:induction false} RightmostIffEnd(n: Node, path: Path)
    requires Wf(n) && Follows(n, path)
    ensures IsRightmost(path) <==> Upto(n, path) == |ProofLeaves(n)|
  {
    if path != [] {
      var rpath := path[..|path| - 1];
      RightmostIffEnd(n, rpath);
      UptoParent(n, path);
      SubtreeLeaves(n, rpath);
      assert IsRightmost(path) <==> IsRightmost(rpath) && path[|path| - 1].right == NONE;
    }
  }

  /** A path starts the tree exactly when it carries no left hash. */
  lemma {:induction false} LeftmostIffStart(n: Node, path: Path)
    requires Follows(n, path)
    ensures IsLeftmost(path) <==> Before(n, path) == 0
  {
    if path != [] {
      var rpath := path[..|path| - 1];
      LeftmostIffStart(n, rpath);
      assert IsLeftmost(path) <==> IsLeftmost(rpath) && path[|path| - 1].left == NONE;
    }
  }

  /** Following a path hashes from the node at its end to the root. */
  lemma {:induction false} PathHashFollows(n: Node, path: Path)
    requires Follows(n, path)
    ensures PathHash(path, Hash(Descend(n, path))) == Hash(n)
  {
    if path != [] { PathHashFollows(n, path[..|path| - 1]); }
  }
}
