/** The verifier accepts every proof that lists, behind a first path, any number of the leaves that follow. */
module ProofCompleteness {
  import opened Bytes
  import opened Tree
  import opened RangeProof
  import opened ProofPath
  import opened RangeProver

  /** A further leaf, with the inner nodes passed since the leaf before it. */
  datatype Seg = Seg(path: Path, leaf: ProofLeaf, value: Value)

  /** The segments of a whole subtree, entered from above. */
  function Segs(n: Node): (s: seq<Seg>)
    ensures s != []
  {
    if n.Leaf? then [Seg([], LeafOf(n), n.value)]
    else
      var l := Segs(n.left);
      [l[0].(path := [Spine(n)] + l[0].path)] + l[1..] + Segs(n.right)
  }

  /** The segments of all leaves of `n` behind the node at the end of the path. */
  function After(n: Node, path: Path): seq<Seg> {
    if path == [] then []
    else
      var m := Descend(n, path[..|path| - 1]);
      (if m.Inner? && GoesLeft(path[|path| - 1]) then Segs(m.right) else []) + After(n, path[..|path| - 1])
  }

  function Paths(q: seq<Seg>): (s: seq<Path>)
    ensures |s| == |q| && forall i :: 0 <= i < |q| ==> s[i] == q[i].path
  {
    if q == [] then [] else [q[0].path] + Paths(q[1..])
  }

  function SegLeaves(q: seq<Seg>): (s: seq<ProofLeaf>)
    ensures |s| == |q| && forall i :: 0 <= i < |q| ==> s[i] == q[i].leaf
  {
    if q == [] then [] else [q[0].leaf] + SegLeaves(q[1..])
  }

  // ---------- paths built from the front ----------

  /** Prefixing a path by the entry for the node above. */
  lemma {:induction false} Prefixed(n: Node, p: ProofInner, path: Path)
    requires Describes(p, n) && Follows(if GoesLeft(p) then n.left else n.right, path)
    ensures Follows(n, [p] + path) && Descend(n, [p] + path) == Descend(if GoesLeft(p) then n.left else n.right, path)
  {
    if path == [] {
      assert [p] + path == [p] && [p][..0] == [];
      assert Follows(n, []) && Descend(n, []) == n;
    } else {
      Prefixed(n, p, path[..|path| - 1]);
      PrefixSnoc(p, path);
    }
  }

  lemma PrefixSnoc(p: ProofInner, path: Path)
    requires path != []
    ensures ([p] + path)[..|[p] + path| - 1] == [p] + path[..|path| - 1]
    ensures ([p] + path)[|[p] + path| - 1] == path[|path| - 1]
  {
  }

  lemma {:induction false} PrefixedAfter(n: Node, p: ProofInner, path: Path)
    requires Describes(p, n) && Follows(if GoesLeft(p) then n.left else n.right, path)
    ensures After(n, [p] + path) ==
            After(if GoesLeft(p) then n.left else n.right, path) + if GoesLeft(p) then Segs(n.right) else []
  {
    if path == [] {
      assert [p] + path == [p] && [p][..0] == [];
      assert After(n, []) == [];
    } else {
      var rpath := path[..|path| - 1];
      PrefixedAfter(n, p, rpath);
      Prefixed(n, p, rpath);
      PrefixSnoc(p, path);
    }
  }

  lemma SpineDescribes(n: Node)
    requires n.Inner?
    ensures Describes(Spine(n), n) && GoesLeft(Spine(n))
  {
  }

  lemma ConsTail<T>(x: T, a: seq<T>, b: seq<T>)
    ensures ([x] + a + b)[0] == x && ([x] + a + b)[1..] == a + b
  {
  }

  lemma SnocCons<T>(a: seq<T>, x: T, b: seq<T>)
    ensures a + [x] + b == a + ([x] + b)
  {
  }

  /** A subtree's first segment leads to its first leaf, and the rest are what follows it. */
  lemma {:induction false} SegsUnfold(n: Node)
    ensures var s := Segs(n);
            Follows(n, s[0].path) && s[1..] == After(n, s[0].path) &&
            Descend(n, s[0].path).Leaf? && LeafOf(Descend(n, s[0].path)) == s[0].leaf
  {
    if n.Inner? {
      var l := Segs(n.left);
      SegsUnfold(n.left);
      SpineDescribes(n);
      Prefixed(n, Spine(n), l[0].path);
      PrefixedAfter(n, Spine(n), l[0].path);
      ConsTail(l[0].(path := [Spine(n)] + l[0].path), l[1..], Segs(n.right));
    }
  }

  lemma {:induction false} AfterEmptyIff(n: Node, path: Path)
    requires Follows(n, path)
    ensures After(n, path) == [] <==> IsRightmost(path)
  {
    if path != [] {
      var rpath := path[..|path| - 1];
      AfterEmptyIff(n, rpath);
      assert IsRightmost(path) <==> IsRightmost(rpath) && path[|path| - 1].right == NONE;
    }
  }

  // ---------- the verifier ----------

  /** One list continues the other. */
  predicate Comparable(q: seq<Seg>, a: seq<Seg>) {
    q <= a || a <= q
  }

  /** The outcome of a computation fed with segments `q` where `a` are the ones that exist. */
  predicate Consumed(o: Outcome, hash: Blob, rightmost: bool, q: seq<Seg>, a: seq<Seg>) {
    o.Computed? && o.hash == hash &&
    if |q| <= |a| then o.done && (o.treeEnd <==> rightmost && |q| == |a|)
    else !o.done && o.leaves == SegLeaves(q[|a|..]) && o.inners == Paths(q[|a|..])
  }

  lemma {:induction false} ComputeComplete(n: Node, path: Path, rightmost: bool, q: seq<Seg>)
    requires Follows(n, path) && Descend(n, path).Leaf? && Comparable(q, After(n, path))
    ensures Consumed(ComputeHash(path, rightmost, [LeafOf(Descend(n, path))] + SegLeaves(q), Paths(q)), Hash(n), rightmost, q, After(n, path))
    decreases |q|, 1, 0
  {
    var leaves := [LeafOf(Descend(n, path))] + SegLeaves(q);
    PathHashFollows(n, path);
    AfterEmptyIff(n, path);
    if q != [] {
      assert leaves[1..] == SegLeaves(q);
      AlongComplete(n, path, rightmost, Hash(n), q);
    }
  }

  lemma {:induction false} AlongComplete(n: Node, path: Path, rightmost: bool, hash: Blob, q: seq<Seg>)
    requires q != [] && Follows(n, path) && Comparable(q, After(n, path))
    ensures Consumed(ProveAlong(path, rightmost, hash, SegLeaves(q), Paths(q)), hash, rightmost, q, After(n, path))
    decreases |q|, 0, 2 * |path| + 2
  {
    if path == [] {
      assert q[0..] == q;
    } else if path[|path| - 1].right == NONE {
      assert After(n, path) == After(n, path[..|path| - 1]);
      AlongComplete(n, path[..|path| - 1], rightmost, hash, q);
    } else {
      SiblingComplete(n, path, rightmost, hash, q);
    }
  }

  lemma {:induction false} SiblingComplete(n: Node, path: Path, rightmost: bool, hash: Blob, q: seq<Seg>)
    requires q != [] && Follows(n, path) && Comparable(q, After(n, path)) && path != [] && path[|path| - 1].right != NONE
    ensures Consumed(ProveAlong(path, rightmost, hash, SegLeaves(q), Paths(q)), hash, rightmost, q, After(n, path))
    decreases |q|, 0, 2 * |path| + 1
  {
    var rpath := path[..|path| - 1];
    var s, a := Segs(Descend(n, rpath).right), After(n, rpath);
    assert After(n, path) == s + a;
    ComparableParts(q, s, a);
    var sub := SiblingRound(n, path, rightmost, hash, q, s);
    var o := ProveAlong(path, rightmost, hash, SegLeaves(q), Paths(q));
    AfterEmptyIff(n, rpath);
    if |q| <= |s| {
      ConsumedWithin(o, hash, rightmost, IsRightmost(rpath), q, s, a);
    } else {
      AlongComplete(n, rpath, rightmost, hash, q[|s|..]);
      ConsumedThen(o, hash, rightmost, q, s, a);
    }
  }

  /** The verifier's round over the right sibling `s` of the last node of the path. */
  lemma {:induction false} SiblingRound(n: Node, path: Path, rightmost: bool, hash: Blob, q: seq<Seg>, s: seq<Seg>) returns (sub: Outcome)
    requires q != [] && Follows(n, path) && path != [] && path[|path| - 1].right != NONE
    requires s == Segs(Descend(n, path[..|path| - 1]).right) && q[0] == s[0] && Comparable(q[1..], s[1..])
    ensures var rpath := path[..|path| - 1];
            sub.Computed? && (sub.done <==> |q| <= |s|) &&
            (sub.done ==> (sub.treeEnd <==> rightmost && IsRightmost(rpath) && |q| == |s|)) &&
            ProveAlong(path, rightmost, hash, SegLeaves(q), Paths(q)) ==
            if sub.done then Computed(hash, sub.treeEnd, true, sub.leaves, sub.inners)
            else ProveAlong(rpath, rightmost, hash, SegLeaves(q[|s|..]), Paths(q[|s|..]))
    decreases |q|, 0, 2 * |path|
  {
    var last := rightmost && IsRightmost(path[..|path| - 1]);
    SubtreeComplete(Descend(n, path[..|path| - 1]).right, last, q);
    sub := ComputeHash(Paths(q)[0], last, SegLeaves(q), Paths(q)[1..]);
    ProveOne(path, rightmost, hash, SegLeaves(q), Paths(q), sub);
  }

  lemma ConsumedWithin(o: Outcome, hash: Blob, rightmost: bool, last: bool, q: seq<Seg>, s: seq<Seg>, a: seq<Seg>)
    requires |q| <= |s| && (last <==> a == [])
    requires o.Computed? && o.hash == hash && o.done && (o.treeEnd <==> (rightmost && last) && |q| == |s|)
    ensures Consumed(o, hash, rightmost, q, s + a)
  {
  }

  /** A whole queue fed to a subtree through its own first segment. */
  lemma {:induction false} SubtreeComplete(m: Node, rightmost: bool, q: seq<Seg>)
    requires q != [] && q[0] == Segs(m)[0] && Comparable(q[1..], Segs(m)[1..])
    ensures var sub := ComputeHash(Paths(q)[0], rightmost, SegLeaves(q), Paths(q)[1..]);
            sub.Computed? && sub.hash == Hash(m) && (sub.done <==> |q| <= |Segs(m)|) &&
            (sub.done ==> (sub.treeEnd <==> rightmost && |q| == |Segs(m)|)) &&
            (!sub.done ==> sub.leaves == SegLeaves(q[|Segs(m)|..]) && sub.inners == Paths(q[|Segs(m)|..]))
    decreases |q|, 0, 0
  {
    var s := Segs(m);
    SegsUnfold(m);
    QueueTail(q);
    ComputeComplete(m, s[0].path, rightmost, q[1..]);
    if |q| > |s| { assert q[1..][|s| - 1..] == q[|s|..]; }
  }

  /** One round of the verifier's loop, at an entry with a right hash. */
  lemma ProveOne(path: Path, rightmost: bool, hash: Blob, leaves: seq<ProofLeaf>, inners: seq<Path>, sub: Outcome)
    requires 0 < |leaves| == |inners| && path != [] && path[|path| - 1].right != NONE
    requires sub == ComputeHash(inners[0], rightmost && IsRightmost(path[..|path| - 1]), leaves, inners[1..])
    requires sub.Computed? && sub.hash == path[|path| - 1].right
    ensures ProveAlong(path, rightmost, hash, leaves, inners) ==
            if sub.done then Computed(hash, sub.treeEnd, true, sub.leaves, sub.inners)
            else ProveAlong(path[..|path| - 1], rightmost, hash, sub.leaves, sub.inners)
  {
  }

  lemma ConsumedThen(o: Outcome, hash: Blob, rightmost: bool, q: seq<Seg>, s: seq<Seg>, a: seq<Seg>)
    requires |q| > |s|
    requires Consumed(o, hash, rightmost, q[|s|..], a)
    ensures Consumed(o, hash, rightmost, q, s + a)
  {
    if |q| > |s| + |a| { assert q[|s|..][|a|..] == q[|s + a|..]; }
  }

  lemma ComparableParts(q: seq<Seg>, s: seq<Seg>, a: seq<Seg>)
    requires q != [] && s != [] && Comparable(q, s + a)
    ensures q[0] == s[0] && Comparable(q[1..], s[1..])
    ensures |q| > |s| ==> Comparable(q[|s|..], a) && q[1..][|s| - 1..] == q[|s|..]
  {
    assert (s + a)[0] == s[0];
    if |q| <= |s| {
      assert q == (s + a)[..|q|] == s[..|q|];
    } else {
      assert q[..|s|] == (s + a)[..|s|] == s;
      if |q| <= |s| + |a| {
        assert q[|s|..] == (s + a)[|s|..|q|] == a[..|q| - |s|];
      } else {
        assert q[|s|..][..|a|] == q[..|s| + |a|][|s|..] == (s + a)[|s|..] == a;
      }
    }
  }

  lemma QueueTail(q: seq<Seg>)
    requires q != []
    ensures SegLeaves(q) == [q[0].leaf] + SegLeaves(q[1..])
    ensures Paths(q)[0] == q[0].path && Paths(q)[1..] == Paths(q[1..])
  {
  }
}
