/** What the prover's traversal collects: a prefix of the segments behind the first path. */
module ProverWalk {
  import opened Bytes
  import opened Tree
  import opened TreeReads
  import opened Traversal
  import opened Persistence
  import opened RangeProof
  import opened ProofPath
  import opened ProofSoundness
  import opened ProofVerify
  import opened ProofCompleteness
  import opened RangeProver
  import opened ByteSuccessor

  /** `TakeLeaf`, for a whole segment. */
  function TakeSeg(r: Request, b: Builder, s: Seg): (Builder, bool) {
    var b1 := b.(paths := b.paths + [s.path], leaves := b.leaves + [s.leaf]);
    if r.limit > 0 && r.limit <= |b1.leaves| then (b1, true)
    else if r.end.Some? && Le(r.end.value, s.leaf.key) then (b1, true)
    else (b1.(pairs := b1.pairs + [(s.leaf.key, s.value)]), r.end.Some? && Le(r.end.value, CpIncr(s.leaf.key)))
  }

  function TakeSegs(r: Request, b: Builder, q: seq<Seg>): (Builder, bool)
    decreases |q|
  {
    if q == [] then (b, false)
    else
      var (b1, stop) := TakeSeg(r, b, q[0]);
      if stop then (b1, true) else TakeSegs(r, b1, q[1..])
  }

  lemma {:induction false} TakeSegsConcat(r: Request, b: Builder, p: seq<Seg>, q: seq<Seg>)
    ensures TakeSegs(r, b, p + q) == var (b1, stop) := TakeSegs(r, b, p); if stop then (b1, true) else TakeSegs(r, b1, q)
    decreases |p|
  {
    if p == [] {
      assert p + q == q;
    } else {
      assert (p + q)[1..] == p[1..] + q;
      TakeSegsConcat(r, TakeSeg(r, b, p[0]).0, p[1..], q);
    }
  }

  lemma {:induction false} TakeSegsKeeps(r: Request, b: Builder, q: seq<Seg>)
    ensures var b1 := TakeSegs(r, b, q).0; b1.pathCount == b.pathCount && b1.current == b.current
    decreases |q|
  {
    if q != [] { TakeSegsKeeps(r, TakeSeg(r, b, q[0]).0, q[1..]); }
  }

  // ---------- whole subtrees ----------

  function Preorder(n: Node): (s: seq<Node>)
    ensures s != [] && s[0] == n
  {
    if n.Leaf? then [n] else [n] + (Preorder(n.left) + Preorder(n.right))
  }

  /** A subtree entirely behind the start is walked completely. */
  lemma {:induction false} VisitsAll(n: Node, after: Key)
    requires Wf(n) && Le(after, MinKey(n))
    ensures Visits(n, WalkFrom(after)) == Preorder(n)
  {
    if n.Inner? {
      InnerBounds(n);
      LeLtTransitive(after, MinKey(n), n.key);
      VisitsAll(n.left, after);
      VisitsAll(n.right, after);
    }
  }

  /** The segments, entered with some inner nodes already passed. */
  function Entered(c: Path, q: seq<Seg>): seq<Seg>
    requires q != []
  {
    [q[0].(path := c + q[0].path)] + q[1..]
  }

  /** Off the first path, walking a subtree takes its segments. */
  lemma {:induction false} FeedSubtree(n: Node, r: Request, b: Builder)
    requires b.pathCount == -1
    ensures Feed(Preorder(n), b, Collect(r)) == TakeSegs(r, b.(current := []), Entered(b.current, Segs(n)))
    decreases n
  {
    var cb := Collect(r);
    if n.Leaf? {
      FeedOne(n, b, cb);
      assert b.current + [] == b.current;
    } else {
      var b1 := b.(current := b.current + [Spine(n)]);
      assert Visit(r, b, n) == (b1, false);
      FeedOne(n, b, cb);
      FeedConcat([n], Preorder(n.left) + Preorder(n.right), b, cb);
      FeedConcat(Preorder(n.left), Preorder(n.right), b1, cb);
      FeedSubtree(n.left, r, b1);
      var l := Entered(b1.current, Segs(n.left));
      EnteredInner(n, b.current);
      TakeSegsConcat(r, b.(current := []), l, Segs(n.right));
      var b2 := TakeSegs(r, b.(current := []), l);
      TakeSegsKeeps(r, b.(current := []), l);
      FeedSubtree(n.right, r, b2.0);
      EnteredFresh(Segs(n.right));
    }
  }

  lemma EnteredFresh(q: seq<Seg>)
    requires q != []
    ensures Entered([], q) == q
  {
    assert [] + q[0].path == q[0].path;
  }

  lemma EnteredInner(n: Node, c: Path)
    requires n.Inner?
    ensures Entered(c, Segs(n)) == Entered(c + [Spine(n)], Segs(n.left)) + Segs(n.right)
  {
    var l, r := Segs(n.left), Segs(n.right);
    assert (c + [Spine(n)]) + l[0].path == c + ([Spine(n)] + l[0].path);
    EnteredJoin(c, l[0].(path := [Spine(n)] + l[0].path), l[1..], r);
  }

  lemma EnteredJoin(c: Path, head: Seg, l: seq<Seg>, r: seq<Seg>)
    ensures Entered(c, [head] + l + r) == [head.(path := c + head.path)] + l + r
  {
    assert ([head] + l + r)[1..] == l + r;
  }

  // ---------- leaves behind a path ----------

  lemma {:induction false} SegLeavesConcat(p: seq<Seg>, q: seq<Seg>)
    ensures SegLeaves(p + q) == SegLeaves(p) + SegLeaves(q)
  {
    if p == [] {
      assert p + q == q;
    } else {
      assert (p + q)[1..] == p[1..] + q;
      SegLeavesConcat(p[1..], q);
    }
  }

  lemma {:induction false} SegsLeaves(n: Node)
    ensures SegLeaves(Segs(n)) == ProofLeaves(n)
  {
    if n.Inner? {
      SegsLeaves(n.left);
      SegsLeaves(n.right);
      var l, r := Segs(n.left), Segs(n.right);
      var head := l[0].(path := [Spine(n)] + l[0].path);
      SegLeavesConcat([head] + l[1..], r);
      assert SegLeaves([head] + l[1..]) == SegLeaves(l);
    }
  }

  /** The segments behind a path hold exactly the leaves behind it, in order. */
  lemma {:induction false} AfterLeaves(n: Node, path: Path)
    requires Follows(n, path)
    ensures Upto(n, path) <= |ProofLeaves(n)| && SegLeaves(After(n, path)) == ProofLeaves(n)[Upto(n, path)..]
  {
    SubtreeLeaves(n, path);
    if path != [] {
      var rpath := path[..|path| - 1];
      AfterLeaves(n, rpath);
      UptoParent(n, path);
      if GoesLeft(path[|path| - 1]) {
        AfterSibling(n, Segs(Descend(n, rpath).right), After(n, rpath), Descend(n, rpath).right, Upto(n, path), Upto(n, rpath));
      } else {
        assert After(n, path) == After(n, rpath);
      }
    }
  }

  lemma AfterSibling(n: Node, s: seq<Seg>, a: seq<Seg>, m: Node, i: nat, j: nat)
    requires i <= j <= |ProofLeaves(n)| && s == Segs(m)
    requires ProofLeaves(n)[i..j] == ProofLeaves(m) && SegLeaves(a) == ProofLeaves(n)[j..]
    ensures SegLeaves(s + a) == ProofLeaves(n)[i..]
  {
    SegsLeaves(m);
    SegLeavesConcat(s, a);
    SliceJoin(ProofLeaves(n), i, j);
  }

  lemma SliceJoin(all: seq<ProofLeaf>, i: nat, j: nat)
    requires i <= j <= |all|
    ensures all[i..j] + all[j..] == all[i..]
  {
  }

  /** They are keys of the tree above the key at the end of the path. */
  lemma AfterAbove(n: Node, path: Path, i: nat)
    requires Wf(n) && Follows(n, path) && Descend(n, path).Leaf? && i < |After(n, path)|
    ensures var x := After(n, path)[i].leaf.key; Lt(Descend(n, path).key, x) && x in Content(n)
  {
    var b, all := Before(n, path), ProofLeaves(n);
    LeafAtEnd(n, path);
    AfterAt(n, path, i);
    assert all[b].key == Descend(n, path).key && After(n, path)[i].leaf == all[b + 1 + i];
    ProofLeafOrder(n, b, b + 1 + i);
  }

  /** The leaf at the end of a path, by position. */
  lemma LeafAtEnd(n: Node, path: Path)
    requires Follows(n, path) && Descend(n, path).Leaf?
    ensures Before(n, path) < |ProofLeaves(n)| && Upto(n, path) == Before(n, path) + 1
    ensures ProofLeaves(n)[Before(n, path)] == LeafOf(Descend(n, path))
  {
    SubtreeLeaves(n, path);
    SliceAt(ProofLeaves(n)[..Upto(n, path)], Before(n, path), ProofLeaves(Descend(n, path)), 0);
  }

  lemma AfterAt(n: Node, path: Path, i: nat)
    requires Follows(n, path) && i < |After(n, path)|
    ensures Upto(n, path) + i < |ProofLeaves(n)| && After(n, path)[i].leaf == ProofLeaves(n)[Upto(n, path) + i]
  {
    AfterLeaves(n, path);
    SliceAt(ProofLeaves(n), Upto(n, path), SegLeaves(After(n, path)), i);
  }

  lemma SliceAt(all: seq<ProofLeaf>, from: nat, s: seq<ProofLeaf>, i: nat)
    requires from <= |all| && s == all[from..] && i < |s|
    ensures s[i] == all[from + i]
  {
  }

  lemma ProofLeafOrder(n: Node, i: nat, j: nat)
    requires Wf(n) && i < j < |ProofLeaves(n)|
    ensures Lt(ProofLeaves(n)[i].key, ProofLeaves(n)[j].key) && ProofLeaves(n)[j].key in Content(n)
  {
    ProofLeavesAt(n);
    LeavesSorted(n);
    LeavesContent(n, Leaves(n)[j].key);
  }

  // ---------- the walk along the first path ----------

  /** In this tree, `a` separates the keys up to `k` from those above. */
  ghost predicate NextKey(n: Node, k: Key, a: Key) {
    forall x :: x in Content(n) ==> (Le(a, x) <==> Lt(k, x))
  }

  /** Leaving the first path for a right sibling is noticed at once: no entry below fits the sibling. */
  lemma OffPath(n: Node, path: Path, c: nat)
    requires Wf(n) && n.Inner? && Follows(n.left, path) && c < |path|
    ensures !OnPath(path[c], n.right)
  {
    FollowsPrefix(n.left, path, c + 1);
    var m := Descend(n.left, path[..c]);
    assert path[..c + 1][..c] == path[..c] && path[..c + 1][c] == path[c];
    assert Describes(path[c], m);
    DescendReach(n.left, path[..c]);
    DescendWf(n.left, path[..c]);
    MeasuresNonNegative(m);
    MeasuresNonNegative(n.right);
    if n.right.Inner? {
      if GoesLeft(path[c]) {
        ChildReach(n.left, m, false);
        ReachDisjoint(n, Hash(m.right));
        ChildReach(n.right, n.right, false);
      } else {
        ChildReach(n.left, m, true);
        ReachDisjoint(n, Hash(m.left));
        ChildReach(n.right, n.right, true);
      }
    }
  }

  lemma {:induction false} FollowsPrefix(n: Node, path: Path, k: nat)
    requires Follows(n, path) && k <= |path|
    ensures Follows(n, path[..k])
    decreases |path|
  {
    if k < |path| {
      FollowsPrefix(n, path[..|path| - 1], k);
      assert path[..|path| - 1][..k] == path[..k];
    } else {
      assert path[..k] == path;
    }
  }

  lemma {:induction false} DescendReach(n: Node, path: Path)
    requires Wf(n) && Follows(n, path)
    ensures Reach(Hash(n), Hash(Descend(n, path)))
  {
    if path != [] {
      var rpath := path[..|path| - 1];
      DescendReach(n, rpath);
      DescendWf(n, rpath);
      ChildReach(n, Descend(n, rpath), GoesLeft(path[|path| - 1]));
    }
  }

  lemma ChildReach(n: Node, m: Node, left: bool)
    requires Wf(m) && m.Inner? && Reach(Hash(n), Hash(m))
    ensures Reach(Hash(n), Hash(if left then m.left else m.right))
  {
    MeasuresNonNegative(m);
    var c := Hash(if left then m.left else m.right);
    assert Reach(Hash(m), c);
    ReachTransitive(Hash(n), Hash(m), c);
  }

  lemma {:induction false} ReachTransitive(a: Blob, b: Blob, c: Blob)
    requires Reach(a, b) && Reach(b, c)
    ensures Reach(a, c)
  {
    if a != b {
      if Reach(a.first, b) { ReachTransitive(a.first, b, c); } else { ReachTransitive(a.second, b, c); }
    }
  }

  /** `PathToLeaf` yields a path of the tree, of the form that the verifier expects. */
  lemma {:induction false} PathToLeafFollows(n: Node, key: Key)
    requires Wf(n)
    ensures var (path, leaf) := PathToLeaf(n, key);
            Follows(n, path) && Descend(n, path) == leaf && leaf.Leaf? && leaf.key in Content(n) && WellFormedPath(path)
  {
    if n.Inner? {
      MeasuresNonNegative(n);
      var child := if Lt(key, n.key) then n.left else n.right;
      var (path, leaf) := PathToLeaf(child, key);
      PathToLeafFollows(child, key);
      Prefixed(n, PathToLeaf(n, key).0[0], path);
      assert PathToLeaf(n, key).0[1..] == path;
    }
  }

  /** What the walk over `n` did, compared with taking segments `q`; `j` entries of the first path lie above `n`. */
  ghost predicate Walked(f: (Builder, bool), g: (Builder, bool), r: Request, j: nat) {
    f.1 == g.1 && f.0.(pathCount := -1) == g.0 &&
    (!f.1 ==> f.0.current == [] && (f.0.pathCount == -1 || j <= f.0.pathCount <= |r.path|))
  }

  /** Walking on into the right sibling, wherever the first path was left. */
  lemma FeedSibling(n: Node, key: Key, r: Request, b: Builder, j: nat)
    requires Wf(n) && n.Inner? && b.current == []
    requires b.pathCount == -1 || j <= b.pathCount <= |r.path|
    requires j <= |r.path| && r.path[j..] == PathToLeaf(n.left, key).0
    ensures Feed(Preorder(n.right), b, Collect(r)) == TakeSegs(r, b.(pathCount := -1), Segs(n.right))
  {
    PathToLeafFollows(n.left, key);
    if 0 <= b.pathCount < |r.path| {
      OffPath(n, r.path[j..], b.pathCount - j);
    }
    FeedReset(Preorder(n.right), r, b);
    FeedSubtree(n.right, r, b.(pathCount := -1));
    EnteredFresh(Segs(n.right));
  }

  lemma FeedReset(ns: seq<Node>, r: Request, b: Builder)
    requires ns != [] && CountPath(r, b, ns[0]) == -1
    ensures Feed(ns, b, Collect(r)) == Feed(ns, b.(pathCount := -1), Collect(r))
  {
    assert Visit(r, b, ns[0]) == Visit(r, b.(pathCount := -1), ns[0]);
  }

  lemma NextKeyChild(n: Node, k: Key, a: Key)
    requires Wf(n) && n.Inner? && NextKey(n, k, a)
    ensures NextKey(n.left, k, a) && NextKey(n.right, k, a)
    ensures Le(a, n.key) <==> Lt(k, n.key)
    ensures Lt(a, n.key) ==> Lt(k, n.key)
  {
    ContentBounds(n.right);
    assert n.key in Content(n);
  }

  /** A subtree pruned from the walk holds nothing behind the path. */
  lemma PrunedLeft(n: Node, path: Path, a: Key)
    requires Wf(n) && n.Inner? && Follows(n.left, path) && Descend(n.left, path).Leaf?
    requires NextKey(n.left, Descend(n.left, path).key, a) && !Lt(a, n.key)
    ensures After(n.left, path) == []
  {
    if After(n.left, path) != [] {
      AfterAbove(n.left, path, 0);
      var x := After(n.left, path)[0].leaf.key;
      ContentBounds(n.left);
      LtTotalOrder();
    }
  }

  /** The leaf at the end of the path lies on the side the path goes to. */
  lemma LeafSide(n: Node, key: Key)
    requires Wf(n) && n.Inner?
    ensures var leaf := PathToLeaf(n, key).1; Lt(leaf.key, n.key) <==> Lt(key, n.key)
  {
    PathToLeafFollows(if Lt(key, n.key) then n.left else n.right, key);
    Sides(n, PathToLeaf(n, key).1.key);
  }

  lemma {:induction false} FeedPath(n: Node, key: Key, r: Request, b: Builder, j: nat, a: Key)
    requires Wf(n) && NextKey(n, PathToLeaf(n, key).1.key, a)
    requires j <= |r.path| && r.path[j..] == PathToLeaf(n, key).0 && b.pathCount == j && b.current == []
    ensures Walked(Feed(Visits(n, WalkFrom(a)), b, Collect(r)),
                   TakeSegs(r, b.(pathCount := -1), After(n, PathToLeaf(n, key).0)), r, j)
    decreases n
  {
    var (path, leaf) := PathToLeaf(n, key);
    if n.Leaf? {
      LtIrreflexive(n.key);
      assert Visits(n, WalkFrom(a)) == [];
    } else if Lt(key, n.key) {
      FeedLeft(n, key, r, b, j, a);
    } else {
      FeedRight(n, key, r, b, j, a);
    }
  }

  /** The first step of the walk stays on the path. */
  lemma FeedHead(n: Node, key: Key, r: Request, b: Builder, j: nat, rest: seq<Node>)
    requires Wf(n) && n.Inner? && j <= |r.path| && r.path[j..] == PathToLeaf(n, key).0 && b.pathCount == j
    ensures j + 1 <= |r.path| && r.path[j + 1..] == PathToLeaf(if Lt(key, n.key) then n.left else n.right, key).0
    ensures Feed([n] + rest, b, Collect(r)) == Feed(rest, b.(pathCount := j + 1), Collect(r))
  {
    var path := PathToLeaf(n, key).0;
    assert r.path[j] == path[0] && r.path[j + 1..] == path[1..];
    assert path[1..] == PathToLeaf(if Lt(key, n.key) then n.left else n.right, key).0;
    assert Visit(r, b, n) == (b.(pathCount := j + 1), false);
    FeedOne(n, b, Collect(r));
    FeedConcat([n], rest, b, Collect(r));
  }

  lemma {:induction false} FeedRight(n: Node, key: Key, r: Request, b: Builder, j: nat, a: Key)
    requires Wf(n) && n.Inner? && !Lt(key, n.key) && NextKey(n, PathToLeaf(n, key).1.key, a)
    requires j <= |r.path| && r.path[j..] == PathToLeaf(n, key).0 && b.pathCount == j && b.current == []
    ensures Walked(Feed(Visits(n, WalkFrom(a)), b, Collect(r)),
                   TakeSegs(r, b.(pathCount := -1), After(n, PathToLeaf(n, key).0)), r, j)
    decreases n, 0
  {
    WalkRight(n, key, a);
    FeedHead(n, key, r, b, j, Visits(n.right, WalkFrom(a)));
    FeedPath(n.right, key, r, b.(pathCount := j + 1), j + 1, a);
    AfterOnRight(n, key, PathToLeaf(n.right, key).0);
  }

  /** Behind a path to the right, the walk goes right only. */
  lemma WalkRight(n: Node, key: Key, a: Key)
    requires Wf(n) && n.Inner? && !Lt(key, n.key) && NextKey(n, PathToLeaf(n, key).1.key, a)
    ensures NextKey(n.right, PathToLeaf(n.right, key).1.key, a)
    ensures Visits(n, WalkFrom(a)) == [n] + Visits(n.right, WalkFrom(a))
  {
    LeafSide(n, key);
    NextKeyChild(n, PathToLeaf(n.right, key).1.key, a);
  }

  lemma AfterOnRight(n: Node, key: Key, path: Path)
    requires Wf(n) && n.Inner? && !Lt(key, n.key) && path == PathToLeaf(n.right, key).0
    ensures After(n, PathToLeaf(n, key).0) == After(n.right, path)
  {
    PathToLeafFollows(n.right, key);
    MeasuresNonNegative(n);
    PrefixedAfter(n, PathToLeaf(n, key).0[0], path);
    assert After(n.right, path) + [] == After(n.right, path);
  }

  lemma {:induction false} FeedLeft(n: Node, key: Key, r: Request, b: Builder, j: nat, a: Key)
    requires Wf(n) && n.Inner? && Lt(key, n.key) && NextKey(n, PathToLeaf(n, key).1.key, a)
    requires j <= |r.path| && r.path[j..] == PathToLeaf(n, key).0 && b.pathCount == j && b.current == []
    ensures Walked(Feed(Visits(n, WalkFrom(a)), b, Collect(r)),
                   TakeSegs(r, b.(pathCount := -1), After(n, PathToLeaf(n, key).0)), r, j)
    decreases n, 0
  {
    var (path, leaf) := PathToLeaf(n.left, key);
    PathToLeafFollows(n.left, key);
    LeafSide(n, key);
    NextKeyChild(n, leaf.key, a);
    VisitsAll(n.right, a);
    var l := if Lt(a, n.key) then Visits(n.left, WalkFrom(a)) else [];
    assert Visits(n, WalkFrom(a)) == [n] + (l + Preorder(n.right));
    FeedHead(n, key, r, b, j, l + Preorder(n.right));
    var b1 := b.(pathCount := j + 1);
    FeedConcat(l, Preorder(n.right), b1, Collect(r));
    if Lt(a, n.key) {
      FeedPath(n.left, key, r, b1, j + 1, a);
    } else {
      PrunedLeft(n, path, a);
    }
    var f := Feed(l, b1, Collect(r));
    if !f.1 { FeedSibling(n, key, r, f.0, j + 1); }
    PrefixedAfter(n, PathToLeaf(n, key).0[0], path);
    TakeSegsConcat(r, b.(pathCount := -1), After(n.left, path), Segs(n.right));
    TakeSegsKeeps(r, b.(pathCount := -1), After(n.left, path) + Segs(n.right));
  }
}
