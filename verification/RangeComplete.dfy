/** Completeness of range proofs: what `getRangeProof` and `GetWithProof` return is exact and verifies. */
module RangeComplete {
  import opened Bytes
  import opened Tree
  import opened TreeReads
  import opened Traversal
  import opened RangeProof
  import opened ProofPath
  import opened ProofSoundness
  import opened ProofVerify
  import opened ProofCompleteness
  import opened RangeProver
  import opened ProverWalk
  import opened ByteSuccessor

  /** In this tree `cpIncr` steps from each key to the next: it passes no key, and does not step back. */
  ghost predicate Steppable(t: Node) {
    forall k :: k in Content(t) ==> NextKey(t, k, CpIncr(k))
  }

  /** All keys have one width and none is all 0xFF. */
  predicate FixedWidth(t: Node, width: nat) {
    forall k :: k in Content(t) ==> |k| == width && !AllFF(k)
  }

  lemma FixedWidthSteppable(t: Node, width: nat)
    requires FixedWidth(t, width)
    ensures Steppable(t)
  {
    forall k, x | k in Content(t) && x in Content(t) ensures Le(CpIncr(k), x) <==> Lt(k, x) { IncrIsNext(k, x); }
  }

  /** If a request goes on behind its first leaf, `cpIncr` steps from that leaf to the next. */
  ghost predicate StepsOn(t: Node, start: Option<Key>, end: Option<Key>, limit: nat) {
    var left := PathToLeaf(t, StartKey(start)).1.key;
    Stops(end, limit, left) || NextKey(t, left, CpIncr(left))
  }

  lemma SteppableStepsOn(t: Node, start: Option<Key>, end: Option<Key>, limit: nat)
    requires Wf(t) && Steppable(t)
    ensures StepsOn(t, start, end, limit)
  {
    PathToLeafFollows(t, StartKey(start));
  }

  // ---------- the proof verifies ----------

  /** How many segments are taken. */
  function Taken(r: Request, b: Builder, q: seq<Seg>): (m: nat)
    ensures m <= |q|
    decreases |q|
  {
    if q == [] then 0
    else
      var (b1, stop) := TakeSeg(r, b, q[0]);
      if stop then 1 else 1 + Taken(r, b1, q[1..])
  }

  lemma {:induction false} TakenPrefix(r: Request, b: Builder, q: seq<Seg>)
    ensures var m, c := Taken(r, b, q), TakeSegs(r, b, q).0;
            c.paths == b.paths + Paths(q[..m]) && c.leaves == b.leaves + SegLeaves(q[..m])
    decreases |q|
  {
    if q == [] {
    } else {
      var (b1, stop) := TakeSeg(r, b, q[0]);
      var m := Taken(r, b, q);
      var rest := if stop then [] else q[1..][..m - 1];
      if !stop { TakenPrefix(r, b1, q[1..]); }
      assert q[..m] == [q[0]] + rest;
      QueueCons(q[0], rest, b);
    }
  }

  lemma QueueCons(s: Seg, q: seq<Seg>, b: Builder)
    ensures b.paths + [s.path] + Paths(q) == b.paths + Paths([s] + q)
    ensures b.leaves + [s.leaf] + SegLeaves(q) == b.leaves + SegLeaves([s] + q)
  {
    assert ([s] + q)[1..] == q;
    SnocCons(b.paths, s.path, Paths(q));
    SnocCons(b.leaves, s.leaf, SegLeaves(q));
  }

  /** Inner paths carry only right hashes. */
  predicate GoodSeg(s: Seg) {
    WellFormedPath(s.path) && IsLeftmost(s.path) && s.leaf.valueHash == ValueSum(s.value)
  }

  lemma {:induction false} SegsGood(n: Node)
    requires Wf(n)
    ensures forall i :: 0 <= i < |Segs(n)| ==> GoodSeg(Segs(n)[i])
  {
    if n.Inner? {
      MeasuresNonNegative(n);
      SegsGood(n.left);
      SegsGood(n.right);
      var l := Segs(n.left);
      assert GoodSeg(l[0].(path := [Spine(n)] + l[0].path));
    }
  }

  lemma {:induction false} AfterGood(n: Node, path: Path)
    requires Wf(n)
    ensures forall i :: 0 <= i < |After(n, path)| ==> GoodSeg(After(n, path)[i])
  {
    if path != [] {
      var m := Descend(n, path[..|path| - 1]);
      DescendWf(n, path[..|path| - 1]);
      AfterGood(n, path[..|path| - 1]);
      if m.Inner? { SegsGood(m.right); }
    }
  }

  /** A first path followed by any prefix of the segments behind it is a proof that verifies. */
  lemma PrefixVerifies(t: Node, path: Path, m: nat)
    requires Wf(t) && Follows(t, path) && WellFormedPath(path) && Descend(t, path).Leaf? && m <= |After(t, path)|
    ensures var q := After(t, path)[..m];
            var proof := Proof(path, Paths(q), [LeafOf(Descend(t, path))] + SegLeaves(q));
            WellFormedProof(proof) && Proves(proof, t, m == |After(t, path)|)
  {
    var q := After(t, path)[..m];
    ComputeComplete(t, path, true, q);
    AfterGood(t, path);
  }

  /** The builder when the walk starts, seen off the first path. */
  function Begun(start: Option<Key>, end: Option<Key>, path: Path, left: Node): Builder
    requires left.Leaf?
  {
    FirstLeaf(start, end, path, left).(pathCount := -1)
  }

  /** The segments that the walk is offered: none if it does not take place. */
  function Offered(t: Node, end: Option<Key>, limit: nat, path: Path, left: Node): seq<Seg> {
    if Stops(end, limit, left.key) then [] else After(t, path)
  }

  /** `getRangeProof`'s builder: the walk takes segments behind the first path one by one. */
  lemma Built(t: Node, start: Option<Key>, end: Option<Key>, limit: nat, path: Path, left: Node) returns (c: Builder)
    requires Wf(t) && StepsOn(t, start, end, limit) && (start.Some? && end.Some? ==> Lt(start.value, end.value))
    requires (path, left) == PathToLeaf(t, StartKey(start)) && left.Leaf?
    ensures c == TakeSegs(Request(path, end, limit), Begun(start, end, path, left), Offered(t, end, limit, path, left)).0
    ensures GetRangeProof(t, start, end, limit) == Answer(Proof(path, c.paths, c.leaves), c.pairs)
  {
    var r, first := Request(path, end, limit), FirstLeaf(start, end, path, left);
    c := TakeSegs(r, Begun(start, end, path, left), Offered(t, end, limit, path, left)).0;
    if !Stops(end, limit, left.key) {
      PathToLeafFollows(t, StartKey(start));
      TraverseFeeds(t, WalkFrom(CpIncr(left.key)), first, Collect(r));
      assert r.path[0..] == path;
      FeedPath(t, StartKey(start), r, first, 0, CpIncr(left.key));
    }
  }

  /** So it holds a prefix of those segments. */
  lemma BuiltFromPrefix(t: Node, start: Option<Key>, end: Option<Key>, limit: nat, path: Path, left: Node) returns (m: nat)
    requires Wf(t) && StepsOn(t, start, end, limit) && (start.Some? && end.Some? ==> Lt(start.value, end.value))
    requires (path, left) == PathToLeaf(t, StartKey(start)) && left.Leaf?
    ensures m == Taken(Request(path, end, limit), Begun(start, end, path, left), Offered(t, end, limit, path, left))
    ensures var q := Offered(t, end, limit, path, left)[..m];
            GetRangeProof(t, start, end, limit).proof == Proof(path, Paths(q), [LeafOf(left)] + SegLeaves(q))
  {
    var r, b, q := Request(path, end, limit), Begun(start, end, path, left), Offered(t, end, limit, path, left);
    var c := Built(t, start, end, limit, path, left);
    m := Taken(r, b, q);
    TakenPrefix(r, b, q);
    assert [] + Paths(q[..m]) == Paths(q[..m]);
  }

  /** Such a request is answered with a well-formed proof of the tree's root hash. */
  lemma RangeProofVerifies(t: Node, start: Option<Key>, end: Option<Key>, limit: nat)
    requires Wf(t) && StepsOn(t, start, end, limit) && (start.Some? && end.Some? ==> Lt(start.value, end.value))
    ensures var proof := GetRangeProof(t, start, end, limit).proof;
            WellFormedProof(proof) && proof.leaves != [] && exists treeEnd :: Proves(proof, t, treeEnd)
  {
    var (path, left) := PathToLeaf(t, StartKey(start));
    PathToLeafFollows(t, StartKey(start));
    var m := BuiltFromPrefix(t, start, end, limit, path, left);
    PrefixVerifies(t, path, m);
    assert After(t, path)[..0] == [];
    assert Proves(GetRangeProof(t, start, end, limit).proof, t, m == |After(t, path)|);
  }

  // ---------- the pairs are those in range ----------

  function Pair(n: Node): (Key, Value) {
    (n.key, if n.Leaf? then n.value else [])
  }

  function Pairs(ns: seq<Node>): seq<(Key, Value)> {
    if ns == [] then [] else [Pair(ns[0])] + Pairs(ns[1..])
  }

  /** `q` holds the leaves `ns`. */
  predicate Holds(q: seq<Seg>, ns: seq<Node>) {
    |q| == |ns| && forall i :: 0 <= i < |ns| ==> ns[i].Leaf? && (q[i].leaf.key, q[i].value) == Pair(ns[i])
  }

  /** The segments behind a path hold the leaves behind it. */
  lemma AfterHolds(t: Node, path: Path)
    requires Wf(t) && Follows(t, path) && Descend(t, path).Leaf?
    ensures var b := Before(t, path);
            b < |Leaves(t)| && Pair(Leaves(t)[b]) == Pair(Descend(t, path)) && Holds(After(t, path), Leaves(t)[b + 1..])
  {
    var b := Before(t, path);
    AfterLeaves(t, path);
    AfterGood(t, path);
    SubtreeLeaves(t, path);
    ProofLeavesAt(t);
    assert ProofLeaves(t)[b] == ProofLeaves(t)[b..b + 1][0];
    HoldsFrom(t, After(t, path), b + 1);
  }

  lemma HoldsFrom(t: Node, q: seq<Seg>, i: nat)
    requires i <= |Leaves(t)| == |ProofLeaves(t)| && SegLeaves(q) == ProofLeaves(t)[i..]
    requires forall k :: 0 <= k < |q| ==> GoodSeg(q[k])
    ensures Holds(q, Leaves(t)[i..])
  {
    ProofLeavesAt(t);
    var ns := Leaves(t)[i..];
    forall k | 0 <= k < |q| ensures ns[k].Leaf? && (q[k].leaf.key, q[k].value) == Pair(ns[k]) {
      assert SegLeaves(q)[k] == ProofLeaves(t)[i + k];
      assert GoodSeg(q[k]);
      assert ns[k] == Leaves(t)[i + k];
    }
  }

  /** Later leaves lie at or behind the increment of earlier ones. */
  predicate Spaced(ns: seq<Node>) {
    forall i, j :: 0 <= i < j < |ns| ==> Lt(ns[i].key, ns[j].key) && Le(CpIncr(ns[i].key), ns[j].key)
  }

  lemma PastEnd(ns: seq<Node>, bound: Key, range: Range)
    requires range.end.Some? && !range.inclusive && Le(range.end.value, bound)
    requires forall i :: 0 <= i < |ns| ==> Le(bound, ns[i].key)
    ensures Filter(ns, KeyInRange(range)) == []
  {
    forall i | 0 <= i < |ns| ensures !KeyInRange(range)(ns[i]) { NotBefore(range.end.value, bound, ns[i].key); }
    FilterNone(ns, KeyInRange(range));
  }

  lemma NotBefore(end: Key, bound: Key, k: Key)
    requires Le(end, bound) && Le(bound, k)
    ensures !Lt(k, end)
  {
    LtTotalOrder();
  }

  /** Once the end is reached, nothing that follows is in range. */
  lemma PastHead(ns: seq<Node>, range: Range)
    requires ns != [] && Spaced(ns) && range.end.Some? && !range.inclusive
    ensures Le(range.end.value, ns[0].key) ==> Filter(ns, KeyInRange(range)) == []
    ensures Le(range.end.value, CpIncr(ns[0].key)) ==> Filter(ns[1..], KeyInRange(range)) == []
  {
    if Le(range.end.value, ns[0].key) { PastEnd(ns, ns[0].key, range); }
    if Le(range.end.value, CpIncr(ns[0].key)) { PastEnd(ns[1..], CpIncr(ns[0].key), range); }
  }

  /** One step without a limit: the pair is taken unless it lies past the end. */
  lemma TakenHead(r: Request, b: Builder, s: Seg, head: Node, range: Range)
    requires r.limit == 0 && range.end == r.end && !range.inclusive && StartOrAfter(head.key, range)
    requires (s.leaf.key, s.value) == Pair(head)
    ensures var (b1, stop) := TakeSeg(r, b, s);
            if r.end.Some? && Le(r.end.value, head.key) then stop && b1.pairs == b.pairs
            else b1.pairs == b.pairs + [Pair(head)] && InRange(head.key, range) &&
                 (stop <==> r.end.Some? && Le(r.end.value, CpIncr(head.key)))
  {
    if !(r.end.Some? && Le(r.end.value, head.key)) { InRangeOrPast(head.key, range); }
  }

  /** Without a limit, the walk returns exactly the pairs before the end. */
  lemma {:induction false} TakenPairs(r: Request, b: Builder, q: seq<Seg>, ns: seq<Node>, range: Range)
    requires r.limit == 0 && Holds(q, ns) && Spaced(ns) && range.end == r.end && !range.inclusive
    requires forall i :: 0 <= i < |ns| ==> StartOrAfter(ns[i].key, range)
    ensures TakeSegs(r, b, q).0.pairs == b.pairs + Pairs(Filter(ns, KeyInRange(range)))
    decreases |q|
  {
    if q != [] {
      var (b1, stop) := TakeSeg(r, b, q[0]);
      TakenHead(r, b, q[0], ns[0], range);
      if r.end.Some? && Le(r.end.value, ns[0].key) {
        PastHead(ns, range);
      } else {
        FilterHead(ns, range);
        QueuePair(b.pairs, Pair(ns[0]), Pairs(Filter(ns[1..], KeyInRange(range))));
        if stop {
          PastHead(ns, range);
        } else {
          SpacedTail(ns, range);
          TakenPairs(r, b1, q[1..], ns[1..], range);
        }
      }
    }
  }

  lemma QueuePair(a: seq<(Key, Value)>, p: (Key, Value), b: seq<(Key, Value)>)
    ensures (a + [p]) + b == a + ([p] + b) && a + [] == a
  {
  }

  lemma SpacedTail(ns: seq<Node>, range: Range)
    requires ns != [] && Spaced(ns) && forall i :: 0 <= i < |ns| ==> StartOrAfter(ns[i].key, range)
    ensures Spaced(ns[1..]) && forall i :: 0 <= i < |ns[1..]| ==> StartOrAfter(ns[1..][i].key, range)
  {
  }

  lemma InRangeOrPast(k: Key, range: Range)
    requires StartOrAfter(k, range) && !range.inclusive && !(range.end.Some? && Le(range.end.value, k))
    ensures InRange(k, range)
  {
    LtTotalOrder();
  }

  lemma FilterHead(ns: seq<Node>, range: Range)
    requires ns != [] && InRange(ns[0].key, range)
    ensures Pairs(Filter(ns, KeyInRange(range))) == [Pair(ns[0])] + Pairs(Filter(ns[1..], KeyInRange(range)))
  {
    var f := Filter(ns[1..], KeyInRange(range));
    assert ([ns[0]] + f)[1..] == f;
  }

  /** The path leads to the last leaf not above the key, or to the first leaf. */
  lemma {:induction false} LeafNearest(n: Node, key: Key)
    requires Wf(n)
    ensures var leaf := PathToLeaf(n, key).1;
            (forall x :: x in Content(n) && Lt(leaf.key, x) ==> Lt(key, x)) && (Lt(key, leaf.key) ==> leaf.key == MinKey(n))
  {
    if n.Inner? {
      var leaf := PathToLeaf(n, key).1;
      var child := if Lt(key, n.key) then n.left else n.right;
      LeafNearest(child, key);
      LeafSide(n, key);
      forall x | x in Content(n) && Lt(leaf.key, x) ensures Lt(key, x) {
        Sides(n, x);
        LtTotalOrder();
      }
    } else {
      LtIrreflexive(n.key);
    }
  }

  /** Seen along the leaves: those before are below the start, those behind are above it. */
  lemma AroundLeaf(t: Node, start: Option<Key>, i: nat)
    requires Wf(t) && i < |Leaves(t)|
    ensures var key := StartKey(start);
            var (path, left) := PathToLeaf(t, key);
            var b, x := Before(t, path), Leaves(t)[i].key;
            (i < b ==> !StartOrAfter(x, Range(start, None, false))) && (i > b ==> Lt(key, x) && Lt(left.key, x))
  {
    var key := StartKey(start);
    var (path, left) := PathToLeaf(t, key);
    PathToLeafFollows(t, key);
    AfterHolds(t, path);
    LeafNearest(t, key);
    LeavesSorted(t);
    var b, x := Before(t, path), Leaves(t)[i].key;
    LeavesContent(t, x);
    LeavesContent(t, Leaves(t)[b].key);
    if i < b {
      BelowStart(x, left.key, MinKey(t), start);
    }
  }

  lemma BelowStart(x: Key, left: Key, least: Key, start: Option<Key>)
    requires Lt(x, left) && Le(least, x) && (Lt(StartKey(start), left) ==> left == least)
    ensures !StartOrAfter(x, Range(start, None, false))
  {
    LtTotalOrder();
  }

  /** The leaves behind the first one are spaced out, if the tree can be stepped through. */
  lemma SpacedLeaves(t: Node, i: nat)
    requires Wf(t) && Steppable(t) && i <= |Leaves(t)|
    ensures Spaced(Leaves(t)[i..])
    ensures i > 0 ==> forall j :: i <= j < |Leaves(t)| ==> Le(CpIncr(Leaves(t)[i - 1].key), Leaves(t)[j].key)
  {
    LeavesSorted(t);
    var ls := Leaves(t);
    forall k, j | 0 <= k < j < |ls| ensures Le(CpIncr(ls[k].key), ls[j].key) {
      LeavesContent(t, ls[k].key);
      LeavesContent(t, ls[j].key);
      assert NextKey(t, ls[k].key, CpIncr(ls[k].key));
    }
  }

  lemma {:induction false} SplitAt(ls: seq<Node>, b: nat, range: Range)
    requires b < |ls| && forall i :: 0 <= i < b ==> !InRange(ls[i].key, range)
    ensures Pairs(Filter(ls, KeyInRange(range))) ==
            (if InRange(ls[b].key, range) then [Pair(ls[b])] else []) + Pairs(Filter(ls[b + 1..], KeyInRange(range)))
  {
    if b == 0 {
      if InRange(ls[0].key, range) {
        FilterHead(ls, range);
      } else {
        assert Filter(ls, KeyInRange(range)) == Filter(ls[1..], KeyInRange(range));
      }
    } else {
      assert ls[1..][b..] == ls[b + 1..];
      SplitAt(ls[1..], b - 1, range);
      assert Filter(ls, KeyInRange(range)) == Filter(ls[1..], KeyInRange(range));
    }
  }

  lemma OutsideBefore(t: Node, start: Option<Key>, range: Range, b: nat)
    requires Wf(t) && range.start == start && b <= |Leaves(t)| && b == Before(t, PathToLeaf(t, StartKey(start)).0)
    ensures forall i :: 0 <= i < b ==> !InRange(Leaves(t)[i].key, range)
    ensures forall i :: b < i < |Leaves(t)| ==> StartOrAfter(Leaves(t)[i].key, range)
  {
    forall i | 0 <= i < b ensures !InRange(Leaves(t)[i].key, range) { AroundLeaf(t, start, i); }
    forall i | b < i < |Leaves(t)| ensures StartOrAfter(Leaves(t)[i].key, range) { AroundLeaf(t, start, i); }
  }

  /** Behind the first leaf, what is taken is what lies before the end. */
  lemma RestOfRange(r: Request, left: Key, q: seq<Seg>, b: Builder, ns: seq<Node>, range: Range)
    requires r.limit == 0 && r.end == range.end && !range.inclusive && Spaced(ns)
    requires forall i :: 0 <= i < |ns| ==> StartOrAfter(ns[i].key, range) && Le(CpIncr(left), ns[i].key)
    requires if range.end.Some? && Le(range.end.value, CpIncr(left)) then q == [] else Holds(q, ns)
    ensures TakeSegs(r, b, q).0.pairs == b.pairs + Pairs(Filter(ns, KeyInRange(range)))
  {
    if range.end.Some? && Le(range.end.value, CpIncr(left)) {
      PastEnd(ns, CpIncr(left), range);
    } else {
      TakenPairs(r, b, q, ns, range);
    }
  }

  /** What is taken behind the first leaf `ls[i]` completes the range. */
  lemma PairsFromFirst(ls: seq<Node>, i: nat, range: Range, r: Request, b: Builder, q: seq<Seg>)
    requires r.limit == 0 && r.end == range.end && !range.inclusive && i < |ls| && Spaced(ls[i + 1..])
    requires forall j :: 0 <= j < i ==> !InRange(ls[j].key, range)
    requires forall j :: i < j < |ls| ==> StartOrAfter(ls[j].key, range) && Le(CpIncr(ls[i].key), ls[j].key)
    requires if range.end.Some? && Le(range.end.value, CpIncr(ls[i].key)) then q == [] else Holds(q, ls[i + 1..])
    requires b.pairs == if InRange(ls[i].key, range) then [Pair(ls[i])] else []
    ensures TakeSegs(r, b, q).0.pairs == Pairs(Filter(ls, KeyInRange(range)))
  {
    RestOfRange(r, ls[i].key, q, b, ls[i + 1..], range);
    SplitAt(ls, i, range);
  }

  /** The tree's leaves around the first leaf of the proof. */
  lemma AroundFirst(t: Node, range: Range, path: Path, left: Node) returns (i: nat)
    requires Wf(t) && Steppable(t) && (path, left) == PathToLeaf(t, StartKey(range.start))
    ensures i < |Leaves(t)| && left.Leaf? && Pair(Leaves(t)[i]) == Pair(left) && Holds(After(t, path), Leaves(t)[i + 1..])
    ensures Spaced(Leaves(t)[i + 1..]) && forall j :: 0 <= j < i ==> !InRange(Leaves(t)[j].key, range)
    ensures forall j :: i < j < |Leaves(t)| ==> StartOrAfter(Leaves(t)[j].key, range) && Le(CpIncr(left.key), Leaves(t)[j].key)
  {
    i := NearestHolds(t, StartKey(range.start), path, left);
    BehindFirst(t, range, i, left.key);
  }

  /** The leaf that a key's path leads to, by position. */
  lemma NearestHolds(t: Node, key: Key, path: Path, left: Node) returns (i: nat)
    requires Wf(t) && (path, left) == PathToLeaf(t, key)
    ensures i == Before(t, path) < |Leaves(t)| && left.Leaf? && Pair(Leaves(t)[i]) == Pair(left)
    ensures Holds(After(t, path), Leaves(t)[i + 1..])
  {
    PathToLeafFollows(t, key);
    AfterHolds(t, path);
    i := Before(t, path);
  }

  lemma BehindFirst(t: Node, range: Range, i: nat, left: Key)
    requires Wf(t) && Steppable(t) && i == Before(t, PathToLeaf(t, StartKey(range.start)).0)
    requires i < |Leaves(t)| && Leaves(t)[i].key == left
    ensures Spaced(Leaves(t)[i + 1..]) && forall j :: 0 <= j < i ==> !InRange(Leaves(t)[j].key, range)
    ensures forall j :: i < j < |Leaves(t)| ==> StartOrAfter(Leaves(t)[j].key, range) && Le(CpIncr(left), Leaves(t)[j].key)
  {
    SpacedLeaves(t, i + 1);
    OutsideBefore(t, range.start, range, i);
  }

  lemma TakesRange(t: Node, range: Range, path: Path, left: Node)
    requires Wf(t) && Steppable(t) && (path, left) == PathToLeaf(t, StartKey(range.start)) && left.Leaf? && !range.inclusive
    ensures TakeSegs(Request(path, range.end, 0), Begun(range.start, range.end, path, left), Offered(t, range.end, 0, path, left)).0.pairs
         == Pairs(RangeLeaves(t, range))
  {
    var i := AroundFirst(t, range, path, left);
    var r, b := Request(path, range.end, 0), Begun(range.start, range.end, path, left);
    PairsFromFirst(Leaves(t), i, range, r, b, Offered(t, range.end, 0, path, left));
  }

  /** Range completeness: with no limit, the answer holds exactly the pairs in `[start, end)`. */
  lemma RangePairsExact(t: Node, start: Option<Key>, end: Option<Key>)
    requires Wf(t) && Steppable(t) && (start.Some? && end.Some? ==> Lt(start.value, end.value))
    ensures GetRangeProof(t, start, end, 0).pairs == Pairs(RangeLeaves(t, Range(start, end, false)))
  {
    var (path, left) := PathToLeaf(t, StartKey(start));
    PathToLeafIsLeaf(t, StartKey(start));
    TakesRange(t, Range(start, end, false), path, left);
    SteppableStepsOn(t, start, end, 0);
    var c := Built(t, start, end, 0, path, left);
  }

  // ---------- every returned pair is proved ----------

  /** Each pair has its leaf. */
  ghost predicate Backed(pairs: seq<(Key, Value)>, leaves: seq<ProofLeaf>) {
    forall i :: 0 <= i < |pairs| ==> HasLeaf(pairs[i], leaves)
  }

  ghost predicate HasLeaf(p: (Key, Value), leaves: seq<ProofLeaf>) {
    exists j :: 0 <= j < |leaves| && leaves[j].key == p.0 && leaves[j].valueHash == ValueSum(p.1)
  }

  lemma BackedSnoc(pairs: seq<(Key, Value)>, leaves: seq<ProofLeaf>, p: (Key, Value), l: ProofLeaf)
    requires Backed(pairs, leaves) && l.key == p.0 && l.valueHash == ValueSum(p.1)
    ensures Backed(pairs, leaves + [l]) && Backed(pairs + [p], leaves + [l])
  {
    forall i | 0 <= i < |pairs| ensures HasLeaf(pairs[i], leaves + [l]) {
      assert HasLeaf(pairs[i], leaves);
      var j :| 0 <= j < |leaves| && leaves[j].key == pairs[i].0 && leaves[j].valueHash == ValueSum(pairs[i].1);
      assert (leaves + [l])[j] == leaves[j];
    }
    assert (leaves + [l])[|leaves|] == l;
    assert HasLeaf(p, leaves + [l]);
  }

  lemma {:induction false} TakenBacked(r: Request, b: Builder, q: seq<Seg>)
    requires Backed(b.pairs, b.leaves) && forall i :: 0 <= i < |q| ==> GoodSeg(q[i])
    ensures var c := TakeSegs(r, b, q).0; Backed(c.pairs, c.leaves)
    decreases |q|
  {
    if q != [] {
      assert GoodSeg(q[0]);
      BackedSnoc(b.pairs, b.leaves, (q[0].leaf.key, q[0].value), q[0].leaf);
      TakenBacked(r, TakeSeg(r, b, q[0]).0, q[1..]);
    }
  }

  /** Every pair of an answer passes `VerifyItem` against the answer's own proof. */
  lemma RangeItemsVerify(t: Node, start: Option<Key>, end: Option<Key>, limit: nat, i: nat)
    requires Wf(t) && StepsOn(t, start, end, limit) && (start.Some? && end.Some? ==> Lt(start.value, end.value))
    requires i < |GetRangeProof(t, start, end, limit).pairs|
    ensures var a := GetRangeProof(t, start, end, limit); VerifyItem(a.proof.leaves, a.pairs[i].0, a.pairs[i].1)
  {
    var a := GetRangeProof(t, start, end, limit);
    AnswerBacked(t, start, end, limit);
    RangeProofVerifies(t, start, end, limit);
    var treeEnd :| Proves(a.proof, t, treeEnd);
    BackedVerifies(a.proof, t, treeEnd, a.pairs[i]);
  }

  lemma FirstBacked(start: Option<Key>, end: Option<Key>, path: Path, left: Node)
    requires left.Leaf?
    ensures Backed(FirstLeaf(start, end, path, left).pairs, [LeafOf(left)])
  {
    assert [LeafOf(left)][0] == LeafOf(left);
    assert HasLeaf((left.key, left.value), [LeafOf(left)]);
  }

  lemma AnswerBacked(t: Node, start: Option<Key>, end: Option<Key>, limit: nat)
    requires Wf(t) && StepsOn(t, start, end, limit) && (start.Some? && end.Some? ==> Lt(start.value, end.value))
    ensures var a := GetRangeProof(t, start, end, limit); forall i :: 0 <= i < |a.pairs| ==> HasLeaf(a.pairs[i], a.proof.leaves)
  {
    var (path, left) := PathToLeaf(t, StartKey(start));
    PathToLeafFollows(t, StartKey(start));
    var c := Built(t, start, end, limit, path, left);
    AfterGood(t, path);
    FirstBacked(start, end, path, left);
    TakenBacked(Request(path, end, limit), Begun(start, end, path, left), Offered(t, end, limit, path, left));
  }

  lemma BackedVerifies(proof: Proof, t: Node, treeEnd: bool, p: (Key, Value))
    requires Wf(t) && WellFormedProof(proof) && Proves(proof, t, treeEnd) && HasLeaf(p, proof.leaves)
    ensures VerifyItem(proof.leaves, p.0, p.1)
  {
    VerifiedLeaves(proof, t, treeEnd);
    VerifyItemExact(proof, t, treeEnd, p.0, p.1);
  }
}
