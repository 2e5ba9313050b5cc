/** `traverseInRange`: a depth-first walk that prunes by routing key and drives a stateful callback. */
module Traversal {
  import opened Bytes
  import opened Tree
  import opened TreeReads
  import opened Sequences

  datatype Range = Range(start: Option<Key>, end: Option<Key>, inclusive: bool)

  predicate AfterStart(k: Key, range: Range) {
    range.start.None? || Lt(range.start.value, k)
  }

  predicate StartOrAfter(k: Key, range: Range) {
    range.start.None? || Le(range.start.value, k)
  }

  predicate BeforeEnd(k: Key, range: Range) {
    range.end.None? || if range.inclusive then Le(k, range.end.value) else Lt(k, range.end.value)
  }

  /** The key lies in `[start, end)`, or in `[start, end]` when inclusive; an absent bound is open. */
  predicate InRange(k: Key, range: Range) {
    StartOrAfter(k, range) && BeforeEnd(k, range)
  }

  datatype Walk = Walk(range: Range, ascending: bool, post: bool)

  /** A callback step: the new callback state, and whether to stop. */
  type Callback<!S> = (S, Node) -> (S, bool)

  /** The traversal itself; the result tells whether the callback stopped it. */
  function Traverse<S>(n: Node, w: Walk, s: S, cb: Callback<S>): (S, bool)
    decreases n
  {
    var called := n.Inner? || InRange(n.key, w.range);
    var (s1, stop1) := if !w.post && called then cb(s, n) else (s, false);
    if stop1 then (s1, true)
    else if n.Leaf? then if w.post && called then cb(s1, n) else (s1, false)
    else
      var (goFirst, first, goSecond, second) :=
        if w.ascending then (AfterStart(n.key, w.range), n.left, BeforeEnd(n.key, w.range), n.right)
        else (BeforeEnd(n.key, w.range), n.right, AfterStart(n.key, w.range), n.left);
      var (s2, stop2) := if goFirst then Traverse(first, w, s1, cb) else (s1, false);
      if stop2 then (s2, true)
      else
        var (s3, stop3) := if goSecond then Traverse(second, w, s2, cb) else (s2, false);
        if stop3 then (s3, true) else if w.post then cb(s3, n) else (s3, false)
  }

  /** The nodes an unstopped traversal calls back, in order. */
  function Visits(n: Node, w: Walk): seq<Node> {
    if n.Leaf? then if InRange(n.key, w.range) then [n] else []
    else
      var l := if AfterStart(n.key, w.range) then Visits(n.left, w) else [];
      var r := if BeforeEnd(n.key, w.range) then Visits(n.right, w) else [];
      var children := if w.ascending then l + r else r + l;
      if w.post then children + [n] else [n] + children
  }

  /** Feeds a list to a callback until it stops. */
  function Feed<S>(ns: seq<Node>, s: S, cb: Callback<S>): (S, bool) {
    if ns == [] then (s, false)
    else
      var (s1, stop) := cb(s, ns[0]);
      if stop then (s1, true) else Feed(ns[1..], s1, cb)
  }

  lemma {:induction false} FeedConcat<S>(a: seq<Node>, b: seq<Node>, s: S, cb: Callback<S>)
    ensures Feed(a + b, s, cb) == var (s1, stop) := Feed(a, s, cb); if stop then (s1, true) else Feed(b, s1, cb)
  {
    if a == [] {
      assert a + b == b;
    } else {
      assert (a + b)[1..] == a[1..] + b;
      FeedConcat(a[1..], b, cb(s, a[0]).0, cb);
    }
  }

  lemma FeedOne<S>(n: Node, s: S, cb: Callback<S>)
    ensures Feed([n], s, cb) == cb(s, n)
  {
  }

  /** A traversal calls back a prefix of `Visits`, up to and including the node at which the callback stops. */
  lemma {:induction false} TraverseFeeds<S>(n: Node, w: Walk, s: S, cb: Callback<S>)
    ensures Traverse(n, w, s, cb) == Feed(Visits(n, w), s, cb)
    decreases n
  {
    if n.Leaf? {
      if InRange(n.key, w.range) { FeedOne(n, s, cb); }
    } else {
      var (goFirst, first, goSecond, second) :=
        if w.ascending then (AfterStart(n.key, w.range), n.left, BeforeEnd(n.key, w.range), n.right)
        else (BeforeEnd(n.key, w.range), n.right, AfterStart(n.key, w.range), n.left);
      var a := if goFirst then Visits(first, w) else [];
      var b := if goSecond then Visits(second, w) else [];
      var s1 := if w.post then (s, false) else cb(s, n);
      if !s1.1 {
        if goFirst { TraverseFeeds(first, w, s1.0, cb); }
        FeedConcat(a, b, s1.0, cb);
        var s2 := Feed(a, s1.0, cb);
        if goSecond { TraverseFeeds(second, w, s2.0, cb); }
      }
      FeedOne(n, s, cb);
      FeedOne(n, Feed(a + b, s, cb).0, cb);
      if w.post { FeedConcat(a + b, [n], s, cb); } else { FeedConcat([n], a + b, s, cb); }
    }
  }

  // ---------- which leaves are visited ----------

  function Filter(ns: seq<Node>, p: Node -> bool): seq<Node> {
    if ns == [] then [] else (if p(ns[0]) then [ns[0]] else []) + Filter(ns[1..], p)
  }

  lemma {:induction false} FilterConcat(a: seq<Node>, b: seq<Node>, p: Node -> bool)
    ensures Filter(a + b, p) == Filter(a, p) + Filter(b, p)
  {
    if a == [] {
      assert a + b == b;
    } else {
      assert (a + b)[1..] == a[1..] + b;
      FilterConcat(a[1..], b, p);
      var head, rest := if p(a[0]) then [a[0]] else [], Filter(a[1..], p);
      assert (head + rest) + Filter(b, p) == head + (rest + Filter(b, p));
    }
  }

  lemma FilterOne(n: Node, p: Node -> bool)
    ensures Filter([n], p) == if p(n) then [n] else []
  {
  }

  lemma {:induction false} FilterNone(ns: seq<Node>, p: Node -> bool)
    requires forall i :: 0 <= i < |ns| ==> !p(ns[i])
    ensures Filter(ns, p) == []
  {
    if ns != [] { FilterNone(ns[1..], p); }
  }

  function KeyInRange(range: Range): Node -> bool {
    (m: Node) => InRange(m.key, range)
  }

  function IsLeaf(): Node -> bool {
    (m: Node) => m.Leaf?
  }

  /** The leaves of the tree that lie in the range, in ascending order. */
  function RangeLeaves(n: Node, range: Range): seq<Node> {
    Filter(Leaves(n), KeyInRange(range))
  }

  /** A routing key at or below the start excludes all smaller keys. */
  lemma PrunedBelow(k: Key, routing: Key, range: Range)
    requires Lt(k, routing) && !AfterStart(routing, range)
    ensures !InRange(k, range)
  {
    LtTotalOrder();
  }

  /** A routing key past the end excludes all greater keys. */
  lemma PrunedAbove(k: Key, routing: Key, range: Range)
    requires Le(routing, k) && !BeforeEnd(routing, range)
    ensures !InRange(k, range)
  {
    LtTotalOrder();
  }

  /** Pruned subtrees hold nothing in range. */
  lemma PrunedSides(n: Node, range: Range)
    requires Wf(n) && n.Inner?
    ensures !AfterStart(n.key, range) ==> RangeLeaves(n.left, range) == []
    ensures !BeforeEnd(n.key, range) ==> RangeLeaves(n.right, range) == []
  {
    LeavesSorted(n.left);
    LeavesSorted(n.right);
    if !AfterStart(n.key, range) {
      forall i | 0 <= i < |Leaves(n.left)| ensures !InRange(Leaves(n.left)[i].key, range) {
        LeLtTransitive(Leaves(n.left)[i].key, MaxKey(n.left), n.key);
        PrunedBelow(Leaves(n.left)[i].key, n.key, range);
      }
      FilterNone(Leaves(n.left), KeyInRange(range));
    }
    if !BeforeEnd(n.key, range) {
      forall i | 0 <= i < |Leaves(n.right)| ensures !InRange(Leaves(n.right)[i].key, range) {
        PrunedAbove(Leaves(n.right)[i].key, n.key, range);
      }
      FilterNone(Leaves(n.right), KeyInRange(range));
    }
  }

  lemma RangeLeavesInner(n: Node, range: Range)
    requires n.Inner?
    ensures RangeLeaves(n, range) == RangeLeaves(n.left, range) + RangeLeaves(n.right, range)
    ensures Reversed(RangeLeaves(n, range)) == Reversed(RangeLeaves(n.right, range)) + Reversed(RangeLeaves(n.left, range))
  {
    FilterConcat(Leaves(n.left), Leaves(n.right), KeyInRange(range));
    ReversedConcat(RangeLeaves(n.left, range), RangeLeaves(n.right, range));
  }

  /** An inner node contributes no leaf of its own, wherever it is visited. */
  lemma FilterInner(n: Node, a: seq<Node>, b: seq<Node>, post: bool)
    requires n.Inner?
    ensures Filter(if post then (a + b) + [n] else [n] + (a + b), IsLeaf()) == Filter(a, IsLeaf()) + Filter(b, IsLeaf())
  {
    FilterConcat(a, b, IsLeaf());
    FilterConcat(a + b, [n], IsLeaf());
    FilterConcat([n], a + b, IsLeaf());
  }

  lemma VisitedLeaves(n: Node, w: Walk)
    requires n.Inner?
    ensures var l := if AfterStart(n.key, w.range) then Filter(Visits(n.left, w), IsLeaf()) else [];
            var r := if BeforeEnd(n.key, w.range) then Filter(Visits(n.right, w), IsLeaf()) else [];
            Filter(Visits(n, w), IsLeaf()) == if w.ascending then l + r else r + l
  {
    var l := if AfterStart(n.key, w.range) then Visits(n.left, w) else [];
    var r := if BeforeEnd(n.key, w.range) then Visits(n.right, w) else [];
    if w.ascending { FilterInner(n, l, r, w.post); } else { FilterInner(n, r, l, w.post); }
  }

  lemma VisitedLeaf(n: Node, w: Walk)
    requires n.Leaf?
    ensures Filter(Visits(n, w), IsLeaf()) == RangeLeaves(n, w.range) == Reversed(RangeLeaves(n, w.range))
  {
    FilterOne(n, KeyInRange(w.range));
    FilterOne(n, IsLeaf());
  }

  /** A traversal visits precisely the leaves in range, in the requested order, each once. */
  lemma {:induction false} TraversalExact(n: Node, w: Walk)
    requires Wf(n)
    ensures Filter(Visits(n, w), IsLeaf()) ==
            if w.ascending then RangeLeaves(n, w.range) else Reversed(RangeLeaves(n, w.range))
  {
    if n.Leaf? {
      VisitedLeaf(n, w);
    } else {
      TraversalExact(n.left, w);
      TraversalExact(n.right, w);
      PrunedSides(n, w.range);
      RangeLeavesInner(n, w.range);
      VisitedLeaves(n, w);
    }
  }

  lemma {:induction false} FilterMember(ns: seq<Node>, p: Node -> bool, m: Node)
    ensures m in Filter(ns, p) <==> m in ns && p(m)
  {
    if ns != [] { FilterMember(ns[1..], p, m); }
  }

  /** Seen from the map, those are the leaves of the keys between the bounds, of which the end belongs to an inclusive
      range only. */
  lemma RangeKeysExact(n: Node, range: Range, x: Key)
    requires Wf(n)
    ensures (exists m :: m in RangeLeaves(n, range) && m.key == x) <==>
            x in Content(n) && (range.start.Some? ==> Le(range.start.value, x)) &&
            (range.end.Some? ==> Lt(x, range.end.value) || (range.inclusive && x == range.end.value))
  {
    LeavesContent(n, x);
    if m :| m in RangeLeaves(n, range) && m.key == x {
      FilterMember(Leaves(n), KeyInRange(range), m);
    }
    if x in Content(n) {
      var i :| 0 <= i < |Leaves(n)| && Leaves(n)[i].key == x;
      FilterMember(Leaves(n), KeyInRange(range), Leaves(n)[i]);
    }
  }

  // ---------- inner nodes ----------

  /** A node comes before all that is visited below it, or after it in post-order. */
  lemma NodePlace(n: Node, w: Walk)
    requires n.Inner?
    ensures var v := Visits(n, w); v != [] && v[if w.post then |v| - 1 else 0] == n
  {
  }

  /** `traverse` and `traversePost`, without bounds, visit every node of the tree once. */
  lemma {:induction false} WholeTree(n: Node, w: Walk, m: Node)
    requires Wf(n) && w.range.start.None? && w.range.end.None?
    ensures m in Visits(n, w) <==> Within(m, n)
    ensures |Visits(n, w)| == 2 * Size(n) - 1
  {
    if n.Inner? {
      WholeTree(n.left, w, m);
      WholeTree(n.right, w, m);
    }
  }

  // ---------- IterateRange ----------

  /** `IterateRange` hands its function only the leaves. */
  function OnLeaves<S(!new)>(fn: Callback<S>): Callback<S> {
    (s: S, n: Node) => if n.Leaf? then fn(s, n) else (s, false)
  }

  lemma {:induction false} FeedLeaves<S(!new)>(ns: seq<Node>, s: S, fn: Callback<S>)
    ensures Feed(ns, s, OnLeaves(fn)) == Feed(Filter(ns, IsLeaf()), s, fn)
  {
    if ns != [] {
      var (s1, stop) := OnLeaves(fn)(s, ns[0]);
      FeedLeaves(ns[1..], s1, fn);
      if ns[0].Leaf? {
        assert Filter(ns, IsLeaf()) == [ns[0]] + Filter(ns[1..], IsLeaf());
      } else {
        assert Filter(ns, IsLeaf()) == Filter(ns[1..], IsLeaf());
      }
    }
  }

  /** `IterateRange` and `IterateRangeInclusive`: the function sees the pairs in range one by one until it stops. */
  lemma IterateRangeExact<S(!new)>(n: Node, range: Range, ascending: bool, s: S, fn: Callback<S>)
    requires Wf(n)
    ensures Traverse(n, Walk(range, ascending, false), s, OnLeaves(fn)) ==
            Feed(if ascending then RangeLeaves(n, range) else Reversed(RangeLeaves(n, range)), s, fn)
  {
    var w := Walk(range, ascending, false);
    TraverseFeeds(n, w, s, OnLeaves(fn));
    FeedLeaves(Visits(n, w), s, fn);
    TraversalExact(n, w);
  }
}
