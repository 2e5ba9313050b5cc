/** When unlimited range answers are exact: precisely when `cpIncr` steps from every key of the tree to the next. */
module RangeCondition {
  import opened Bytes
  import opened Tree
  import opened TreeReads
  import opened Traversal
  import opened RangeProver
  import opened ProverWalk
  import opened RangeComplete
  import opened KeyProofs
  import opened ByteSuccessor

  /** Without an end or a limit, the callback takes the pair of every leaf that it sees. */
  lemma {:induction false} FeedPairs(ns: seq<Node>, r: Request, b: Builder)
    requires r.end.None? && r.limit == 0
    ensures Feed(ns, b, Collect(r)).0.pairs == b.pairs + Pairs(Filter(ns, IsLeaf()))
  {
    if ns != [] {
      var (b1, stop) := Visit(r, b, ns[0]);
      assert !stop && b1.pairs == b.pairs + if ns[0].Leaf? then [Pair(ns[0])] else [];
      FeedPairs(ns[1..], r, b1);
      var rest := Filter(ns[1..], IsLeaf());
      if ns[0].Leaf? {
        assert Filter(ns, IsLeaf()) == [ns[0]] + rest && ([ns[0]] + rest)[1..] == rest;
      } else {
        assert Filter(ns, IsLeaf()) == rest;
      }
    }
  }

  /** So, in any well-formed tree, the answer is the first leaf and everything from its increment on. */
  lemma UnboundedAnswer(t: Node, k: Key)
    requires Wf(t) && k in Content(t)
    ensures GetRangeProof(t, Some(k), None, 0).pairs ==
            [(k, Content(t)[k])] + Pairs(RangeLeaves(t, Range(Some(CpIncr(k)), None, false)))
  {
    var (path, left) := PathToLeaf(t, k);
    NearestLeaf(t, k, path, left);
    var r, first, w := Request(path, None, 0), FirstLeaf(Some(k), None, path, left), WalkFrom(CpIncr(k));
    TraverseFeeds(t, w, first, Collect(r));
    FeedPairs(Visits(t, w), r, first);
    TraversalExact(t, w);
  }

  /** What it should be. */
  ghost predicate ExactFrom(t: Node, k: Key)
    requires Wf(t)
  {
    GetRangeProof(t, Some(k), None, 0).pairs == Pairs(RangeLeaves(t, Range(Some(k), None, false)))
  }

  ghost predicate Mentions(pairs: seq<(Key, Value)>, k: Key) {
    exists i :: 0 <= i < |pairs| && pairs[i].0 == k
  }

  /** The keys of a range of leaves. */
  lemma {:induction false} RangeKeys(ns: seq<Node>, range: Range, x: Key)
    ensures Mentions(Pairs(Filter(ns, KeyInRange(range))), x) <==>
            InRange(x, range) && exists i :: 0 <= i < |ns| && ns[i].key == x
  {
    if ns != [] {
      RangeKeys(ns[1..], range, x);
      var rest := Pairs(Filter(ns[1..], KeyInRange(range)));
      if InRange(ns[0].key, range) {
        FilterHead(ns, range);
        MentionsCons(Pair(ns[0]), rest, x);
      } else {
        assert Filter(ns, KeyInRange(range)) == Filter(ns[1..], KeyInRange(range));
      }
      HasKeyCons(ns, x);
    }
  }

  lemma MentionsCons(p: (Key, Value), pairs: seq<(Key, Value)>, x: Key)
    ensures Mentions([p] + pairs, x) <==> p.0 == x || Mentions(pairs, x)
  {
    var all := [p] + pairs;
    if p.0 == x { assert all[0].0 == x; }
    if i :| 0 <= i < |pairs| && pairs[i].0 == x { assert all[i + 1].0 == x; }
    if i :| 0 <= i < |all| && all[i].0 == x && p.0 != x { assert pairs[i - 1].0 == x; }
  }

  lemma HasKeyCons(ns: seq<Node>, x: Key)
    requires ns != []
    ensures (exists i :: 0 <= i < |ns| && ns[i].key == x) <==>
            ns[0].key == x || exists i :: 0 <= i < |ns[1..]| && ns[1..][i].key == x
  {
    if i :| 0 <= i < |ns| && ns[i].key == x { if i > 0 { assert ns[1..][i - 1].key == x; } }
    if i :| 0 <= i < |ns[1..]| && ns[1..][i].key == x { assert ns[i + 1].key == x; }
  }

  lemma RangeMentions(t: Node, start: Key, x: Key)
    requires Wf(t)
    ensures Mentions(Pairs(RangeLeaves(t, Range(Some(start), None, false))), x) <==> x in Content(t) && Le(start, x)
  {
    RangeKeys(Leaves(t), Range(Some(start), None, false), x);
    LeavesContent(t, x);
  }

  /** If a key's range comes out exact, its increment separates the keys up to it from those above. */
  lemma ExactImpliesNext(t: Node, k: Key)
    requires Wf(t) && k in Content(t) && ExactFrom(t, k)
    ensures NextKey(t, k, CpIncr(k))
  {
    UnboundedAnswer(t, k);
    var tail := Pairs(RangeLeaves(t, Range(Some(CpIncr(k)), None, false)));
    var all := Pairs(RangeLeaves(t, Range(Some(k), None, false)));
    assert all == [(k, Content(t)[k])] + tail;
    FirstInRange(t, k, tail);
    forall x | x in Content(t) ensures Le(CpIncr(k), x) <==> Lt(k, x) {
      RangeMentions(t, CpIncr(k), x);
      RangeMentions(t, k, x);
      MentionsCons((k, Content(t)[k]), tail, x);
      LtIrreflexive(k);
    }
  }

  /** A key occurs once in its own range, at the front. */
  lemma FirstInRange(t: Node, k: Key, tail: seq<(Key, Value)>)
    requires Wf(t) && k in Content(t)
    requires Pairs(RangeLeaves(t, Range(Some(k), None, false))) == [(k, Content(t)[k])] + tail
    ensures !Mentions(tail, k)
  {
    var range := Range(Some(k), None, false);
    var all := Pairs(Filter(Leaves(t), KeyInRange(range)));
    assert all == Pairs(RangeLeaves(t, range)) == [(k, Content(t)[k])] + tail;
    LeavesSorted(t);
    AscendingPairs(Leaves(t), range);
    assert KeysAscend(all);
    LtIrreflexive(k);
    forall i | 0 <= i < |tail| ensures tail[i].0 != k { assert tail[i] == all[i + 1] && all[0].0 == k; }
  }

  predicate KeysAscend(pairs: seq<(Key, Value)>) {
    forall i, j :: 0 <= i < j < |pairs| ==> Lt(pairs[i].0, pairs[j].0)
  }

  lemma {:induction false} AscendingPairs(ns: seq<Node>, range: Range)
    requires forall i, j :: 0 <= i < j < |ns| ==> Lt(ns[i].key, ns[j].key)
    ensures KeysAscend(Pairs(Filter(ns, KeyInRange(range))))
  {
    if ns != [] {
      AscendingPairs(ns[1..], range);
      var rest := Pairs(Filter(ns[1..], KeyInRange(range)));
      if InRange(ns[0].key, range) {
        FilterHead(ns, range);
        forall j | 0 <= j < |rest| ensures Lt(ns[0].key, rest[j].0) {
          assert Mentions(rest, rest[j].0);
          RangeKeys(ns[1..], range, rest[j].0);
          var i :| 0 <= i < |ns[1..]| && ns[1..][i].key == rest[j].0;
          assert ns[1..][i] == ns[i + 1];
        }
      } else {
        assert Filter(ns, KeyInRange(range)) == Filter(ns[1..], KeyInRange(range));
      }
    }
  }

  /** The exact condition: unlimited answers are right from every key if and only if the tree can be stepped through. */
  lemma RangeExactIff(t: Node)
    requires Wf(t)
    ensures (forall k :: k in Content(t) ==> ExactFrom(t, k)) <==> Steppable(t)
  {
    if Steppable(t) {
      forall k | k in Content(t) ensures ExactFrom(t, k) { RangePairsExact(t, Some(k), None); }
    }
    if forall k :: k in Content(t) ==> ExactFrom(t, k) {
      forall k | k in Content(t) ensures NextKey(t, k, CpIncr(k)) { ExactImpliesNext(t, k); }
    }
  }

  /** A key of 0xFF bytes steps back to zero, and is answered twice. */
  lemma AllFFAnsweredTwice() returns (t: Node, k: Key)
    ensures k == [255] && t == Leaf(k, [], 1, true)
    ensures Wf(t) && k in Content(t) && !ExactFrom(t, k) && |GetRangeProof(t, Some(k), None, 0).pairs| == 2
  {
    k := [255];
    t := Leaf(k, [], 1, true);
    assert AllFF(k) && CpIncr(k) == [0, 0];
    assert Lt([0, 0], k);
    LtIrreflexive(k);
    UnboundedAnswer(t, k);
    var two, one := Range(Some(CpIncr(k)), None, false), Range(Some(k), None, false);
    FilterOne(t, KeyInRange(two));
    FilterOne(t, KeyInRange(one));
    assert Pairs([t]) == [Pair(t)];
  }
}
