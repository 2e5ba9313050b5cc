/** `getRangeProof` and `GetWithProof`: building a range proof from one traversal. */
module RangeProver {
  import opened Bytes
  import opened Tree
  import opened Traversal
  import opened RangeProof
  import opened ByteSuccessor

  /** `pathToLeaf`: the path to the last leaf not above `key`, or to the first leaf, and that leaf. */
  function PathToLeaf(n: Node, key: Key): (Path, Node) {
    if n.Leaf? then ([], n)
    else if Lt(key, n.key) then
      var (path, leaf) := PathToLeaf(n.left, key);
      ([ProofInner(n.height, n.size, n.version, NONE, Hash(n.right))] + path, leaf)
    else
      var (path, leaf) := PathToLeaf(n.right, key);
      ([ProofInner(n.height, n.size, n.version, Hash(n.left), NONE)] + path, leaf)
  }

  function LeafOf(n: Node): ProofLeaf
    requires n.Leaf?
  {
    ProofLeaf(n.key, ValueSum(n.value), n.version)
  }

  /** The variables that the traversal callback captures; `pathCount` is -1 once the walk has left the first path. */
  datatype Builder = Builder(pathCount: int, current: Path, paths: seq<Path>, leaves: seq<ProofLeaf>, pairs: seq<(Key, Value)>)

  datatype Request = Request(path: Path, end: Option<Key>, limit: nat)

  /** The node is the next one on the first path, as far as the callback can tell. */
  predicate OnPath(p: ProofInner, n: Node) {
    p.height == Height(n) &&
    (p.left == NONE || (n.Inner? && p.left == Hash(n.left))) &&
    (p.right == NONE || (n.Inner? && p.right == Hash(n.right)))
  }

  function CountPath(r: Request, b: Builder, n: Node): int {
    if b.pathCount == -1 || b.pathCount >= |r.path| || b.pathCount < 0 then -1
    else if OnPath(r.path[b.pathCount], n) then b.pathCount + 1
    else -1
  }

  function Spine(n: Node): ProofInner
    requires n.Inner?
  {
    ProofInner(n.height, n.size, n.version, NONE, Hash(n.right))
  }

  /** Takes a leaf: records its path, the leaf and, if it lies before the end, its pair. */
  function TakeLeaf(r: Request, b: Builder, n: Node): (Builder, bool)
    requires n.Leaf?
  {
    var b1 := b.(current := [], paths := b.paths + [b.current], leaves := b.leaves + [LeafOf(n)]);
    if r.limit > 0 && r.limit <= |b1.leaves| then (b1, true)
    else if r.end.Some? && Le(r.end.value, n.key) then (b1, true)
    else (b1.(pairs := b1.pairs + [(n.key, n.value)]), r.end.Some? && Le(r.end.value, CpIncr(n.key)))
  }

  /** The callback of `getRangeProof`. */
  function Visit(r: Request, b: Builder, n: Node): (Builder, bool) {
    var b := b.(pathCount := CountPath(r, b, n));
    if n.Leaf? then TakeLeaf(r, b, n)
    else if b.pathCount < 0 then (b.(current := b.current + [Spine(n)]), false)
    else (b, false)
  }

  function Collect(r: Request): Callback<Builder> {
    (b: Builder, n: Node) => Visit(r, b, n)
  }

  datatype Answer = Answer(proof: Proof, pairs: seq<(Key, Value)>)

  /** The first leaf of the proof alone. */
  function FirstLeaf(start: Option<Key>, end: Option<Key>, path: Path, left: Node): Builder
    requires left.Leaf?
  {
    var inRange := (start.None? || Le(start.value, left.key)) && (end.None? || Lt(left.key, end.value));
    Builder(0, [], [], [LeafOf(left)], if inRange then [(left.key, left.value)] else [])
  }

  /** An absent start compares like the empty key. */
  function StartKey(start: Option<Key>): Key {
    if start.Some? then start.value else []
  }

  /** The walk over everything after a key. */
  function WalkFrom(after: Key): Walk {
    Walk(Range(Some(after), None, false), true, false)
  }

  /** `getRangeProof` stops at its first leaf. */
  predicate Stops(end: Option<Key>, limit: nat, left: Key) {
    limit == 1 || (end.Some? && Le(end.value, CpIncr(left)))
  }

  /** `getRangeProof` on a non-empty tree.  The source panics unless `start < end` when both are given. */
  function GetRangeProof(t: Node, start: Option<Key>, end: Option<Key>, limit: nat): Answer
    requires start.Some? && end.Some? ==> Lt(start.value, end.value)
  {
    var (path, left) := PathToLeaf(t, StartKey(start));
    PathToLeafIsLeaf(t, StartKey(start));
    var first := FirstLeaf(start, end, path, left);
    if Stops(end, limit, left.key) then
      Answer(Proof(path, [], first.leaves), first.pairs)
    else
      var b := Traverse(t, WalkFrom(CpIncr(left.key)), first, Collect(Request(path, end, limit))).0;
      Answer(Proof(path, b.paths, b.leaves), b.pairs)
  }

  lemma {:induction false} PathToLeafIsLeaf(n: Node, key: Key)
    ensures PathToLeaf(n, key).1.Leaf?
  {
    if n.Inner? { PathToLeafIsLeaf(if Lt(key, n.key) then n.left else n.right, key); }
  }

  /** `GetWithProof`: the value, if the key is present, and a proof of presence or absence.
      The source panics on an all-0xFF key, whose increment is not above it. */
  function GetWithProof(t: Node, key: Key): (Option<Value>, Proof)
    requires Lt(key, CpIncr(key))
  {
    var a := GetRangeProof(t, Some(key), Some(CpIncr(key)), 2);
    if a.pairs != [] && a.proof.leaves != [] && a.proof.leaves[0].key == key then (Some(a.pairs[0].1), a.proof) else (None, a.proof)
  }
}
