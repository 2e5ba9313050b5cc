/** The IAVL node: a path-copying AVL tree with values only in the leaves, and its hash.
    Children are values: a child that the source holds only by hash is the node that the hash denotes. */
module Tree {
  import opened Bytes

  /** What a byte-slice field of a node encoding can hold.  `tmhash` is a free constructor: `ValueSum` over a
      leaf's value, `NodeSum` over exactly the five fields that `writeHashBytes` writes.  Leaves and inner
      nodes share `NodeSum`, so only the height field tells the two encodings apart. */
  datatype Blob =
    | Raw(bytes: Bytes)
    | ValueSum(value: Value)
    | NodeSum(height: int, size: int, version: int, first: Blob, second: Blob)

  datatype Node =
    | Leaf(key: Key, value: Value, version: int, persisted: bool)
    | Inner(key: Key, height: int, size: int, version: int, left: Node, right: Node, persisted: bool)

  function Height(n: Node): int {
    if n.Leaf? then 0 else n.height
  }

  function Size(n: Node): int {
    if n.Leaf? then 1 else n.size
  }

  /** The bytes hashed for a node; an inner node's key is not among them. */
  function Hash(n: Node): (h: Blob)
    ensures h.NodeSum? && h.version == n.version && h.height == Height(n) && h.size == Size(n)
  {
    match n
    case Leaf(k, v, ver, _) => NodeSum(0, 1, ver, Raw(k), ValueSum(v))
    case Inner(_, h, s, ver, l, r, _) => NodeSum(h, s, ver, Hash(l), Hash(r))
  }

  function MinKey(n: Node): Key {
    if n.Leaf? then n.key else MinKey(n.left)
  }

  function MaxKey(n: Node): Key {
    if n.Leaf? then n.key else MaxKey(n.right)
  }

  function Max(a: int, b: int): int {
    if a > b then a else b
  }

  /** Heights and sizes are those that `calcHeightAndSize` computes. */
  predicate Measured(n: Node) {
    n.Inner? ==> n.height == Max(Height(n.left), Height(n.right)) + 1 && n.size == Size(n.left) + Size(n.right)
  }

  /** Left keys lie below the routing key, which is the least key on the right. */
  predicate Routed(n: Node) {
    n.Inner? ==> Lt(MaxKey(n.left), n.key) && n.key == MinKey(n.right)
  }

  function Balance(n: Node): int
    requires n.Inner?
  {
    Height(n.left) - Height(n.right)
  }

  /** The tree invariant: exact measures, exact routing keys and AVL balance, all the way down. */
  predicate Wf(n: Node) {
    Measured(n) && Routed(n) &&
    (n.Inner? ==> -1 <= Balance(n) <= 1 && Wf(n.left) && Wf(n.right))
  }

  /** The finite map a tree stands for, read off its leaves. */
  function Content(n: Node): map<Key, Value> {
    if n.Leaf? then map[n.key := n.value] else Content(n.left) + Content(n.right)
  }

  /** `m` is `n` or one of its descendants. */
  predicate Within(m: Node, n: Node) {
    m == n || (n.Inner? && (Within(m, n.left) || Within(m, n.right)))
  }

  /** The leaves from left to right. */
  function Leaves(n: Node): (s: seq<Node>)
    ensures s != [] && forall i :: 0 <= i < |s| ==> s[i].Leaf?
  {
    if n.Leaf? then [n] else Leaves(n.left) + Leaves(n.right)
  }

  lemma {:induction false} MeasuresNonNegative(n: Node)
    requires Wf(n)
    ensures Height(n) >= 0 && Size(n) >= 1 && (n.Inner? ==> Height(n) >= 1 && Size(n) >= 2)
  {
    if n.Inner? {
      MeasuresNonNegative(n.left);
      MeasuresNonNegative(n.right);
    }
  }

  /** Every key lies between the least and the greatest one. */
  lemma {:induction false} ContentBounds(n: Node)
    requires Wf(n)
    ensures MinKey(n) in Content(n) && MaxKey(n) in Content(n) && Le(MinKey(n), MaxKey(n))
    ensures forall k :: k in Content(n) ==> Le(MinKey(n), k) && Le(k, MaxKey(n))
  {
    if n.Inner? {
      ContentBounds(n.left);
      ContentBounds(n.right);
      LtTotalOrder();
    }
  }

  /** How an inner node's routing key sits between the bounds of its subtrees. */
  lemma {:induction false} InnerBounds(n: Node)
    requires Wf(n)
    ensures Le(MinKey(n), MaxKey(n))
    ensures n.Inner? ==> Lt(MinKey(n), n.key) && Le(n.key, MaxKey(n)) && Lt(MaxKey(n.left), MaxKey(n))
  {
    if n.Inner? {
      InnerBounds(n.left);
      InnerBounds(n.right);
      LeLtTransitive(MinKey(n.left), MaxKey(n.left), n.key);
      LtLeTransitive(MaxKey(n.left), n.key, MaxKey(n.right));
      LtLeTransitive(MinKey(n.left), n.key, MaxKey(n.right));
    }
  }
}
