/** Byte strings under the order of Go's `bytes.Compare`. */
module Bytes {

  type Byte = x: int | 0 <= x < 256

  type Bytes = seq<Byte>

  type Key = Bytes

  type Value = Bytes

  datatype Option<+T> = None | Some(value: T)

  /** `bytes.Compare(a, b) < 0`. */
  predicate Lt(a: Bytes, b: Bytes) {
    b != [] && (a == [] || a[0] < b[0] || (a[0] == b[0] && Lt(a[1..], b[1..])))
  }

  /** `bytes.Compare(a, b) <= 0`. */
  predicate Le(a: Bytes, b: Bytes) {
    a == b || Lt(a, b)
  }

  lemma LtIrreflexive(a: Bytes)
    ensures !Lt(a, a)
  {
    if a != [] { LtIrreflexive(a[1..]); }
  }

  lemma {:induction false} LtTransitive(a: Bytes, b: Bytes, c: Bytes)
    requires Lt(a, b) && Lt(b, c)
    ensures Lt(a, c)
  {
    if a != [] && a[0] == b[0] == c[0] { LtTransitive(a[1..], b[1..], c[1..]); }
  }

  lemma {:induction false} LtTrichotomy(a: Bytes, b: Bytes)
    ensures a == b || Lt(a, b) || Lt(b, a)
  {
    if a != [] && b != [] && a[0] == b[0] {
      LtTrichotomy(a[1..], b[1..]);
      assert a == [a[0]] + a[1..] && b == [b[0]] + b[1..];
    }
  }

  /** `Lt` is a strict total order. */
  lemma LtTotalOrder()
    ensures forall a: Bytes :: !Lt(a, a)
    ensures forall a: Bytes, b: Bytes, c: Bytes :: Lt(a, b) && Lt(b, c) ==> Lt(a, c)
    ensures forall a: Bytes, b: Bytes :: a == b || Lt(a, b) || Lt(b, a)
  {
    forall a: Bytes ensures !Lt(a, a) { LtIrreflexive(a); }
    forall a: Bytes, b: Bytes, c: Bytes | Lt(a, b) && Lt(b, c) ensures Lt(a, c) { LtTransitive(a, b, c); }
    forall a: Bytes, b: Bytes ensures a == b || Lt(a, b) || Lt(b, a) { LtTrichotomy(a, b); }
  }

  lemma LeLtTransitive(a: Bytes, b: Bytes, c: Bytes)
    requires Le(a, b) && Lt(b, c)
    ensures Lt(a, c)
  {
    if a != b { LtTransitive(a, b, c); }
  }

  lemma LtLeTransitive(a: Bytes, b: Bytes, c: Bytes)
    requires Lt(a, b) && Le(b, c)
    ensures Lt(a, c)
  {
    if b != c { LtTransitive(a, b, c); }
  }
}
