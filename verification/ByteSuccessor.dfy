/** `cpIncr`: the big-endian increment that the range prover uses as the next key. */
module ByteSuccessor {
  import opened Bytes

  predicate AllFF(b: Bytes) {
    forall i :: 0 <= i < |b| ==> b[i] == 255
  }

  function Zeros(n: nat): (z: Bytes)
    ensures |z| == n && forall i :: 0 <= i < n ==> z[i] == 0
  {
    seq(n, _ => 0)
  }

  /** Increments the last byte that is not 0xFF and clears those after it; all-0xFF becomes one zero byte longer. */
  function CpIncr(b: Bytes): Bytes {
    if AllFF(b) then Zeros(|b| + 1) else Incr(b)
  }

  function Incr(b: Bytes): (r: Bytes)
    requires !AllFF(b)
    ensures |r| == |b|
  {
    var last := |b| - 1;
    if b[last] < 255 then b[last := b[last] + 1] else Incr(b[..last]) + [0]
  }

  lemma TailInit(a: Bytes)
    requires |a| > 1
    ensures a[1..][..|a| - 2] == a[..|a| - 1][1..]
  {
    assert a[1..][..|a| - 2] == a[1..|a| - 1];
    assert a[..|a| - 1][1..] == a[1..|a| - 1];
  }

  /** The order of two strings of one width, seen from the last byte. */
  lemma {:induction false} LtSnoc(a: Bytes, b: Bytes)
    requires |a| == |b| > 0
    ensures var n := |a| - 1; Lt(a, b) <==> Lt(a[..n], b[..n]) || (a[..n] == b[..n] && a[n] < b[n])
  {
    var n := |a| - 1;
    if n > 0 {
      LtSnoc(a[1..], b[1..]);
      TailInit(a);
      TailInit(b);
      assert a[..n] == [a[0]] + a[..n][1..] && b[..n] == [b[0]] + b[..n][1..];
    }
  }

  /** At one width, the increment is the next key: nothing lies between. */
  lemma {:induction false} IncrIsNext(a: Bytes, b: Bytes)
    requires |a| == |b| && !AllFF(a)
    ensures Lt(a, b) <==> Le(Incr(a), b)
  {
    var n := |a| - 1;
    var c := Incr(a);
    LtSnoc(a, b);
    LtSnoc(c, b);
    assert a == a[..n] + [a[n]] && b == b[..n] + [b[n]] && c == c[..n] + [c[n]];
    if a[n] == 255 {
      IncrIsNext(a[..n], b[..n]);
      assert c[..n] == Incr(a[..n]);
    } else {
      assert c[..n] == a[..n];
    }
  }

  /** `cpIncr` as it runs, on a copy of the key from the last byte on. */
  method RunCpIncr(b: Bytes) returns (r: Bytes)
    ensures r == CpIncr(b)
  {
    r := b;
    var i := |b|;
    while i > 0
      invariant 0 <= i <= |b| == |r|
      invariant forall j :: i <= j < |b| ==> b[j] == 255
      invariant r == b[..i] + Zeros(|b| - i)
    {
      i := i - 1;
      if r[i] < 255 {
        r := r[i := r[i] + 1];
        IncrAt(b, i);
        return;
      }
      r := r[i := 0];
    }
    r := Zeros(|b| + 1);
  }

  lemma {:induction false} IncrAt(b: Bytes, i: nat)
    requires i < |b| && b[i] < 255 && forall j :: i < j < |b| ==> b[j] == 255
    ensures CpIncr(b) == b[..i] + [b[i] + 1] + Zeros(|b| - i - 1)
  {
    var last := |b| - 1;
    if i < last {
      IncrAt(b[..last], i);
      assert b[..last][..i] == b[..i];
      assert Zeros(last - i - 1) + [0] == Zeros(last - i);
    }
  }
}
