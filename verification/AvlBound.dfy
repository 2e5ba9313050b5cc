/** What AVL balance buys: a tree of height h has at least Fib(h + 2) leaves, so heights stay far below the `int8` limit. */
module AvlBound {
  import opened Binary
  import opened Tree
  import opened TreeReads

  function Fib(n: nat): nat {
    if n < 2 then n else Fib(n - 1) + Fib(n - 2)
  }

  lemma {:induction false} FibMonotone(m: nat, n: nat)
    requires m <= n
    ensures Fib(m) <= Fib(n)
    decreases n
  {
    if m < n && n >= 2 { FibMonotone(m, n - 1); }
  }

  /** Two subtrees that are at most one level apart. */
  lemma FibStep(a: nat, b: nat)
    requires -1 <= a - b <= 1
    ensures Fib(Max(a, b) + 3) <= Fib(a + 2) + Fib(b + 2)
  {
    var high, low := Max(a, b), if a < b then a else b;
    FibMonotone(high + 1, low + 2);
    assert Fib(high + 3) == Fib(high + 2) + Fib(high + 1);
  }

  /** The AVL bound, on trees of any height. */
  lemma {:induction false} LeavesOfHeight(n: Node)
    requires Wf(n)
    ensures Height(n) >= 0 && |Leaves(n)| >= Fib(Height(n) + 2)
  {
    if n.Inner? {
      LeavesOfHeight(n.left);
      LeavesOfHeight(n.right);
      FibStep(Height(n.left), Height(n.right));
    } else {
      assert Fib(2) == 1;
    }
  }

  /** Fibonacci numbers double every two steps. */
  lemma {:induction false} FibDoubles(n: nat)
    ensures Fib(2 * n + 2) >= Pow2(n)
  {
    if n > 0 {
      FibDoubles(n - 1);
      FibMonotone(2 * n, 2 * n + 1);
      assert Fib(2 * n + 2) == Fib(2 * n + 1) + Fib(2 * n);
    }
  }

  /** The height is at most twice the binary logarithm of the size. */
  lemma HeightBound(n: Node, bits: nat)
    requires Wf(n) && Size(n) < Pow2(bits)
    ensures Height(n) < 2 * bits
  {
    LeavesOfHeight(n);
    LeavesSorted(n);
    FibDoubles(bits);
    if Height(n) >= 2 * bits { FibMonotone(2 * bits + 2, Height(n) + 2); }
  }

  /** No well-formed tree whose size fits `int64` has a height that overflows `int8`. */
  lemma HeightFitsInt8(n: Node)
    requires Wf(n) && Size(n) <= 0x7FFF_FFFF_FFFF_FFFF
    ensures Height(n) <= 125
  {
    Pow2At64();
    assert Pow2(64) == 2 * Pow2(63);
    HeightBound(n, 63);
  }
}
