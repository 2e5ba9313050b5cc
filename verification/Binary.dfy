/** Powers of two and bit lengths. */
module Binary {

  function Pow2(n: nat): int {
    if n == 0 then 1 else 2 * Pow2(n - 1)
  }

  lemma {:induction false} Pow2Sum(a: nat, b: nat)
    ensures Pow2(a + b) == Pow2(a) * Pow2(b)
  {
    if a > 0 { Pow2Sum(a - 1, b); }
  }

  lemma Pow2Double(n: nat, p: int)
    requires Pow2(n) == p
    ensures Pow2(2 * n) == p * p
  {
    Pow2Sum(n, n);
  }

  lemma Pow2At64()
    ensures Pow2(64) == 0x1_0000_0000_0000_0000
  {
    assert Pow2(8) == 256;
    Pow2Double(8, 0x100);
    Pow2Double(16, 0x1_0000);
    Pow2Double(32, 0x1_0000_0000);
  }

  lemma Pow2At255()
    ensures Pow2(255) == 0x8000_0000_0000_0000_0000_0000_0000_0000_0000_0000_0000_0000_0000_0000_0000_0000
  {
    Pow2At64();
    Pow2Double(64, 0x1_0000_0000_0000_0000);
    Pow2Double(128, 0x1_0000_0000_0000_0000_0000_0000_0000_0000);
    assert Pow2(256) == 2 * Pow2(255);
  }

  lemma Pow2At315()
    ensures Pow2(315) == 0x1000_0000_0000_0000 * Pow2(255)
  {
    Pow2At64();
    Pow2Sum(4, 60);
    assert Pow2(4) == 16;
    Pow2Sum(60, 255);
  }

  /** `big.Int.BitLen`: how often the magnitude can be halved until nothing is left. */
  function BitLen(x: int): nat
    decreases if x < 0 then -x else x
  {
    if x == 0 then 0 else 1 + BitLen((if x < 0 then -x else x) / 2)
  }

  /** A number has at most `n` bits if and only if its magnitude is below the `n`-th power of two. */
  lemma {:induction false} BitLenIff(x: int, n: nat)
    ensures BitLen(x) <= n <==> -Pow2(n) < x < Pow2(n)
    decreases n
  {
    if n > 0 { BitLenIff((if x < 0 then -x else x) / 2, n - 1); }
  }
}
