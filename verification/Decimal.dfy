/** Fixed-point decimals with 18 places, held as the integer that is 10^18 times the value. */
module Decimal {
  import opened Binary
  import opened Bytes

  const ONE: int := 1_000_000_000_000_000_000
  const HALF: int := 500_000_000_000_000_000

  function Abs(x: int): nat {
    if x < 0 then -x else x
  }

  function Sign(x: int): int {
    if x < 0 then -1 else 1
  }

  /** `big.Int.Quo`: division rounding toward zero. */
  function Quotient(a: int, b: int): int
    requires b != 0
  {
    Sign(a) * Sign(b) * (Abs(a) / Abs(b))
  }

  // ---------- chopping ----------

  /** `chopPrecisionAndRound`: removes 18 digits with banker's rounding. */
  function ChopRound(d: int): int
    decreases d < 0
  {
    if d < 0 then -ChopRound(-d)
    else
      var quo, rem := d / ONE, d % ONE;
      if rem == 0 then quo
      else if rem < HALF then quo
      else if rem > HALF then quo + 1
      else if quo % 2 == 0 then quo else quo + 1
  }

  /** `chopPrecisionAndTruncate`. */
  function ChopTruncate(d: int): int {
    Quotient(d, ONE)
  }

  /** `c` is the integer nearest to `n / m`, and the even one of two that are equally near. */
  predicate Nearest(c: int, n: int, m: int) {
    var off := 2 * Abs(c * m - n);
    off < Abs(m) || (off == Abs(m) && c % 2 == 0)
  }

  /** Banker's rounding is rounding to nearest, ties to even: it meets that description, and nothing else does. */
  lemma ChopRoundNearest(d: int, c: int)
    ensures Nearest(c, d, ONE) <==> c == ChopRound(d)
  {
    if d < 0 {
      NearestNegated(c, d, ONE);
      ChopRoundNatural(-d, -c);
    } else {
      ChopRoundNatural(d, c);
    }
  }

  lemma ChopRoundNatural(d: nat, c: int)
    ensures Nearest(c, d, ONE) <==> c == ChopRound(d)
  {
    var quo, rem := d / ONE, d % ONE;
    assert c * ONE - d == (c - quo) * ONE - rem;
  }

  lemma NearestNegated(c: int, n: int, m: int)
    ensures Nearest(-c, -n, m) <==> Nearest(c, n, m)
  {
    assert -c * m - -n == -(c * m - n);
  }

  lemma ChopRoundOdd(d: int)
    ensures ChopRound(-d) == -ChopRound(d)
  {
  }

  // ---------- multiplication ----------

  /** Results of more than 315 bits panic. */
  const DEC_LIMIT: int :=
    0x8_000000000000_000000000000_000000000000_000000000000_000000000000_000000000000_000000

  predicate DecFits(x: int) {
    -DEC_LIMIT < x < DEC_LIMIT
  }

  /** What fits is what has at most 255 bits and the 60 of the precision. */
  lemma DecFitsIff(x: int)
    ensures DecFits(x) <==> BitLen(x) <= 255 + 60
  {
    Pow2At255();
    Pow2At315();
    BitLenIff(x, 315);
  }

  function Checked(x: int): Option<int> {
    if DecFits(x) then Some(x) else None
  }

  function Mul(x: int, y: int): Option<int> {
    Checked(ChopRound(x * y))
  }

  function MulTruncate(x: int, y: int): Option<int> {
    Checked(ChopTruncate(x * y))
  }

  function Negated(r: Option<int>): Option<int> {
    if r.Some? then Some(-r.value) else None
  }

  /** `Mul` is the product to the nearest 18-digit value, ties to even. */
  lemma MulNearest(x: int, y: int, c: int)
    ensures Mul(x, y) == Some(c) <==> DecFits(c) && Nearest(c, x * y, ONE)
  {
    ChopRoundNearest(x * y, c);
  }

  /** `Mul` is odd in each argument, and commutes. */
  lemma MulOdd(x: int, y: int)
    ensures Mul(-x, y) == Negated(Mul(x, y)) == Mul(x, -y) && Mul(x, y) == Mul(y, x)
  {
    assert -x * y == -(x * y) == x * -y;
    ChopRoundOdd(x * y);
  }

  /** `c` is `n / m` without its fraction: rounded toward zero. */
  predicate Truncates(c: int, n: int, m: int) {
    Abs(c) * Abs(m) <= Abs(n) < (Abs(c) + 1) * Abs(m) && (c > 0 ==> (n > 0 <==> m > 0)) && (c < 0 ==> (n > 0 <==> m < 0))
  }

  /** `MulTruncate` is the product rounded toward zero. */
  lemma MulTruncateExact(x: int, y: int, c: int)
    ensures MulTruncate(x, y) == Some(c) <==> DecFits(c) && Truncates(c, x * y, ONE)
  {
    QuotientOnly(x * y, ONE, c);
  }

  /** `big.Int.Quo` meets that description, and nothing else does. */
  lemma QuotientOnly(n: int, m: int, c: int)
    requires m != 0
    ensures Truncates(c, n, m) <==> c == Quotient(n, m)
  {
    var q, u := DivMod(Abs(n), Abs(m));
    SignProduct(Sign(n), Sign(m), q);
    if Truncates(c, n, m) {
      DivisionUnique(Abs(n), Abs(m), Abs(c), Abs(n) - Abs(c) * Abs(m));
      if c != 0 { ProductSign(Abs(c), Abs(m)); }
    }
    if q > 0 { ProductSign(q, Abs(m)); }
  }

  /** `MulTruncate` is odd in each argument, and commutes. */
  lemma MulTruncateOdd(x: int, y: int)
    ensures MulTruncate(-x, y) == Negated(MulTruncate(x, y)) == MulTruncate(x, -y) && MulTruncate(x, y) == MulTruncate(y, x)
  {
    assert -x * y == -(x * y) == x * -y;
    TruncateOdd(x * y);
  }

  lemma TruncateOdd(d: int)
    ensures ChopTruncate(-d) == -ChopTruncate(d)
  {
    SignProduct(Sign(d), Sign(ONE), Abs(d) / ONE);
    SignProduct(Sign(-d), Sign(ONE), Abs(-d) / ONE);
  }

  // ---------- division ----------

  function Quo(x: int, y: int): Option<int>
    requires y != 0
  {
    Checked(ChopRound(Quotient(x * ONE * ONE, y)))
  }

  function QuoTruncate(x: int, y: int): Option<int>
    requires y != 0
  {
    Checked(ChopTruncate(Quotient(x * ONE * ONE, y)))
  }

  lemma ProductSign(e: int, b: int)
    requires b > 0
    ensures (e >= 1 ==> e * b >= b) && (e <= -1 ==> e * b <= -b)
  {
  }

  lemma DivisionUnique(a: nat, b: nat, q: int, r: int)
    requires b > 0 && a == q * b + r && 0 <= r < b
    ensures q == a / b && r == a % b
  {
    var e := a / b - q;
    assert e * b == r - a % b;
    ProductSign(e, b);
  }

  /** Scaling before a division and chopping after it changes nothing. */
  lemma NestedDivision(a: nat, y: nat, p: nat)
    requires y > 0 && p > 0
    ensures (a * p / y) / p == a / y
  {
    var q, r := a / y, a % y;
    var s, t := r * p / y, r * p % y;
    ScaledDivision(a, y, p, q, r, s, t);
    ScaledRemainder(y, p, r, s, t);
    DivisionUnique(a * p, y, q * p + s, t);
    DivisionUnique(q * p + s, p, q, s);
  }

  lemma ScaledDivision(a: int, y: int, p: int, q: int, r: int, s: int, t: int)
    requires a == q * y + r && r * p == s * y + t
    ensures a * p == (q * p + s) * y + t
  {
    assert a * p == (q * y) * p + r * p;
    assert (q * y) * p == (q * p) * y;
    assert (q * p + s) * y == (q * p) * y + s * y;
  }

  lemma ScaledRemainder(y: int, p: int, r: int, s: int, t: int)
    requires 0 <= r < y && p > 0 && r * p == s * y + t && 0 <= t < y
    ensures 0 <= s < p
  {
    assert (s - p) * y == (r - y) * p - t by { assert (s - p) * y == s * y - p * y && (r - y) * p == r * p - y * p; }
    ProductSign(r - y, p);
    ProductSign(s - p, y);
    ProductSign(s, y);
    if r > 0 { ProductSign(r, p); }
  }

  lemma AbsProduct(x: int, k: nat)
    requires k > 0
    ensures Abs(x * k) == Abs(x) * k && (x != 0 ==> Sign(x * k) == Sign(x))
  {
    ProductSign(x, k);
    assert -x * k == -(x * k);
  }

  lemma QuotientAbs(a: int, b: int)
    requires b != 0
    ensures Abs(Quotient(a, b)) == Abs(a) / Abs(b)
    ensures Quotient(a, b) != 0 ==> Sign(Quotient(a, b)) == Sign(a) * Sign(b)
  {
  }

  /** The two nested truncations of `QuoTruncate` are one truncated division, for all signs. */
  lemma QuoTruncateOnce(x: int, y: int)
    requires y != 0
    ensures QuoTruncate(x, y) == Checked(Quotient(x * ONE, y))
  {
    var n := Abs(x * ONE);
    AbsProduct(x, ONE);
    AbsProduct(x * ONE, ONE);
    var q := Quotient(x * ONE * ONE, y);
    QuotientAbs(x * ONE * ONE, y);
    NestedDivision(n, Abs(y), ONE);
    assert Abs(q) / ONE == n / Abs(y);
    if x == 0 {
      assert n / Abs(y) == 0;
    } else if q == 0 {
      assert n / Abs(y) == 0;
    }
  }

  /** `QuoTruncate` is the quotient rounded toward zero. */
  lemma QuoTruncateExact(x: int, y: int, c: int)
    requires y != 0
    ensures QuoTruncate(x, y) == Some(c) <==> DecFits(c) && Truncates(c, x * ONE, y)
  {
    QuoTruncateOnce(x, y);
    QuotientOnly(x * ONE, y, c);
  }

  /** The rounded result for magnitudes: `n` is the scaled dividend, `m` the divisor. */
  function QuoNatural(n: nat, m: nat): int
    requires m > 0
  {
    ChopRound(n * ONE / m)
  }

  /** `Quo` treats magnitudes and signs apart. */
  lemma QuoBySign(x: int, y: int)
    requires y != 0
    ensures ChopRound(Quotient(x * ONE * ONE, y)) == Sign(x) * Sign(y) * QuoNatural(Abs(x) * ONE, Abs(y))
  {
    AbsProduct(x, ONE);
    AbsProduct(x * ONE, ONE);
    SignedChop(x * ONE * ONE, y, Sign(x));
  }

  lemma SignedChop(a: int, y: int, s: int)
    requires y != 0 && (a != 0 ==> s == Sign(a)) && (s == 1 || s == -1)
    ensures ChopRound(Quotient(a, y)) == s * Sign(y) * ChopRound(Abs(a) / Abs(y))
  {
    var t := Abs(a) / Abs(y);
    SignProduct(Sign(a), Sign(y), t);
    SignProduct(s, Sign(y), ChopRound(t));
    ChopRoundOdd(t);
    if a == 0 { ZeroQuotient(Abs(y)); }
  }

  lemma SignProduct(s1: int, s2: int, t: int)
    requires (s1 == 1 || s1 == -1) && (s2 == 1 || s2 == -1)
    ensures s1 * s2 * t == if s1 == s2 then t else -t
  {
  }

  lemma ZeroQuotient(m: nat)
    requires m > 0
    ensures 0 / m == 0
  {
  }

  /** And so does its error. */
  lemma ErrorBySign(x: int, y: int, c: int)
    requires y != 0
    ensures Abs((Sign(x) * Sign(y) * c) * y - x * ONE) == Abs(c * Abs(y) - Abs(x) * ONE)
  {
    assert c * -y == -(c * y) && -c * y == -(c * y);
  }

  /** How far the rounding moved, in terms of the inexact first quotient. */
  lemma QuoOffset(n: nat, m: nat, c: int, t: int, u: int)
    requires m > 0 && n * ONE == t * m + u
    ensures (c * m - n) * ONE == (c * ONE - t) * m - u
  {
    assert (c * m - n) * ONE == (c * m) * ONE - n * ONE;
    assert (c * m) * ONE == (c * ONE) * m;
    assert (c * ONE - t) * m == (c * ONE) * m - t * m;
  }

  lemma ProductBounds(e: int, m: int, k: int)
    requires m > 0 && -k <= e <= k
    ensures -(k * m) <= e * m <= k * m
  {
    ProductSign(k - e, m);
    ProductSign(k + e, m);
    assert (k - e) * m == k * m - e * m && (k + e) * m == k * m + e * m;
  }

  lemma ErrorNatural(c: int, n: nat, m: nat, t: nat, u: nat)
    requires m > 0 && u < m && Nearest(c, t, ONE) && (c * m - n) * ONE == (c * ONE - t) * m - u
    ensures 2 * ONE * Abs(c * m - n) < (ONE + 2) * m
  {
    ProductBounds(c * ONE - t, m, HALF);
  }

  /** The truncated first quotient is exactly half a unit over an even result, although the true quotient is above that. */
  predicate FalseTie(x: int, y: int)
    requires y != 0
  {
    var t, u := Abs(x) * ONE * ONE / Abs(y), Abs(x) * ONE * ONE % Abs(y);
    t % ONE == HALF && u != 0 && t / ONE % 2 == 0
  }

  /** The quotient before it is checked for overflow. */
  function RawQuo(x: int, y: int): int
    requires y != 0
  {
    ChopRound(Quotient(x * ONE * ONE, y))
  }

  /** The parts of a quotient: the magnitudes `n` and `m`, the first quotient `t` with rest `u`, and the rounded `c`. */
  lemma QuoParts(x: int, y: int) returns (n: nat, m: nat, t: nat, u: nat, c: int)
    requires y != 0
    ensures m == Abs(y) && n == Abs(x) * ONE && u < m && c == ChopRound(t) && RawQuo(x, y) == Sign(x) * Sign(y) * c
    ensures (c * m - n) * ONE == (c * ONE - t) * m - u
    ensures FalseTie(x, y) <==> t % ONE == HALF && u != 0 && t / ONE % 2 == 0
  {
    n, m := Abs(x) * ONE, Abs(y);
    t, u := DivMod(n * ONE, m);
    c := QuoNatural(n, m);
    QuoBySign(x, y);
    QuoOffset(n, m, c, t, u);
  }

  lemma DivMod(a: nat, m: nat) returns (t: nat, u: nat)
    requires m > 0
    ensures t == a / m && u == a % m && a == t * m + u && u < m
  {
    t, u := a / m, a % m;
  }

  /** Within how much of the exact quotient a result may lie that was truncated and then rounded. */
  predicate NearQuo(q: int, x: int, y: int) {
    2 * ONE * Abs(q * y - x * ONE) < (ONE + 2) * Abs(y)
  }

  lemma RawQuoError(x: int, y: int)
    requires y != 0
    ensures NearQuo(RawQuo(x, y), x, y) && (Nearest(RawQuo(x, y), x * ONE, y) <==> !FalseTie(x, y))
  {
    var n, m, t, u, c := QuoParts(x, y);
    ChopRoundNearest(t, c);
    ErrorNatural(c, n, m, t, u);
    NearestNatural(c, n, m, t, u);
    MagnitudeOf(c, x, y);
  }

  /** An integer under the sign of the quotient is as far from it as the integer is from the quotient of magnitudes. */
  lemma MagnitudeOf(c: int, x: int, y: int)
    requires y != 0
    ensures var q := Sign(x) * Sign(y) * c;
            Abs(q * y - x * ONE) == Abs(c * Abs(y) - Abs(x) * ONE) && (Nearest(q, x * ONE, y) <==> Nearest(c, Abs(x) * ONE, Abs(y)))
  {
    ErrorBySign(x, y, c);
    SignProduct(Sign(x), Sign(y), c);
  }

  /** `Quo` truncates and then rounds, so it is within 1/2 + 10^-18 units of the exact quotient. */
  lemma QuoError(x: int, y: int, q: int)
    requires y != 0 && Quo(x, y) == Some(q)
    ensures NearQuo(q, x, y)
  {
    RawQuoError(x, y);
  }

  /** `Quo` is the nearest 18-digit value, ties to even, except exactly in those cases. */
  lemma QuoNearestIff(x: int, y: int, q: int)
    requires y != 0 && Quo(x, y) == Some(q)
    ensures Nearest(q, x * ONE, y) <==> !FalseTie(x, y)
  {
    RawQuoError(x, y);
  }

  /** That fixes the quotient: `Quo` returns `q` if and only if it fits, lies that near, and is the nearest value
      unless there is a false tie. */
  lemma QuoExact(x: int, y: int, q: int)
    requires y != 0
    ensures Quo(x, y) == Some(q) <==> DecFits(q) && NearQuo(q, x, y) && (Nearest(q, x * ONE, y) <==> !FalseTie(x, y))
  {
    RawQuoError(x, y);
    if NearQuo(q, x, y) && (Nearest(q, x * ONE, y) <==> !FalseTie(x, y)) { RawQuoOnly(x, y, q); }
  }

  lemma RawQuoOnly(x: int, y: int, q: int)
    requires y != 0 && NearQuo(q, x, y) && (Nearest(q, x * ONE, y) <==> !FalseTie(x, y))
    ensures q == RawQuo(x, y)
  {
    var n, m, t, u, c := QuoParts(x, y);
    var d := Sign(x) * Sign(y) * q;
    SignProduct(Sign(x), Sign(y), q);
    SignProduct(Sign(x), Sign(y), d);
    SignProduct(Sign(x), Sign(y), c);
    MagnitudeOf(d, x, y);
    RawQuoError(x, y);
    MagnitudeOf(c, x, y);
    if FalseTie(x, y) { OnlyTied(c, d, n, m, t, u); } else { NearestUnique(c, d, n, m); }
  }

  lemma Apart(c: int, d: int, n: int, m: int)
    requires m > 0 && Abs(c * m - n) + Abs(d * m - n) < 2 * m
    ensures -1 <= c - d <= 1 && (c * m - n) - (d * m - n) == (c - d) * m
  {
    ProductSign(c - d - 1, m);
    ProductSign(c - d + 1, m);
    assert (c - d) * m == c * m - d * m;
    assert (c - d - 1) * m == (c - d) * m - m && (c - d + 1) * m == (c - d) * m + m;
  }

  /** There is one nearest value. */
  lemma NearestUnique(c: int, d: int, n: int, m: int)
    requires m > 0 && Nearest(c, n, m) && Nearest(d, n, m)
    ensures c == d
  {
    Apart(c, d, n, m);
  }

  /** Of two values that near to a false tie, one is the nearest and the other is the result. */
  lemma OnlyTied(c: int, d: int, n: nat, m: nat, t: nat, u: nat)
    requires m > 0 && u < m && c == ChopRound(t) && (c * m - n) * ONE == (c * ONE - t) * m - u
    requires t % ONE == HALF && u != 0 && t / ONE % 2 == 0
    requires 2 * ONE * Abs(c * m - n) < (ONE + 2) * m && 2 * ONE * Abs(d * m - n) < (ONE + 2) * m && !Nearest(d, n, m)
    ensures c == d
  {
    assert c * ONE - t == -HALF;
    Apart(c, d, n, m);
    if c - d == 1 {
      TiedOffsets(c * m - n, d * m - n, m, u, 1);
    } else if c - d == -1 {
      TiedOffsets(c * m - n, d * m - n, m, u, -1);
    }
  }

  lemma TiedOffsets(a: int, b: int, m: int, u: int, e: int)
    requires a * ONE == -HALF * m - u && 0 < u < m && (e == 1 || e == -1) && a - b == e * m
    ensures 2 * Abs(b) < m || 2 * ONE * Abs(b) >= (ONE + 2) * m
  {
  }

  lemma NearestNatural(c: int, n: nat, m: nat, t: nat, u: nat)
    requires m > 0 && u < m && c == ChopRound(t) && (c * m - n) * ONE == (c * ONE - t) * m - u
    ensures Nearest(c, n, m) <==> !(t % ONE == HALF && u != 0 && t / ONE % 2 == 0)
  {
    var e := c * ONE - t;
    if t % ONE == HALF {
      assert e == HALF || e == -HALF;
      assert e == -HALF <==> t / ONE % 2 == 0;
    } else {
      assert -(HALF - 1) <= e <= HALF - 1;
      ProductBounds(e, m, HALF - 1);
    }
  }

  /** Such a case: 1 divided by 2 - 10^-36, in units of 10^-18, is above one half but gives zero. */
  lemma QuoNotNearest() returns (x: int, y: int)
    ensures x == ONE && y == 2 * ONE * ONE - 1
    ensures y != 0 && Quo(x, y) == Some(0) && !Nearest(0, x * ONE, y)
  {
    x, y := ONE, 2 * ONE * ONE - 1;
    var t := HALF;
    DivisionUnique(x * ONE * ONE, y, t, x * ONE * ONE - t * y);
    assert Quo(x, y) == Some(0);
    QuoNearestIff(x, y, 0);
  }
}
