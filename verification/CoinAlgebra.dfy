/** The algebra of coin sets: addition and subtraction are pointwise, exact about overflow, and inverse to each other. */
module CoinAlgebra {
  import opened Bytes
  import opened CoinSets

  /** A coin set in normal form, with amounts that fit. */
  predicate Canonical(c: Coins) {
    Sorted(c) && NoZeros(c) && AllFit(c)
  }

  ghost predicate SumsFit(a: Coins, b: Coins) {
    forall d :: Fits(Amount(a, d) + Amount(b, d))
  }

  ghost predicate Adds(s: Coins, a: Coins, b: Coins) {
    forall d :: Amount(s, d) == Amount(a, d) + Amount(b, d)
  }

  /** The first coin, dropped if zero, counts for its denomination and for no other. */
  lemma FirstCoin(x: Coin, c: Coins)
    requires Canonical(c) && AllAbove(x.denom, c) && Fits(x.amount)
    ensures Canonical(NonZero(x) + c)
    ensures forall d :: Amount(NonZero(x) + c, d) == if d == x.denom then x.amount else Amount(c, d)
  {
    AmountBelow(x.denom, c);
    if x.amount == 0 {
      assert NonZero(x) + c == c;
    } else {
      SortedCons(x, c);
      assert (NonZero(x) + c)[1..] == c;
    }
  }

  lemma {:induction false} RemoveZerosMeaning(c: Coins)
    requires Sorted(c) && AllFit(c)
    ensures Canonical(RemoveZeros(c)) && forall d :: Amount(RemoveZeros(c), d) == Amount(c, d)
    ensures forall k :: AllAbove(k, c) ==> AllAbove(k, RemoveZeros(c))
  {
    if c != [] {
      SortedTail(c);
      RemoveZerosMeaning(c[1..]);
      FirstCoin(c[0], RemoveZeros(c[1..]));
      forall k | AllAbove(k, c) ensures AllAbove(k, RemoveZeros(c)) { assert AllAbove(k, c[1..]); }
    }
  }

  lemma {:induction false} SafeAddAbove(k: Denom, a: Coins, b: Coins)
    requires Sorted(a) && Sorted(b) && AllFit(a) && AllFit(b)
    requires AllAbove(k, a) && AllAbove(k, b) && SafeAdd(a, b).Some?
    ensures AllAbove(k, SafeAdd(a, b).value)
    decreases |a| + |b|
  {
    if a == [] {
      RemoveZerosMeaning(b);
    } else if b == [] {
      RemoveZerosMeaning(a);
    } else {
      SortedTail(a);
      SortedTail(b);
      if a[0].denom == b[0].denom {
        SafeAddAbove(k, a[1..], b[1..]);
      } else if Lt(a[0].denom, b[0].denom) {
        SafeAddAbove(k, a[1..], b);
      } else {
        SafeAddAbove(k, a, b[1..]);
      }
    }
  }

  /** What `safeAdd` promises, for sorted sets: it overflows exactly if some sum does, and otherwise returns the
      normal form of the pointwise sum. */
  ghost predicate AddsExactly(a: Coins, b: Coins) {
    var r := SafeAdd(a, b);
    (r.Some? <==> SumsFit(a, b)) && (r.Some? ==> Canonical(r.value) && Adds(r.value, a, b))
  }

  lemma {:induction false} SafeAddExact(a: Coins, b: Coins)
    requires Sorted(a) && Sorted(b) && AllFit(a) && AllFit(b)
    ensures AddsExactly(a, b)
    decreases |a| + |b|
  {
    if a == [] {
      AmountsFit(b);
      RemoveZerosMeaning(b);
    } else if b == [] {
      AmountsFit(a);
      RemoveZerosMeaning(a);
    } else {
      SortedTail(a);
      SortedTail(b);
      LtTrichotomy(a[0].denom, b[0].denom);
      if a[0].denom == b[0].denom {
        SafeAddExact(a[1..], b[1..]);
        AddFirst(a, b, Coin(a[0].denom, a[0].amount + b[0].amount), a[1..], b[1..]);
      } else if Lt(a[0].denom, b[0].denom) {
        SafeAddExact(a[1..], b);
        AllAboveTransitive(a[0].denom, b[0].denom, b[1..]);
        AmountBelow(a[0].denom, b);
        AddFirst(a, b, a[0], a[1..], b);
      } else {
        SafeAddExact(a, b[1..]);
        AllAboveTransitive(b[0].denom, a[0].denom, a[1..]);
        AmountBelow(b[0].denom, a);
        LtAsymmetric(b[0].denom, a[0].denom);
        AddFirst(a, b, b[0], a, b[1..]);
      }
    }
  }

  lemma LtAsymmetric(x: Denom, y: Denom)
    requires Lt(x, y)
    ensures !Lt(y, x) && x != y
  {
    LtTotalOrder();
  }

  lemma {:induction false} AmountsFit(c: Coins)
    requires AllFit(c)
    ensures forall d :: Fits(Amount(c, d))
  {
    if c != [] { AmountsFit(c[1..]); }
  }

  /** One step: `x` is the sum at the least denomination, and `a1`, `b1` hold what lies above it. */
  lemma AddFirst(a: Coins, b: Coins, x: Coin, a1: Coins, b1: Coins)
    requires Sorted(a1) && Sorted(b1) && AllFit(a1) && AllFit(b1)
    requires AllAbove(x.denom, a1) && AllAbove(x.denom, b1) && AddsExactly(a1, b1)
    requires forall d :: Amount(a, d) + Amount(b, d) == if d == x.denom then x.amount else Amount(a1, d) + Amount(b1, d)
    requires SafeAdd(a, b) == if Fits(x.amount) then Prepend(x, SafeAdd(a1, b1)) else None
    ensures AddsExactly(a, b)
  {
    AmountBelow(x.denom, a1);
    AmountBelow(x.denom, b1);
    assert Fits(Amount(a, x.denom) + Amount(b, x.denom)) <==> Fits(x.amount);
    FitsFirst(a, b, x, a1, b1);
    if Fits(x.amount) && SafeAdd(a1, b1).Some? {
      SafeAddAbove(x.denom, a1, b1);
      FirstCoin(x, SafeAdd(a1, b1).value);
    }
  }

  lemma FitsFirst(a: Coins, b: Coins, x: Coin, a1: Coins, b1: Coins)
    requires Amount(a1, x.denom) == 0 == Amount(b1, x.denom)
    requires forall d :: Amount(a, d) + Amount(b, d) == if d == x.denom then x.amount else Amount(a1, d) + Amount(b1, d)
    ensures SumsFit(a, b) <==> Fits(x.amount) && SumsFit(a1, b1)
  {
    if SumsFit(a, b) {
      assert Fits(Amount(a, x.denom) + Amount(b, x.denom));
      forall d ensures Fits(Amount(a1, d) + Amount(b1, d)) {
        assert Fits(Amount(a, d) + Amount(b, d));
      }
    }
    if Fits(x.amount) && SumsFit(a1, b1) {
      forall d ensures Fits(Amount(a, d) + Amount(b, d)) {
        assert Fits(Amount(a1, d) + Amount(b1, d));
      }
    }
  }

  /** Addition is commutative, overflow included. */
  lemma SafeAddCommutes(a: Coins, b: Coins)
    requires Sorted(a) && Sorted(b) && AllFit(a) && AllFit(b)
    ensures SafeAdd(a, b) == SafeAdd(b, a)
  {
    SafeAddExact(a, b);
    SafeAddExact(b, a);
    assert SumsFit(a, b) <==> SumsFit(b, a) by {
      if SumsFit(a, b) { forall d ensures Fits(Amount(b, d) + Amount(a, d)) { assert Fits(Amount(a, d) + Amount(b, d)); } }
      if SumsFit(b, a) { forall d ensures Fits(Amount(a, d) + Amount(b, d)) { assert Fits(Amount(b, d) + Amount(a, d)); } }
    }
    if SafeAdd(a, b).Some? { CanonicalUnique(SafeAdd(a, b).value, SafeAdd(b, a).value); }
  }

  // ---------- subtraction ----------

  /** `negative`. */
  function Negative(c: Coins): Coins {
    seq(|c|, i requires 0 <= i < |c| => Coin(c[i].denom, -c[i].amount))
  }

  lemma {:induction false} NegativeAmount(c: Coins, d: Denom)
    ensures Amount(Negative(c), d) == -Amount(c, d)
  {
    if c != [] {
      assert Negative(c)[1..] == Negative(c[1..]);
      NegativeAmount(c[1..], d);
    }
  }

  /** `IsAnyNegative`. */
  predicate AnyNegative(c: Coins) {
    exists i :: 0 <= i < |c| && c[i].amount < 0
  }

  /** `SafeSub`: the difference and whether some amount of it is negative; absent on overflow. */
  function SafeSub(a: Coins, b: Coins): Option<(Coins, bool)> {
    var diff := SafeAdd(a, Negative(b));
    if diff.None? then None else Some((diff.value, AnyNegative(diff.value)))
  }

  /** The loops of `negative` and `IsAnyNegative`, around that of `safeAdd`. */
  method RunSafeSub(coins: Coins, coinsB: Coins) returns (r: Option<(Coins, bool)>)
    ensures r == SafeSub(coins, coinsB)
  {
    var neg: Coins := [];
    for i := 0 to |coinsB|
      invariant neg == Negative(coinsB)[..i]
    {
      neg := neg + [Coin(coinsB[i].denom, -coinsB[i].amount)];
    }
    assert neg == Negative(coinsB);
    var diff := RunSafeAdd(coins, neg);
    if diff.None? { return None; }
    for i := 0 to |diff.value|
      invariant forall j :: 0 <= j < i ==> diff.value[j].amount >= 0
    {
      if diff.value[i].amount < 0 { return Some((diff.value, true)); }
    }
    r := Some((diff.value, false));
  }

  /** A coin set as `IsValid` wants it, as far as amounts and order go. */
  predicate Positive(c: Coins) {
    Sorted(c) && AllFit(c) && forall i :: 0 <= i < |c| ==> c[i].amount > 0
  }

  lemma {:induction false} PositiveAmounts(c: Coins)
    requires Positive(c)
    ensures forall d :: 0 <= Amount(c, d) < LIMIT
  {
    if c != [] { PositiveAmounts(c[1..]); }
  }

  lemma {:induction false} AmountHeld(c: Coins, d: Denom)
    requires Amount(c, d) != 0
    ensures exists i :: 0 <= i < |c| && c[i].denom == d && c[i].amount == Amount(c, d)
  {
    if c[0].denom != d {
      AmountHeld(c[1..], d);
      var i :| 0 <= i < |c[1..]| && c[1..][i].denom == d && c[1..][i].amount == Amount(c[1..], d);
      assert c[i + 1].denom == d;
    }
  }

  /** `a` holds at least as much of every denomination as `b`. */
  ghost predicate Covers(a: Coins, b: Coins) {
    forall d :: Amount(a, d) >= Amount(b, d)
  }

  /** Subtraction of valid sets never overflows; it is pointwise, and reports a negative amount exactly if the
      first set does not cover the second. */
  lemma SafeSubExact(a: Coins, b: Coins)
    requires Positive(a) && Positive(b)
    ensures var r := SafeSub(a, b);
            r.Some? && Canonical(r.value.0) && (forall d :: Amount(r.value.0, d) == Amount(a, d) - Amount(b, d)) &&
            (r.value.1 <==> !Covers(a, b))
  {
    var n := Negative(b);
    forall d ensures Amount(n, d) == -Amount(b, d) { NegativeAmount(b, d); }
    PositiveAmounts(a);
    PositiveAmounts(b);
    forall d ensures Fits(Amount(a, d) + Amount(n, d)) { assert Amount(n, d) == -Amount(b, d); }
    SafeAddExact(a, n);
    var diff := SafeAdd(a, n).value;
    forall d ensures Amount(diff, d) == Amount(a, d) - Amount(b, d) { assert Amount(n, d) == -Amount(b, d); }
    NegativeIff(a, b, diff);
  }

  lemma NegativeIff(a: Coins, b: Coins, diff: Coins)
    requires Sorted(diff) && forall d :: Amount(diff, d) == Amount(a, d) - Amount(b, d)
    ensures AnyNegative(diff) <==> !Covers(a, b)
  {
    if i :| 0 <= i < |diff| && diff[i].amount < 0 {
      AmountAt(diff, i);
      assert Amount(a, diff[i].denom) < Amount(b, diff[i].denom);
    }
    if !Covers(a, b) {
      var d :| Amount(a, d) < Amount(b, d);
      AmountHeld(diff, d);
    }
  }

  /** What was added can be taken away again. */
  lemma AddThenSub(a: Coins, b: Coins)
    requires Positive(a) && Positive(b) && SafeAdd(a, b).Some?
    ensures SafeSub(SafeAdd(a, b).value, b) == Some((a, false))
  {
    SafeAddExact(a, b);
    var s := SafeAdd(a, b).value;
    PositiveAmounts(a);
    PositiveAmounts(b);
    forall i | 0 <= i < |s| ensures s[i].amount > 0 { AmountAt(s, i); }
    SafeSubExact(s, b);
    CanonicalUnique(SafeSub(s, b).value.0, a);
  }
}
