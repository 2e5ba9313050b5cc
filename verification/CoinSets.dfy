/** Coin sets: sorted lists of positive amounts, which stand for a finitely supported function from denominations. */
module CoinSets {
  import opened Binary
  import opened Bytes

  /** Go strings compare as byte strings. */
  type Denom = Bytes

  datatype Coin = Coin(denom: Denom, amount: int)

  type Coins = seq<Coin>

  /** `BigInt` holds up to 255 bits and a sign; arithmetic beyond that panics. */
  const LIMIT: int := 0x8000_0000_0000_0000_0000_0000_0000_0000_0000_0000_0000_0000_0000_0000_0000_0000

  predicate Fits(x: int) {
    -LIMIT < x < LIMIT
  }

  /** What fits is what has at most 255 bits. */
  lemma FitsIff(x: int)
    ensures Fits(x) <==> BitLen(x) <= 255
  {
    Pow2At255();
    BitLenIff(x, 255);
  }

  predicate AllFit(c: Coins) {
    forall i :: 0 <= i < |c| ==> Fits(c[i].amount)
  }

  /** The amount of a denomination, by looking at every coin. */
  function Amount(c: Coins, d: Denom): int {
    if c == [] then 0 else if c[0].denom == d then c[0].amount else Amount(c[1..], d)
  }

  predicate Sorted(c: Coins) {
    forall i, j :: 0 <= i < j < |c| ==> Lt(c[i].denom, c[j].denom)
  }

  predicate NoZeros(c: Coins) {
    forall i :: 0 <= i < |c| ==> c[i].amount != 0
  }

  /** Every coin comes after `d`. */
  predicate AllAbove(d: Denom, c: Coins) {
    forall i :: 0 <= i < |c| ==> Lt(d, c[i].denom)
  }

  lemma SortedTail(c: Coins)
    requires c != [] && Sorted(c)
    ensures Sorted(c[1..]) && AllAbove(c[0].denom, c[1..])
  {
  }

  lemma SortedCons(x: Coin, c: Coins)
    requires Sorted(c) && AllAbove(x.denom, c)
    ensures Sorted([x] + c)
  {
  }

  lemma AllAboveTransitive(d: Denom, e: Denom, c: Coins)
    requires Lt(d, e) && AllAbove(e, c)
    ensures AllAbove(d, c)
  {
    forall i | 0 <= i < |c| ensures Lt(d, c[i].denom) { LtTransitive(d, e, c[i].denom); }
  }

  lemma {:induction false} AmountAbsent(d: Denom, c: Coins)
    requires forall i :: 0 <= i < |c| ==> c[i].denom != d
    ensures Amount(c, d) == 0
  {
    if c != [] { AmountAbsent(d, c[1..]); }
  }

  lemma AmountBelow(d: Denom, c: Coins)
    requires AllAbove(d, c)
    ensures Amount(c, d) == 0
  {
    LtIrreflexive(d);
    AmountAbsent(d, c);
  }

  lemma {:induction false} AmountAt(c: Coins, i: nat)
    requires Sorted(c) && i < |c|
    ensures Amount(c, c[i].denom) == c[i].amount
  {
    if i > 0 {
      LtIrreflexive(c[i].denom);
      AmountAt(c[1..], i - 1);
    }
  }

  /** A coin set is determined by its amounts. */
  lemma {:induction false} CanonicalUnique(a: Coins, b: Coins)
    requires Sorted(a) && Sorted(b) && NoZeros(a) && NoZeros(b)
    requires forall d :: Amount(a, d) == Amount(b, d)
    ensures a == b
    decreases |a|
  {
    EmptyTogether(a, b);
    if a != [] {
      SortedTail(a);
      SortedTail(b);
      SameFirst(a, b);
      AmountBelow(a[0].denom, a[1..]);
      AmountBelow(a[0].denom, b[1..]);
      forall d ensures Amount(a[1..], d) == Amount(b[1..], d) {
        assert Amount(a, d) == Amount(b, d);
      }
      CanonicalUnique(a[1..], b[1..]);
      assert a == [a[0]] + a[1..] && b == [b[0]] + b[1..];
    }
  }

  lemma EmptyTogether(a: Coins, b: Coins)
    requires NoZeros(a) && NoZeros(b) && forall d :: Amount(a, d) == Amount(b, d)
    ensures a == [] <==> b == []
  {
    if a != [] { assert Amount(a, a[0].denom) == Amount(b, a[0].denom); }
    if b != [] { assert Amount(a, b[0].denom) == Amount(b, b[0].denom); }
  }

  lemma SameFirst(a: Coins, b: Coins)
    requires Sorted(a) && Sorted(b) && NoZeros(a) && NoZeros(b) && a != [] && b != []
    requires forall d :: Amount(a, d) == Amount(b, d)
    ensures a[0] == b[0]
  {
    var x, y := a[0].denom, b[0].denom;
    assert Amount(a, x) == Amount(b, x) && Amount(a, y) == Amount(b, y);
    SortedTail(a);
    SortedTail(b);
    LtTrichotomy(x, y);
    if Lt(x, y) {
      AllAboveTransitive(x, y, b[1..]);
      AmountBelow(x, b);
    } else if Lt(y, x) {
      AllAboveTransitive(y, x, a[1..]);
      AmountBelow(y, a);
    }
  }

  // ---------- addition ----------

  function NonZero(x: Coin): Coins {
    if x.amount == 0 then [] else [x]
  }

  function RemoveZeros(c: Coins): Coins {
    if c == [] then [] else NonZero(c[0]) + RemoveZeros(c[1..])
  }

  /** `removeZeroCoins`, deleting in place. */
  method RemoveZeroCoins(coins: Coins) returns (r: Coins)
    ensures r == RemoveZeros(coins)
  {
    r := coins;
    var i, l := 0, |coins|;
    ghost var done, rest := [], coins;
    assert done + RemoveZeros(coins) == RemoveZeros(coins);
    while i < l
      invariant i == |done| && l == |r| && r == done + rest && done + RemoveZeros(rest) == RemoveZeros(coins)
      decreases |rest|
    {
      assert r[i] == rest[0];
      if r[i].amount == 0 {
        r := r[..i] + r[i + 1..];
        l := l - 1;
      } else {
        Regroup(done, r[i], RemoveZeros(rest[1..]));
        done := done + [r[i]];
        i := i + 1;
      }
      rest := rest[1..];
    }
    r := r[..i];
  }

  lemma Regroup(done: Coins, x: Coin, rest: Coins)
    ensures done + ([x] + rest) == (done + [x]) + rest
  {
  }

  function Prepend(x: Coin, c: Option<Coins>): Option<Coins> {
    if c.None? then None else Some(NonZero(x) + c.value)
  }

  /** `safeAdd`; absent if adding two amounts overflows. */
  function SafeAdd(a: Coins, b: Coins): Option<Coins>
    decreases |a| + |b|
  {
    if a == [] then Some(RemoveZeros(b))
    else if b == [] then Some(RemoveZeros(a))
    else if a[0].denom == b[0].denom then
      if !Fits(a[0].amount + b[0].amount) then None
      else Prepend(Coin(a[0].denom, a[0].amount + b[0].amount), SafeAdd(a[1..], b[1..]))
    else if Lt(a[0].denom, b[0].denom) then Prepend(a[0], SafeAdd(a[1..], b))
    else Prepend(b[0], SafeAdd(a, b[1..]))
  }

  /** The loop of `safeAdd`. */
  method RunSafeAdd(coins: Coins, coinsB: Coins) returns (r: Option<Coins>)
    ensures r == SafeAdd(coins, coinsB)
  {
    var sum: Coins := [];
    var indexA, indexB := 0, 0;
    assert coins[0..] == coins && coinsB[0..] == coinsB;
    JoinedNothing(sum, SafeAdd(coins, coinsB));
    while true
      invariant 0 <= indexA <= |coins| && 0 <= indexB <= |coinsB|
      invariant Joined(sum, SafeAdd(coins[indexA..], coinsB[indexB..])) == SafeAdd(coins, coinsB)
      decreases |coins| - indexA + |coinsB| - indexB
    {
      if indexA == |coins| {
        if indexB == |coinsB| {
          JoinedNothing(sum, Some([]));
          return Some(sum);
        }
        var rest := RemoveZeroCoins(coinsB[indexB..]);
        return Some(sum + rest);
      } else if indexB == |coinsB| {
        var rest := RemoveZeroCoins(coins[indexA..]);
        return Some(sum + rest);
      }
      var coinA, coinB := coins[indexA], coinsB[indexB];
      assert coins[indexA..][1..] == coins[indexA + 1..] && coinsB[indexB..][1..] == coinsB[indexB + 1..];
      if Lt(coinA.denom, coinB.denom) {
        LtIrreflexive(coinA.denom);
        JoinedPrepend(sum, coinA, SafeAdd(coins[indexA + 1..], coinsB[indexB..]));
        if coinA.amount != 0 { sum := sum + [coinA]; }
        indexA := indexA + 1;
      } else if coinA.denom == coinB.denom {
        if !Fits(coinA.amount + coinB.amount) { return None; }
        var res := Coin(coinA.denom, coinA.amount + coinB.amount);
        JoinedPrepend(sum, res, SafeAdd(coins[indexA + 1..], coinsB[indexB + 1..]));
        if res.amount != 0 { sum := sum + [res]; }
        indexA, indexB := indexA + 1, indexB + 1;
      } else {
        JoinedPrepend(sum, coinB, SafeAdd(coins[indexA..], coinsB[indexB + 1..]));
        if coinB.amount != 0 { sum := sum + [coinB]; }
        indexB := indexB + 1;
      }
    }
  }

  function Joined(sum: Coins, rest: Option<Coins>): Option<Coins> {
    if rest.None? then None else Some(sum + rest.value)
  }

  lemma JoinedNothing(sum: Coins, rest: Option<Coins>)
    ensures Joined([], rest) == rest && Joined(sum, Some([])) == Some(sum)
  {
    if rest.Some? { assert [] + rest.value == rest.value; }
    assert sum + [] == sum;
  }

  lemma JoinedPrepend(sum: Coins, x: Coin, rest: Option<Coins>)
    ensures Joined(sum, Prepend(x, rest)) == Joined(if x.amount != 0 then sum + [x] else sum, rest)
  {
    if rest.Some? {
      assert sum + (NonZero(x) + rest.value) == (sum + NonZero(x)) + rest.value;
      assert sum + [] == sum;
    }
  }
}
