/** Looking up and comparing coin sets, and which operations keep them valid. */
module CoinValidity {
  import opened Bytes
  import opened CoinSets
  import opened CoinAlgebra

  predicate Letter(b: Byte) {
    97 <= b <= 122
  }

  predicate Digit(b: Byte) {
    48 <= b <= 57
  }

  /** `validateDenom`: a lower-case letter and 2 to 15 letters or digits. */
  predicate ValidDenom(d: Denom) {
    3 <= |d| <= 16 && Letter(d[0]) && forall i :: 1 <= i < |d| ==> Letter(d[i]) || Digit(d[i])
  }

  /** The denomination is its own lower-case form, for ASCII denominations. */
  predicate LowerCase(d: Denom) {
    forall i :: 0 <= i < |d| ==> !(65 <= d[i] <= 90)
  }

  // ---------- AmountOf ----------

  /** `AmountOf`: a binary search, which panics on an invalid denomination. */
  function AmountOf(c: Coins, d: Denom): (r: Option<int>)
    ensures r.Some? <==> ValidDenom(d)
  {
    if !ValidDenom(d) then None
    else if |c| == 0 then Some(0)
    else if |c| == 1 then Some(if c[0].denom == d then c[0].amount else 0)
    else
      var mid := |c| / 2;
      if Lt(d, c[mid].denom) then AmountOf(c[..mid], d)
      else if d == c[mid].denom then Some(c[mid].amount)
      else AmountOf(c[mid + 1..], d)
  }

  /** The binary search finds what a look at every coin would find; an invalid denomination panics. */
  lemma {:induction false} AmountOfIsAmount(c: Coins, d: Denom)
    requires Sorted(c)
    ensures AmountOf(c, d) == if ValidDenom(d) then Some(Amount(c, d)) else None
  {
    if ValidDenom(d) && |c| > 1 {
      var mid := |c| / 2;
      if Lt(d, c[mid].denom) {
        AmountOfIsAmount(c[..mid], d);
        AmountOfPart(c, mid, d);
      } else if d == c[mid].denom {
        AmountAt(c, mid);
      } else {
        LtTrichotomy(d, c[mid].denom);
        AmountOfIsAmount(c[mid + 1..], d);
        AmountOfPart(c, mid, d);
      }
    }
  }

  lemma AmountOfPart(c: Coins, mid: nat, d: Denom)
    requires Sorted(c) && mid < |c|
    ensures Lt(d, c[mid].denom) ==> Amount(c, d) == Amount(c[..mid], d)
    ensures Lt(c[mid].denom, d) ==> Amount(c, d) == Amount(c[mid + 1..], d)
  {
    assert c == c[..mid] + c[mid..];
    assert c == c[..mid + 1] + c[mid + 1..];
    if Lt(d, c[mid].denom) {
      forall i | mid <= i < |c| ensures c[i].denom != d { LtTotalOrder(); }
      AmountAbsent(d, c[mid..]);
      AmountConcat(c[..mid], c[mid..], d);
    }
    if Lt(c[mid].denom, d) {
      forall i | 0 <= i <= mid ensures c[i].denom != d { LtTotalOrder(); }
      AmountConcat(c[..mid + 1], c[mid + 1..], d);
      AmountAbsent(d, c[..mid + 1]);
    }
  }

  /** Looking through two lists in turn. */
  lemma {:induction false} AmountConcat(a: Coins, b: Coins, d: Denom)
    ensures Amount(b, d) == 0 ==> Amount(a + b, d) == Amount(a, d)
    ensures (forall i :: 0 <= i < |a| ==> a[i].denom != d) ==> Amount(a + b, d) == Amount(b, d)
  {
    if a == [] {
      assert a + b == b;
    } else {
      assert (a + b)[1..] == a[1..] + b;
      AmountConcat(a[1..], b, d);
    }
  }

  // ---------- IsAllGTE ----------

  /** `IsAllGTE`; absent if a lookup panics. */
  function AllGTE(a: Coins, b: Coins): Option<bool> {
    if b == [] then Some(true) else if a == [] then Some(false) else AllGTEFrom(a, b, 0)
  }

  function AllGTEFrom(a: Coins, b: Coins, i: nat): Option<bool>
    requires i <= |b|
    decreases |b| - i
  {
    if i == |b| then Some(true)
    else
      var amount := AmountOf(a, b[i].denom);
      if amount.None? then None else if b[i].amount > amount.value then Some(false) else AllGTEFrom(a, b, i + 1)
  }

  method IsAllGTE(coins: Coins, coinsB: Coins) returns (r: Option<bool>)
    ensures r == AllGTE(coins, coinsB)
  {
    if |coinsB| == 0 { return Some(true); }
    if |coins| == 0 { return Some(false); }
    for i := 0 to |coinsB|
      invariant AllGTEFrom(coins, coinsB, i) == AllGTEFrom(coins, coinsB, 0)
    {
      var amount := AmountOf(coins, coinsB[i].denom);
      if amount.None? { return None; }
      if coinsB[i].amount > amount.value { return Some(false); }
    }
    r := Some(true);
  }

  predicate CoversFrom(a: Coins, b: Coins, i: nat) {
    forall j :: i <= j < |b| ==> b[j].amount <= Amount(a, b[j].denom)
  }

  /** A lookup panics at coin `i` of `b`: its denomination is invalid, and every coin from `from` up to it is covered. */
  predicate PanicsAt(a: Coins, b: Coins, from: nat, i: nat) {
    from <= i < |b| && !ValidDenom(b[i].denom) && forall j :: from <= j < i ==> b[j].amount <= Amount(a, b[j].denom)
  }

  lemma {:induction false} AllGTEFromMeaning(a: Coins, b: Coins, i: nat)
    requires Sorted(a) && i <= |b|
    ensures AllGTEFrom(a, b, i).Some? ==> AllGTEFrom(a, b, i) == Some(CoversFrom(a, b, i))
    decreases |b| - i
  {
    if i < |b| && ValidDenom(b[i].denom) {
      AmountOfIsAmount(a, b[i].denom);
      AllGTEFromMeaning(a, b, i + 1);
    }
  }

  lemma {:induction false} PanicsFrom(a: Coins, b: Coins, from: nat)
    requires Sorted(a) && from <= |b|
    ensures AllGTEFrom(a, b, from).None? <==> exists i: nat :: PanicsAt(a, b, from, i)
    decreases |b| - from
  {
    if from < |b| {
      if !ValidDenom(b[from].denom) {
        assert PanicsAt(a, b, from, from);
      } else {
        AmountOfIsAmount(a, b[from].denom);
        var next := from + 1;
        PanicsFrom(a, b, next);
        if i: nat :| PanicsAt(a, b, from, i) {
          assert PanicsAt(a, b, next, i) && b[from].amount <= Amount(a, b[from].denom);
        } else if i: nat :| PanicsAt(a, b, next, i) {
          assert b[from].amount > Amount(a, b[from].denom) || PanicsAt(a, b, from, i);
        }
      }
    }
  }

  /** On valid sets the comparison, unless it panics, is pointwise, and subtraction, which never panics, reports a
      negative amount exactly if it fails. */
  lemma AllGTEMeaning(a: Coins, b: Coins)
    requires IsValid(a) && IsValid(b) && AllFit(a) && AllFit(b)
    ensures AllGTE(a, b).Some? ==> AllGTE(a, b) == Some(Covers(a, b))
    ensures SafeSub(a, b).Some? && (AllGTE(a, b).Some? ==> (SafeSub(a, b).value.1 <==> AllGTE(a, b) == Some(false)))
  {
    ValidIsPositive(a);
    ValidIsPositive(b);
    SafeSubExact(a, b);
    PositiveAmounts(a);
    CoverByCoins(a, b);
    AllGTEFromMeaning(a, b, 0);
  }

  /** The exact condition for the panic: some coin of the second set has an invalid denomination, and every coin
      before it is covered. */
  lemma AllGTEPanicsIff(a: Coins, b: Coins)
    requires IsValid(a) && IsValid(b)
    ensures AllGTE(a, b).None? <==> a != [] && exists i: nat :: PanicsAt(a, b, 0, i)
  {
    PanicsFrom(a, b, 0);
  }

  /** A set that passes `IsValid`, on which comparing it with itself panics and subtracting it reports no negative amount. */
  lemma AllGTEPanics() returns (a: Coins)
    ensures a == [Coin([97, 98, 99], 1), Coin([98], 1)]
    ensures IsValid(a) && AllFit(a) && AllGTE(a, a).None? && SafeSub(a, a).Some? && !SafeSub(a, a).value.1
  {
    var x, y := Coin([97, 98, 99], 1), Coin([98], 1);
    a := [x, y];
    assert IsValid(a) && AllFit(a);
    AmountAt(a, 0);
    assert PanicsAt(a, a, 0, 1);
    AllGTEPanicsIff(a, a);
    AllGTEMeaning(a, a);
    SafeSubExact(a, a);
  }

  /** Covering every coin is covering every denomination. */
  lemma CoverByCoins(a: Coins, b: Coins)
    requires Sorted(b) && forall d :: Amount(a, d) >= 0
    ensures CoversFrom(a, b, 0) <==> Covers(a, b)
  {
    forall d | CoversFrom(a, b, 0) ensures Amount(a, d) >= Amount(b, d) {
      if Amount(b, d) != 0 { AmountHeld(b, d); }
    }
    forall j | 0 <= j < |b| && Covers(a, b) ensures b[j].amount <= Amount(a, b[j].denom) { AmountAt(b, j); }
  }

  // ---------- IsValid ----------

  /** What `IsValid` accepts.  Only the first denomination is checked in full; the others need only be lower case. */
  predicate IsValid(c: Coins) {
    Sorted(c) && (forall i :: 0 <= i < |c| ==> c[i].amount > 0) && (c != [] ==> ValidDenom(c[0].denom)) &&
    forall i :: 1 <= i < |c| ==> LowerCase(c[i].denom)
  }

  /** `IsValid`, comparing each coin with the one before. */
  method RunIsValid(coins: Coins) returns (r: bool)
    ensures r == IsValid(coins)
  {
    if |coins| == 0 { return true; }
    if !ValidDenom(coins[0].denom) { return false; }
    if coins[0].amount <= 0 { return false; }
    var lowDenom := coins[0].denom;
    for i := 1 to |coins|
      invariant lowDenom == coins[i - 1].denom && IsValid(coins[..i])
    {
      if !LowerCase(coins[i].denom) { return false; }
      if Le(coins[i].denom, lowDenom) {
        NotSorted(coins, i);
        return false;
      }
      if coins[i].amount <= 0 { return false; }
      SortedSnoc(coins, i);
      lowDenom := coins[i].denom;
    }
    assert coins[..|coins|] == coins;
    r := true;
  }

  lemma NotSorted(c: Coins, i: nat)
    requires 1 <= i < |c| && Le(c[i].denom, c[i - 1].denom)
    ensures !Sorted(c)
  {
    if Sorted(c) {
      assert Lt(c[i - 1].denom, c[i].denom);
      LtTotalOrder();
    }
  }

  lemma SortedSnoc(c: Coins, i: nat)
    requires 1 <= i < |c| && Sorted(c[..i]) && !Le(c[i].denom, c[i - 1].denom)
    ensures Sorted(c[..i + 1])
  {
    LtTrichotomy(c[i - 1].denom, c[i].denom);
    forall j | 0 <= j < i ensures Lt(c[j].denom, c[i].denom) {
      if j < i - 1 {
        assert Lt(c[..i][j].denom, c[..i][i - 1].denom);
        LtTransitive(c[j].denom, c[i - 1].denom, c[i].denom);
      }
    }
  }

  // ---------- what keeps coin sets valid ----------

  lemma ValidIsPositive(c: Coins)
    requires IsValid(c) && AllFit(c)
    ensures Positive(c)
    ensures forall i :: 0 <= i < |c| ==> LowerCase(c[i].denom)
  {
  }

  /** The first coin of a sorted set has the least denomination that occurs. */
  lemma FirstIsLeast(c: Coins, d: Denom)
    requires Sorted(c) && Amount(c, d) != 0
    ensures c != [] && Le(c[0].denom, d)
  {
    AmountHeld(c, d);
  }

  lemma NonZeroAt(c: Coins, i: nat)
    requires Sorted(c) && NoZeros(c) && i < |c|
    ensures Amount(c, c[i].denom) != 0
  {
    AmountAt(c, i);
  }

  /** Adding valid sets gives a valid set, unless an amount overflows. */
  lemma AddKeepsValid(a: Coins, b: Coins)
    requires IsValid(a) && IsValid(b) && AllFit(a) && AllFit(b) && SafeAdd(a, b).Some?
    ensures IsValid(SafeAdd(a, b).value)
  {
    ValidIsPositive(a);
    ValidIsPositive(b);
    SafeAddExact(a, b);
    PositiveAmounts(a);
    PositiveAmounts(b);
    var s := SafeAdd(a, b).value;
    forall i | 0 <= i < |s| ensures s[i].amount > 0 && LowerCase(s[i].denom) {
      NonZeroAt(s, i);
      AmountAt(s, i);
      FromEither(a, b, s[i].denom);
    }
    if s != [] { FirstOfSum(a, b, s); }
  }

  lemma FromEither(a: Coins, b: Coins, d: Denom)
    requires Amount(a, d) + Amount(b, d) != 0
    ensures (exists i :: 0 <= i < |a| && a[i].denom == d) || (exists i :: 0 <= i < |b| && b[i].denom == d)
  {
    if Amount(a, d) != 0 { AmountHeld(a, d); } else { AmountHeld(b, d); }
  }

  /** The least denomination of a sum is the first one of a summand. */
  lemma FirstOfSum(a: Coins, b: Coins, s: Coins)
    requires Positive(a) && Positive(b) && Sorted(s) && NoZeros(s) && Adds(s, a, b) && s != []
    ensures (a != [] && s[0].denom == a[0].denom) || (b != [] && s[0].denom == b[0].denom)
  {
    PositiveAmounts(a);
    PositiveAmounts(b);
    NonZeroAt(s, 0);
    if a != [] {
      AmountAt(a, 0);
      FirstIsLeast(s, a[0].denom);
    }
    if b != [] {
      AmountAt(b, 0);
      FirstIsLeast(s, b[0].denom);
    }
    if Amount(a, s[0].denom) != 0 { FirstIsLeast(a, s[0].denom); } else { FirstIsLeast(b, s[0].denom); }
    LtTotalOrder();
  }

  /** `Sub` does not keep sets valid: once the first coin is spent, a short denomination behind it comes first. */
  lemma SubBreaksValidity() returns (a: Coins, b: Coins)
    ensures a == [Coin([97, 98, 99], 1), Coin([98], 1)] && b == [Coin([97, 98, 99], 1)]
    ensures IsValid(a) && IsValid(b) && AllFit(a) && AllFit(b)
    ensures SafeSub(a, b).Some? && !SafeSub(a, b).value.1 && !IsValid(SafeSub(a, b).value.0)
  {
    var x, y := Coin([97, 98, 99], 1), Coin([98], 1);
    a, b := [x, y], [x];
    assert IsValid(a) && IsValid(b);
    SafeSubExact(a, b);
    var diff := SafeSub(a, b).value.0;
    assert Amount(diff, [98]) == Amount(a, [98]) - Amount(b, [98]);
    assert Amount(diff, x.denom) == Amount(a, x.denom) - Amount(b, x.denom);
    assert a[1..] == [y] && b[1..] == [];
    PositiveAmounts([y]);
    forall d ensures Amount(a, d) >= Amount(b, d) {
      assert Amount(b, d) == if d == x.denom then 1 else 0;
      assert Amount(a, d) == if d == x.denom then 1 else Amount([y], d);
    }
    SubFirst(a, b, 1);
  }

  /** Coin `i` of `a` is the first one that `b` does not spend completely. */
  predicate FirstKept(a: Coins, b: Coins, i: nat) {
    i < |a| && Amount(b, a[i].denom) != a[i].amount && forall j :: 0 <= j < i ==> Amount(b, a[j].denom) == a[j].amount
  }

  /** The difference starts with that coin. */
  lemma SubFirst(a: Coins, b: Coins, i: nat)
    requires Positive(a) && Positive(b) && SafeSub(a, b).Some? && !SafeSub(a, b).value.1 && FirstKept(a, b, i)
    ensures var diff := SafeSub(a, b).value.0; diff != [] && diff[0].denom == a[i].denom
  {
    SafeSubExact(a, b);
    var diff := SafeSub(a, b).value.0;
    AmountAt(a, i);
    assert Amount(diff, a[i].denom) == Amount(a, a[i].denom) - Amount(b, a[i].denom);
    FirstIsLeast(diff, a[i].denom);
    NonZeroAt(diff, 0);
    KeptFromFirst(a, b, diff[0].denom);
    var j :| 0 <= j < |a| && a[j].denom == diff[0].denom && Amount(b, a[j].denom) != a[j].amount;
    LtTotalOrder();
  }

  /** Every denomination of a difference without negatives is one that `a` holds and `b` does not spend. */
  lemma KeptFromFirst(a: Coins, b: Coins, d: Denom)
    requires Positive(a) && Positive(b) && SafeSub(a, b).Some? && !SafeSub(a, b).value.1
    requires Amount(SafeSub(a, b).value.0, d) != 0
    ensures exists j :: 0 <= j < |a| && a[j].denom == d && Amount(b, a[j].denom) != a[j].amount
  {
    SafeSubExact(a, b);
    PositiveAmounts(b);
    assert !(Amount(a, d) < Amount(b, d));
    assert Amount(SafeSub(a, b).value.0, d) == Amount(a, d) - Amount(b, d);
    AmountHeld(a, d);
  }

  /** The exact condition: the difference of valid sets without negatives is valid if and only if the first coin
      that is not spent completely has a fully valid denomination. */
  lemma SubValidIff(a: Coins, b: Coins)
    requires IsValid(a) && IsValid(b) && AllFit(a) && AllFit(b) && SafeSub(a, b).Some? && !SafeSub(a, b).value.1
    ensures IsValid(SafeSub(a, b).value.0) <==> forall i: nat :: FirstKept(a, b, i) ==> ValidDenom(a[i].denom)
  {
    ValidIsPositive(a);
    ValidIsPositive(b);
    SafeSubExact(a, b);
    var diff := SafeSub(a, b).value.0;
    forall i: nat | FirstKept(a, b, i) ensures diff != [] && diff[0].denom == a[i].denom { SubFirst(a, b, i); }
    forall i | 0 <= i < |diff| ensures diff[i].amount > 0 && LowerCase(diff[i].denom) {
      NonZeroAt(diff, i);
      KeptFromFirst(a, b, diff[i].denom);
      AmountAt(diff, i);
      assert !(Amount(a, diff[i].denom) < Amount(b, diff[i].denom));
    }
    if diff != [] {
      NonZeroAt(diff, 0);
      KeptFromFirst(a, b, diff[0].denom);
      FirstKeptExists(a, b, |a|);
    }
  }

  /** If some coin is not spent completely, there is a first one. */
  lemma {:induction false} FirstKeptExists(a: Coins, b: Coins, n: nat)
    requires n <= |a| && exists j :: 0 <= j < n && Amount(b, a[j].denom) != a[j].amount
    ensures exists i: nat :: FirstKept(a, b, i)
  {
    var j :| 0 <= j < n && Amount(b, a[j].denom) != a[j].amount;
    if forall i :: 0 <= i < j ==> Amount(b, a[i].denom) == a[i].amount {
      assert FirstKept(a, b, j);
    } else {
      FirstKeptExists(a, b, j);
    }
  }
}
