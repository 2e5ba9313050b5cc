/** The one string that `String` prints for a decimal. */
module DecimalPrint {
  import opened Decimal
  import opened DecimalText
  import opened DecimalForm

  /** Digits without a leading zero, or zero itself. */
  predicate Plain(w: string) {
    w != "" && AllDigits(w) && (w == "0" || w[0] != '0')
  }

  /** The printed form: an optional minus sign, plain digits, a point and 18 digits. */
  predicate Printed(s: string) {
    var b := Body(s);
    Plain(Whole(b)) && AllDigits(Decimals(b)) && |Decimals(b)| == PRECISION
  }

  predicate Negative(s: string) {
    s != "" && s[0] == '-'
  }

  lemma {:induction false} DigitsPlain(n: nat)
    ensures Plain(Digits(n)) && (n > 0 ==> Digits(n)[0] != '0')
  {
    if n >= 10 { DigitsPlain(n / 10); }
  }

  lemma {:induction false} NumberBounds(s: string)
    requires AllDigits(s)
    ensures 0 <= NumberOf(s) < Pow10(|s|)
    ensures s != "" && s[0] != '0' ==> NumberOf(s) > 0
  {
    if s != "" {
      NumberBounds(s[..|s| - 1]);
      assert IsDigit(s[|s| - 1]);
    }
  }

  lemma DigitsSnoc(n: nat, c: char)
    requires n > 0 && IsDigit(c)
    ensures Digits(10 * n + DigitValue(c)) == Digits(n) + [c]
  {
    var m := 10 * n + DigitValue(c);
    assert m / 10 == n && m % 10 == DigitValue(c);
  }

  lemma OneDigit(c: char)
    requires IsDigit(c)
    ensures NumberOf([c]) == DigitValue(c) >= 0 && Digits(DigitValue(c)) == [c]
  {
    assert [c][..0] == "" && NumberOf("") == 0;
  }

  /** Plain digits are the digits of their number. */
  lemma {:induction false} PlainDigits(w: string)
    requires Plain(w)
    ensures NumberOf(w) >= 0 && Digits(NumberOf(w)) == w
  {
    var init, last := w[..|w| - 1], w[|w| - 1];
    assert w == init + [last] && IsDigit(last);
    if init == "" {
      OneDigit(last);
    } else {
      assert Plain(init) && init[0] != '0';
      NumberBounds(init);
      PlainDigits(init);
      DigitsSnoc(NumberOf(init), last);
    }
  }

  /** Digits of one width are determined by their number. */
  lemma {:induction false} SameWidth(f: string, g: string)
    requires AllDigits(f) && AllDigits(g) && |f| == |g| && NumberOf(f) == NumberOf(g)
    ensures f == g
  {
    if f != "" {
      var n := |f| - 1;
      assert IsDigit(f[n]) && IsDigit(g[n]);
      SameWidth(f[..n], g[..n]);
      assert f == f[..n] + [f[n]] && g == g[..n] + [g[n]];
    }
  }

  lemma PointAt(w: string, f: string)
    requires AllDigits(w)
    ensures Whole(w + "." + f) == w && Decimals(w + "." + f) == f && (w != "" ==> Body(w + "." + f) == w + "." + f)
  {
    DotBehind(w, f);
    if w != "" { assert IsDigit(w[0]); }
  }

  lemma {:induction false} DotBehind(w: string, f: string)
    requires AllDigits(w)
    ensures DotAt(w + "." + f) == |w|
  {
    if w != "" {
      assert IsDigit(w[0]);
      assert (w + "." + f)[1..] == w[1..] + "." + f;
      DotBehind(w[1..], f);
    }
  }

  lemma PointPrinted(digits: string)
    requires Plain(digits) && (|digits| > PRECISION ==> digits[0] != '0')
    ensures var b := Point(digits); Printed(b) && Body(b) == b && !Negative(b)
  {
    if |digits| <= PRECISION {
      var f := Zeros(PRECISION - |digits|) + digits;
      assert Point(digits) == "0" + "." + f;
      PartsPrinted("0", f);
    } else {
      PartsPrinted(digits[..|digits| - PRECISION], digits[|digits| - PRECISION..]);
    }
  }

  lemma PartsPrinted(w: string, f: string)
    requires Plain(w) && AllDigits(f) && |f| == PRECISION
    ensures var b := w + "." + f; Printed(b) && Body(b) == b && !Negative(b)
  {
    PointAt(w, f);
    assert IsDigit(w[0]);
  }

  lemma FormatPrinted(d: int)
    ensures Printed(Format(d)) && (Negative(Format(d)) <==> d < 0)
  {
    DigitsPlain(Abs(d));
    PointPrinted(Digits(Abs(d)));
    if d < 0 { assert Format(d)[1..] == Point(Digits(-d)); }
  }

  /** A string is determined by its parts. */
  lemma PartsOf(b: string)
    requires Decimals(b) != ""
    ensures b == Whole(b) + "." + Decimals(b)
  {
  }

  lemma SameParts(a: string, b: string)
    requires Printed(a) && Printed(b) && Numeric(Body(a)) && Numeric(Body(b)) && ValueOf(Body(a)) == ValueOf(Body(b))
    ensures Body(a) == Body(b)
  {
    var w, f, v, g := Whole(Body(a)), Decimals(Body(a)), Whole(Body(b)), Decimals(Body(b));
    NumberBounds(f);
    NumberBounds(g);
    SplitValue(NumberOf(w), NumberOf(f), NumberOf(v), NumberOf(g), Pow10(PRECISION));
    SameWidth(f, g);
    PlainDigits(w);
    PlainDigits(v);
    PartsOf(Body(a));
    PartsOf(Body(b));
  }

  lemma SplitValue(w: int, f: int, v: int, g: int, m: int)
    requires 0 <= f < m && 0 <= g < m && w * m + f == v * m + g
    ensures w == v && f == g
  {
    assert (w - v) * m == g - f;
    ProductSign(w - v, m);
  }

  /** What `String` prints is the only string of that form which parses back and has a minus sign exactly for a
      negative number. */
  lemma FormatOnly(s: string, d: int)
    ensures s == Format(d) <==> Printed(s) && NewDecFromStr(s) == Ok(d) && (Negative(s) <==> d < 0)
  {
    FormatPrinted(d);
    RoundTrip(d);
    if Printed(s) && NewDecFromStr(s) == Ok(d) && (Negative(s) <==> d < 0) { PrintedOnce(s, Format(d), d); }
  }

  lemma PrintedOnce(a: string, b: string, d: int)
    requires Printed(a) && Printed(b) && NewDecFromStr(a) == NewDecFromStr(b) == Ok(d) && (Negative(a) <==> Negative(b))
    ensures a == b
  {
    PrintedValue(a, d);
    PrintedValue(b, d);
    SameParts(a, b);
    if Negative(a) { assert a == "-" + Body(a) && b == "-" + Body(b); }
  }

  lemma PrintedValue(s: string, d: int)
    requires Printed(s) && NewDecFromStr(s) == Ok(d)
    ensures Numeric(Body(s)) && d == if Negative(s) then -ValueOf(Body(s)) else ValueOf(Body(s))
  {
    ParseExact(s);
  }
}
