/** Which strings `NewDecFromStr` accepts: the documented form, and that form behind a second sign. */
module DecimalForm {
  import opened Bytes
  import opened Decimal
  import opened DecimalText

  /** Where the first point is, or the end. */
  function DotAt(b: string): (k: nat)
    ensures k <= |b| && (k < |b| ==> b[k] == '.') && forall i :: 0 <= i < k ==> b[i] != '.'
  {
    if b == "" || b[0] == '.' then 0 else 1 + DotAt(b[1..])
  }

  function Whole(b: string): string {
    b[..DotAt(b)]
  }

  function Decimals(b: string): string {
    if DotAt(b) < |b| then b[DotAt(b) + 1..] else ""
  }

  /** The parts make a number of at most 18 decimals; a point needs decimals behind it. */
  predicate NumericParts(w: string, f: string, dotted: bool) {
    AllDigits(w) && AllDigits(f) && |f| <= PRECISION && (dotted ==> f != "")
  }

  /** Whole units, and decimals scaled by their number. */
  function Scaled(w: string, f: string): int
    requires |f| <= PRECISION
  {
    NumberOf(w) * Pow10(PRECISION) + NumberOf(f) * Pow10(PRECISION - |f|)
  }

  /** Digits, and optionally a point with 1 to 18 digits behind it. */
  predicate Numeric(b: string) {
    NumericParts(Whole(b), Decimals(b), DotAt(b) < |b|)
  }

  /** The number that such a string writes. */
  function ValueOf(b: string): int
    requires Numeric(b)
  {
    Scaled(Whole(b), Decimals(b))
  }

  predicate IsSign(c: char) {
    c == '+' || c == '-'
  }

  /** The string behind one leading minus sign. */
  function Body(s: string): string {
    if s != "" && s[0] == '-' then s[1..] else s
  }

  /** A number under the string's leading minus sign, if it has one. */
  function Signed(s: string, v: int): int {
    if s != "" && s[0] == '-' then -v else v
  }

  /** The form that the documentation gives: an optional minus sign, at least one digit, and optionally decimals. */
  predicate Documented(s: string) {
    Numeric(Body(s)) && Whole(Body(s)) != ""
  }

  /** A further sign before the number, which then needs no digit before the point, or none at all. */
  predicate SecondSign(s: string) {
    var b := Body(s);
    b != "" && IsSign(b[0]) && Numeric(b[1..])
  }

  // ---------- splitting ----------

  lemma {:induction false} SplitDot(b: string)
    ensures var k := DotAt(b);
            Split(b, '.') == if k == |b| then [b] else [b[..k]] + Split(b[k + 1..], '.')
  {
    if b == "" {
    } else if b[0] == '.' {
      assert b[..0] == "";
    } else {
      var k := DotAt(b[1..]);
      SplitDot(b[1..]);
      assert [b[0]] + b[1..] == b;
      if k < |b[1..]| {
        assert b[..k + 1] == [b[0]] + b[1..][..k] && b[k + 2..] == b[1..][k + 1..];
      }
    }
  }

  /** One part without a point, two with one, more otherwise. */
  lemma SplitParts(b: string)
    ensures var parts := Split(b, '.');
            if DotAt(b) == |b| then parts == [b]
            else if DotAt(Decimals(b)) == |Decimals(b)| then parts == [Whole(b), Decimals(b)]
            else |parts| > 2
  {
    SplitDot(b);
    if DotAt(b) < |b| { SplitDot(Decimals(b)); }
  }

  // ---------- numbers ----------

  lemma DigitsJoin(a: string, b: string)
    ensures AllDigits(a + b) <==> AllDigits(a) && AllDigits(b)
  {
    if AllDigits(a + b) {
      forall i | 0 <= i < |a| ensures IsDigit(a[i]) { assert (a + b)[i] == a[i]; }
      forall i | 0 <= i < |b| ensures IsDigit(b[i]) { assert (a + b)[|a| + i] == b[i]; }
    }
  }

  lemma CombinedDigits(w: string, f: string)
    requires |f| <= PRECISION
    ensures var c := w + f + Zeros(PRECISION - |f|);
            c != "" && (AllDigits(c) <==> AllDigits(w) && AllDigits(f)) && NumberOf(c) == Scaled(w, f)
  {
    var z := Zeros(PRECISION - |f|);
    DigitsJoin(w + f, z);
    DigitsJoin(w, f);
    ScaledNumber(w, f);
    assert |w + f + z| >= PRECISION;
  }

  /** What `SetString` makes of the combined digits, with and without a sign in front. */
  lemma CombinedUnsigned(w: string, f: string)
    requires w != "" && !IsSign(w[0]) && |f| <= PRECISION
    ensures SetString(w + f + Zeros(PRECISION - |f|)) ==
            if AllDigits(w) && AllDigits(f) then Some(Scaled(w, f)) else None
  {
    CombinedDigits(w, f);
    assert (w + f + Zeros(PRECISION - |f|))[0] == w[0];
  }

  lemma CombinedSigned(w: string, f: string)
    requires w != "" && IsSign(w[0]) && |f| <= PRECISION
    ensures SetString(w + f + Zeros(PRECISION - |f|)) ==
            if AllDigits(w[1..]) && AllDigits(f) then Some(Signed(w, Scaled(w[1..], f))) else None
  {
    CombinedDigits(w[1..], f);
    var z := Zeros(PRECISION - |f|);
    assert (w + f + z)[0] == w[0] && (w + f + z)[1..] == w[1..] + f + z;
  }

  // ---------- without the leading minus sign ----------

  /** What becomes of the two parts around the point. */
  function ParseParts(w: string, f: string, dotted: bool): Parsed {
    if dotted && (f == "" || w == "") then Err(InvalidLength)
    else if |f| > PRECISION then Err(TooPrecise)
    else
      var combined := SetString(w + f + Zeros(PRECISION - |f|));
      if combined.None? then Err(NotANumber) else Ok(combined.value)
  }

  lemma ParseByParts(b: string)
    requires b != ""
    ensures ParseUnsigned(b) ==
            if DotAt(Decimals(b)) < |Decimals(b)| then Err(InvalidString)
            else ParseParts(Whole(b), Decimals(b), DotAt(b) < |b|)
  {
    SplitParts(b);
    if DotAt(b) == |b| { assert Whole(b) == b && Decimals(b) == ""; }
  }

  lemma UnsignedParts(w: string, f: string, dotted: bool)
    requires (dotted || w != "") && (w != "" ==> !IsSign(w[0]))
    ensures ParseParts(w, f, dotted).Err? || (w != "" && NumericParts(w, f, dotted))
    ensures w != "" && NumericParts(w, f, dotted) ==> ParseParts(w, f, dotted) == Ok(Scaled(w, f))
  {
    if w != "" && |f| <= PRECISION { CombinedUnsigned(w, f); }
  }

  lemma SignedParts(w: string, f: string, dotted: bool)
    requires w != "" && IsSign(w[0])
    ensures ParseParts(w, f, dotted).Err? || NumericParts(w[1..], f, dotted)
    ensures NumericParts(w[1..], f, dotted) ==> ParseParts(w, f, dotted) == Ok(Signed(w, Scaled(w[1..], f)))
  {
    if |f| <= PRECISION { CombinedSigned(w, f); }
  }

  lemma DotOutsideDigits(f: string)
    ensures AllDigits(f) ==> DotAt(f) == |f|
  {
    if DotAt(f) < |f| { assert !IsDigit(f[DotAt(f)]); }
  }

  lemma UnsignedForm(b: string)
    requires b != "" && !IsSign(b[0])
    ensures ParseUnsigned(b).Ok? <==> Numeric(b) && Whole(b) != ""
    ensures Numeric(b) && Whole(b) != "" ==> ParseUnsigned(b) == Ok(ValueOf(b))
  {
    ParseByParts(b);
    DotOutsideDigits(Decimals(b));
    FirstOfWhole(b);
    UnsignedParts(Whole(b), Decimals(b), DotAt(b) < |b|);
  }

  lemma FirstOfWhole(b: string)
    requires b != ""
    ensures Whole(b) != "" ==> Whole(b)[0] == b[0]
    ensures Whole(b) == "" ==> DotAt(b) < |b|
  {
  }

  lemma BehindSign(b: string)
    requires b != "" && IsSign(b[0])
    ensures Whole(b) == [b[0]] + Whole(b[1..]) && Decimals(b) == Decimals(b[1..])
    ensures DotAt(b) < |b| <==> DotAt(b[1..]) < |b[1..]|
  {
  }

  lemma SignedForm(b: string)
    requires b != "" && IsSign(b[0])
    ensures ParseUnsigned(b).Ok? <==> Numeric(b[1..])
    ensures Numeric(b[1..]) ==> ParseUnsigned(b) == Ok(Signed(b, ValueOf(b[1..])))
  {
    ParseByParts(b);
    BehindSign(b);
    DotOutsideDigits(Decimals(b));
    var w := Whole(b);
    assert w[1..] == Whole(b[1..]) && w[0] == b[0];
    SignedParts(w, Decimals(b), DotAt(b) < |b|);
  }

  // ---------- the whole string ----------

  lemma StripMinus(s: string)
    ensures var r := ParseUnsigned(Body(s)); NewDecFromStr(s) == if r.Ok? then Ok(Signed(s, r.value)) else r
  {
  }

  /** Exactly which strings are accepted, and what they mean. */
  lemma ParseExact(s: string)
    ensures NewDecFromStr(s).Ok? <==> Documented(s) || SecondSign(s)
    ensures Documented(s) ==> NewDecFromStr(s) == Ok(Signed(s, ValueOf(Body(s))))
    ensures SecondSign(s) ==> NewDecFromStr(s) == Ok(Signed(s, Signed(Body(s), ValueOf(Body(s)[1..]))))
  {
    var b := Body(s);
    StripMinus(s);
    if b != "" {
      if IsSign(b[0]) {
        SignedForm(b);
        NotDocumented(s);
      } else {
        UnsignedForm(b);
      }
    }
  }

  /** Which error a refused string gives: nothing to read, two points, nothing on one side of the point, or too many
      decimals, and otherwise something that is no number. */
  lemma ErrorExact(s: string)
    ensures NewDecFromStr(s) == Err(EmptyString) <==> Body(s) == ""
    ensures NewDecFromStr(s) == Err(InvalidString) <==> '.' in Decimals(Body(s))
    ensures NewDecFromStr(s) == Err(InvalidLength) <==>
            '.' in Body(s) && '.' !in Decimals(Body(s)) && (Whole(Body(s)) == "" || Decimals(Body(s)) == "")
    ensures NewDecFromStr(s) == Err(TooPrecise) <==>
            '.' !in Decimals(Body(s)) && Whole(Body(s)) != "" && |Decimals(Body(s))| > PRECISION
  {
    var b := Body(s);
    StripMinus(s);
    HasDot(b);
    HasDot(Decimals(b));
    if b != "" { ParseByParts(b); }
  }

  lemma HasDot(b: string)
    ensures '.' in b <==> DotAt(b) < |b|
  {
  }

  /** The exact condition: an accepted string has the documented form if and only if, behind one leading minus sign,
      it does not start with a sign. */
  lemma DocumentedIff(s: string)
    requires NewDecFromStr(s).Ok?
    ensures Body(s) != "" && (Documented(s) <==> !IsSign(Body(s)[0]))
  {
    ParseExact(s);
    if Body(s) != "" && IsSign(Body(s)[0]) { NotDocumented(s); }
    FirstOfWhole(Body(s));
  }

  lemma NotDocumented(s: string)
    requires Body(s) != "" && IsSign(Body(s)[0])
    ensures !Documented(s)
  {
    BehindSign(Body(s));
    assert Whole(Body(s))[0] == Body(s)[0];
  }

  /** Two minus signs cancel. */
  lemma DoubleSign(w: string)
    requires w != "" && AllDigits(w)
    ensures NewDecFromStr("--" + w) == Ok(NumberOf(w) * ONE) && !Documented("--" + w)
  {
    var s, b := "--" + w, "-" + w;
    assert s[1..] == b && b[1..] == w;
    WholeValue(w);
    ParseExact(s);
    NotDocumented(s);
  }

  lemma WholeValue(w: string)
    requires AllDigits(w)
    ensures Numeric(w) && ValueOf(w) == NumberOf(w) * ONE
  {
    DotOutsideDigits(w);
    assert Whole(w) == w && Decimals(w) == "" && NumberOf("") == 0;
    PrecisionUnit();
  }

  /** Signs alone read as zero, and a sign stands in for the digits before the point. */
  lemma SignsAlone()
    ensures NewDecFromStr("+") == Ok(0) && NewDecFromStr("--") == Ok(0) && NewDecFromStr("+.5") == Ok(HALF)
    ensures !Documented("+") && !Documented("--") && !Documented("+.5")
  {
    SignForm("+");
    SignForm("-");
    assert "--"[1..] == "-";
    NotDocumented("--");
    NotDocumented("+");
    HalfUnit();
    NotDocumented("+.5");
  }

  lemma SignForm(b: string)
    requires |b| == 1 && IsSign(b[0])
    ensures ParseUnsigned(b) == Ok(0)
  {
    assert b[1..] == "" && Whole("") == "" && Decimals("") == "" && NumberOf("") == 0;
    SignedForm(b);
  }

  lemma HalfUnit()
    ensures ParseUnsigned("+.5") == Ok(HALF)
  {
    var b := ".5";
    assert "+.5"[1..] == b && DotAt(b) == 0;
    assert Whole(b) == "" && Decimals(b) == "5" && NumberOf("") == 0;
    assert "5"[..0] == "";
    assert NumberOf("5") == 5;
    PrecisionUnit();
    assert Pow10(18) == 10 * Pow10(17);
    SignedForm("+.5");
  }
}
