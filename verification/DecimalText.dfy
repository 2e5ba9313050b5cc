/** Printing and parsing decimals. */
module DecimalText {
  import opened Bytes
  import opened Decimal

  const PRECISION: nat := 18

  predicate IsDigit(c: char) {
    '0' <= c <= '9'
  }

  predicate AllDigits(s: string) {
    forall i :: 0 <= i < |s| ==> IsDigit(s[i])
  }

  function DigitValue(c: char): int {
    c as int - '0' as int
  }

  function DigitChar(n: nat): char
    requires n < 10
  {
    ('0' as int + n) as char
  }

  /** The number a string of digits stands for. */
  function NumberOf(s: string): int {
    if s == "" then 0 else 10 * NumberOf(s[..|s| - 1]) + DigitValue(s[|s| - 1])
  }

  /** `big.Int.MarshalText` of a non-negative number. */
  function Digits(n: nat): (s: string)
    ensures s != "" && AllDigits(s)
  {
    if n < 10 then [DigitChar(n)] else Digits(n / 10) + [DigitChar(n % 10)]
  }

  function Zeros(n: nat): (s: string)
    ensures |s| == n && AllDigits(s) && forall i :: 0 <= i < n ==> s[i] == '0'
  {
    seq(n, _ => '0')
  }

  lemma {:induction false} NumberOfDigits(n: nat)
    ensures NumberOf(Digits(n)) == n
  {
    if n >= 10 {
      NumberOfDigits(n / 10);
      assert Digits(n)[..|Digits(n)| - 1] == Digits(n / 10);
    }
  }

  /** Leading zeros do not count. */
  lemma {:induction false} NumberOfPadded(k: nat, s: string)
    ensures NumberOf(Zeros(k) + s) == NumberOf(s)
    decreases k + |s|
  {
    if s == "" {
      assert Zeros(k) + s == Zeros(k);
      if k > 0 {
        assert Zeros(k)[..k - 1] == Zeros(k - 1) + s;
        NumberOfPadded(k - 1, s);
      }
    } else {
      assert (Zeros(k) + s)[..k + |s| - 1] == Zeros(k) + s[..|s| - 1];
      NumberOfPadded(k, s[..|s| - 1]);
    }
  }

  // ---------- printing ----------

  /** The digits of a magnitude with the decimal point in place. */
  function Point(digits: string): string {
    if |digits| <= PRECISION then "0." + Zeros(PRECISION - |digits|) + digits
    else digits[..|digits| - PRECISION] + "." + digits[|digits| - PRECISION..]
  }

  function Format(d: int): string {
    if d < 0 then "-" + Point(Digits(-d)) else Point(Digits(d))
  }

  /** `String`, filling a buffer. */
  method String(d: int) returns (s: string)
    ensures s == Format(d)
  {
    var digits := Digits(Abs(d));
    if |digits| <= PRECISION { s := FillFraction(digits); } else { s := FillPoint(digits); }
    if d < 0 { s := "-" + s; }
  }

  /** The purely decimal case: `0.`, zeros, and the digits. */
  method FillFraction(digits: string) returns (s: string)
    requires |digits| <= PRECISION
    ensures s == Point(digits)
  {
    var pad := PRECISION - |digits|;
    var buffer := new char[PRECISION + 2](_ => ' ');
    buffer[0], buffer[1] := '0', '.';
    for i := 0 to pad
      invariant buffer[0] == '0' && buffer[1] == '.' && forall j :: 2 <= j < i + 2 ==> buffer[j] == '0'
    {
      buffer[i + 2] := '0';
    }
    assert buffer[..pad + 2] == "0." + Zeros(pad);
    CopyInto(buffer, pad + 2, digits);
    assert buffer[..] == buffer[..pad + 2] + buffer[pad + 2..pad + 2 + |digits|];
    s := buffer[..];
  }

  /** The other case: the point goes into the digits. */
  method FillPoint(digits: string) returns (s: string)
    requires |digits| > PRECISION
    ensures s == Point(digits)
  {
    var buffer := new char[|digits| + 1](_ => ' ');
    var place := |digits| - PRECISION;
    CopyInto(buffer, 0, digits[..place]);
    assert buffer[..place] == digits[..place];
    buffer[place] := '.';
    assert buffer[..place + 1] == digits[..place] + ".";
    CopyInto(buffer, place + 1, digits[place..]);
    assert buffer[..] == buffer[..place + 1] + buffer[place + 1..place + 1 + PRECISION];
    s := buffer[..];
  }

  /** `copy` into a buffer from an offset on. */
  method CopyInto(buffer: array<char>, offset: nat, s: string)
    requires offset + |s| <= buffer.Length
    modifies buffer
    ensures buffer[..offset] == old(buffer[..offset]) && buffer[offset..offset + |s|] == s
    ensures buffer[offset + |s|..] == old(buffer[offset + |s|..])
  {
    for i := 0 to |s|
      invariant buffer[..offset] == old(buffer[..offset]) && buffer[offset..offset + i] == s[..i]
      invariant buffer[offset + |s|..] == old(buffer[offset + |s|..])
    {
      buffer[offset + i] := s[i];
    }
  }

  // ---------- parsing ----------

  datatype ParseError = EmptyString | InvalidLength | InvalidString | TooPrecise | NotANumber

  datatype Parsed = Ok(value: int) | Err(error: ParseError)

  /** `strings.Split` on a one-character separator. */
  function Split(s: string, sep: char): (parts: seq<string>)
    ensures parts != []
  {
    if s == "" then [""]
    else
      var rest := Split(s[1..], sep);
      if s[0] == sep then [""] + rest else [[s[0]] + rest[0]] + rest[1..]
  }

  /** `big.Int.SetString` in base 10: an optional sign and at least one digit. */
  function SetString(s: string): Option<int> {
    if s == "" then None
    else
      var digits := if s[0] == '-' || s[0] == '+' then s[1..] else s;
      if digits == "" || !AllDigits(digits) then None
      else Some(if s[0] == '-' then -NumberOf(digits) else NumberOf(digits))
  }

  /** `NewDecFromStr`. */
  function NewDecFromStr(str: string): Parsed {
    if str == "" then Err(EmptyString)
    else if str[0] == '-' then
      var r := ParseUnsigned(str[1..]);
      if r.Ok? then Ok(-r.value) else r
    else ParseUnsigned(str)
  }

  /** The part of `NewDecFromStr` behind a minus sign. */
  function ParseUnsigned(str: string): Parsed {
    if str == "" then Err(EmptyString)
    else
      var parts := Split(str, '.');
      if |parts| == 2 && (parts[1] == "" || parts[0] == "") then Err(InvalidLength)
      else if |parts| > 2 then Err(InvalidString)
      else
        var decimals := if |parts| == 2 then parts[1] else "";
        if |decimals| > PRECISION then Err(TooPrecise)
        else
          var combined := SetString(parts[0] + decimals + Zeros(PRECISION - |decimals|));
          if combined.None? then Err(NotANumber) else Ok(combined.value)
  }

  lemma {:induction false} SplitNone(s: string, sep: char)
    requires forall i :: 0 <= i < |s| ==> s[i] != sep
    ensures Split(s, sep) == [s]
  {
    if s != "" {
      SplitNone(s[1..], sep);
      assert [s[0]] + s[1..] == s;
    }
  }

  lemma {:induction false} SplitOne(a: string, b: string, sep: char)
    requires (forall i :: 0 <= i < |a| ==> a[i] != sep) && (forall i :: 0 <= i < |b| ==> b[i] != sep)
    ensures Split(a + [sep] + b, sep) == [a, b]
  {
    var s := a + [sep] + b;
    if a == "" {
      assert s[1..] == b;
      SplitNone(b, sep);
    } else {
      assert s[1..] == a[1..] + [sep] + b;
      SplitOne(a[1..], b, sep);
      assert [a[0]] + a[1..] == a;
    }
  }

  function Pow10(n: nat): nat {
    if n == 0 then 1 else 10 * Pow10(n - 1)
  }

  lemma TenTimes(x: int, y: int)
    ensures 10 * (x * y) == x * (10 * y)
  {
  }

  lemma {:induction false} NumberOfConcat(a: string, b: string)
    ensures NumberOf(a + b) == NumberOf(a) * Pow10(|b|) + NumberOf(b)
  {
    if b == "" {
      assert a + b == a;
    } else {
      var n := |b| - 1;
      assert (a + b)[..|a| + n] == a + b[..n];
      NumberOfConcat(a, b[..n]);
      TenTimes(NumberOf(a), Pow10(n));
    }
  }

  lemma {:induction false} NumberOfZeros(k: nat)
    ensures NumberOf(Zeros(k)) == 0
  {
    NumberOfPadded(k, "");
    assert Zeros(k) + "" == Zeros(k);
  }

  lemma DigitsNumber(s: string)
    requires s != "" && AllDigits(s)
    ensures SetString(s) == Some(NumberOf(s))
  {
    assert IsDigit(s[0]);
  }

  /** A string without a sign, with a decimal point. */
  lemma ParsePoint(w: string, f: string)
    requires w != "" && AllDigits(w) && AllDigits(f) && 1 <= |f| <= PRECISION
    ensures ParseUnsigned(w + "." + f) == Ok(NumberOf(w + f + Zeros(PRECISION - |f|)))
  {
    SplitOne(w, f, '.');
    DigitsNumber(w + f + Zeros(PRECISION - |f|));
  }

  /** A minus sign in front negates. */
  lemma ParseSign(s: string)
    requires s != "" && s[0] != '-' && ParseUnsigned(s).Ok?
    ensures NewDecFromStr(s) == ParseUnsigned(s) && NewDecFromStr("-" + s) == Ok(-ParseUnsigned(s).value)
  {
    assert ("-" + s)[1..] == s;
  }

  lemma StartsWithDigit(w: string, rest: string)
    requires w != "" && AllDigits(w)
    ensures (w + rest)[0] != '-'
  {
    assert IsDigit(w[0]);
  }

  /** Parsing means what the digits say: whole units, and decimals scaled by their number. */
  lemma ParseMeaning(w: string, f: string)
    requires w != "" && AllDigits(w) && AllDigits(f) && 1 <= |f| <= PRECISION
    ensures NewDecFromStr(w + "." + f) == Ok(NumberOf(w) * Pow10(PRECISION) + NumberOf(f) * Pow10(PRECISION - |f|))
    ensures Pow10(PRECISION) == ONE
  {
    ParsePoint(w, f);
    StartsWithDigit(w, "." + f);
    ParseSign(w + "." + f);
    ScaledNumber(w, f);
    PrecisionUnit();
  }

  lemma ScaledNumber(w: string, f: string)
    requires |f| <= PRECISION
    ensures NumberOf(w + f + Zeros(PRECISION - |f|)) == NumberOf(w) * Pow10(PRECISION) + NumberOf(f) * Pow10(PRECISION - |f|)
  {
    var z := Zeros(PRECISION - |f|);
    assert w + f + z == w + (f + z);
    NumberOfConcat(w, f + z);
    NumberOfConcat(f, z);
    NumberOfZeros(PRECISION - |f|);
  }

  lemma PrecisionUnit()
    ensures Pow10(PRECISION) == ONE
  {
    assert Pow10(5) == 100_000;
    assert Pow10(9) == 1_000_000_000;
    Pow10Sum(9, 9);
  }

  lemma {:induction false} Pow10Sum(a: nat, b: nat)
    ensures Pow10(a + b) == Pow10(a) * Pow10(b)
  {
    if a > 0 {
      Pow10Sum(a - 1, b);
      assert 10 * (Pow10(a - 1) * Pow10(b)) == (10 * Pow10(a - 1)) * Pow10(b);
    }
  }

  /** The printed magnitude, cut at the point, has at least one digit before it and 18 behind it. */
  lemma PointParts(digits: string) returns (w: string, f: string)
    requires digits != "" && AllDigits(digits)
    ensures w != "" && AllDigits(w) && AllDigits(f) && |f| == PRECISION && Point(digits) == w + "." + f
    ensures NumberOf(w + f) == NumberOf(digits)
  {
    if |digits| <= PRECISION { w, f := FractionParts(digits); } else { w, f := WholeParts(digits); }
  }

  lemma FractionParts(digits: string) returns (w: string, f: string)
    requires AllDigits(digits) && |digits| <= PRECISION
    ensures w == "0" && AllDigits(f) && |f| == PRECISION && Point(digits) == w + "." + f
    ensures NumberOf(w + f) == NumberOf(digits)
  {
    var z := Zeros(PRECISION - |digits|);
    w, f := "0", z + digits;
    assert "0." + z + digits == "0" + "." + (z + digits);
    assert w + f == Zeros(PRECISION - |digits| + 1) + digits;
    NumberOfPadded(PRECISION - |digits| + 1, digits);
  }

  lemma WholeParts(digits: string) returns (w: string, f: string)
    requires AllDigits(digits) && |digits| > PRECISION
    ensures w != "" && AllDigits(w) && AllDigits(f) && |f| == PRECISION && Point(digits) == w + "." + f
    ensures NumberOf(w + f) == NumberOf(digits)
  {
    w, f := digits[..|digits| - PRECISION], digits[|digits| - PRECISION..];
    assert w + f == digits;
  }

  /** Round trip: every decimal, of any sign and size, parses back from its printed form. */
  lemma RoundTrip(d: int)
    ensures NewDecFromStr(Format(d)) == Ok(d)
  {
    var n := Abs(d);
    var w, f := PointParts(Digits(n));
    ParsePoint(w, f);
    assert w + f + Zeros(0) == w + f;
    StartsWithDigit(w, "." + f);
    ParseSign(w + "." + f);
    NumberOfDigits(n);
  }
}
