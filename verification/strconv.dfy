/**
 * strconv.Atoi on a 64-bit platform, and the decimal rendering that inverts
 * it on naturals. Atoi accepts an optional '+' or '-' followed by one or more
 * ASCII digits (leading zeros allowed, no underscores, no spaces) whose value
 * fits in a signed 64-bit integer; anything else is a syntax or range error.
 */
module Strconv {
  import opened Wrappers

  const MaxInt: int := 0x7FFF_FFFF_FFFF_FFFF
  const MinInt: int := -0x8000_0000_0000_0000

  predicate IsDigit(c: char)
  {
    '0' <= c <= '9'
  }

  predicate AllDigits(s: string)
  {
    forall c <- s :: IsDigit(c)
  }

  function DigitValue(c: char): nat
    requires IsDigit(c)
  {
    (c as int) - ('0' as int)
  }

  /** The value of a run of decimal digits, most significant first. */
  function DigitsValue(ds: string): nat
    requires AllDigits(ds)
  {
    if |ds| == 0 then 0
    else
      assert ds[|ds| - 1] in ds;
      DigitsValue(ds[..|ds| - 1]) * 10 + DigitValue(ds[|ds| - 1])
  }

  /** Value of an unsigned digit run: one or more digits, else a syntax error. */
  function Unsigned(ds: string): (r: Option<nat>)
    ensures r.Some? <==> |ds| > 0 && AllDigits(ds)
  {
    if |ds| > 0 && AllDigits(ds) then Some(DigitsValue(ds)) else None
  }

  /** strconv.Atoi: optional sign, one or more digits, result within int64. */
  function Atoi(s: string): (r: Option<int>)
    ensures r.Some? ==> MinInt <= r.value <= MaxInt
    ensures r.Some? ==> |s| > 0 && (IsDigit(s[0]) || s[0] == '+' || s[0] == '-')
    ensures r.Some? && |s| > 0 && s[0] == '-' ==> r.value <= 0
  {
    var signed := |s| > 0 && (s[0] == '+' || s[0] == '-');
    var digits := if signed then s[1..] else s;
    match Unsigned(digits)
    case None => None
    case Some(n) =>
      var v: int := if signed && s[0] == '-' then -(n as int) else n;
      if MinInt <= v <= MaxInt then Some(v) else None
  }

  /** The decimal digit for 0 <= d < 10. */
  function DigitChar(d: nat): (c: char)
    requires d < 10
    ensures IsDigit(c) && DigitValue(c) == d
  {
    (('0' as int) + d) as char
  }

  /** Decimal rendering of a natural, without sign or leading zeros (strconv.Itoa). */
  function Decimal(n: nat): (s: string)
    ensures |s| >= 1 && AllDigits(s)
    ensures s[0] == '0' ==> n == 0
  {
    if n < 10 then [DigitChar(n)] else Decimal(n / 10) + [DigitChar(n % 10)]
  }

  /** Reading back a rendered natural gives the natural. */
  lemma {:induction false} DigitsValueDecimal(n: nat)
    ensures DigitsValue(Decimal(n)) == n
  {
    var s := Decimal(n);
    if n >= 10 {
      DigitsValueDecimal(n / 10);
      assert s[..|s| - 1] == Decimal(n / 10);
    }
  }

  /** Round trip: Atoi parses the rendering of any natural that fits in int64. */
  lemma AtoiDecimal(n: nat)
    requires n <= MaxInt
    ensures Atoi(Decimal(n)) == Some(n)
  {
    DigitsValueDecimal(n);
    var s := Decimal(n);
    assert s[0] in s;
    assert Unsigned(s) == Some(n);
  }

  /** A leading zero does not change the value, so "01" and "1" parse alike. */
  lemma {:induction false} DigitsValueLeadingZero(ds: string)
    requires AllDigits(ds)
    ensures AllDigits("0" + ds) && DigitsValue("0" + ds) == DigitsValue(ds)
  {
    var z := "0" + ds;
    if |ds| > 0 {
      assert z[..|z| - 1] == "0" + ds[..|ds| - 1];
      DigitsValueLeadingZero(ds[..|ds| - 1]);
    }
  }

  lemma AtoiLeadingZero(ds: string)
    requires |ds| > 0 && AllDigits(ds)
    ensures Atoi("0" + ds) == Atoi(ds)
  {
    DigitsValueLeadingZero(ds);
    assert ds[0] in ds;
    assert ("0" + ds)[0] == '0';
    assert Unsigned("0" + ds) == Unsigned(ds);
  }

  /** An explicit '+' sign is accepted and changes nothing. */
  lemma AtoiPlusSign(ds: string)
    requires |ds| > 0 && AllDigits(ds)
    ensures Atoi("+" + ds) == Atoi(ds)
  {
    assert ("+" + ds)[1..] == ds;
    assert ds[0] in ds;
  }

  /** Minus zero is zero; a minus sign on a nonzero digit run gives a negative value. */
  lemma AtoiMinus(ds: string)
    requires |ds| > 0 && AllDigits(ds)
    ensures Atoi("-" + ds).Some? ==> Atoi("-" + ds).value == -(DigitsValue(ds) as int)
    ensures Atoi("-0") == Some(0)
  {
    assert ("-" + ds)[1..] == ds;
    assert "-0"[1..] == "0";
  }

  /** Signs and leading zeros are accepted: "+1" and "01" are 1, "-0" is 0. */
  lemma SignedAndPaddedExamples()
    ensures Atoi("+1") == Some(1) && Atoi("01") == Some(1) && Atoi("-0") == Some(0)
  {
    assert DigitsValue("1") == 1 by {
      assert "1"[..0] == "";
    }
    assert Atoi("1") == Some(1);
    AtoiPlusSign("1");
    assert "+" + "1" == "+1";
    AtoiLeadingZero("1");
    assert "0" + "1" == "01";
    AtoiMinus("0");
  }
}
