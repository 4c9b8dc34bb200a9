/** operator<<: an optional '-', the most-significant limb without padding
    ("0" when there are no limbs), then every lower limb padded with zeros to
    nine characters. */
module Formatting {
  import opened Limbs
  import opened Decimal
  import opened Numbers
  import opened Parsing

  /** The lower limbs ds as printed: most-significant first, each limb padded
      to nine characters. */
  function LowerLimbs(ds: seq<int>): string
    requires ValidLimbs(ds)
  {
    if ds == [] then "" else LowerLimbs(ds[1..]) + Padded(ds[0], BASE_DIGITS)
  }

  /** Nine characters per limb, all digits, denoting the value of the limbs. */
  lemma {:induction false} LowerLimbsDenote(ds: seq<int>)
    requires ValidLimbs(ds)
    ensures |LowerLimbs(ds)| == BASE_DIGITS * |ds|
    ensures AllDigits(LowerLimbs(ds))
    ensures Dec(LowerLimbs(ds)) == Value(ds)
  {
    if ds != [] {
      var rest, low := LowerLimbs(ds[1..]), Padded(ds[0], BASE_DIGITS);
      assert LowerLimbs(ds) == rest + low;
      LowerLimbsDenote(ds[1..]);
      assert Pow10(BASE_DIGITS) == BASE;
      PaddedDenotes(ds[0], BASE_DIGITS);
      DecAppend(rest, low);
      assert Dec(rest + low) == Value(ds[1..]) * BASE + ds[0];
      assert ds == [ds[0]] + ds[1..];
      ValueCons(ds[0], ds[1..]);
    }
  }

  /** The sign as printed: '-' exactly when the sign is -1. */
  function SignText(n: Number): string
  {
    if n.sign == -1 then "-" else ""
  }

  /** The most-significant limb as printed, or 0 when there are no limbs. */
  function TopText(n: Number): (r: string)
    requires ValidLimbs(n.digits)
    ensures |r| > 0 && AllDigits(r)
  {
    UnpaddedDenotes(if n.digits == [] then 0 else n.digits[|n.digits| - 1]);
    Unpadded(if n.digits == [] then 0 else n.digits[|n.digits| - 1])
  }

  /** The limbs below the most-significant one. */
  function LowerPart(ds: seq<int>): seq<int>
  {
    if ds == [] then [] else ds[..|ds| - 1]
  }

  /** The digits operator<< writes after the sign. */
  function DigitText(n: Number): string
    requires ValidLimbs(n.digits)
  {
    TopText(n) + LowerLimbs(LowerPart(n.digits))
  }

  /** The text operator<< writes for n. */
  function Format(n: Number): (r: string)
    requires ValidLimbs(n.digits)
    ensures |r| > 0 && (r[0] == '-' <==> n.sign == -1)
    ensures SignOf(r) == (if n.sign == -1 then -1 else 1)
    ensures Body(r) == DigitText(n)
    ensures AllDigits(Body(r)) && Dec(Body(r)) == Value(n.digits)
    ensures WellFormed(n) ==> |Body(r)| > 0 && (Body(r)[0] == '0' <==> n.digits == [])
  {
    SignedBody(SignText(n), DigitText(n));
    DigitTextDenotes(n);
    SignText(n) + DigitText(n)
  }

  /** A sign text followed by digits: parseString's body is the digits. */
  lemma SignedBody(sign: string, digits: string)
    requires sign == "" || sign == "-"
    requires |digits| > 0 && IsDigit(digits[0])
    ensures Body(sign + digits) == digits
    ensures SignOf(sign + digits) == (if sign == "-" then -1 else 1)
  {
    assert (sign + digits)[|sign|..] == digits;
  }

  lemma DigitTextDenotes(n: Number)
    requires ValidLimbs(n.digits)
    ensures AllDigits(DigitText(n)) && Dec(DigitText(n)) == Value(n.digits)
    ensures NoTrailingZero(n.digits) ==> (DigitText(n)[0] == '0' <==> n.digits == [])
  {
    var top := if n.digits == [] then 0 else n.digits[|n.digits| - 1];
    var lower := LowerPart(n.digits);
    UnpaddedDenotes(top);
    LowerLimbsDenote(lower);
    DecAppend(TopText(n), LowerLimbs(lower));
    if n.digits != [] {
      var m := |n.digits| - 1;
      ValuePrefix(n.digits, m);
      assert n.digits[..m + 1] == n.digits;
      Pow10Limbs(m);
    }
    assert DigitText(n)[0] == TopText(n)[0];
  }

  /** Nine decimal places per limb: 10^(9k) == BASE^k. */
  lemma {:induction false} Pow10Limbs(k: nat)
    ensures Pow10(BASE_DIGITS * k) == BasePow(k)
  {
    if k > 0 {
      Pow10Limbs(k - 1);
      Pow10Add(BASE_DIGITS * (k - 1), BASE_DIGITS);
      assert BASE_DIGITS * k == BASE_DIGITS * (k - 1) + BASE_DIGITS;
      assert Pow10(BASE_DIGITS) == BASE;
    }
  }

  /** Writing one more lower limb, the one at index i, extends the text. */
  lemma LowerLimbsStep(lower: seq<int>, i: nat)
    requires ValidLimbs(lower) && i < |lower|
    ensures LowerLimbs(lower[i..]) == LowerLimbs(lower[i + 1..]) + Padded(lower[i], BASE_DIGITS)
  {
    assert lower[i..][1..] == lower[i + 1..];
  }

  lemma FormatParts(n: Number)
    requires ValidLimbs(n.digits)
    ensures Format(n) == SignText(n) + TopText(n) + LowerLimbs(LowerPart(n.digits))
  {
  }

  /** The loop of operator<<: the sign, the top limb, then the lower limbs from
      index |digits| - 2 down to 0, each padded to nine characters. */
  method Write(n: Number) returns (out: string)
    requires ValidLimbs(n.digits)
    ensures out == Format(n)
  {
    out := SignText(n);
    out := out + TopText(n);
    ghost var head := out;
    ghost var lower := LowerPart(n.digits);
    if n.digits != [] {
      var i := |n.digits| - 2;
      while i >= 0
        invariant -1 <= i < |lower|
        invariant out == head + LowerLimbs(lower[i + 1..])
      {
        LowerLimbsStep(lower, i);
        out := out + Padded(n.digits[i], BASE_DIGITS);
        i := i - 1;
      }
      assert lower[0..] == lower;
    }
    FormatParts(n);
  }

  /** Printing a canonical number and parsing the text back gives the number. */
  method WriteThenParse(x: Number) returns (r: Result<Number>)
    requires Canonical(x)
    ensures r == Success(x)
  {
    var text := Write(x);
    r := Parse(text);
    assert |text| > 0 && AllDigits(Body(text));
    assert r.Success?;
    CanonicalUnique(r.value, x);
  }

  /** The negative zero prints as "-0". */
  lemma NegZeroPrints()
    ensures Format(Neg(Zero)) == "-0"
  {
    assert Unpadded(0) == "0";
  }
}
