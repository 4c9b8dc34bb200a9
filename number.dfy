/** The value of an IntegerNumber (sign and limbs), normalisation, unary minus,
    absolute value and the comparison operators. */
module Numbers {
  import opened Limbs

  /** A signed integer: `sign` is +1 or -1 and `digits` holds base-10^9 limbs,
      least-significant first. */
  datatype Number = Number(sign: int, digits: seq<int>)

  /** The default-constructed value: sign +1, no limbs. */
  const Zero: Number := Number(1, [])

  datatype ParseError = Empty | InvalidDigit

  datatype Result<T> = Success(value: T) | Failure(error: ParseError)

  /** The integer a Number denotes: sign * sum of digits[i] * BASE^i. */
  function ToInt(n: Number): int
  {
    n.sign * Value(n.digits)
  }

  /** The representation invariant every operation relies on. It admits the
      negative zero `Number(-1, [])` that unary minus produces. */
  predicate WellFormed(n: Number)
  {
    (n.sign == 1 || n.sign == -1) && ValidLimbs(n.digits) && NoTrailingZero(n.digits)
  }

  /** Canonical form: well formed, and zero is always `Number(1, [])`. */
  predicate Canonical(n: Number)
  {
    WellFormed(n) && (n.digits == [] ==> n.sign == 1)
  }

  /** Canonical numbers denoting the same integer are identical. */
  lemma CanonicalUnique(a: Number, b: Number)
    ensures Canonical(a) && Canonical(b) && ToInt(a) == ToInt(b) ==> a == b
  {
    if Canonical(a) && Canonical(b) && ToInt(a) == ToInt(b) {
      ValueZeroIffEmpty(a.digits);
      ValueZeroIffEmpty(b.digits);
      ValueBounds(a.digits);
      ValueBounds(b.digits);
      if a.digits == [] || b.digits == [] {
        assert a.digits == [] && b.digits == [];
      } else {
        assert a.sign == b.sign;
        assert Value(a.digits) == Value(b.digits);
        ValueInjective(a.digits, b.digits);
      }
    }
  }

  // ---------------------------------------------------------------- trim

  /** The limbs left after popping every trailing zero limb. */
  function StripZeros(ds: seq<int>): seq<int>
  {
    if ds != [] && ds[|ds| - 1] == 0 then StripZeros(ds[..|ds| - 1]) else ds
  }

  /** StripZeros removes only zero limbs from the top and keeps the value. */
  lemma {:induction false} StripZerosSpec(ds: seq<int>)
    ensures |StripZeros(ds)| <= |ds| && StripZeros(ds) == ds[..|StripZeros(ds)|]
    ensures NoTrailingZero(StripZeros(ds))
    ensures forall i :: |StripZeros(ds)| <= i < |ds| ==> ds[i] == 0
    ensures Value(StripZeros(ds)) == Value(ds)
  {
    if ds != [] && ds[|ds| - 1] == 0 {
      var init := ds[..|ds| - 1];
      StripZerosSpec(init);
      var r := StripZeros(init);
      assert init[..|r|] == ds[..|r|];
    } else {
      assert ds[..|ds|] == ds;
    }
  }

  /** Trimming an already trimmed sequence changes nothing. */
  lemma StripZerosIdempotent(ds: seq<int>)
    ensures StripZeros(StripZeros(ds)) == StripZeros(ds)
  {
    StripZerosSpec(ds);
  }

  /** trim(): pops trailing zero limbs; a number left without limbs gets sign +1. */
  method Trim(n: Number) returns (r: Number)
    ensures r.digits == StripZeros(n.digits)
    ensures r.sign == (if r.digits == [] then 1 else n.sign)
    ensures (n.sign == 1 || n.sign == -1) && ValidLimbs(n.digits) ==> Canonical(r) && ToInt(r) == ToInt(n)
    ensures Canonical(n) ==> r == n
  {
    var ds := n.digits;
    while ds != [] && ds[|ds| - 1] == 0
      invariant StripZeros(ds) == StripZeros(n.digits)
      decreases |ds|
    {
      ds := ds[..|ds| - 1];
    }
    r := Number(if ds == [] then 1 else n.sign, ds);
    StripZerosSpec(n.digits);
  }

  // ---------------------------------------------------------------- unary minus, abs

  /** operator-(): flips the sign unconditionally, so negating zero gives `Number(-1, [])`. */
  function Neg(n: Number): (r: Number)
    ensures r.digits == n.digits
    ensures ToInt(r) == -ToInt(n)
    ensures WellFormed(n) ==> WellFormed(r) && r.sign == -n.sign
  {
    Number(-n.sign, n.digits)
  }

  /** abs(): sign becomes sign * sign, limbs unchanged. */
  function Abs(n: Number): (r: Number)
    ensures r.digits == n.digits
    ensures n.sign == 1 || n.sign == -1 ==> r.sign == 1
    ensures WellFormed(n) ==> Canonical(r) && ToInt(r) == Value(n.digits)
    ensures WellFormed(n) ==> ToInt(r) >= 0 && (ToInt(r) == ToInt(n) || ToInt(r) == -ToInt(n))
  {
    ValueBounds(n.digits);
    Number(n.sign * n.sign, n.digits)
  }

  lemma NegInvolution(n: Number)
    ensures Neg(Neg(n)) == n
  {
  }

  lemma AbsOfNeg(n: Number)
    ensures Abs(Neg(n)) == Abs(n)
  {
  }

  /** Negating zero leaves the canonical form: `-0` has sign -1, sorts below 0
      and is not equal to it under the derived `==`. */
  lemma NegZeroIsNotCanonical()
    ensures Neg(Zero) == Number(-1, []) && ToInt(Neg(Zero)) == 0
    ensures !Canonical(Neg(Zero)) && Less(Neg(Zero), Zero) && !Equal(Neg(Zero), Zero)
  {
  }

  // ---------------------------------------------------------------- comparison

  /** The scan of operator<: limbs from index k-1 down to 0; the first
      differing pair, each multiplied by its sign, decides. */
  function ScanLess(x: seq<int>, y: seq<int>, sx: int, sy: int, k: nat): bool
    requires |x| == |y| && k <= |x|
  {
    if k == 0 then false
    else if x[k - 1] != y[k - 1] then x[k - 1] * sx < y[k - 1] * sy
    else ScanLess(x, y, sx, sy, k - 1)
  }

  /** operator<: signs first, then limb counts weighted by the sign, then the
      limbs from the most significant one down. */
  function Less(a: Number, b: Number): bool
  {
    if a.sign != b.sign then a.sign < b.sign
    else if |a.digits| != |b.digits| then |a.digits| * a.sign < |b.digits| * b.sign
    else ScanLess(a.digits, b.digits, a.sign, b.sign, |a.digits|)
  }

  lemma {:induction false} ScanLessValue(x: seq<int>, y: seq<int>, k: nat)
    requires ValidLimbs(x) && ValidLimbs(y) && |x| == |y| && k <= |x|
    ensures ScanLess(x, y, 1, 1, k) <==> Value(x[..k]) < Value(y[..k])
    ensures ScanLess(x, y, -1, -1, k) <==> Value(y[..k]) < Value(x[..k])
  {
    if k > 0 {
      ValuePrefix(x, k - 1);
      ValuePrefix(y, k - 1);
      if x[k - 1] < y[k - 1] {
        TopDominates(x[..k], y[..k]);
      } else if y[k - 1] < x[k - 1] {
        TopDominates(y[..k], x[..k]);
      } else {
        ScanLessValue(x, y, k - 1);
      }
    }
  }

  /** Between numbers of the same sign operator< is the integer order, even
      when both are the negative zero. */
  lemma LessSameSignIsIntegerLess(a: Number, b: Number)
    requires WellFormed(a) && WellFormed(b) && a.sign == b.sign
    ensures Less(a, b) <==> ToInt(a) < ToInt(b)
  {
    if |a.digits| < |b.digits| {
      ShorterIsSmaller(a.digits, b.digits);
    } else if |b.digits| < |a.digits| {
      ShorterIsSmaller(b.digits, a.digits);
    } else {
      ScanLessValue(a.digits, b.digits, |a.digits|);
      assert a.digits[..|a.digits|] == a.digits;
      assert b.digits[..|b.digits|] == b.digits;
    }
  }

  /** On canonical numbers operator< is the integer order. */
  lemma LessIsIntegerLess(a: Number, b: Number)
    ensures Canonical(a) && Canonical(b) ==> (Less(a, b) <==> ToInt(a) < ToInt(b))
  {
    if Canonical(a) && Canonical(b) {
      if a.sign == b.sign {
        LessSameSignIsIntegerLess(a, b);
      } else {
        ValueBounds(a.digits);
        ValueBounds(b.digits);
        ValueZeroIffEmpty(a.digits);
        ValueZeroIffEmpty(b.digits);
      }
    }
  }

  /** Width of size_t on a 64-bit target. */
  const SIZE_MODULUS: int := 0x1_0000_0000_0000_0000

  /** `digits.size() * sign` as C++ evaluates it: the sign is converted to
      size_t (so -1 becomes 2^64 - 1) and the product wraps modulo 2^64. */
  function SizeTimesSign(len: nat, sign: int): (r: int)
    ensures 0 <= r < SIZE_MODULUS
  {
    (len * (sign % SIZE_MODULUS)) % SIZE_MODULUS
  }

  /** operator< with the limb-count comparison evaluated in size_t. */
  function LessAsWritten(a: Number, b: Number): bool
  {
    if a.sign != b.sign then a.sign < b.sign
    else if |a.digits| != |b.digits| then SizeTimesSign(|a.digits|, a.sign) < SizeTimesSign(|b.digits|, b.sign)
    else ScanLess(a.digits, b.digits, a.sign, b.sign, |a.digits|)
  }

  /** In size_t, the negative zero compares below -5 although 0 > -5. */
  lemma LessAsWrittenMisordersNegZero()
    ensures WellFormed(Neg(Zero)) && WellFormed(Number(-1, [5]))
    ensures LessAsWritten(Neg(Zero), Number(-1, [5]))
    ensures ToInt(Neg(Zero)) > ToInt(Number(-1, [5]))
    ensures !Less(Neg(Zero), Number(-1, [5]))
  {
    assert SizeTimesSign(0, -1) == 0;
    assert SizeTimesSign(1, -1) == SIZE_MODULUS - 1;
  }

  lemma WrappedNegation(len: nat)
    requires 0 < len < SIZE_MODULUS
    ensures SizeTimesSign(len, -1) == SIZE_MODULUS - len
  {
    assert -1 % SIZE_MODULUS == SIZE_MODULUS - 1;
    assert len * (SIZE_MODULUS - 1) == (len - 1) * SIZE_MODULUS + (SIZE_MODULUS - len);
  }

  /** The wrap-around is harmless unless an operand is the negative zero. */
  lemma LessAsWrittenAgrees(a: Number, b: Number)
    requires WellFormed(a) && WellFormed(b)
    requires |a.digits| < SIZE_MODULUS && |b.digits| < SIZE_MODULUS
    requires a.digits != [] || a.sign == 1
    requires b.digits != [] || b.sign == 1
    ensures LessAsWritten(a, b) == Less(a, b)
  {
    if a.sign == b.sign && |a.digits| != |b.digits| {
      if a.sign == -1 {
        WrappedNegation(|a.digits|);
        WrappedNegation(|b.digits|);
      }
    }
  }

  /** operator< never holds between a number and itself. */
  lemma {:induction false} LessIrreflexive(a: Number)
    ensures !Less(a, a)
  {
    ScanLessSelf(a.digits, a.sign, |a.digits|);
  }

  lemma {:induction false} ScanLessSelf(x: seq<int>, s: int, k: nat)
    requires k <= |x|
    ensures !ScanLess(x, x, s, s, k)
  {
    if k > 0 {
      ScanLessSelf(x, s, k - 1);
    }
  }

  lemma LessTransitive(a: Number, b: Number, c: Number)
    requires Canonical(a) && Canonical(b) && Canonical(c)
    requires Less(a, b) && Less(b, c)
    ensures Less(a, c)
  {
    LessIsIntegerLess(a, b);
    LessIsIntegerLess(b, c);
    LessIsIntegerLess(a, c);
  }

  /** On canonical numbers exactly one of a < b, a == b, b < a holds. */
  lemma LessTrichotomy(a: Number, b: Number)
    requires Canonical(a) && Canonical(b)
    ensures Less(a, b) || a == b || Less(b, a)
    ensures !(Less(a, b) && Less(b, a)) && (a == b ==> !Less(a, b))
  {
    LessIsIntegerLess(a, b);
    LessIsIntegerLess(b, a);
    if ToInt(a) == ToInt(b) {
      CanonicalUnique(a, b);
    }
    LessIrreflexive(a);
  }

  /** The loop of operator<, scanning from the most-significant limb down. */
  method LessThan(a: Number, b: Number) returns (r: bool)
    ensures r == Less(a, b)
    ensures Canonical(a) && Canonical(b) ==> (r <==> ToInt(a) < ToInt(b))
  {
    LessIsIntegerLess(a, b);
    if a.sign != b.sign {
      return a.sign < b.sign;
    }
    if |a.digits| != |b.digits| {
      return |a.digits| * a.sign < |b.digits| * b.sign;
    }
    var i := |a.digits| - 1;
    while i >= 0
      invariant -1 <= i < |a.digits|
      invariant ScanLess(a.digits, b.digits, a.sign, b.sign, i + 1) == Less(a, b)
    {
      if a.digits[i] != b.digits[i] {
        return a.digits[i] * a.sign < b.digits[i] * b.sign;
      }
      i := i - 1;
    }
    return false;
  }

  /** operator>: `rhs < *this`. */
  function Greater(a: Number, b: Number): (r: bool)
    ensures Canonical(a) && Canonical(b) ==> (r <==> ToInt(a) > ToInt(b))
  {
    LessIsIntegerLess(b, a);
    Less(b, a)
  }

  /** operator<=: `!(rhs < *this)`. */
  function LessEq(a: Number, b: Number): (r: bool)
    ensures Canonical(a) && Canonical(b) ==> (r <==> ToInt(a) <= ToInt(b))
  {
    LessIsIntegerLess(b, a);
    !Less(b, a)
  }

  /** operator>=: `!(*this < rhs)`. */
  function GreaterEq(a: Number, b: Number): (r: bool)
    ensures Canonical(a) && Canonical(b) ==> (r <==> ToInt(a) >= ToInt(b))
  {
    LessIsIntegerLess(a, b);
    !Less(a, b)
  }

  /** operator==: neither is less than the other. On canonical numbers this is
      identity of sign and limbs. */
  function Equal(a: Number, b: Number): (r: bool)
    ensures Canonical(a) && Canonical(b) ==> (r <==> a == b)
    ensures Canonical(a) && Canonical(b) ==> (r <==> ToInt(a) == ToInt(b))
  {
    LessIsIntegerLess(a, b);
    LessIsIntegerLess(b, a);
    CanonicalUnique(a, b);
    !Less(b, a) && !Less(a, b)
  }

  /** operator!=: one of the two is less than the other. */
  function NotEqual(a: Number, b: Number): (r: bool)
    ensures r == !Equal(a, b)
    ensures Canonical(a) && Canonical(b) ==> (r <==> a != b)
  {
    Less(b, a) || Less(a, b)
  }
}
