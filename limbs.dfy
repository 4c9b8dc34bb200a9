/** Limb sequences in radix 10^9, least-significant limb first, and the
    numeric value they denote. */
module Limbs {

  /** Radix of one limb: each limb holds nine decimal digits. */
  const BASE: int := 1_000_000_000
  /** Number of decimal characters that make up one limb. */
  const BASE_DIGITS: int := 9
  /** Largest value of the 32-bit `int` that holds a limb during the loops. */
  const INT_MAX: int := 0x7fff_ffff

  function BasePow(k: nat): (r: int)
    ensures r >= 1
  {
    if k == 0 then 1 else BASE * BasePow(k - 1)
  }

  /** Every limb lies in [0, BASE). */
  predicate ValidLimbs(ds: seq<int>)
  {
    forall i :: 0 <= i < |ds| ==> 0 <= ds[i] < BASE
  }

  /** The most-significant limb, when there is one, is not zero. */
  predicate NoTrailingZero(ds: seq<int>)
  {
    ds == [] || ds[|ds| - 1] != 0
  }

  /** Sum of ds[i] * BASE^i. */
  function Value(ds: seq<int>): int
  {
    if ds == [] then 0 else Value(ds[..|ds| - 1]) + ds[|ds| - 1] * BasePow(|ds| - 1)
  }

  lemma {:induction false} BasePowAdd(i: nat, j: nat)
    ensures BasePow(i + j) == BasePow(i) * BasePow(j)
  {
    if j > 0 {
      BasePowAdd(i, j - 1);
      calc {
        BasePow(i + j);
        BASE * BasePow(i + j - 1);
        BASE * (BasePow(i) * BasePow(j - 1));
        BasePow(i) * (BASE * BasePow(j - 1));
      }
    }
  }

  lemma {:induction false} BasePowMonotone(i: nat, j: nat)
    requires i <= j
    ensures BasePow(i) <= BasePow(j)
  {
    if i < j {
      BasePowMonotone(i, j - 1);
    }
  }

  /** Taking one more limb of a prefix adds that limb at its weight. */
  lemma ValuePrefix(ds: seq<int>, k: nat)
    requires k < |ds|
    ensures Value(ds[..k + 1]) == Value(ds[..k]) + ds[k] * BasePow(k)
  {
    assert ds[..k + 1][..k] == ds[..k];
  }

  lemma ScaledLimbBound(t: int, k: nat)
    requires 0 <= t < BASE
    ensures 0 <= t * BasePow(k) <= BasePow(k + 1) - BasePow(k)
  {
    ScaledBound(t, BasePow(k), BasePow(k + 1));
  }

  lemma ScaledBound(t: int, p: int, q: int)
    requires 0 <= t < BASE && p >= 1 && q == BASE * p
    ensures 0 <= t * p <= q - p
  {
    var u := BASE - 1 - t;
    assert u >= 0;
    assert u * p >= 0;
    assert q - p == t * p + u * p;
  }

  lemma Distribute(p: int, v: int, d: int, q: int)
    ensures p * (v + d * q) == p * v + d * (p * q)
  {
  }

  lemma TopDominatesArith(vx: int, vy: int, tx: int, ty: int, p: int)
    requires 0 <= vx < p && 0 <= vy && tx < ty
    ensures vx + tx * p < vy + ty * p
  {
    var d := ty - tx - 1;
    assert d * p >= 0;
    assert ty * p == tx * p + d * p + p;
  }

  /** A valid limb sequence of length n denotes a value in [0, BASE^n). */
  lemma {:induction false} ValueBounds(ds: seq<int>)
    ensures ValidLimbs(ds) ==> 0 <= Value(ds) < BasePow(|ds|)
  {
    if ValidLimbs(ds) && ds != [] {
      var n := |ds| - 1;
      ValueBounds(ds[..n]);
      ScaledLimbBound(ds[n], n);
    }
  }

  /** A non-zero most-significant limb makes the value at least BASE^(n-1). */
  lemma ValueLowerBound(ds: seq<int>)
    requires ValidLimbs(ds) && ds != [] && ds[|ds| - 1] != 0
    ensures Value(ds) >= BasePow(|ds| - 1)
  {
    var n := |ds| - 1;
    ValueBounds(ds[..n]);
    assert ds[n] >= 1;
    assert ds[n] * BasePow(n) >= BasePow(n);
  }

  /** Concatenation: the limbs of y are shifted up by |x| positions. */
  lemma {:induction false} ValueConcat(x: seq<int>, y: seq<int>)
    ensures Value(x + y) == Value(x) + BasePow(|x|) * Value(y)
  {
    if y == [] {
      assert x + y == x;
    } else {
      var m := |y| - 1;
      ValueConcat(x, y[..m]);
      assert (x + y)[..|x + y| - 1] == x + y[..m];
      BasePowAdd(|x|, m);
      Distribute(BasePow(|x|), Value(y[..m]), y[m], BasePow(m));
    }
  }

  /** Prepending a limb: the new least-significant limb plus BASE times the rest. */
  lemma ValueCons(d: int, ds: seq<int>)
    ensures Value([d] + ds) == d + BASE * Value(ds)
  {
    ValueConcat([d], ds);
    assert [d][..0] == [];
  }

  /** Without trailing zero limbs, a valid sequence denotes zero exactly when it is empty. */
  lemma ValueZeroIffEmpty(ds: seq<int>)
    requires ValidLimbs(ds) && NoTrailingZero(ds)
    ensures Value(ds) == 0 <==> ds == []
  {
    if ds != [] {
      ValueLowerBound(ds);
    }
  }

  /** Fewer limbs without a trailing zero on the longer side means a smaller value. */
  lemma ShorterIsSmaller(x: seq<int>, y: seq<int>)
    requires ValidLimbs(x) && ValidLimbs(y) && NoTrailingZero(y)
    requires |x| < |y|
    ensures Value(x) < Value(y)
  {
    ValueBounds(x);
    ValueLowerBound(y);
    BasePowMonotone(|x|, |y| - 1);
  }

  /** Of two equally long valid sequences, a smaller top limb means a smaller value. */
  lemma TopDominates(x: seq<int>, y: seq<int>)
    requires ValidLimbs(x) && ValidLimbs(y)
    requires |x| == |y| > 0 && x[|x| - 1] < y[|y| - 1]
    ensures Value(x) < Value(y)
  {
    var n := |x| - 1;
    ValueBounds(x[..n]);
    ValueBounds(y[..n]);
    TopDominatesArith(Value(x[..n]), Value(y[..n]), x[n], y[n], BasePow(n));
  }

  /** Equally long valid sequences with the same value are identical. */
  lemma {:induction false} ValueInjectiveSameLength(x: seq<int>, y: seq<int>)
    requires ValidLimbs(x) && ValidLimbs(y) && |x| == |y|
    requires Value(x) == Value(y)
    ensures x == y
  {
    if x != [] {
      var n := |x| - 1;
      if x[n] < y[n] {
        TopDominates(x, y);
      } else if y[n] < x[n] {
        TopDominates(y, x);
      }
      ValueInjectiveSameLength(x[..n], y[..n]);
      assert x == x[..n] + [x[n]];
      assert y == y[..n] + [y[n]];
    }
  }

  /** The limb representation without trailing zeros is unique. */
  lemma ValueInjective(x: seq<int>, y: seq<int>)
    requires ValidLimbs(x) && ValidLimbs(y) && NoTrailingZero(x) && NoTrailingZero(y)
    requires Value(x) == Value(y)
    ensures x == y
  {
    if |x| < |y| {
      ShorterIsSmaller(x, y);
    } else if |y| < |x| {
      ShorterIsSmaller(y, x);
    } else {
      ValueInjectiveSameLength(x, y);
    }
  }

  /** A valid sequence whose top limb is zero denotes less than BASE^(n-1). */
  lemma TopZeroBound(ds: seq<int>)
    requires ValidLimbs(ds) && ds != [] && ds[|ds| - 1] == 0
    ensures Value(ds) < BasePow(|ds| - 1)
  {
    ValueBounds(ds[..|ds| - 1]);
  }
}
