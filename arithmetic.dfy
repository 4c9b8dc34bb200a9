/** Binary + and -, with the carry and borrow loops and the delegation between
    them on mixed signs, and the compound assignments += and -=. */
module Arithmetic {
  import opened Limbs
  import opened Numbers

  function Max(a: int, b: int): int
  {
    if a < b then b else a
  }

  function Min(a: int, b: int): int
  {
    if a < b then a else b
  }

  /** Value of the limbs of a below index i (all of a once i >= |a|). */
  function ValueBelow(a: seq<int>, i: nat): int
  {
    Value(a[..Min(i, |a|)])
  }

  lemma ValueBelowStep(a: seq<int>, i: nat)
    ensures ValueBelow(a, i + 1) == ValueBelow(a, i) + (if i < |a| then a[i] else 0) * BasePow(i)
  {
    if i < |a| {
      ValuePrefix(a, i);
    }
  }

  /** Writing limb r with outgoing carry c' at weight p accounts for the
      incoming carry c plus the limb sum r + c' * BASE - c. */
  lemma StepArith(c: int, p: int, r: int, c': int, x: int, y: int)
    requires r + c' * BASE == c + x + y
    ensures r * p + c' * (BASE * p) == c * p + x * p + y * p
  {
    assert r * p + c' * BASE * p == (c + x + y) * p;
  }

  lemma BorrowArith(c: int, p: int, r: int, c': int, x: int, y: int)
    requires r - c' * BASE == x - c - y
    ensures r * p - c' * (BASE * p) == x * p - c * p - y * p
  {
    assert r * p - c' * BASE * p == (x - c - y) * p;
  }

  /** One iteration of the carry loop: limb i becomes the sum of b's limb, a's
      limb and the carry, less BASE when that sum reaches BASE. The sum never
      exceeds 2 * BASE - 1 and the new carry is 0 or 1. */
  lemma CarryStep(a: seq<int>, b: seq<int>, prev: seq<int>, i: nat, c: int, res: seq<int>, c': int)
    requires ValidLimbs(a) && ValidLimbs(b) && i < |prev| && (c == 0 || c == 1)
    requires ValidLimbs(prev[..i]) && prev[i] == (if i < |b| then b[i] else 0)
    requires Value(prev[..i]) + c * BasePow(i) == ValueBelow(a, i) + ValueBelow(b, i)
    requires var t := prev[i] + c + (if i < |a| then a[i] else 0);
      c' == (if t >= BASE then 1 else 0) && res == prev[i := t - c' * BASE]
    ensures 0 <= prev[i] + c + (if i < |a| then a[i] else 0) <= 2 * BASE - 1 <= INT_MAX
    ensures ValidLimbs(res[..i + 1])
    ensures Value(res[..i + 1]) + c' * BasePow(i + 1) == ValueBelow(a, i + 1) + ValueBelow(b, i + 1)
  {
    var p := BasePow(i);
    assert BasePow(i + 1) == BASE * p;
    assert res[..i + 1] == prev[..i] + [res[i]];
    ValuePrefix(res, i);
    assert res[..i] == prev[..i];
    ValueBelowStep(a, i);
    ValueBelowStep(b, i);
    StepArith(c, p, res[i], c', if i < |a| then a[i] else 0, if i < |b| then b[i] else 0);
  }

  /** One iteration of the borrow loop: limb i becomes a's limb less b's limb
      and the borrow, plus BASE when that difference is negative. The
      difference is never below -BASE and the new borrow is 0 or 1. */
  lemma BorrowStep(a: seq<int>, b: seq<int>, prev: seq<int>, i: nat, c: int, res: seq<int>, c': int)
    requires ValidLimbs(a) && ValidLimbs(b) && i < |prev| == |a| && (c == 0 || c == 1)
    requires ValidLimbs(prev[..i]) && prev[i] == a[i]
    requires Value(prev[..i]) - c * BasePow(i) == Value(a[..i]) - ValueBelow(b, i)
    requires var t := prev[i] - (c + (if i < |b| then b[i] else 0));
      c' == (if t < 0 then 1 else 0) && res == prev[i := t + c' * BASE]
    ensures -INT_MAX <= -BASE <= prev[i] - (c + (if i < |b| then b[i] else 0)) < BASE
    ensures ValidLimbs(res[..i + 1])
    ensures Value(res[..i + 1]) - c' * BasePow(i + 1) == Value(a[..i + 1]) - ValueBelow(b, i + 1)
  {
    var p := BasePow(i);
    assert BasePow(i + 1) == BASE * p;
    assert res[..i + 1] == prev[..i] + [res[i]];
    ValuePrefix(res, i);
    assert res[..i] == prev[..i];
    ValuePrefix(a, i);
    ValueBelowStep(b, i);
    BorrowArith(c, p, res[i], c', a[i], if i < |b| then b[i] else 0);
  }

  /** After the carry loop: a sum of two operands without trailing zero limbs
      has none either. */
  lemma AddResultTop(a: seq<int>, b: seq<int>, res: seq<int>)
    requires ValidLimbs(a) && ValidLimbs(b) && ValidLimbs(res)
    requires NoTrailingZero(a) && NoTrailingZero(b)
    requires Value(res) == Value(a) + Value(b)
    requires |res| == Max(|a|, |b|) || (|res| == Max(|a|, |b|) + 1 && res[|res| - 1] == 1)
    ensures NoTrailingZero(res)
  {
    var n := Max(|a|, |b|);
    if |res| == n && n > 0 && res[n - 1] == 0 {
      TopZeroBound(res);
      ValueBounds(a);
      ValueBounds(b);
      if |a| == n {
        ValueLowerBound(a);
      } else {
        ValueLowerBound(b);
      }
    }
  }

  /** The carry loop of operator+ on the limbs of two operands of equal sign.
      The result starts as a copy of b's limbs, as `res = rhs` does. */
  method AddMagnitudes(a: seq<int>, b: seq<int>) returns (res: seq<int>)
    requires ValidLimbs(a) && ValidLimbs(b)
    ensures ValidLimbs(res)
    ensures Value(res) == Value(a) + Value(b)
    ensures Max(|a|, |b|) <= |res| <= Max(|a|, |b|) + 1
    ensures NoTrailingZero(a) && NoTrailingZero(b) ==> NoTrailingZero(res)
  {
    var n := Max(|a|, |b|);
    res := b;
    var i := 0;
    var carry := 0;
    while i < n || carry != 0
      invariant 0 <= i <= n + 1
      invariant carry == 0 || carry == 1
      invariant |res| == Max(i, |b|)
      invariant i == n + 1 ==> carry == 0 && res[n] == 1
      invariant ValidLimbs(res[..i])
      invariant forall k :: i <= k < |res| ==> res[k] == b[k]
      invariant Value(res[..i]) + carry * BasePow(i) == ValueBelow(a, i) + ValueBelow(b, i)
      decreases 2 * (n + 1 - i) + carry
    {
      if i == |res| {
        ghost var shorter := res;
        res := res + [0];
        assert res[..i] == shorter[..i];
      }
      ghost var prev, prevCarry := res, carry;
      assert ValidLimbs(prev[..i]);
      assert prev[i] == (if i < |b| then b[i] else 0);
      assert Value(prev[..i]) + prevCarry * BasePow(i) == ValueBelow(a, i) + ValueBelow(b, i);
      res := res[i := res[i] + carry + (if i < |a| then a[i] else 0)];
      carry := if res[i] >= BASE then 1 else 0;
      if carry == 1 {
        res := res[i := res[i] - BASE];
      }
      CarryStep(a, b, prev, i, prevCarry, res, carry);
      i := i + 1;
    }
    assert res[..i] == res && a[..Min(i, |a|)] == a && b[..Min(i, |b|)] == b;
    if NoTrailingZero(a) && NoTrailingZero(b) {
      AddResultTop(a, b, res);
    }
  }

  /** The borrow loop of operator- on the limbs of two operands of equal sign
      with |a| >= |b|. The result starts as a copy of a's limbs. */
  method SubMagnitudes(a: seq<int>, b: seq<int>) returns (res: seq<int>)
    requires ValidLimbs(a) && ValidLimbs(b) && NoTrailingZero(b)
    requires Value(a) >= Value(b)
    ensures ValidLimbs(res) && |res| == |a|
    ensures Value(res) == Value(a) - Value(b)
  {
    if |a| < |b| {
      ShorterIsSmaller(a, b);
    }
    res := a;
    var i := 0;
    var carry := 0;
    while i < |b| || carry != 0
      invariant 0 <= i <= |a|
      invariant carry == 0 || carry == 1
      invariant |res| == |a|
      invariant ValidLimbs(res[..i])
      invariant forall k :: i <= k < |a| ==> res[k] == a[k]
      invariant Value(res[..i]) - carry * BasePow(i) == Value(a[..i]) - ValueBelow(b, i)
      decreases |a| - i
    {
      assert i < |res| by {
        if i == |a| {
          assert a[..i] == a && b[..Min(i, |b|)] == b;
          ValueBounds(res[..i]);
        }
      }
      ghost var prev, prevCarry := res, carry;
      res := res[i := res[i] - (carry + (if i < |b| then b[i] else 0))];
      carry := if res[i] < 0 then 1 else 0;
      if carry == 1 {
        res := res[i := res[i] + BASE];
      }
      BorrowStep(a, b, prev, i, prevCarry, res, carry);
      i := i + 1;
    }
    assert b[..Min(i, |b|)] == b;
    assert res == res[..i] + a[i..];
    assert a == a[..i] + a[i..];
    ValueConcat(res[..i], a[i..]);
    ValueConcat(a[..i], a[i..]);
  }

  /** operator+: same signs add magnitudes under the shared sign; otherwise
      `*this - (-rhs)`. The result is canonical unless both operands are the
      negative zero, in which case it is the negative zero. */
  method Add(a: Number, b: Number) returns (r: Number)
    requires WellFormed(a) && WellFormed(b)
    ensures WellFormed(r) && ToInt(r) == ToInt(a) + ToInt(b)
    ensures a.sign != b.sign || Canonical(a) || Canonical(b) ==> Canonical(r)
    ensures Canonical(r) <==> !(a == Neg(Zero) && b == Neg(Zero))
    ensures a == Neg(Zero) && b == Neg(Zero) ==> r == Neg(Zero)
    decreases if a.sign == b.sign then 0 else 2
  {
    if a.sign == b.sign {
      var ds := AddMagnitudes(a.digits, b.digits);
      r := Number(b.sign, ds);
      ValueZeroIffEmpty(ds);
      if b.sign == 1 {
        assert ToInt(r) == ToInt(a) + ToInt(b);
      } else {
        assert ToInt(r) == ToInt(a) + ToInt(b);
      }
      return;
    }
    r := Sub(a, Neg(b));
  }

  /** operator-: same signs with |a| >= |b| subtract magnitudes and trim;
      same signs with |a| < |b| give `-(rhs - *this)`; mixed signs give
      `*this + (-rhs)`. The result is canonical unless the negative zero minus
      zero is computed, which gives the negative zero. */
  method Sub(a: Number, b: Number) returns (r: Number)
    requires WellFormed(a) && WellFormed(b)
    ensures WellFormed(r) && ToInt(r) == ToInt(a) - ToInt(b)
    ensures a.sign == b.sign || Canonical(a) ==> Canonical(r)
    ensures Canonical(r) <==> !(a == Neg(Zero) && b == Zero)
    ensures a == Neg(Zero) && b == Zero ==> r == Neg(Zero)
    decreases if a.sign != b.sign then 2 else if Less(Abs(a), Abs(b)) then 1 else 0
  {
    if a.sign == b.sign {
      var less := LessThan(Abs(a), Abs(b));
      if !less {
        var ds := SubMagnitudes(a.digits, b.digits);
        r := Trim(Number(a.sign, ds));
        if a.sign == 1 {
          assert ToInt(r) == ToInt(a) - ToInt(b);
        } else {
          assert ToInt(r) == ToInt(a) - ToInt(b);
        }
        return;
      }
      LessIsIntegerLess(Abs(b), Abs(a));
      LessIsIntegerLess(Abs(a), Abs(b));
      r := Sub(b, a);
      r := Neg(r);
      assert r.digits != [] by {
        assert ToInt(r) != 0;
      }
      return;
    }
    r := Add(a, Neg(b));
  }

  /** On canonical operands operator+ does not depend on the operand order. */
  method AddCommutes(a: Number, b: Number) returns (ab: Number, ba: Number)
    requires Canonical(a) && Canonical(b)
    ensures ab == ba && ToInt(ab) == ToInt(a) + ToInt(b)
  {
    ab := Add(a, b);
    ba := Add(b, a);
    CanonicalUnique(ab, ba);
  }

  /** On canonical operands operator+ is associative. */
  method AddAssociates(a: Number, b: Number, c: Number) returns (left: Number, right: Number)
    requires Canonical(a) && Canonical(b) && Canonical(c)
    ensures left == right && ToInt(left) == ToInt(a) + ToInt(b) + ToInt(c)
  {
    var ab := Add(a, b);
    left := Add(ab, c);
    var bc := Add(b, c);
    right := Add(a, bc);
    CanonicalUnique(left, right);
  }

  /** `a - a` is the canonical zero for every well-formed a, the negative zero included. */
  method SubSelfIsZero(a: Number) returns (r: Number)
    requires WellFormed(a)
    ensures r == Zero
  {
    r := Sub(a, a);
    CanonicalUnique(r, Zero);
  }

  /** Subtracting what was added gives back the canonical operand. */
  method AddThenSub(a: Number, b: Number) returns (r: Number)
    requires Canonical(a) && WellFormed(b)
    ensures r == a
  {
    var sum := Add(a, b);
    r := Sub(sum, b);
    CanonicalUnique(r, a);
  }

  /** `a + (-b)` and `a - b` agree on a canonical a. */
  method AddNegIsSub(a: Number, b: Number) returns (x: Number, y: Number)
    requires Canonical(a) && WellFormed(b)
    ensures x == y && ToInt(x) == ToInt(a) - ToInt(b)
  {
    x := Add(a, Neg(b));
    y := Sub(a, b);
    CanonicalUnique(x, y);
  }

  /** Zero is the identity of operator+ and operator- on canonical operands. */
  method ZeroIsIdentity(a: Number) returns (sum: Number, diff: Number)
    requires Canonical(a)
    ensures sum == a && diff == a
  {
    sum := Add(a, Zero);
    diff := Sub(a, Zero);
    CanonicalUnique(sum, a);
    CanonicalUnique(diff, a);
  }

  /** `a + (-a)` is the canonical zero, also when a is zero and -a is the negative zero. */
  method AddNegSelfIsZero(a: Number) returns (r: Number)
    requires WellFormed(a)
    ensures r == Zero
  {
    r := Add(a, Neg(a));
    CanonicalUnique(r, Zero);
  }

  /** An IntegerNumber variable, for the operators that overwrite `*this`. */
  class IntegerNumber {
    var sign: int
    var digits: seq<int>

    function Val(): Number
      reads this
    {
      Number(sign, digits)
    }

    /** IntegerNumber(): the value zero. */
    constructor ()
      ensures Val() == Zero
    {
      sign := 1;
      digits := [];
    }

    /** operator+=: `*this = *this + rhs`. */
    method AddAssign(rhs: Number)
      requires WellFormed(Val()) && WellFormed(rhs)
      modifies this
      ensures WellFormed(Val()) && ToInt(Val()) == old(ToInt(Val())) + ToInt(rhs)
      ensures old(Canonical(Val())) ==> Canonical(Val())
      ensures Canonical(Val()) <==> !(old(Val()) == Neg(Zero) && rhs == Neg(Zero))
      ensures old(Val()) == Neg(Zero) && rhs == Neg(Zero) ==> Val() == Neg(Zero)
    {
      var r := Add(Val(), rhs);
      sign := r.sign;
      digits := r.digits;
    }

    /** operator-=: `*this = *this - rhs`. */
    method SubAssign(rhs: Number)
      requires WellFormed(Val()) && WellFormed(rhs)
      modifies this
      ensures WellFormed(Val()) && ToInt(Val()) == old(ToInt(Val())) - ToInt(rhs)
      ensures old(Canonical(Val())) ==> Canonical(Val())
      ensures Canonical(Val()) <==> !(old(Val()) == Neg(Zero) && rhs == Zero)
      ensures old(Val()) == Neg(Zero) && rhs == Zero ==> Val() == Neg(Zero)
    {
      var r := Sub(Val(), rhs);
      sign := r.sign;
      digits := r.digits;
    }
  }
}
