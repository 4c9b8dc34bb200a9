/** parseString: an optional sign, then groups of nine decimal characters taken
    from the right, each becoming one limb, then trim. */
module Parsing {
  import opened Limbs
  import opened Decimal
  import opened Numbers

  /** Number of leading sign characters ('+' or '-') that parseString skips. */
  function SignLength(s: string): (k: nat)
    ensures k <= |s|
  {
    if |s| > 0 && (s[0] == '-' || s[0] == '+') then 1 else 0
  }

  /** The sign parseString sets: -1 after a leading '-', +1 otherwise. */
  function SignOf(s: string): int
  {
    if |s| > 0 && s[0] == '-' then -1 else 1
  }

  /** The characters parseString reads as digits. */
  function Body(s: string): string
  {
    s[SignLength(s)..]
  }

  /** The limbs parseString pushes for the digit string t: the last (at most)
      nine characters first, then the groups of the remaining prefix. */
  function Groups(t: string): seq<int>
    decreases |t|
  {
    if t == [] then []
    else
      var k := if |t| > BASE_DIGITS then |t| - BASE_DIGITS else 0;
      [Dec(t[k..])] + Groups(t[..k])
  }

  /** Every group is a valid limb, there are ceil(|t| / 9) of them, and together
      they denote the decimal value of t. */
  lemma {:induction false} GroupsDenote(t: string)
    requires AllDigits(t)
    ensures ValidLimbs(Groups(t))
    ensures |Groups(t)| == (|t| + BASE_DIGITS - 1) / BASE_DIGITS
    ensures Value(Groups(t)) == Dec(t)
  {
    if t != [] {
      var k := if |t| > BASE_DIGITS then |t| - BASE_DIGITS else 0;
      var low, high := t[k..], t[..k];
      assert t == high + low;
      assert AllDigits(low) && AllDigits(high);
      GroupsDenote(high);
      DecBounds(low);
      Pow10Monotone(|low|, BASE_DIGITS);
      assert Pow10(BASE_DIGITS) == BASE;
      DecAppend(high, low);
      ValueCons(Dec(low), Groups(high));
      if k > 0 {
        assert Dec(t) == Dec(high) * BASE + Dec(low);
      } else {
        assert high == [];
      }
    }
  }

  /** One iteration of the outer loop: the limb for s[lo..hi] comes first. */
  lemma GroupStep(s: string, pos: nat, lo: nat, hi: nat)
    requires pos <= lo < hi <= |s|
    requires lo == (if hi - pos > BASE_DIGITS then hi - BASE_DIGITS else pos)
    ensures Groups(s[pos..hi]) == [Dec(s[lo..hi])] + Groups(s[pos..lo])
  {
    var t := s[pos..hi];
    assert t[..lo - pos] == s[pos..lo] && t[lo - pos..] == s[lo..hi];
  }

  /** One iteration of the inner loop: `x = x * 10 + s[j] - '0'`. */
  lemma DecSnoc(s: string, lo: nat, j: nat)
    requires lo <= j < |s|
    ensures Dec(s[lo..j + 1]) == Dec(s[lo..j]) * 10 + DigitValue(s[j])
  {
    assert s[lo..j + 1][..j - lo] == s[lo..j];
    assert s[lo..j + 1][j - lo] == s[j];
  }

  /** Trimming the groups of a well-formed string gives the canonical number
      denoting its signed decimal value. */
  lemma TrimmedGroupsDenote(s: string, n: Number)
    requires AllDigits(Body(s))
    requires n.digits == StripZeros(Groups(Body(s)))
    requires n.sign == (if n.digits == [] then 1 else SignOf(s))
    ensures Canonical(n) && ToInt(n) == SignOf(s) * Dec(Body(s))
  {
    GroupsDenote(Body(s));
    StripZerosSpec(Groups(Body(s)));
  }

  /** The inner loop of parseString: reads s[lo..hi] as one limb by repeated
      `x = x * 10 + s[j] - '0'`, failing on the first non-digit character. */
  method ReadGroup(s: string, lo: nat, hi: nat) returns (r: Result<int>)
    requires lo <= hi <= |s|
    ensures r.Success? <==> AllDigits(s[lo..hi])
    ensures r.Failure? ==> r.error == InvalidDigit
    ensures r.Success? ==> r.value == Dec(s[lo..hi])
    ensures r.Success? && hi - lo <= BASE_DIGITS ==> 0 <= r.value < BASE
  {
    var x := 0;
    var j := lo;
    while j < hi
      invariant lo <= j <= hi
      invariant forall k :: lo <= k < j ==> IsDigit(s[k])
      invariant x == Dec(s[lo..j])
      invariant hi - lo <= BASE_DIGITS ==> 0 <= x < BASE
    {
      if s[j] < '0' || s[j] > '9' {
        assert s[lo..hi][j - lo] == s[j];
        return Failure(InvalidDigit);
      }
      DecSnoc(s, lo, j);
      // Within a group of at most nine characters the 32-bit int x never overflows.
      assert hi - lo <= BASE_DIGITS ==> 0 <= x * 10 + DigitValue(s[j]) < BASE <= INT_MAX by {
        assert AllDigits(s[lo..j + 1]);
        DecBounds(s[lo..j + 1]);
        Pow10Monotone(j + 1 - lo, hi - lo);
        if hi - lo <= BASE_DIGITS {
          Pow10Monotone(hi - lo, BASE_DIGITS);
        }
        assert Pow10(BASE_DIGITS) == BASE;
      }
      x := x * 10 + (s[j] as int - '0' as int);
      j := j + 1;
    }
    assert AllDigits(s[lo..hi]);
    DecBounds(s[lo..hi]);
    if hi - lo <= BASE_DIGITS {
      Pow10Monotone(hi - lo, BASE_DIGITS);
      assert Pow10(BASE_DIGITS) == BASE;
    }
    return Success(x);
  }

  /** s[pos..] is all digits exactly when s[pos..lo] and s[lo..] are. */
  lemma AllDigitsSplit(s: string, pos: nat, lo: nat)
    requires pos <= lo <= |s|
    ensures AllDigits(s[pos..]) <==> AllDigits(s[pos..lo]) && AllDigits(s[lo..])
  {
    assert s[pos..] == s[pos..lo] + s[lo..];
  }

  /** The outer loop of parseString: from the end of s back to pos, one limb
      per group of at most nine characters, least-significant group first. */
  method ReadLimbs(s: string, pos: nat) returns (r: Result<seq<int>>)
    requires pos <= |s|
    ensures r.Success? <==> AllDigits(s[pos..])
    ensures r.Failure? ==> r.error == InvalidDigit
    ensures r.Success? ==> r.value == Groups(s[pos..])
  {
    var digits: seq<int> := [];
    var i: int := |s| - 1;
    ghost var hi: nat := |s|;
    assert s[pos..|s|] == s[pos..];
    while i >= pos
      invariant pos - BASE_DIGITS <= i < |s|
      invariant hi == if i + 1 < pos then pos else i + 1
      invariant AllDigits(s[hi..])
      invariant digits + Groups(s[pos..hi]) == Groups(s[pos..])
      decreases i
    {
      var lo := if pos > i - BASE_DIGITS + 1 then pos else i - BASE_DIGITS + 1;
      var group := ReadGroup(s, lo, i + 1);
      AllDigitsSplit(s, lo, hi);
      if group.Failure? {
        AllDigitsSplit(s, pos, lo);
        return Failure(InvalidDigit);
      }
      GroupStep(s, pos, lo, hi);
      digits := digits + [group.value];
      i := i - BASE_DIGITS;
      hi := lo;
    }
    assert s[pos..hi] == [];
    return Success(digits);
  }

  /** parseString on a freshly constructed object (no limbs on entry). */
  method Parse(s: string) returns (r: Result<Number>)
    ensures r.Success? <==> |s| > 0 && AllDigits(Body(s))
    ensures |s| == 0 <==> r == Failure(Empty)
    ensures |s| > 0 && !AllDigits(Body(s)) <==> r == Failure(InvalidDigit)
    ensures r.Success? ==> r.value.digits == StripZeros(Groups(Body(s)))
    ensures r.Success? ==> Canonical(r.value) && ToInt(r.value) == SignOf(s) * Dec(Body(s))
    ensures s == "+" || s == "-" ==> r == Success(Zero)
  {
    if |s| == 0 {
      return Failure(Empty);
    }
    var sign := 1;
    var pos := 0;
    if s[0] == '-' {
      sign := -1;
      pos := pos + 1;
    } else if s[0] == '+' {
      pos := pos + 1;
    }
    assert pos == SignLength(s) && sign == SignOf(s);
    var limbs := ReadLimbs(s, pos);
    if limbs.Failure? {
      return Failure(InvalidDigit);
    }
    var n := Trim(Number(sign, limbs.value));
    TrimmedGroupsDenote(s, n);
    return Success(n);
  }
}
