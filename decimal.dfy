/** Decimal digit strings: their value, and the unpadded and zero-padded
    renderings of a non-negative integer. */
module Decimal {

  predicate IsDigit(c: char)
  {
    '0' <= c <= '9'
  }

  predicate AllDigits(s: string)
  {
    forall i :: 0 <= i < |s| ==> IsDigit(s[i])
  }

  /** The value of one character read as a digit, `c - '0'`. */
  function DigitValue(c: char): int
  {
    c as int - '0' as int
  }

  function DigitChar(d: int): (c: char)
    requires 0 <= d < 10
    ensures IsDigit(c) && DigitValue(c) == d
  {
    ('0' as int + d) as char
  }

  function Pow10(k: nat): (r: int)
    ensures r >= 1
  {
    if k == 0 then 1 else 10 * Pow10(k - 1)
  }

  /** The value of a digit string read most-significant first, by repeated `x * 10 + digit`. */
  function Dec(s: string): int
  {
    if s == [] then 0 else Dec(s[..|s| - 1]) * 10 + DigitValue(s[|s| - 1])
  }

  lemma {:induction false} Pow10Add(i: nat, j: nat)
    ensures Pow10(i + j) == Pow10(i) * Pow10(j)
  {
    if j > 0 {
      Pow10Add(i, j - 1);
      assert Pow10(i) * Pow10(j) == Pow10(i) * (10 * Pow10(j - 1));
    }
  }

  lemma {:induction false} Pow10Monotone(i: nat, j: nat)
    requires i <= j
    ensures Pow10(i) <= Pow10(j)
  {
    if i < j {
      Pow10Monotone(i, j - 1);
    }
  }

  lemma Scale10(a: int, p: int, d: int)
    ensures (a * p + d) * 10 == a * (p * 10) + d * 10
  {
  }

  /** Reading u followed by v: u's value is shifted by |v| decimal places. */
  lemma {:induction false} DecAppend(u: string, v: string)
    ensures Dec(u + v) == Dec(u) * Pow10(|v|) + Dec(v)
  {
    if v == [] {
      assert u + v == u;
    } else {
      var m := |v| - 1;
      DecAppend(u, v[..m]);
      assert (u + v)[..|u + v| - 1] == u + v[..m];
      assert (u + v)[|u + v| - 1] == v[m];
      Scale10(Dec(u), Pow10(m), Dec(v[..m]));
    }
  }

  lemma {:induction false} DecBounds(s: string)
    requires AllDigits(s)
    ensures 0 <= Dec(s) < Pow10(|s|)
  {
    if s != [] {
      DecBounds(s[..|s| - 1]);
    }
  }

  /** Exactly w digits of n, zero-padded on the left (as `setw(w) << setfill('0')`). */
  function Padded(n: nat, w: nat): string
  {
    if w == 0 then "" else Padded(n / 10, w - 1) + [DigitChar(n % 10)]
  }

  /** The decimal rendering of n without leading zeros ("0" for zero). */
  function Unpadded(n: nat): string
  {
    if n < 10 then [DigitChar(n)] else Unpadded(n / 10) + [DigitChar(n % 10)]
  }

  lemma {:induction false} PaddedDenotes(n: nat, w: nat)
    requires n < Pow10(w)
    ensures |Padded(n, w)| == w && AllDigits(Padded(n, w)) && Dec(Padded(n, w)) == n
  {
    if w > 0 {
      PaddedDenotes(n / 10, w - 1);
      var s := Padded(n, w);
      assert s[..|s| - 1] == Padded(n / 10, w - 1);
    }
  }

  lemma {:induction false} UnpaddedDenotes(n: nat)
    ensures |Unpadded(n)| > 0 && AllDigits(Unpadded(n)) && Dec(Unpadded(n)) == n
    ensures Unpadded(n)[0] == '0' <==> n == 0
  {
    var s := Unpadded(n);
    if n < 10 {
      assert s[..0] == [];
    } else {
      UnpaddedDenotes(n / 10);
      assert s[..|s| - 1] == Unpadded(n / 10);
      assert s[0] == Unpadded(n / 10)[0];
    }
  }
}
