# IntegerNumber in Dafny

A model of `IntegerNumber`, a header-only C++ class for integers of unbounded
length. A number is a sign (`+1` or `-1`) and a vector of limbs in radix
10^9 (nine decimal digits per limb), least-significant limb first. The model
covers:

- parsing a decimal string;
- trimming trailing zero limbs;
- binary `+` and `-` with their carry and borrow loops, and the delegation
  between them when the signs differ;
- unary minus and `abs()`;
- `operator<` and the five relations derived from it;
- the text that `operator<<` writes;
- the compound assignments `+=` and `-=`.

Layout:

- `limbs.dfy` (module `Limbs`): the radix, the value of a limb sequence, and
  the facts about it (bounds, concatenation, injectivity).
- `decimal.dfy` (module `Decimal`): the value of a digit string, and the
  padded and unpadded renderings of a limb.
- `number.dfy` (module `Numbers`):
  - the `Number` value;
  - the two shapes a number can have: `WellFormed`, which admits the negative
    zero, and `Canonical`, which does not;
  - `trim`, unary minus, `abs`, and the comparisons.
- `parse.dfy` (module `Parsing`): `parseString` on a freshly constructed
  object.
- `arithmetic.dfy` (module `Arithmetic`):
  - binary `+` and `-`, including the algebraic laws they satisfy;
  - the class `IntegerNumber`, whose `+=` and `-=` overwrite the object.
- `format.dfy` (module `Formatting`): `operator<<` as a string, and the round
  trip through `parseString`.

The value semantics of the C++ class (copies on every return) become a Dafny
`datatype`. The parts of the C++ that update state step by step become
methods with loops over local sequences, each proved against a specification
function:

- `trim` against `StripZeros`;
- the digit loops of `parseString` against `Groups` and `Dec`;
- the carry and borrow loops against `Value`;
- the scan of `operator<` against `Less`;
- the loop of `operator<<` against `Format`.

`+=` and `-=` are methods of a class whose fields the methods overwrite.
`parseString` throws `runtime_error`; the model returns a `Result` whose
failures are `Empty` and `InvalidDigit`.

The negative zero. Unary minus flips the sign unconditionally, so negating
zero yields sign `-1` with no limbs, and the model keeps that behaviour. The
negative zero is `WellFormed` but not `Canonical`. It sorts below zero, is not
`==` to zero, and prints as `-0`. The contracts of `+`, `-`, `+=` and `-=` say
exactly when their results are canonical: `+` yields the negative zero only
from two negative zeros, and `-` only from the negative zero minus zero. The
comparisons are proved to agree with the integer order on canonical numbers
and, for `<`, on any two well-formed numbers of equal sign.

A string holding only a sign, `"+"` or `"-"`, parses to zero with sign `+1`.
The model keeps this behaviour too.

## Model

| member | source | states |
|---|---|---|
| Limbs.ValueBounds | IntegerNumber.h:17-18 | n limbs in [0, 10^9) denote a value in [0, 10^9n), which is what makes one `int` per nine digits sufficient |
| Limbs.ValueInjective | IntegerNumber.h:101-106 | two limb sequences without a trailing zero limb and with the same value are identical, which is why trimmed numbers have a unique representation |
| Numbers.CanonicalUnique | IntegerNumber.h:101-106 | two canonical numbers (trimmed, zero with sign +1) that denote the same integer are identical |
| Numbers.StripZerosSpec | IntegerNumber.h:102-103 | popping trailing zero limbs leaves a prefix without a trailing zero; only zero limbs are removed, and the value is unchanged |
| Numbers.StripZerosIdempotent | IntegerNumber.h:102-103 | popping trailing zeros a second time changes nothing |
| Numbers.Trim | IntegerNumber.h:101-106 | the limbs become the input's limbs without their trailing zeros, and the sign becomes +1 exactly when no limb remains; a well-signed input with valid limbs gives a canonical number with the same value, and a canonical input is returned unchanged |
| Numbers.Neg | IntegerNumber.h:88-92 | the limbs are kept, the denoted integer is negated, and a well-formed operand's sign is flipped (well-formedness is kept) |
| Numbers.Abs | IntegerNumber.h:94-98 | the limbs are kept and the sign of a +1/-1 number becomes +1; on a well-formed operand the result is canonical, denotes the magnitude, is non-negative, and equals the operand or its negation |
| Numbers.NegInvolution | IntegerNumber.h:88-92 | negating twice gives back the identical number |
| Numbers.AbsOfNeg | IntegerNumber.h:88-98 | abs(-a) is identical to abs(a) |
| Numbers.NegZeroIsNotCanonical | IntegerNumber.h:88-92 | negating zero gives sign -1 with no limbs; it denotes 0 but is not canonical, sorts below zero, and is not `==` to zero |
| Numbers.ScanLessValue | IntegerNumber.h:148-152 | on equally long limb sequences, the scan from the top limb decides by the first differing limb, and that agrees with the order of the values, reversed when both signs are -1 |
| Numbers.LessSameSignIsIntegerLess | IntegerNumber.h:143-153 | for well-formed operands of equal sign, the negative zero included, `<` holds exactly when the denoted integers are ordered |
| Numbers.LessIsIntegerLess | IntegerNumber.h:143-153 | on canonical operands `<` holds exactly when the denoted integers are ordered |
| Numbers.LessIrreflexive | IntegerNumber.h:143-153 | `a < a` never holds |
| Numbers.LessTransitive | IntegerNumber.h:143-153 | `<` is transitive on canonical numbers |
| Numbers.LessTrichotomy | IntegerNumber.h:143-153 | on canonical numbers exactly one of `a < b`, `a` identical to `b`, `b < a` holds |
| Numbers.LessThan | IntegerNumber.h:143-153 | the loop returns the ordering `Less` and, on canonical operands, integer `<` |
| Numbers.LessAsWrittenMisordersNegZero | IntegerNumber.h:146-147 | with the wrap-around, the negative zero compares below -5 although 0 > -5, while `Less` does not order them so |
| Numbers.LessAsWrittenAgrees | IntegerNumber.h:146-147 | when neither operand is the negative zero, the `size_t` comparison and the integer comparison agree |
| Numbers.Greater | IntegerNumber.h:155-157 | on canonical operands `>` is integer `>` |
| Numbers.LessEq | IntegerNumber.h:159-161 | on canonical operands `<=` is integer `<=` |
| Numbers.GreaterEq | IntegerNumber.h:163-165 | on canonical operands `>=` is integer `>=` |
| Numbers.Equal | IntegerNumber.h:167-169 | on canonical operands `==` holds exactly when sign and limbs are identical, and exactly when the denoted integers are equal |
| Numbers.NotEqual | IntegerNumber.h:171-173 | `!=` is the negation of `==`; on canonical operands it holds exactly when the representations differ |
| Parsing.GroupsDenote | IntegerNumber.h:44-53 | the groups of a digit string are valid limbs, there are ceil(len/9) of them, and together they denote the string's decimal value |
| Parsing.ReadGroup | IntegerNumber.h:45-51 | the inner loop succeeds exactly when the group is all digits; a failure is `InvalidDigit`; a success is the group's decimal value, within [0, 10^9) for at most nine characters, and for such a group every intermediate `x * 10 + digit` stays below 10^9 |
| Parsing.ReadLimbs | IntegerNumber.h:44-53 | the outer loop succeeds exactly when every character after the sign is a digit, and it yields the groups of nine characters taken from the right, least-significant first |
| Parsing.TrimmedGroupsDenote | IntegerNumber.h:44-54 | trimming the groups gives a canonical number denoting the signed decimal value of the string |
| Parsing.Parse | IntegerNumber.h:30-55 | an empty string fails with `Empty`; a non-digit after the optional sign fails with `InvalidDigit`; otherwise the result is the trimmed groups, canonical, and denotes the sign times the decimal value of the digits; `"+"` and `"-"` give zero with sign +1 |
| Arithmetic.CarryStep | IntegerNumber.h:115-118 | one carry step keeps every limb in [0, 10^9) and the running sum exact; the intermediate sum is at most 2*10^9 - 1, which fits a 32-bit `int` |
| Arithmetic.BorrowStep | IntegerNumber.h:130-133 | one borrow step keeps every limb in [0, 10^9) and the running difference exact; the intermediate is at least -10^9 |
| Arithmetic.AddResultTop | IntegerNumber.h:112-120 | the carry loop on operands without trailing zero limbs yields no trailing zero limb |
| Arithmetic.AddMagnitudes | IntegerNumber.h:110-120 | the carry loop yields valid limbs denoting the sum of the magnitudes, max(len) or max(len)+1 long, with no trailing zero when the operands have none |
| Arithmetic.SubMagnitudes | IntegerNumber.h:128-134 | when the first magnitude is at least the second, the borrow loop touches only existing limbs and yields valid limbs, as long as the first operand, denoting the difference of the magnitudes |
| Arithmetic.Add | IntegerNumber.h:108-123 | `+` terminates, is well-formed, and denotes the integer sum; the result is canonical exactly when the operands are not both the negative zero, and two negative zeros give the negative zero |
| Arithmetic.Sub | IntegerNumber.h:125-141 | `-` terminates, is well-formed, and denotes the integer difference; the result is canonical exactly when it is not the negative zero minus zero, which gives the negative zero |
| Arithmetic.AddCommutes | IntegerNumber.h:108-141 | on canonical operands `a + b` and `b + a` are identical |
| Arithmetic.AddAssociates | IntegerNumber.h:108-141 | on canonical operands `(a + b) + c` and `a + (b + c)` are identical and denote the integer sum |
| Arithmetic.SubSelfIsZero | IntegerNumber.h:125-141 | `a - a` is the canonical zero for every well-formed a |
| Arithmetic.AddThenSub | IntegerNumber.h:108-141 | `(a + b) - b` is identical to a canonical a |
| Arithmetic.AddNegIsSub | IntegerNumber.h:88-141 | `a + (-b)` and `a - b` are identical and denote the difference |
| Arithmetic.ZeroIsIdentity | IntegerNumber.h:108-141 | `a + 0` and `a - 0` are identical to a canonical a |
| Arithmetic.AddNegSelfIsZero | IntegerNumber.h:88-123 | `a + (-a)` is the canonical zero for every well-formed a |
| Arithmetic.IntegerNumber.constructor | IntegerNumber.h:61 | the default-constructed object is zero with sign +1 |
| Arithmetic.IntegerNumber.AddAssign | IntegerNumber.h:80-82 | `+=` replaces the object by the sum and keeps it well-formed; it is canonical afterwards exactly unless both the old value and rhs were the negative zero, which leaves the negative zero |
| Arithmetic.IntegerNumber.SubAssign | IntegerNumber.h:84-86 | `-=` replaces the object by the difference and keeps it well-formed; it is canonical afterwards exactly unless the old value was the negative zero and rhs was zero, which leaves the negative zero |
| Formatting.LowerLimbsDenote | IntegerNumber.h:179-180 | the lower limbs are written as nine zero-padded digits each, and that text denotes their value |
| Formatting.Format | IntegerNumber.h:175-182 | the text starts with '-' exactly when the sign is -1; after it come only digits, denoting the magnitude; on a well-formed number the first digit is '0' only for the text "0" of zero |
| Formatting.Write | IntegerNumber.h:175-182 | the loop writes exactly the text `Format` describes |
| Formatting.WriteThenParse | IntegerNumber.h:30-55 | parsing the text written for a canonical number gives back that number |
| Formatting.NegZeroPrints | IntegerNumber.h:176-178 | the negative zero prints as "-0" |

## Findings

| source | as written | input that shows it | evidently intended | confidence | as-written member | corrected member |
|---|---|---|---|---|---|---|
| IntegerNumber.h:147 | `digits.size() * sign` converts the sign -1 to `size_t` (2^64 - 1), and the product wraps modulo 2^64. Length 0 stays 0, while every other length k becomes 2^64 - k, so an empty limb vector sorts below every other vector of the same sign | the negative zero (`-IntegerNumber()`) against -5: the code says -0 < -5 although 0 > -5 | compare the signed lengths as integers, so that numbers of equal sign are ordered by value | medium, not executed | Numbers.LessAsWrittenMisordersNegZero | Numbers.LessSameSignIsIntegerLess |

The rest of the model uses the corrected comparison `Numbers.Less`.
`Numbers.LessAsWrittenAgrees` proves that the two versions differ only when
an operand is the negative zero.

## Left out

- `operator>>` (IntegerNumber.h:184-189): stream input. Its only logic is the call to `parseString`, modelled by `Parsing.Parse`.
- Stream mechanics of `operator<<` (`ostream`, `setw`, `setfill`): the output is modelled as the string written.
- The copy constructor and copy assignment (IntegerNumber.h:66-74): a Dafny datatype already has value semantics.
- The string constructor (IntegerNumber.h:62-64): it only calls `parseString` on a fresh object, which is `Parsing.Parse`.
- Re-parsing into a used object with `operator=(string)` (IntegerNumber.h:76-78): `parseString` appends limbs to the existing ones. Only the fresh-object path is modelled.
- A parse that throws part-way: the object's partial state is not modelled. The failure is returned as a `Result`.
- Numbers.Less: models the limb-count comparison of IntegerNumber.h:147 as an integer product, not the 64-bit `size_t` product. The two differ only when an operand is the negative zero (see Findings).
- The 32-bit `int` limbs and the `short` sign are unbounded integers in the model. The contracts of `Arithmetic.CarryStep` and `Arithmetic.BorrowStep` bound the intermediates of the carry and borrow loops within the 32-bit range. `Parsing.ReadGroup` bounds each limb it yields by 10^9, and its loop invariant keeps `x` below 10^9 for groups of at most nine characters.
- Arithmetic.Add, Arithmetic.Sub, Arithmetic.IntegerNumber.AddAssign, Arithmetic.IntegerNumber.SubAssign: on operands that are not well-formed (limbs outside [0, 10^9), a trailing zero limb, or a sign other than ±1), the model requires well-formedness and says nothing about the result.
