# Dual balanced ternary, modelled in Dafny

This project models the Rust library "dual balanced ternary". The library represents points of
the plane as numbers written in base 3 with nine digits laid out on a 3 x 3 grid:

```
6 1 8
7 5 3
2 9 4
```

Digit 5 is the origin and digit 1 points to the front. A number (`DualBalancedTernary`) has two
digit vectors:

- `integral` is stored with the least significant digit first (index i weighs 3^i);
- `fractional` is stored with the most significant digit first (index j weighs 3^(-1-j)).

Trailing 5s in either vector carry no value. `strip_empty_tails` removes them, and equality
compares the stripped forms. In text, a number is written `&<integral digits>.<fractional
digits>`, with the most significant integral digit first.

The model covers:

- the digit type with its arithmetic tables and symmetries (`src/digit.rs`);
- the number type with `add_at`, `+`, `-`, `*`, `/`, the digit-wise maps, shifting, rounding,
  the text format and the byte-buffer format (`src/primes.rs`);
- the crate helpers `ternary` and `dbt_digits` (`src/lib.rs`).

Each number is also given an exact value. A digit at position p contributes its grid vector
(x, y) times 3^p, with exact rationals and no floating point. The complex reading of a vector
(x, y) is y - x i, so that 1 is the identity and 3 is -i. Against this value the model proves:

- `add_at` adds the digit's value;
- `+` and `-` add and subtract values;
- `*` multiplies them, except where the table's one anomalous entry is met;
- `move_by(n)` multiplies the value by 3^n;
- the integer division behind `/` keeps the remainder invariant;
- the seven exact divisions of `tests/math_test.rs:150-158` give the expected quotients. Each
  proof follows the turns of `linear_divide` through the values of the remainders.

File by file:

| file | module | models |
|---|---|---|
| `results.dfy` | `Results` | the error values the library reports as `Err` strings or panics |
| `digit.dfy` | `Digits` | the digit type, its codecs, the tables and the symmetries |
| `ternary.dfy` | `Ternary` | the number type, stripping, equality and `add_at` |
| `value.dfy` | `TernaryValue` | the exact value and how `add_at` changes it |
| `arith.dfy` | `TernaryArith` | `Neg`, `conjugate`, `rotate3/7`, `split_yx`, `pairs`, `+`, `-` |
| `product.dfy` | `TernaryProduct` | `*` |
| `shift.dfy` | `TernaryShift` | `move_by`, `round`, `round_n` |
| `division.dfy` | `TernaryDivision` | `get_first_digit`, the 1/5/9 ordering and `linear_divide` |
| `quotient.dfy` | `TernaryQuotient` | `/` |
| `text.dfy` | `TernaryText` | `Display` and `FromStr` |
| `buffer.dfy` | `TernaryBuffer` | the conversions to and from `Vec<u8>` |
| `lib.dfy` | `TernaryLib` | `ternary` and `dbt_digits` |
| `divtests.dfy` | `TernaryDivisionTests` | the exact division tests of `tests/math_test.rs`, and a division that does not converge |

Pure functions of the source become Dafny functions. Loops of the source become methods with
loop invariants, proved equal to those functions: `StripImpl`, `EqualImpl`, `AddAtImpl`,
`MapSeqImpl`, `SplitYxImpl`, `PairsImpl`, `SumImpl`, `ProductImpl`, `MoveByImpl`,
`RoundNImpl`, `GetFirstDigitImpl`, `IsLinearImpl`, `LinearDivideImpl`, `DivImpl`,
`FormatImpl`, `ParseImpl`, `EncodeImpl`, `DecodeImpl` and `DbtDigitsImpl`. The library has no
object whose fields change in place behind a shared reference. Every operation clones its
receiver and returns a new value, so the model works on values throughout.

Behaviour kept as written:

- The multiplication table has one entry off the complex reading: `Dbt8 * Dbt1` yields carry
  1 and unit 8, while `Dbt1 * Dbt8` yields carry 5 and unit 8. Product laws that depend on
  the complex reading therefore carry a precondition that this entry is not met.
- `flip_front_back` sends both 3 and 7 to 7, so it is not an involution.
- The crate documentation lists `&3 * &7` as `&5`, but the table gives `&1`.
- `+` computes a stripped copy of the sum and then returns the unstripped sum.
- The parser never looks at the first character, so `&` is not checked. When the text has
  more than one `.`, the parser still parses the first piece, so a bad character there is
  reported before the format error.
- `linear_divide` panics on a zero divisor and on operands with digits other than 1/5/9.
  With a zero dividend it returns the dividend before any of those checks. Those panics are
  modelled as `Err` values. `/` hands both sides a 1/5/9-only dividend, so it fails only in
  the divisor.
- `split_yx` returns the 3/5/7 half first and the 1/5/9 half second.
- The quotient digit of each turn of `linear_divide` is guessed from the two leading digits.
  When both lead at the same position and the dividend is half the divisor, each turn only
  negates the remainder, so `&1 / &19` is `&5` rather than an approximation of one half
  (`TernaryDivisionTests.DivHalf`).
- The decoder adds 1 to the length byte in 8-bit arithmetic. A length byte of 255 therefore
  overflows, although the encoder emits one for 255 integral digits.

## Model

| member | source | states |
|---|---|---|
| Digits.Vec | src/digit.rs:317-333 | every digit sits on the 3 x 3 grid, and only 5 sits at the origin |
| Digits.VecInjective | src/digit.rs:11-16 | no two digits share a grid position |
| Digits.FromPair | src/digit.rs:251-278 | the (x, y) decoder as written: it succeeds exactly on {-1,0,1}^2, rejects x first and then y, and inverts the grid wherever x != 1 or y = 0 |
| Digits.FromPairSwapsFourAndEight | src/digit.rs:251-278 | as written, (1, 1) decodes to 4 and (1, -1) to 8, the opposite of the grid |
| Digits.FromVec | src/digit.rs:251-278 | the corrected (x, y) decoder: same errors, and every accepted pair decodes to the digit at that grid position |
| Digits.FromVecRoundTrip | src/digit.rs:251-278 | decoding a digit's position gives the digit back |
| Digits.Code | src/digit.rs:300-314 | a digit's byte is 1..9, and it is 5 only for Dbt5 |
| Digits.FromCode | src/digit.rs:335-351 | a byte decodes exactly when it is 1..9; any other byte gives an unknown-code error naming it |
| Digits.CodeRoundTrip | src/digit.rs:300-351 | the byte codec round-trips in both directions |
| Digits.ToChar | src/digit.rs:77-92 | a digit is displayed as the character of its code |
| Digits.FromChar | src/primes.rs:551-567 | exactly '1'..'9' parse, to the digit with that code; any other character is an error naming it |
| Digits.CharRoundTrip | src/primes.rs:551-567 | the character codec round-trips in both directions |
| Digits.Neg | src/digit.rs:283-298 | negation reflects the grid position through the centre |
| Digits.Rotate3 | src/digit.rs:405-417 | rotate3 turns the grid clockwise, (x, y) to (y, -x) |
| Digits.Rotate7 | src/digit.rs:420-432 | rotate7 turns the grid anti-clockwise, (x, y) to (-y, x) |
| Digits.FlipLeftRight | src/digit.rs:390-402 | mirror image across the vertical axis |
| Digits.FlipXy | src/digit.rs:445-457 | mirror image across the 2-8 diagonal |
| Digits.FlipFrontBack | src/digit.rs:365-377 | mirror image across the horizontal axis for every digit except 3, which the table sends to 7 |
| Digits.SplitYx | src/digit.rs:460-472 | the two halves hold the y and the x component of the digit |
| Digits.Add | src/digit.rs:94-190 | definition: the addition table as written, one (carry, unit) pair per pair of digits; AddVector, AddUnique and AddCommutative state its laws |
| Digits.Mul | src/digit.rs:192-246 | definition: the multiplication table as written, the 8 * 1 entry included; MulGaussian, MulAnomaly and MulUnique state its laws |
| Digits.AddVector | src/digit.rs:94-190 | every entry of the addition table is a balanced base-3 carry: 3 carry + unit = a + b on both axes |
| Digits.CoordBounds | src/digit.rs:11-16 | both coordinates of every digit lie in {-1, 0, 1} |
| Digits.BalancedSplit | src/digit.rs:94-190 | a balanced base-3 split 3 c + u with c, u in {-1, 0, 1} is unique |
| Digits.SplitUnique | src/digit.rs:94-190 | a (carry, unit) pair of digits is fixed by 3 carry + unit on both axes |
| Digits.AddUnique | src/digit.rs:94-190 | vector addition alone determines the whole addition table |
| Digits.AddCommutative | src/digit.rs:94-190 | digit addition is commutative |
| Digits.AddIdentities | src/lib.rs:24-28 | 5 is the identity, a + (-a) is (5, 5), 1 + 3 = 8 and 1 + 1 = 19 |
| Digits.MulGaussian | src/digit.rs:192-246 | every entry of the multiplication table except 8 * 1 is the complex product of the digits, as a balanced carry and unit |
| Digits.MulAnomaly | src/digit.rs:192-246 | 8 * 1 carries a 1 that 1 * 8 does not, so it is off the complex product and the table is not symmetric |
| Digits.MulUnique | src/digit.rs:192-246 | away from 8 * 1, the complex product determines the multiplication table |
| Digits.MulByAxisDigits | src/digit.rs:192-246 | multiplying by 1 is the identity, by 3 and 7 are the rotations, by 9 is negation, and 5 absorbs |
| Digits.MulDocumentedProducts | src/lib.rs:15-29 | 1 * 1 = 1, 1 * 9 = 9, 9 * 9 = 1, 3 * 3 = 9 and 3 * 4 = 2 hold; 3 * 7 is 1, not the documented 5 |
| Digits.MulLinearClosed | src/digit.rs:192-246 | products of 1/5/9 digits are 1/5/9 digits with carry 5 |
| Digits.AddLinearClosed | src/digit.rs:94-190 | sums of 1/5/9 digits are 1/5/9 digits, carry included |
| Digits.NegInvolution | src/digit.rs:283-298 | negation is an involution whose only fixed point is 5 |
| Digits.RotationLaws | src/digit.rs:405-432 | rotate3 and rotate7 undo each other; rotate3 twice is negation and four times the identity |
| Digits.FlipLeftRightLaws | src/digit.rs:390-402 | flip_left_right is an involution fixing exactly 1, 5 and 9 |
| Digits.FlipXyLaws | src/digit.rs:445-457 | flip_xy is an involution fixing exactly 2, 5 and 8 |
| Digits.FlipFrontBackNotInvolution | src/digit.rs:365-377 | flip_front_back sends 3 and 7 both to 7 |
| Digits.SplitYxLaws | src/digit.rs:460-472 | the halves are a 1/5/9 and a 3/5/7 digit whose vectors add up, and whose digit sum is the digit with no carry |
| Ternary.Fives | src/primes.rs:300-305 | definition: the padding run of add_at, n digits 5 (PadFives states the loop that builds it) |
| Ternary.StripTail | src/primes.rs:503-517 | a popped vector is the longest prefix not ending in 5: it drops only 5s and does not end in 5 |
| Ternary.Strip | src/primes.rs:503-517 | definition: strip_empty_tails pops the trailing 5s of both vectors; StripLaws, StripDigitAt and StripValue state what it keeps |
| Ternary.Same | src/primes.rs:604-626 | definition: PartialEq compares the stripped forms; SameIffDigitAt, SameEquivalence and ValueIffSame characterise it |
| Ternary.IsZero | src/primes.rs:530-533 | a number is zero exactly when all its digits are 5 |
| Ternary.StripAllFive | src/primes.rs:503-517 | stripping empties a vector exactly when it holds only 5s |
| Ternary.StripTailAt | src/primes.rs:503-517 | stripping keeps the digit at every index, 5 past the end |
| Ternary.StrippedUnique | src/primes.rs:503-517 | two vectors without trailing 5s that agree at every index are equal |
| Ternary.StripDigitAt | src/primes.rs:503-517 | stripping keeps the digit at every signed position |
| Ternary.SameIffDigitAt | src/primes.rs:604-626 | equality holds exactly when the digits agree at every position, 5 standing in for missing ones |
| Ternary.StripLaws | src/primes.rs:503-517 | strip_empty_tails is idempotent, yields a canonical number, leaves a canonical number alone and keeps equality |
| Ternary.StripTailFixed | src/primes.rs:503-517 | a vector without a trailing 5 is not changed |
| Ternary.SameEquivalence | src/primes.rs:604-626 | equality is reflexive, symmetric and transitive |
| Ternary.AddAtShape | src/primes.rs:293-342 | adding 5 changes nothing; add_at pads to idx, never shortens, touches only its own half, and keeps every position below idx |
| Ternary.AddAt | src/primes.rs:293-342 | definition: add_at with its padding, its indexed write and its carry recursion in both branches; AddAtShape and AddAtValue state its effect |
| Ternary.StripImpl | src/primes.rs:503-517 | the early return and the popping loops compute strip_empty_tails, and the result is canonical |
| Ternary.EqualImpl | src/primes.rs:604-626 | the comparison loops return true exactly when the numbers are equal |
| Ternary.PadFives | src/primes.rs:300-305 | the padding loop appends exactly `times` 5s |
| Ternary.AddAtImpl | src/primes.rs:293-342 | the padding loop, the indexed write and the carry recursion compute add_at |
| Ternary.AddAtIntegral | src/primes.rs:299-320 | the idx >= 0 branch of add_at |
| Ternary.AddAtFractional | src/primes.rs:321-341 | the idx < 0 branch of add_at |
| TernaryValue.Value | src/primes.rs:143-161 | definition: the exact value of a number on both axes, the exact counterpart of the float conversion; ValueIffSame, ZeroValue and the value lemmas of each operation state its properties |
| TernaryValue.TimesLaws | src/lib.rs:32 | 1 is the identity of the complex product, which is commutative and associative, and v conj(v) is real |
| TernaryValue.StripValue | src/primes.rs:503-517 | stripping keeps the value |
| TernaryValue.IntValUpdate | src/primes.rs:308-312 | writing digit d at integral index i adds (d - old) 3^i |
| TernaryValue.FracValUpdate | src/primes.rs:329-333 | writing digit d at fractional index j adds (d - old) 3^(-1-j) |
| TernaryValue.CarryStep | src/primes.rs:311-316 | a unit written in place plus its carry one position up adds exactly d 3^k |
| TernaryValue.AddAtAxis | src/primes.rs:293-342 | add_at adds d 3^idx on each axis |
| TernaryValue.AddAtValue | src/primes.rs:293-342 | add_at(x, idx, d) adds the value of d times 3^idx |
| TernaryValue.FracBound | src/primes.rs:143-161 | the fractional part lies strictly between -1/2 and 1/2 on each axis |
| TernaryValue.AxisValueUnique | src/primes.rs:604-626 | equal values on an axis mean equal coordinates at every position |
| TernaryValue.ValueIffSame | src/primes.rs:604-626 | two numbers are equal exactly when their values are equal |
| TernaryValue.ZeroValue | src/primes.rs:530-533 | a number has value zero exactly when it is zero |
| TernaryArith.MapSeq | src/primes.rs:128-139 | the digit-wise loop keeps the length and replaces each digit by its image |
| TernaryArith.Negated | src/primes.rs:128-139 | definition: Neg negates every digit; NegatedLaws states its value and that it is an involution |
| TernaryArith.Conjugated | src/primes.rs:345-354 | definition: conjugate flips every digit left-right; ConjugatedLaws states its value |
| TernaryArith.Rotated3 | src/primes.rs:377-386 | definition: rotate3 turns every digit; Rotated3Value states its value |
| TernaryArith.Rotated7 | src/primes.rs:389-398 | definition: rotate7 turns every digit; Rotated7Value states its value |
| TernaryArith.MapSeqImpl | src/primes.rs:128-139 | the index-by-index overwrite of a clone computes the digit-wise map |
| TernaryArith.NegatedImpl | src/primes.rs:128-139 | Neg's loops negate every digit |
| TernaryArith.ConjugatedImpl | src/primes.rs:345-354 | conjugate's loops flip every digit left-right |
| TernaryArith.Rotated3Impl | src/primes.rs:377-386 | rotate3's loops rotate every digit |
| TernaryArith.Rotated7Impl | src/primes.rs:389-398 | rotate7's loops rotate every digit |
| TernaryArith.MapDigitAt | src/primes.rs:128-139 | a map fixing 5 rewrites the digit at every position and keeps both lengths |
| TernaryArith.NegatedLaws | src/primes.rs:128-139 | Neg negates the value, is an involution and keeps both lengths |
| TernaryArith.ConjugatedLaws | src/primes.rs:345-354 | conjugate maps the value to its complex conjugate and is an involution |
| TernaryArith.Rotated3Value | src/primes.rs:377-386 | rotate3 multiplies the value by -i (the value of &3) |
| TernaryArith.Rotated7Value | src/primes.rs:389-398 | rotate7 multiplies the value by i (the value of &7) |
| TernaryArith.RotatedInverse | src/primes.rs:377-398 | rotate3 and rotate7 undo each other on numbers |
| TernaryArith.SplitSeqImpl | src/primes.rs:358-374 | one loop of split_yx fills both halves digit by digit |
| TernaryArith.SplitYxNumber | src/primes.rs:358-374 | definition: split_yx, the stripped 3/5/7 halves first and the stripped 1/5/9 halves second; SplitYxCrossValue, SplitYxLinearValue and SplitYxDigits state its results |
| TernaryArith.SplitYxImpl | src/primes.rs:358-374 | split_yx returns the stripped 3/5/7 halves and then the stripped 1/5/9 halves |
| TernaryArith.HalvesLaws | src/digit.rs:460-472 | the two digit halves keep one coordinate each |
| TernaryArith.SplitYxCrossValue | src/primes.rs:358-374 | the first result of split_yx holds the x part of the value |
| TernaryArith.SplitYxLinearValue | src/primes.rs:358-374 | the second result holds the y part of the value |
| TernaryArith.SplitYxDigits | src/primes.rs:358-374 | both results are canonical; the first is 3/5/7-only and the second is 1/5/9-only |
| TernaryArith.IsLinear | src/primes.rs:536-548 | is_linear_ternary: every digit is 1, 5 or 9 |
| TernaryArith.StripAllDigits | src/primes.rs:503-517 | stripping keeps a digit property of every digit |
| TernaryArith.PairsImpl | src/primes.rs:519-528 | the two loops of pairs build the pair list |
| TernaryArith.Pairs | src/primes.rs:519-528 | definition: every stored digit with its signed position; PairsLaws and PairsValueOf state its contents and value |
| TernaryArith.PairsLaws | src/primes.rs:519-528 | one pair per stored digit, at positions 0, 1, ... and then -1, -2, ..., each with the digit at that position |
| TernaryArith.PairsValueOf | src/primes.rs:519-528 | the pairs of a number add up to its value |
| TernaryArith.SumImpl | src/primes.rs:645-662 | the two add_at loops of + compute the sum, unstripped |
| TernaryArith.Sum | src/primes.rs:645-662 | definition: + adds every digit of b into a at its position; SumValue and SumLaws state its value and laws |
| TernaryArith.Difference | src/primes.rs:664-669 | definition: a - b is a + (-b); DifferenceValue states its value |
| TernaryArith.DifferenceImpl | src/primes.rs:664-669 | a - b is a + (-b) |
| TernaryArith.AddPairsValue | src/primes.rs:645-662 | adding a list of pairs into r adds their value |
| TernaryArith.SumValue | src/primes.rs:645-662 | the value of a + b is the sum of the values |
| TernaryArith.DifferenceValue | src/primes.rs:664-669 | the value of a - b is the difference of the values |
| TernaryArith.SumLaws | src/primes.rs:645-669 | + is commutative and associative up to equality, a + &5 is a, and a - a is zero |
| TernaryArith.SumExamples | tests/math_test.rs:58-62 | &1 + &9 leaves a 5 behind (+ does not strip) and &1.1 + &9.9 equals &5 |
| TernaryArith.AddAtLinear | src/primes.rs:293-342 | adding a 1/5/9 digit to a 1/5/9-only number keeps it 1/5/9-only |
| TernaryArith.PairsLinear | src/primes.rs:519-528 | the pairs of a 1/5/9-only number hold 1/5/9 digits |
| TernaryArith.NegatedLinear | src/primes.rs:128-139 | negation keeps a number 1/5/9-only |
| TernaryArith.LinearClosed | src/primes.rs:645-669 | sums and differences of 1/5/9-only numbers are 1/5/9-only |
| TernaryProduct.ProductImpl | src/primes.rs:671-690 | the nested loops accumulate every digit product into &5: unit at the sum of positions, carry one higher |
| TernaryProduct.Product | src/primes.rs:671-690 | definition: * deposits every digit product of the two pair lists into &5; ProductValue states its value |
| TernaryProduct.MulStepValue | src/primes.rs:681-685 | one inner step adds z(p) z(q) 3^(i+j), unless it meets 8 * 1 |
| TernaryProduct.DepositValue | src/primes.rs:681-685 | depositing a (carry, unit) pair adds (3 carry + unit) 3^k |
| TernaryProduct.RowsTimes | src/primes.rs:671-690 | all rows add up to the product of the two pair lists' values |
| TernaryProduct.ProductValue | src/primes.rs:671-690 | the value of a * b is the product of the values when no left 8 meets a right 1 |
| TernaryProduct.ProductZero | src/primes.rs:671-690 | &5 times anything, and anything times &5, is the empty number |
| TernaryProduct.ProductIdentity | src/primes.rs:671-690 | &1 is a left identity, and a right identity for numbers without an 8 |
| TernaryProduct.ProductCommutative | src/primes.rs:671-690 | * is commutative up to equality where the anomaly is met in neither order |
| TernaryProduct.ProductAnomaly | src/digit.rs:192-246 | &8 * &1 is &18, whose value is off the product, while &1 * &8 is &8 |
| TernaryProduct.ProductLinear | src/primes.rs:671-690 | products of 1/5/9-only numbers are 1/5/9-only |
| TernaryShift.MoveByImpl | src/primes.rs:263-290 | the insert/remove loops compute move_by |
| TernaryShift.MoveBy | src/primes.rs:263-290 | definition: n steps up or -n steps down; MoveByDigits and MoveByValue state its effect |
| TernaryShift.UpDigits | src/primes.rs:268-275 | a step up moves every digit one position up |
| TernaryShift.DownDigits | src/primes.rs:279-286 | a step down moves every digit one position down |
| TernaryShift.MoveByDigits | src/primes.rs:263-290 | move_by(n) moves every digit n positions, unchanged |
| TernaryShift.MoveByLengths | src/primes.rs:263-290 | a move up by n grows the integral part by n and uses up to n fractional digits, and the mirror for a move down |
| TernaryShift.MoveByValue | src/primes.rs:263-290 | move_by(n) multiplies the value by 3^n |
| TernaryShift.MoveByTimes | src/primes.rs:263-290 | move_by(n) is multiplication by the digit 1 placed at n |
| TernaryShift.MoveByInverse | src/primes.rs:263-290 | moving back by -n undoes a move up to equality |
| TernaryShift.RoundNImpl | src/primes.rs:485-500 | round_n's loop keeps the first n fractional digits |
| TernaryShift.Round | src/primes.rs:477-482 | round keeps the integral part and drops every fractional digit |
| TernaryShift.RoundN | src/primes.rs:485-500 | definition: round_n keeps the first n fractional digits; RoundNShape and RoundNDigits state its effect |
| TernaryShift.RoundNShape | src/primes.rs:477-500 | round_n keeps the integral part and min(n, length) fractional digits, is idempotent, and round is round_n(0) |
| TernaryShift.RoundNDigits | src/primes.rs:485-500 | round_n keeps every digit at position -n or above and sets the rest to 5 |
| TernaryShift.RoundError | src/primes.rs:477-482 | round moves each coordinate by less than 1/2 |
| TernaryShift.RoundExamples | tests/math_test.rs:171-178 | the rounding tests of &2.4 and &2.444, and the move_by tests of &1.1 |
| TernaryDivision.FirstNonFive | src/primes.rs:407-411 | the first index holding a digit other than 5 |
| TernaryDivision.FirstDigit | src/primes.rs:400-414 | definition: get_first_digit on the stripped number; FirstDigitSpec states what it returns |
| TernaryDivision.GetFirstDigitImpl | src/primes.rs:400-414 | the early return and the scan compute get_first_digit |
| TernaryDivision.FirstDigitSpec | src/primes.rs:400-414 | get_first_digit is (5, 0) exactly for zero, and otherwise the most significant digit other than 5 and its position |
| TernaryDivision.LeadsUnique | src/primes.rs:400-414 | the leading digit and its position are unique |
| TernaryDivision.FirstDigitLinear | src/primes.rs:459-464 | a nonzero 1/5/9-only number leads with 1 or 9, so the guess never reaches its unreachable branch |
| TernaryDivision.IsLinearImpl | src/primes.rs:536-548 | the early-return loops of is_linear_ternary decide whether every digit is 1, 5 or 9 |
| TernaryDivision.FirstDigitSame | src/primes.rs:400-414 | numbers with equal values have the same leading digit |
| TernaryDivision.FirstDigitNegated | src/primes.rs:400-414 | negation negates the leading digit and keeps its position |
| TernaryDivision.LinearGreaterThan | src/primes.rs:417-421 | definition: the leading digit of a - b is 1; LinearGreaterValue states what it compares |
| TernaryDivision.LinearLittlerThan | src/primes.rs:424-428 | definition: the leading digit of a - b is 9; LinearLittlerValue states what it compares |
| TernaryDivision.LeadSign | src/primes.rs:400-414 | when the leading digit has a nonzero coordinate c on an axis, c times the value on that axis is positive |
| TernaryDivision.LinearGreaterValue | src/primes.rs:417-421 | on 1/5/9-only numbers, linear_greater_than holds exactly when the value of a is greater than that of b |
| TernaryDivision.LinearLittlerValue | src/primes.rs:424-428 | on 1/5/9-only numbers, linear_littler_than holds exactly when the value of a is smaller than that of b |
| TernaryDivision.LinearOrderAntisymmetric | src/primes.rs:417-428 | a > b exactly when b < a, and the two tests never both hold |
| TernaryDivision.LinearTrichotomy | src/primes.rs:417-428 | on 1/5/9-only numbers, a and b are equal exactly when neither test holds |
| TernaryDivision.Guess | src/primes.rs:459-465 | definition: the guessed quotient digit, 1 when the leading digits agree and 9 when they differ; GuessTimes states why |
| TernaryDivision.GuessTimes | src/primes.rs:459-468 | the guess times the divisor's leading digit is the remainder's leading digit |
| TernaryDivision.LinearDivideImpl | src/primes.rs:431-474 | the checks and the loop of linear_divide compute the model's result, its panics as `Err` values |
| TernaryDivision.LinearDivide | src/primes.rs:431-474 | definition: linear_divide, its panics as errors; LinearDivideCases, LinearDivideValue and LinearDivideExact state its results |
| TernaryDivision.DivLoopImpl | src/primes.rs:450-471 | the while loop runs at most 2 DIV_PRECISION steps and stops at a zero remainder |
| TernaryDivision.DivStepImpl | src/primes.rs:455-470 | one turn guesses, multiplies back, subtracts and accumulates |
| TernaryDivision.DivStepValue | src/primes.rs:455-470 | one turn keeps remainder + quotient * divisor, and both stay 1/5/9-only |
| TernaryDivision.DivLoopLaws | src/primes.rs:451-471 | the loop keeps remainder + quotient * divisor, and both stay 1/5/9-only |
| TernaryDivision.LinearDivideCases | src/primes.rs:437-448 | success exactly for a zero dividend, or nonzero 1/5/9-only operands; each panic exactly on its condition |
| TernaryDivision.LinearDivideValue | src/primes.rs:431-474 | division with remainder: value(a) = value(remainder) + value(quotient) value(b), all 1/5/9-only |
| TernaryDivision.LinearDivideExact | src/primes.rs:431-474 | when the remainder is zero the quotient is exact |
| TernaryQuotient.DivImpl | src/primes.rs:693-706 | div multiplies by the conjugate, splits, divides both parts and recombines them |
| TernaryQuotient.Div | src/primes.rs:693-706 | definition: / multiplies by the conjugate, divides both halves by b conj(b) and recombines them; DivValue and DivExact state its value |
| TernaryQuotient.PartsLinear | src/primes.rs:698-705 | both dividends handed to linear_divide are 1/5/9-only, whatever the operands |
| TernaryQuotient.PartsValue | src/primes.rs:698-705 | the dividends carry the y and the x component of a conj(b) |
| TernaryQuotient.NormValue | src/primes.rs:699 | b conj(b) has the value \|b\|^2, with no x part |
| TernaryQuotient.NormLinear | src/primes.rs:699 | b conj(b) is 1/5/9-only |
| TernaryQuotient.NormNonzero | src/primes.rs:699 | b conj(b) is nonzero for a nonzero b |
| TernaryQuotient.DivErrors | src/primes.rs:693-706 | div fails only with the zero-divisor or non-1/5/9-divisor error of linear_divide |
| TernaryQuotient.DivByZero | src/primes.rs:437-438 | a zero divisor gives a zero quotient, not an error, since both dividends are zero too |
| TernaryQuotient.DivSucceeds | src/primes.rs:693-706 | div succeeds whenever b conj(b) avoids the anomalous entry |
| TernaryQuotient.DivValue | src/primes.rs:693-706 | the quotient times b conj(b) is a conj(b) less what the two divisions leave |
| TernaryQuotient.DivExact | src/primes.rs:693-706 | when both linear divisions leave nothing, the quotient times the divisor is the dividend |
| TernaryQuotient.TimesCancel | src/primes.rs:693-706 | multiplication by a nonzero value can be undone |
| TernaryDivisionTests.TurnValue | src/primes.rs:455-470 | one turn of linear_divide subtracts the quotient digit times the divisor from the remainder, and the remainder stays 1/5/9-only |
| TernaryDivisionTests.LeadsShifted | src/primes.rs:400-414 | a leading digit moves n positions down when the value is divided by 3^n |
| TernaryDivisionTests.FinishesTurn | src/primes.rs:450-471 | a run of linear_divide that reaches zero after one turn from v reaches zero from v as well |
| TernaryDivisionTests.ExactFrom | src/primes.rs:431-474 | a run that reaches zero within 2 DIV_PRECISION turns leaves a zero remainder |
| TernaryDivisionTests.DivBy | src/primes.rs:693-706 | / is exact on a and b with quotient equal to c, once both linear divisions are exact and c b = a |
| TernaryDivisionTests.Div15By1 | tests/math_test.rs:150 | &15 / &1 is &15 |
| TernaryDivisionTests.Div111By23 | tests/math_test.rs:151 | &111 / &23 is &47 |
| TernaryDivisionTests.Div743316By616 | tests/math_test.rs:152 | &743316 / &616 is &751 |
| TernaryDivisionTests.Div743316By751 | tests/math_test.rs:153 | &743316 / &751 is &616 |
| TernaryDivisionTests.Div349By33 | tests/math_test.rs:155 | &3.49 / &3.3 is &1.3 |
| TernaryDivisionTests.Div349By13 | tests/math_test.rs:156 | &3.49 / &1.3 is &3.3 |
| TernaryDivisionTests.Div55555928By5536 | tests/math_test.rs:158 | &.55555928 / &.5536 is &.5543 |
| TernaryDivisionTests.SwingTurn | src/primes.rs:455-470 | from a remainder of value 2 or -2 and a divisor of value 4, a turn negates the remainder |
| TernaryDivisionTests.SwingStep | src/primes.rs:450-471 | a run from -s that ends at t, one turn longer from s, ends at t too |
| TernaryDivisionTests.LinearDivideSwings | src/primes.rs:431-474 | linear_divide on values 2 and 4 returns zero and leaves the dividend as its remainder |
| TernaryDivisionTests.DivSwings | src/primes.rs:693-706 | / on operands with a conj(b) = 2 and b conj(b) = 4 returns zero |
| TernaryDivisionTests.DivHalf | src/primes.rs:693-706 | &1 / &19 is &5, not an approximation of one half |
| TernaryText.Reverse | src/primes.rs:34-36 | definition: the digits in the opposite order; ReverseLaws states its laws |
| TernaryText.ReverseLaws | src/primes.rs:586-588 | reversal is an involution, and inserting at the front reverses appending |
| TernaryText.SplitDotsCount | src/primes.rs:583 | a string with k dots splits into k + 1 pieces |
| TernaryText.SplitDotsPieces | src/primes.rs:583 | no piece holds a dot |
| TernaryText.SplitDotsWhole | src/primes.rs:583 | a string without dots is its own only piece |
| TernaryText.SplitDotsOne | src/primes.rs:583 | a string with one dot splits around it |
| TernaryText.SplitDotsAfter | src/primes.rs:583 | a dot-free piece followed by a dot starts the split |
| TernaryText.Chars | src/primes.rs:34-41 | definition: each digit written as its character; CharsInjective and ParseChars state its laws |
| TernaryText.ParseChunk | src/primes.rs:584-595 | a piece parses exactly when all its characters are digits, and then to the digits it spells |
| TernaryText.ParseChunkError | src/primes.rs:584-595 | a bad piece fails with its first character that is not a digit |
| TernaryText.ParseChars | src/primes.rs:584-595 | the characters of digits parse back to the digits |
| TernaryText.CharsInjective | src/primes.rs:34-41 | different digit vectors are written differently |
| TernaryText.FormatImpl | src/primes.rs:28-46 | Display's loops write the model's text |
| TernaryText.Format | src/primes.rs:28-46 | definition: Display; FormatShape, FormatParse and FormatSame state its properties |
| TernaryText.FormatShape | src/primes.rs:28-46 | the text starts with & and has one character per digit, plus a dot exactly when there are fractional digits |
| TernaryText.ParseChunkImpl | src/primes.rs:584-595 | the character loop computes the piece's digits or its first error |
| TernaryText.ParseImpl | src/primes.rs:569-602 | from_str's checks and loops compute the model's parse |
| TernaryText.Parse | src/primes.rs:569-602 | definition: FromStr, errors included; ParseOk, ParseErrors, ParseStripped and FormatParse state its properties |
| TernaryText.ParseStripped | src/primes.rs:599 | a parsed number is canonical |
| TernaryText.ParseOk | src/primes.rs:569-602 | parsing succeeds exactly when something follows the first character, with at most one dot and only digit characters otherwise |
| TernaryText.ParseErrors | src/primes.rs:569-602 | the failures: an empty string, nothing after the first character, more than one dot, or a character that is neither a digit nor a dot |
| TernaryText.FormatParse | src/primes.rs:28-46 | parsing the text of a number gives back its canonical form |
| TernaryText.FormatSame | src/primes.rs:28-46 | numbers written the same way are equal |
| TernaryText.ParseExampleFractional | tests/math_test.rs:9 | &1.15 parses to &1.1 |
| TernaryText.FormatExampleFractional | tests/math_test.rs:21 | the unstripped &1.15 is written with its 5 |
| TernaryText.ParseExampleIntegral | tests/math_test.rs:10 | &51.1 parses to &1.1 |
| TernaryText.FormatExampleIntegral | tests/math_test.rs:22 | the unstripped &51.1 is written with its 5 |
| TernaryText.StripExample | tests/math_test.rs:22 | stripping &51.1 gives &1.1 |
| TernaryText.FormatExample | tests/math_test.rs:20 | &1.1 is written back as it was |
| TernaryText.ParseSkipsMarker | src/primes.rs:579 | the first character is never looked at |
| TernaryText.ParseEdgeExamples | src/primes.rs:576-582 | "" and "&" fail, and &5 is the empty number |
| TernaryText.ParseExampleTwoDots | src/primes.rs:596-598 | &1.1.1 is refused as a bad format |
| TernaryText.ParseExampleBadChar | src/primes.rs:553-565 | &1x is refused, naming x |
| TernaryBuffer.Nibbles | src/primes.rs:180-185 | a byte packs two digit codes, so it lies in 17..153 |
| TernaryBuffer.NibblesSplit | src/primes.rs:244-248 | masking and shifting a packed byte recovers both codes |
| TernaryBuffer.Pack | src/primes.rs:178-192 | definition: a block packed two digit codes per byte, high nibble first; a block of n digits takes (n + 1) / 2 bytes, and UnpackPack inverts it |
| TernaryBuffer.Padded | src/primes.rs:188-192 | a block padded with a 5 to even length |
| TernaryBuffer.Unpack | src/primes.rs:238-250 | bytes unpack exactly when every nibble is a digit code |
| TernaryBuffer.PackInto | src/primes.rs:175-192 | the halfed/prev loop pushes the packed bytes of the block |
| TernaryBuffer.EncodeImpl | src/primes.rs:169-217 | the encoder's two loops and its length assertion compute the model's encoding |
| TernaryBuffer.Encode | src/primes.rs:164-217 | definition: the length byte and the packed blocks of the stripped number, or an error; EncodeErrors, EncodeShape and EncodeDecode state its properties |
| TernaryBuffer.UnpackByte | src/primes.rs:243-249 | one byte adds its two digits, high nibble first, or fails |
| TernaryBuffer.DecodeImpl | src/primes.rs:224-253 | the decoder's checks and loop compute the model's decoding |
| TernaryBuffer.Decode | src/primes.rs:219-254 | definition: the buffer checks and the unpacking, errors included; DecodeErrors and EncodeDecode state its properties |
| TernaryBuffer.UnpackDigits | src/primes.rs:238-250 | the unpacked digits are the high and then the low nibble of each byte |
| TernaryBuffer.UnpackErrors | src/primes.rs:238-250 | an unpack error names a nibble of one of the bytes |
| TernaryBuffer.UnpackStops | src/primes.rs:243-249 | once a prefix fails, the decoding fails with that error |
| TernaryBuffer.PackValid | src/primes.rs:178-192 | every packed byte holds two digit codes |
| TernaryBuffer.UnpackPack | src/primes.rs:178-251 | unpacking a packed block gives the block back with its padding |
| TernaryBuffer.StripPadded | src/primes.rs:252 | stripping removes the padding 5 again |
| TernaryBuffer.EncodeErrors | src/primes.rs:171-216 | encoding fails exactly when the canonical form has 256 or more integral digits, naming the length |
| TernaryBuffer.EncodeShape | src/primes.rs:169-212 | a length byte, ceil(I/2) integral bytes and ceil(F/2) fractional bytes, each holding two digit codes |
| TernaryBuffer.EncodeDecode | src/primes.rs:164-254 | decoding an encoding gives back the canonical form |
| TernaryBuffer.DecodeErrors | src/primes.rs:224-253 | the decoder refuses an empty buffer, a buffer shorter than its length byte needs, or a bad nibble, and returns canonical numbers |
| TernaryBuffer.EncodeLengthByte255 | src/primes.rs:172-174 | 255 integral digits encode with length byte 255 |
| TernaryBuffer.BufferExamples | tests/buffer_test.rs:7-48 | &1.1 is [1, 21, 21] both ways, trailing 5s do not reach the buffer, and [1, 65, 20] is &14.14 |
| TernaryBuffer.DecodeExample | examples/buffer.rs:7-8 | [1, 65, 20] decodes to &14.14 |
| TernaryLib.ParseLiteral | src/lib.rs:44-46 | an accepted literal gives a canonical number that is written back as text parsing to itself |
| TernaryLib.DbtDigits | src/lib.rs:49-62 | definition: one entry per stored digit; DbtDigitsLaws and DbtDigitsPairs state its contents |
| TernaryLib.DbtDigitsImpl | src/lib.rs:49-62 | the two loops of dbt_digits build the entry list |
| TernaryLib.DbtDigitsLaws | src/lib.rs:49-62 | the integral digits from the top and then the fractional digits, at strictly decreasing positions from \|I\| - 1 down to -\|F\| |
| TernaryLib.DbtDigitsPairs | src/lib.rs:49-62 | dbt_digits is pairs with the integral block reversed |
| TernaryLib.DbtDigitsExample | tests/digit_test.rs:6-11 | &23.456 lists (1, 2), (0, 3), (-1, 4), (-2, 5), (-3, 6) |

## Left out

- Floating point: `TryFrom<f64>`, `TryFrom<(f64, f64)>`, `new`, `to_float` and `complex.rs` are
  not modelled. `TernaryValue.Value` is the exact counterpart of `to_float`.
- `Hash` is not modelled. It hashes the stripped digits, so it agrees with equality.
- Panics (`unwrap` in `ternary`, `unreachable!` in `linear_divide` and `get_first_digit`) are
  `Err` values or preconditions. The unreachable branches are proved unreachable.
- Error messages are `Results.Error` values rather than strings.
- `str` byte slicing `s[1..]` is modelled per character. A first character outside ASCII would
  make the source panic.
- TernaryBuffer.Decode: its precondition excludes a length byte of 255. There the source's
  8-bit `buf[0] + 1` overflows, which panics in a debug build and wraps to 0 in a release
  build. `TernaryBuffer.EncodeLengthByte255` shows that the encoder can emit this byte.
- TernaryBuffer.EncodeDecode: stated only for fewer than 255 integral digits, the range the
  decoder accepts.
- TernaryBuffer.DecodeImpl: it runs two loops, one over the integral bytes and one over the
  fractional bytes. The source's single loop visits the same bytes in the same order and
  stops at the same first error.
- TernaryProduct.ProductValue: stated only when no digit 8 of the left operand meets a digit 1
  of the right. That one table entry is off the complex product (`TernaryProduct.ProductAnomaly`).
- TernaryQuotient.DivValue: stated only when neither multiplication inside `/` meets that entry.
- TernaryDivision.LinearDivideValue: it relates the quotient to the remainder left after at most
  2 DIV_PRECISION steps, and does not bound that remainder. No bound holds in general, because a
  turn can keep the remainder's leading position: from 2 divided by 4 the remainder swings
  between 2 and -2 (`TernaryDivisionTests.LinearDivideSwings`).
- The number of steps DIV_PRECISION is a constant of the model (10).

## Findings

| source | as written | input that shows it | evidently intended | confidence | as-written member | corrected member |
|---|---|---|---|---|---|---|
| src/digit.rs:251-278 | the pair (1, 1) decodes to Dbt4 and (1, -1) decodes to Dbt8 | (1, 1), the position of Dbt8 in the digit grid | (1, 1) decodes to Dbt8 and (1, -1) to Dbt4, inverting the grid | not executed | Digits.FromPairSwapsFourAndEight | Digits.FromVecRoundTrip |
