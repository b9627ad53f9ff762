/** The nine digits of dual balanced ternary and their closed algebra.

    The digits tile the grid
        6 1 8
        7 5 3
        2 9 4
    with Dbt5 at the centre. Digit 1 points along +y and digit 3 along +x, so every digit
    stands for a vector in {-1,0,1}^2 and Dbt5 is the zero vector. */
module Digits {
  import opened Results

  datatype Digit = Dbt1 | Dbt2 | Dbt3 | Dbt4 | Dbt5 | Dbt6 | Dbt7 | Dbt8 | Dbt9

  /** A byte (Rust's u8). */
  type Byte = n: int | 0 <= n < 256

  // ---------------------------------------------------------------------------------------
  // The coordinate vector and its inverse
  // ---------------------------------------------------------------------------------------

  /** The x coordinate of a digit, read off the grid. */
  function X(d: Digit): int
  {
    match d
    case Dbt1 => 0
    case Dbt2 => -1
    case Dbt3 => 1
    case Dbt4 => 1
    case Dbt5 => 0
    case Dbt6 => -1
    case Dbt7 => -1
    case Dbt8 => 1
    case Dbt9 => 0
  }

  /** The y coordinate of a digit, read off the grid. */
  function Y(d: Digit): int
  {
    match d
    case Dbt1 => 1
    case Dbt2 => -1
    case Dbt3 => 0
    case Dbt4 => -1
    case Dbt5 => 0
    case Dbt6 => 1
    case Dbt7 => 0
    case Dbt8 => 1
    case Dbt9 => -1
  }

  /** The coordinate vector (x, y) of a digit: a point of {-1,0,1}^2, the origin for Dbt5
      only. */
  function Vec(d: Digit): (v: (int, int))
    ensures -1 <= v.0 <= 1 && -1 <= v.1 <= 1
    ensures v == (0, 0) <==> d == Dbt5
  {
    (X(d), Y(d))
  }

  /** Two digits with the same vector are the same digit. */
  lemma VecInjective(a: Digit, b: Digit)
    requires Vec(a) == Vec(b)
    ensures a == b
  {
  }

  /** The (i64, i64) codec, as written: the x coordinate is checked first, and the two
      entries for x = 1, y = 1 and x = 1, y = -1 name Dbt4 and Dbt8 the other way round from
      the vector table (and from the grid), so the vector is recovered for the other seven
      in-range pairs only. */
  function FromPair(x: int, y: int): (r: Result<Digit>)
    ensures r.Ok? <==> -1 <= x <= 1 && -1 <= y <= 1
    ensures r.Ok? && x != 1 ==> Vec(r.value) == (x, y)
    ensures r.Ok? && y == 0 ==> Vec(r.value) == (x, y)
    ensures !(-1 <= x <= 1) ==> r == Err(UnexpectedX(x))
    ensures -1 <= x <= 1 && !(-1 <= y <= 1) ==> r == Err(UnexpectedY(y))
  {
    match x
    case -1 => (match y
                case -1 => Ok(Dbt2)
                case 0 => Ok(Dbt7)
                case 1 => Ok(Dbt6)
                case _ => Err(UnexpectedY(y)))
    case 0 => (match y
               case -1 => Ok(Dbt9)
               case 0 => Ok(Dbt5)
               case 1 => Ok(Dbt1)
               case _ => Err(UnexpectedY(y)))
    case 1 => (match y
               case -1 => Ok(Dbt8)
               case 0 => Ok(Dbt3)
               case 1 => Ok(Dbt4)
               case _ => Err(UnexpectedY(y)))
    case _ => Err(UnexpectedX(x))
  }

  /** The pair codec as written does not invert the vector table: Dbt8 has vector (1, 1) but
      the pair (1, 1) decodes to Dbt4, and the other way round. */
  lemma FromPairSwapsFourAndEight()
    ensures Vec(Dbt8) == (1, 1) && FromPair(1, 1) == Ok(Dbt4)
    ensures Vec(Dbt4) == (1, -1) && FromPair(1, -1) == Ok(Dbt8)
    ensures FromPair(Vec(Dbt8).0, Vec(Dbt8).1) != Ok(Dbt8)
  {
  }

  /** The pair codec with the two entries for x = 1 put right: the inverse of Vec. */
  function FromVec(x: int, y: int): (r: Result<Digit>)
    ensures r.Ok? <==> -1 <= x <= 1 && -1 <= y <= 1
    ensures r.Ok? ==> Vec(r.value) == (x, y)
    ensures !(-1 <= x <= 1) ==> r == Err(UnexpectedX(x))
    ensures -1 <= x <= 1 && !(-1 <= y <= 1) ==> r == Err(UnexpectedY(y))
  {
    match x
    case -1 => (match y
                case -1 => Ok(Dbt2)
                case 0 => Ok(Dbt7)
                case 1 => Ok(Dbt6)
                case _ => Err(UnexpectedY(y)))
    case 0 => (match y
               case -1 => Ok(Dbt9)
               case 0 => Ok(Dbt5)
               case 1 => Ok(Dbt1)
               case _ => Err(UnexpectedY(y)))
    case 1 => (match y
               case -1 => Ok(Dbt4)
               case 0 => Ok(Dbt3)
               case 1 => Ok(Dbt8)
               case _ => Err(UnexpectedY(y)))
    case _ => Err(UnexpectedX(x))
  }

  /** The corrected pair codec inverts the vector table. */
  lemma FromVecRoundTrip(d: Digit)
    ensures FromVec(Vec(d).0, Vec(d).1) == Ok(d)
  {
    VecInjective(FromVec(Vec(d).0, Vec(d).1).value, d);
  }

  // ---------------------------------------------------------------------------------------
  // The u8 and char codecs
  // ---------------------------------------------------------------------------------------

  /** u8::from: the digit's own number. */
  function Code(d: Digit): (n: Byte)
    ensures 1 <= n <= 9
    ensures n == 5 <==> d == Dbt5
  {
    match d
    case Dbt1 => 1
    case Dbt2 => 2
    case Dbt3 => 3
    case Dbt4 => 4
    case Dbt5 => 5
    case Dbt6 => 6
    case Dbt7 => 7
    case Dbt8 => 8
    case Dbt9 => 9
  }

  /** TryFrom<u8>: the digit with the given code, or UnknownCode. */
  function FromCode(n: Byte): (r: Result<Digit>)
    ensures r.Ok? <==> 1 <= n <= 9
    ensures r.Err? ==> r.error == UnknownCode(n)
  {
    match n
    case 1 => Ok(Dbt1)
    case 2 => Ok(Dbt2)
    case 3 => Ok(Dbt3)
    case 4 => Ok(Dbt4)
    case 5 => Ok(Dbt5)
    case 6 => Ok(Dbt6)
    case 7 => Ok(Dbt7)
    case 8 => Ok(Dbt8)
    case 9 => Ok(Dbt9)
    case _ => Err(UnknownCode(n))
  }

  /** The u8 codec round-trips in both directions. */
  lemma CodeRoundTrip(d: Digit, n: Byte)
    ensures FromCode(Code(d)) == Ok(d)
    ensures FromCode(n).Ok? ==> Code(FromCode(n).value) == n
  {
  }

  /** Display: the digit's code as one character. */
  function ToChar(d: Digit): (c: char)
    ensures '1' <= c <= '9'
    ensures c as int - '0' as int == Code(d)
  {
    match d
    case Dbt1 => '1'
    case Dbt2 => '2'
    case Dbt3 => '3'
    case Dbt4 => '4'
    case Dbt5 => '5'
    case Dbt6 => '6'
    case Dbt7 => '7'
    case Dbt8 => '8'
    case Dbt9 => '9'
  }

  /** TryFrom<char>: '1'..'9' name the digits, every other character is refused. */
  function FromChar(c: char): (r: Result<Digit>)
    ensures r.Ok? <==> '1' <= c <= '9'
    ensures r.Ok? ==> Code(r.value) == c as int - '0' as int
    ensures r.Err? ==> r.error == InvalidDigitChar(c)
  {
    match c
    case '1' => Ok(Dbt1)
    case '2' => Ok(Dbt2)
    case '3' => Ok(Dbt3)
    case '4' => Ok(Dbt4)
    case '5' => Ok(Dbt5)
    case '6' => Ok(Dbt6)
    case '7' => Ok(Dbt7)
    case '8' => Ok(Dbt8)
    case '9' => Ok(Dbt9)
    case _ => Err(InvalidDigitChar(c))
  }

  /** The char codec round-trips in both directions. */
  lemma CharRoundTrip(d: Digit, c: char)
    ensures FromChar(ToChar(d)) == Ok(d)
    ensures FromChar(c).Ok? ==> ToChar(FromChar(c).value) == c
  {
  }

  // ---------------------------------------------------------------------------------------
  // Negation, rotations and reflections
  // ---------------------------------------------------------------------------------------

  /** Negation: the point reflection through the centre. */
  function Neg(d: Digit): (r: Digit)
    ensures Vec(r) == (-X(d), -Y(d))
  {
    match d
    case Dbt1 => Dbt9
    case Dbt2 => Dbt8
    case Dbt3 => Dbt7
    case Dbt4 => Dbt6
    case Dbt5 => Dbt5
    case Dbt6 => Dbt4
    case Dbt7 => Dbt3
    case Dbt8 => Dbt2
    case Dbt9 => Dbt1
  }

  /** Clockwise rotation: (x, y) goes to (y, -x). */
  function Rotate3(d: Digit): (r: Digit)
    ensures Vec(r) == (Y(d), -X(d))
  {
    match d
    case Dbt1 => Dbt3
    case Dbt2 => Dbt6
    case Dbt3 => Dbt9
    case Dbt4 => Dbt2
    case Dbt5 => Dbt5
    case Dbt6 => Dbt8
    case Dbt7 => Dbt1
    case Dbt8 => Dbt4
    case Dbt9 => Dbt7
  }

  /** Anti-clockwise rotation: (x, y) goes to (-y, x). */
  function Rotate7(d: Digit): (r: Digit)
    ensures Vec(r) == (-Y(d), X(d))
  {
    match d
    case Dbt1 => Dbt7
    case Dbt2 => Dbt4
    case Dbt3 => Dbt1
    case Dbt4 => Dbt8
    case Dbt5 => Dbt5
    case Dbt6 => Dbt2
    case Dbt7 => Dbt9
    case Dbt8 => Dbt6
    case Dbt9 => Dbt3
  }

  /** Mirror across the vertical axis: (x, y) goes to (-x, y). */
  function FlipLeftRight(d: Digit): (r: Digit)
    ensures Vec(r) == (-X(d), Y(d))
  {
    match d
    case Dbt1 => Dbt1
    case Dbt2 => Dbt4
    case Dbt3 => Dbt7
    case Dbt4 => Dbt2
    case Dbt5 => Dbt5
    case Dbt6 => Dbt8
    case Dbt7 => Dbt3
    case Dbt8 => Dbt6
    case Dbt9 => Dbt9
  }

  /** Mirror across the diagonal through 2 and 8: (x, y) goes to (y, x). */
  function FlipXy(d: Digit): (r: Digit)
    ensures Vec(r) == (Y(d), X(d))
  {
    match d
    case Dbt1 => Dbt3
    case Dbt2 => Dbt2
    case Dbt3 => Dbt1
    case Dbt4 => Dbt6
    case Dbt5 => Dbt5
    case Dbt6 => Dbt4
    case Dbt7 => Dbt9
    case Dbt8 => Dbt8
    case Dbt9 => Dbt7
  }

  /** Mirror across the horizontal axis, as written: the table sends Dbt3 to Dbt7 where the
      grid drawn beside it keeps Dbt3 in place, so the mirror property holds for the other
      eight digits only. */
  function FlipFrontBack(d: Digit): (r: Digit)
    ensures d != Dbt3 ==> Vec(r) == (X(d), -Y(d))
  {
    match d
    case Dbt1 => Dbt9
    case Dbt2 => Dbt6
    case Dbt3 => Dbt7
    case Dbt4 => Dbt8
    case Dbt5 => Dbt5
    case Dbt6 => Dbt2
    case Dbt7 => Dbt7
    case Dbt8 => Dbt4
    case Dbt9 => Dbt1
  }

  /** Splits a digit into its y part (one of 1, 5, 9) and its x part (one of 3, 5, 7). */
  function SplitYx(d: Digit): (r: (Digit, Digit))
    ensures Vec(r.0) == (0, Y(d)) && Vec(r.1) == (X(d), 0)
  {
    match d
    case Dbt1 => (Dbt1, Dbt5)
    case Dbt2 => (Dbt9, Dbt7)
    case Dbt3 => (Dbt5, Dbt3)
    case Dbt4 => (Dbt9, Dbt3)
    case Dbt5 => (Dbt5, Dbt5)
    case Dbt6 => (Dbt1, Dbt7)
    case Dbt7 => (Dbt5, Dbt7)
    case Dbt8 => (Dbt1, Dbt3)
    case Dbt9 => (Dbt9, Dbt5)
  }

  predicate IsLinearDigit(d: Digit) { d == Dbt1 || d == Dbt5 || d == Dbt9 }
  predicate IsCrossDigit(d: Digit) { d == Dbt3 || d == Dbt5 || d == Dbt7 }

  // ---------------------------------------------------------------------------------------
  // The addition and multiplication tables
  // ---------------------------------------------------------------------------------------

  /** Digit addition: a pair (carry, unit) with 3 * carry + unit equal to a + b in each
      coordinate. */
  function Add(a: Digit, b: Digit): (Digit, Digit)
  {
    match a
    case Dbt1 => (match b
      case Dbt1 => (Dbt1, Dbt9)
      case Dbt2 => (Dbt5, Dbt7)
      case Dbt3 => (Dbt5, Dbt8)
      case Dbt4 => (Dbt5, Dbt3)
      case Dbt5 => (Dbt5, Dbt1)
      case Dbt6 => (Dbt1, Dbt2)
      case Dbt7 => (Dbt5, Dbt6)
      case Dbt8 => (Dbt1, Dbt4)
      case Dbt9 => (Dbt5, Dbt5))
    case Dbt2 => (match b
      case Dbt1 => (Dbt5, Dbt7)
      case Dbt2 => (Dbt2, Dbt8)
      case Dbt3 => (Dbt5, Dbt9)
      case Dbt4 => (Dbt9, Dbt1)
      case Dbt5 => (Dbt5, Dbt2)
      case Dbt6 => (Dbt7, Dbt3)
      case Dbt7 => (Dbt7, Dbt4)
      case Dbt8 => (Dbt5, Dbt5)
      case Dbt9 => (Dbt9, Dbt6))
    case Dbt3 => (match b
      case Dbt1 => (Dbt5, Dbt8)
      case Dbt2 => (Dbt5, Dbt9)
      case Dbt3 => (Dbt3, Dbt7)
      case Dbt4 => (Dbt3, Dbt2)
      case Dbt5 => (Dbt5, Dbt3)
      case Dbt6 => (Dbt5, Dbt1)
      case Dbt7 => (Dbt5, Dbt5)
      case Dbt8 => (Dbt3, Dbt6)
      case Dbt9 => (Dbt5, Dbt4))
    case Dbt4 => (match b
      case Dbt1 => (Dbt5, Dbt3)
      case Dbt2 => (Dbt9, Dbt1)
      case Dbt3 => (Dbt3, Dbt2)
      case Dbt4 => (Dbt4, Dbt6)
      case Dbt5 => (Dbt5, Dbt4)
      case Dbt6 => (Dbt5, Dbt5)
      case Dbt7 => (Dbt5, Dbt9)
      case Dbt8 => (Dbt3, Dbt7)
      case Dbt9 => (Dbt9, Dbt8))
    case Dbt5 => (Dbt5, b)
    case Dbt6 => (match b
      case Dbt1 => (Dbt1, Dbt2)
      case Dbt2 => (Dbt7, Dbt3)
      case Dbt3 => (Dbt5, Dbt1)
      case Dbt4 => (Dbt5, Dbt5)
      case Dbt5 => (Dbt5, Dbt6)
      case Dbt6 => (Dbt6, Dbt4)
      case Dbt7 => (Dbt7, Dbt8)
      case Dbt8 => (Dbt1, Dbt9)
      case Dbt9 => (Dbt5, Dbt7))
    case Dbt7 => (match b
      case Dbt1 => (Dbt5, Dbt6)
      case Dbt2 => (Dbt7, Dbt4)
      case Dbt3 => (Dbt5, Dbt5)
      case Dbt4 => (Dbt5, Dbt9)
      case Dbt5 => (Dbt5, Dbt7)
      case Dbt6 => (Dbt7, Dbt8)
      case Dbt7 => (Dbt7, Dbt3)
      case Dbt8 => (Dbt5, Dbt1)
      case Dbt9 => (Dbt5, Dbt2))
    case Dbt8 => (match b
      case Dbt1 => (Dbt1, Dbt4)
      case Dbt2 => (Dbt5, Dbt5)
      case Dbt3 => (Dbt3, Dbt6)
      case Dbt4 => (Dbt3, Dbt7)
      case Dbt5 => (Dbt5, Dbt8)
      case Dbt6 => (Dbt1, Dbt9)
      case Dbt7 => (Dbt5, Dbt1)
      case Dbt8 => (Dbt8, Dbt2)
      case Dbt9 => (Dbt5, Dbt3))
    case Dbt9 => (match b
      case Dbt1 => (Dbt5, Dbt5)
      case Dbt2 => (Dbt9, Dbt6)
      case Dbt3 => (Dbt5, Dbt4)
      case Dbt4 => (Dbt9, Dbt8)
      case Dbt5 => (Dbt5, Dbt9)
      case Dbt6 => (Dbt5, Dbt7)
      case Dbt7 => (Dbt5, Dbt2)
      case Dbt8 => (Dbt5, Dbt3)
      case Dbt9 => (Dbt9, Dbt1))
  }

  /** For all 81 pairs, a + b = (carry, unit) has 3 * carry + unit = a + b in each
      coordinate. */
  lemma AddVector(a: Digit, b: Digit)
    ensures 3 * X(Add(a, b).0) + X(Add(a, b).1) == X(a) + X(b)
    ensures 3 * Y(Add(a, b).0) + Y(Add(a, b).1) == Y(a) + Y(b)
  {
    match a
    case Dbt1 => AddVector1(b);
    case Dbt2 => AddVector2(b);
    case Dbt3 => AddVector3(b);
    case Dbt4 => AddVector4(b);
    case Dbt5 => AddVector5(b);
    case Dbt6 => AddVector6(b);
    case Dbt7 => AddVector7(b);
    case Dbt8 => AddVector8(b);
    case Dbt9 => AddVector9(b);
  }

  // One row of the addition table each.

  lemma AddVector1(b: Digit)
    ensures 3 * X(Add(Dbt1, b).0) + X(Add(Dbt1, b).1) == X(Dbt1) + X(b)
    ensures 3 * Y(Add(Dbt1, b).0) + Y(Add(Dbt1, b).1) == Y(Dbt1) + Y(b)
  {
  }

  lemma AddVector2(b: Digit)
    ensures 3 * X(Add(Dbt2, b).0) + X(Add(Dbt2, b).1) == X(Dbt2) + X(b)
    ensures 3 * Y(Add(Dbt2, b).0) + Y(Add(Dbt2, b).1) == Y(Dbt2) + Y(b)
  {
  }

  lemma AddVector3(b: Digit)
    ensures 3 * X(Add(Dbt3, b).0) + X(Add(Dbt3, b).1) == X(Dbt3) + X(b)
    ensures 3 * Y(Add(Dbt3, b).0) + Y(Add(Dbt3, b).1) == Y(Dbt3) + Y(b)
  {
  }

  lemma AddVector4(b: Digit)
    ensures 3 * X(Add(Dbt4, b).0) + X(Add(Dbt4, b).1) == X(Dbt4) + X(b)
    ensures 3 * Y(Add(Dbt4, b).0) + Y(Add(Dbt4, b).1) == Y(Dbt4) + Y(b)
  {
  }

  lemma AddVector5(b: Digit)
    ensures 3 * X(Add(Dbt5, b).0) + X(Add(Dbt5, b).1) == X(Dbt5) + X(b)
    ensures 3 * Y(Add(Dbt5, b).0) + Y(Add(Dbt5, b).1) == Y(Dbt5) + Y(b)
  {
  }

  lemma AddVector6(b: Digit)
    ensures 3 * X(Add(Dbt6, b).0) + X(Add(Dbt6, b).1) == X(Dbt6) + X(b)
    ensures 3 * Y(Add(Dbt6, b).0) + Y(Add(Dbt6, b).1) == Y(Dbt6) + Y(b)
  {
  }

  lemma AddVector7(b: Digit)
    ensures 3 * X(Add(Dbt7, b).0) + X(Add(Dbt7, b).1) == X(Dbt7) + X(b)
    ensures 3 * Y(Add(Dbt7, b).0) + Y(Add(Dbt7, b).1) == Y(Dbt7) + Y(b)
  {
  }

  lemma AddVector8(b: Digit)
    ensures 3 * X(Add(Dbt8, b).0) + X(Add(Dbt8, b).1) == X(Dbt8) + X(b)
    ensures 3 * Y(Add(Dbt8, b).0) + Y(Add(Dbt8, b).1) == Y(Dbt8) + Y(b)
  {
  }

  lemma AddVector9(b: Digit)
    ensures 3 * X(Add(Dbt9, b).0) + X(Add(Dbt9, b).1) == X(Dbt9) + X(b)
    ensures 3 * Y(Add(Dbt9, b).0) + Y(Add(Dbt9, b).1) == Y(Dbt9) + Y(b)
  {
  }

  /** Coordinates lie in {-1, 0, 1}. */
  lemma CoordBounds(d: Digit)
    ensures -1 <= X(d) <= 1 && -1 <= Y(d) <= 1
  {
  }

  /** A number in -4..4 has one balanced base-3 split 3 c + u with c, u in {-1, 0, 1}. */
  lemma BalancedSplit(c1: int, u1: int, c2: int, u2: int)
    requires -1 <= c1 <= 1 && -1 <= u1 <= 1 && -1 <= c2 <= 1 && -1 <= u2 <= 1
    requires 3 * c1 + u1 == 3 * c2 + u2
    ensures c1 == c2 && u1 == u2
  {
  }

  /** Two (carry, unit) pairs with equal 3 carry + unit in both coordinates are equal. */
  lemma SplitUnique(c1: Digit, u1: Digit, c2: Digit, u2: Digit)
    requires 3 * X(c1) + X(u1) == 3 * X(c2) + X(u2)
    requires 3 * Y(c1) + Y(u1) == 3 * Y(c2) + Y(u2)
    ensures c1 == c2 && u1 == u2
  {
    CoordBounds(c1); CoordBounds(u1); CoordBounds(c2); CoordBounds(u2);
    BalancedSplit(X(c1), X(u1), X(c2), X(u2));
    BalancedSplit(Y(c1), Y(u1), Y(c2), Y(u2));
    VecInjective(c1, c2);
    VecInjective(u1, u2);
  }

  /** The coordinate sum alone fixes the addition table: a balanced base-3 split of a sum
      in -2..2 is unique. */
  lemma AddUnique(a: Digit, b: Digit, carry: Digit, unit: Digit)
    requires 3 * X(carry) + X(unit) == X(a) + X(b)
    requires 3 * Y(carry) + Y(unit) == Y(a) + Y(b)
    ensures Add(a, b) == (carry, unit)
  {
    AddVector(a, b);
    SplitUnique(Add(a, b).0, Add(a, b).1, carry, unit);
  }

  /** Addition is commutative on all 81 pairs. */
  lemma AddCommutative(a: Digit, b: Digit)
    ensures Add(a, b) == Add(b, a)
  {
    var r := Add(b, a);
    AddVector(b, a);
    AddUnique(a, b, r.0, r.1);
  }

  /** Dbt5 is a two-sided identity, a digit plus its negation is (Dbt5, Dbt5), and the
      documented sums 1 + 3 = 8 and 1 + 1 = 19 hold. */
  lemma AddIdentities(a: Digit)
    ensures Add(Dbt5, a) == (Dbt5, a) && Add(a, Dbt5) == (Dbt5, a)
    ensures Add(a, Neg(a)) == (Dbt5, Dbt5)
    ensures Add(Dbt1, Dbt3) == (Dbt5, Dbt8) && Add(Dbt1, Dbt1) == (Dbt1, Dbt9)
  {
    AddUnique(a, Dbt5, Dbt5, a);
    AddUnique(a, Neg(a), Dbt5, Dbt5);
  }

  /** k v for k in {-1, 0, 1}, written without a multiplication. */
  function Signed(k: int, v: int): int
  {
    if k == 0 then 0 else if k > 0 then v else -v
  }

  /** The Gaussian reading z(x, y) = y - x i of products: the x coordinate of z(a) z(b),
      x(a) y(b) + y(a) x(b). */
  function ProdX(a: Digit, b: Digit): int { Signed(X(a), Y(b)) + Signed(Y(a), X(b)) }

  /** The y coordinate of z(a) z(b), y(a) y(b) - x(a) x(b). */
  function ProdY(a: Digit, b: Digit): int { Signed(Y(a), Y(b)) - Signed(X(a), X(b)) }

  /** True of a table entry whose (carry, unit) satisfies 3 z(carry) + z(unit) = z(a) z(b). */
  predicate GaussianEntry(a: Digit, b: Digit, r: (Digit, Digit))
  {
    3 * X(r.0) + X(r.1) == ProdX(a, b) && 3 * Y(r.0) + Y(r.1) == ProdY(a, b)
  }

  /** Digit multiplication: rotation and scaling of vectors read as Gaussian integers
      y - x i, with 1 as the identity. Every entry but Dbt8 * Dbt1 follows that reading. */
  function Mul(a: Digit, b: Digit): (Digit, Digit)
  {
    match a
    case Dbt1 => (Dbt5, b)
    case Dbt2 => (match b
      case Dbt1 => (Dbt5, Dbt2)
      case Dbt2 => (Dbt3, Dbt7)
      case Dbt3 => (Dbt5, Dbt6)
      case Dbt4 => (Dbt1, Dbt9)
      case Dbt5 => (Dbt5, Dbt5)
      case Dbt6 => (Dbt9, Dbt1)
      case Dbt7 => (Dbt5, Dbt4)
      case Dbt8 => (Dbt7, Dbt3)
      case Dbt9 => (Dbt5, Dbt8))
    case Dbt3 => (Dbt5, Rotate3(b))
    case Dbt4 => (match b
      case Dbt1 => (Dbt5, Dbt4)
      case Dbt2 => (Dbt1, Dbt9)
      case Dbt3 => (Dbt5, Dbt2)
      case Dbt4 => (Dbt7, Dbt3)
      case Dbt5 => (Dbt5, Dbt5)
      case Dbt6 => (Dbt3, Dbt7)
      case Dbt7 => (Dbt5, Dbt8)
      case Dbt8 => (Dbt9, Dbt1)
      case Dbt9 => (Dbt5, Dbt6))
    case Dbt5 => (Dbt5, Dbt5)
    case Dbt6 => (match b
      case Dbt1 => (Dbt5, Dbt6)
      case Dbt2 => (Dbt9, Dbt1)
      case Dbt3 => (Dbt5, Dbt8)
      case Dbt4 => (Dbt3, Dbt7)
      case Dbt5 => (Dbt5, Dbt5)
      case Dbt6 => (Dbt7, Dbt3)
      case Dbt7 => (Dbt5, Dbt2)
      case Dbt8 => (Dbt1, Dbt9)
      case Dbt9 => (Dbt5, Dbt4))
    case Dbt7 => (Dbt5, Rotate7(b))
    case Dbt8 => (match b
      case Dbt1 => (Dbt1, Dbt8)
      case Dbt2 => (Dbt7, Dbt3)
      case Dbt3 => (Dbt5, Dbt4)
      case Dbt4 => (Dbt9, Dbt1)
      case Dbt5 => (Dbt5, Dbt5)
      case Dbt6 => (Dbt1, Dbt9)
      case Dbt7 => (Dbt5, Dbt6)
      case Dbt8 => (Dbt3, Dbt7)
      case Dbt9 => (Dbt5, Dbt2))
    case Dbt9 => (Dbt5, Neg(b))
  }

  /** Every entry of the multiplication table except Dbt8 * Dbt1 satisfies
      3 z(carry) + z(unit) = z(a) z(b). */
  lemma MulGaussian(a: Digit, b: Digit)
    requires (a, b) != (Dbt8, Dbt1)
    ensures GaussianEntry(a, b, Mul(a, b))
  {
    match a
    case Dbt1 => MulGaussian1(b);
    case Dbt2 => MulGaussian2(b);
    case Dbt3 => MulGaussian3(b);
    case Dbt4 => MulGaussian4(b);
    case Dbt5 => MulGaussian5(b);
    case Dbt6 => MulGaussian6(b);
    case Dbt7 => MulGaussian7(b);
    case Dbt8 => MulGaussian8(b);
    case Dbt9 => MulGaussian9(b);
  }

  // One row of the multiplication table each.

  lemma MulGaussian1(b: Digit)
    ensures GaussianEntry(Dbt1, b, Mul(Dbt1, b))
  {
  }

  lemma MulGaussian2(b: Digit)
    ensures GaussianEntry(Dbt2, b, Mul(Dbt2, b))
  {
  }

  lemma MulGaussian3(b: Digit)
    ensures GaussianEntry(Dbt3, b, Mul(Dbt3, b))
  {
  }

  lemma MulGaussian4(b: Digit)
    ensures GaussianEntry(Dbt4, b, Mul(Dbt4, b))
  {
  }

  lemma MulGaussian5(b: Digit)
    ensures GaussianEntry(Dbt5, b, Mul(Dbt5, b))
  {
  }

  lemma MulGaussian6(b: Digit)
    ensures GaussianEntry(Dbt6, b, Mul(Dbt6, b))
  {
  }

  lemma MulGaussian7(b: Digit)
    ensures GaussianEntry(Dbt7, b, Mul(Dbt7, b))
  {
  }

  lemma MulGaussian8(b: Digit)
    requires b != Dbt1
    ensures GaussianEntry(Dbt8, b, Mul(Dbt8, b))
  {
  }

  lemma MulGaussian9(b: Digit)
    ensures GaussianEntry(Dbt9, b, Mul(Dbt9, b))
  {
  }

  /** The one entry off the Gaussian reading: Dbt8 * Dbt1 carries a Dbt1 that Dbt1 * Dbt8
      does not, so the table is not symmetric. */
  lemma MulAnomaly()
    ensures Mul(Dbt8, Dbt1) == (Dbt1, Dbt8) && Mul(Dbt1, Dbt8) == (Dbt5, Dbt8)
    ensures !GaussianEntry(Dbt8, Dbt1, Mul(Dbt8, Dbt1))
    ensures Mul(Dbt8, Dbt1) != Mul(Dbt1, Dbt8)
  {
  }

  /** Away from the anomalous entry, the Gaussian reading alone fixes the table. */
  lemma MulUnique(a: Digit, b: Digit, carry: Digit, unit: Digit)
    requires (a, b) != (Dbt8, Dbt1)
    requires GaussianEntry(a, b, (carry, unit))
    ensures Mul(a, b) == (carry, unit)
  {
    MulGaussian(a, b);
    SplitUnique(Mul(a, b).0, Mul(a, b).1, carry, unit);
  }

  /** Multiplication by the axis digits: 1 is the identity, 3 and 7 rotate, 9 negates, and
      Dbt5 absorbs on both sides. */
  lemma MulByAxisDigits(b: Digit)
    ensures Mul(Dbt1, b) == (Dbt5, b)
    ensures Mul(Dbt3, b) == (Dbt5, Rotate3(b))
    ensures Mul(Dbt7, b) == (Dbt5, Rotate7(b))
    ensures Mul(Dbt9, b) == (Dbt5, Neg(b))
    ensures Mul(Dbt5, b) == (Dbt5, Dbt5) && Mul(b, Dbt5) == (Dbt5, Dbt5)
  {
  }

  /** The documented products &1 * &1 = &1, &1 * &9 = &9, &9 * &9 = &1, &3 * &3 = &9, and the
      table's &3 * &7 = &1 (the library's overview documents &5 for that product). */
  lemma MulDocumentedProducts()
    ensures Mul(Dbt1, Dbt1) == (Dbt5, Dbt1) && Mul(Dbt1, Dbt9) == (Dbt5, Dbt9)
    ensures Mul(Dbt9, Dbt9) == (Dbt5, Dbt1) && Mul(Dbt3, Dbt3) == (Dbt5, Dbt9)
    ensures Mul(Dbt3, Dbt4) == (Dbt5, Dbt2)
    ensures Mul(Dbt3, Dbt7) == (Dbt5, Dbt1) && Mul(Dbt3, Dbt7) != (Dbt5, Dbt5)
  {
  }

  /** The products of 1/5/9 digits are 1/5/9 digits with a Dbt5 carry. */
  lemma MulLinearClosed(a: Digit, b: Digit)
    requires IsLinearDigit(a) && IsLinearDigit(b)
    ensures Mul(a, b).0 == Dbt5 && IsLinearDigit(Mul(a, b).1)
  {
  }

  /** Sums of 1/5/9 digits are 1/5/9 digits, carry included. */
  lemma AddLinearClosed(a: Digit, b: Digit)
    requires IsLinearDigit(a) && IsLinearDigit(b)
    ensures IsLinearDigit(Add(a, b).0) && IsLinearDigit(Add(a, b).1)
  {
  }

  // ---------------------------------------------------------------------------------------
  // Properties of the unary maps
  // ---------------------------------------------------------------------------------------

  /** Negation is an involution whose only fixed point is Dbt5. */
  lemma NegInvolution(d: Digit)
    ensures Neg(Neg(d)) == d
    ensures Neg(d) == d <==> d == Dbt5
  {
    VecInjective(Neg(Neg(d)), d);
    if Neg(d) == d { VecInjective(d, Dbt5); }
  }

  /** rotate3 and rotate7 are mutual inverses fixing Dbt5; rotate3 twice is negation and four
      times the identity. */
  lemma RotationLaws(d: Digit)
    ensures Rotate3(Rotate7(d)) == d && Rotate7(Rotate3(d)) == d
    ensures Rotate3(Dbt5) == Dbt5 && Rotate7(Dbt5) == Dbt5
    ensures Rotate3(Rotate3(d)) == Neg(d)
    ensures Rotate3(Rotate3(Rotate3(Rotate3(d)))) == d
  {
    VecInjective(Rotate3(Rotate7(d)), d);
    VecInjective(Rotate7(Rotate3(d)), d);
    VecInjective(Rotate3(Rotate3(d)), Neg(d));
    NegInvolution(d);
    VecInjective(Rotate3(Rotate3(Neg(d))), Neg(Neg(d)));
  }

  /** flip_left_right is an involution fixing exactly Dbt1, Dbt5 and Dbt9. */
  lemma FlipLeftRightLaws(d: Digit)
    ensures FlipLeftRight(FlipLeftRight(d)) == d
    ensures FlipLeftRight(d) == d <==> d in {Dbt1, Dbt5, Dbt9}
  {
    VecInjective(FlipLeftRight(FlipLeftRight(d)), d);
    if FlipLeftRight(d) == d { assert X(d) == 0; }
  }

  /** flip_xy is an involution fixing exactly Dbt2, Dbt5 and Dbt8. */
  lemma FlipXyLaws(d: Digit)
    ensures FlipXy(FlipXy(d)) == d
    ensures FlipXy(d) == d <==> d in {Dbt2, Dbt5, Dbt8}
  {
    VecInjective(FlipXy(FlipXy(d)), d);
    if FlipXy(d) == d { assert X(d) == Y(d); }
  }

  /** flip_front_back is not an involution: Dbt3 and Dbt7 both go to Dbt7. */
  lemma FlipFrontBackNotInvolution()
    ensures FlipFrontBack(Dbt3) == Dbt7 && FlipFrontBack(Dbt7) == Dbt7
    ensures FlipFrontBack(FlipFrontBack(Dbt3)) != Dbt3
  {
  }

  /** split_yx gives a 1/5/9 digit and a 3/5/7 digit whose vectors add up to the digit's,
      and whose digit sum is the digit itself with no carry. */
  lemma SplitYxLaws(d: Digit)
    ensures IsLinearDigit(SplitYx(d).0) && IsCrossDigit(SplitYx(d).1)
    ensures X(SplitYx(d).0) + X(SplitYx(d).1) == X(d)
    ensures Y(SplitYx(d).0) + Y(SplitYx(d).1) == Y(d)
    ensures Add(SplitYx(d).0, SplitYx(d).1) == (Dbt5, d)
  {
    var (p, q) := SplitYx(d);
    AddUnique(p, q, Dbt5, d);
  }
}
