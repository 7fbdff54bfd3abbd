/** The typed-value side of the expression node: SQL type tags, runtime values,
    the session mode flags, and Java's fixed-width integer arithmetic. */
module Values {

  const INT_MIN: int := -0x8000_0000
  const INT_MAX: int := 0x7fff_ffff
  const LONG_MIN: int := -0x8000_0000_0000_0000
  const LONG_MAX: int := 0x7fff_ffff_ffff_ffff

  /** A Java `int`. */
  type Int32 = x: int | INT_MIN <= x <= INT_MAX
  /** A Java `long`. */
  type Int64 = x: int | LONG_MIN <= x <= LONG_MAX

  /** The value-type codes the node inspects; every other code is `Other`. */
  datatype TypeTag =
    | Null | Unknown | Int | Decimal | Float | Double | String
    | Date | Time | Timestamp
    | Other(code: int)

  predicate IsTemporal(t: TypeTag) {
    t == Date || t == Timestamp || t == Time
  }

  /** DATE or TIMESTAMP: the left operands a date subtraction accepts. */
  predicate IsDateLike(t: TypeTag) {
    t == Date || t == Timestamp
  }

  /** DECIMAL, FLOAT or DOUBLE: numbers added to dates as fractions of a day. */
  predicate IsFractional(t: TypeTag) {
    t == Decimal || t == Float || t == Double
  }

  /** Runtime values. Only the NULL singleton, integer literals and strings are
      built by the node itself; every other value is opaque. */
  datatype Value =
    | NullValue
    | IntValue(i: Int32)
    | StringValue(s: string)
    | OtherValue(tag: TypeTag, id: int)

  function TypeOfValue(v: Value): TypeTag {
    match v
    case NullValue => Null
    case IntValue(_) => Int
    case StringValue(_) => String
    case OtherValue(t, _) => t
  }

  /** The two compatibility-mode flags the node reads. */
  datatype Mode = Mode(nullConcatIsNull: bool, allowPlusForStringConcat: bool)

  /** Equal modulo 2^32: indistinguishable in Java `int` arithmetic. */
  predicate Congruent(x: int, y: int) {
    (x - y) % 0x1_0000_0000 == 0
  }

  /** Two's-complement wrap-around of Java `int` arithmetic. */
  function WrapInt(x: int): (r: Int32)
    ensures INT_MIN <= x <= INT_MAX ==> r == x
    ensures Congruent(r, x)
  {
    (x - INT_MIN) % 0x1_0000_0000 + INT_MIN
  }

  /** Two's-complement wrap-around of Java `long` arithmetic. */
  function WrapLong(x: int): (r: Int64)
    ensures LONG_MIN <= x <= LONG_MAX ==> r == x
    ensures (r - x) % 0x1_0000_0000_0000_0000 == 0
  {
    (x - LONG_MIN) % 0x1_0000_0000_0000_0000 + LONG_MIN
  }

  /** `MathUtils.convertLongToInt`: a long narrowed to an int by saturation. */
  function ClampToInt(x: Int64): (r: Int32)
    ensures INT_MIN <= x <= INT_MAX ==> r == x
    ensures x > INT_MAX ==> r == INT_MAX
    ensures x < INT_MIN ==> r == INT_MIN
  {
    if x <= INT_MIN then INT_MIN
    else if x >= INT_MAX then INT_MAX
    else x
  }
}
