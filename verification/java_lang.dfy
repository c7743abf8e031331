/** The few pieces of the Java language the version library relies on:
    32-bit `int` arithmetic, nullable references, and the exceptions the
    library can raise, gathered into a failure-compatible `Result`. */
module JavaLang {

  /** `Integer.MIN_VALUE` and `Integer.MAX_VALUE`. */
  const INT_MIN: int := -0x8000_0000
  const INT_MAX: int := 0x7FFF_FFFF

  /** The values a Java `int` can hold. */
  type Int32 = x: int | INT_MIN <= x <= INT_MAX

  /** The non-negative Java `int` values. */
  type NonNegInt32 = x: int | 0 <= x <= INT_MAX

  /** Two's-complement wrap-around of Java `int` arithmetic: the unique
      `int` congruent to `x` modulo 2^32. */
  function Wrap32(x: int): (r: Int32)
    ensures (r - x) % 0x1_0000_0000 == 0
    ensures INT_MIN <= x <= INT_MAX ==> r == x
  {
    (x - INT_MIN) % 0x1_0000_0000 + INT_MIN
  }

  /** Just past `Integer.MAX_VALUE`, Java's arithmetic lands 2^32 lower. */
  lemma Wrap32Overflow(x: int)
    requires INT_MAX < x <= INT_MAX - INT_MIN
    ensures Wrap32(x) == x - 0x1_0000_0000
  {
    var y := x - INT_MIN - 0x1_0000_0000;
    assert 0 <= y < 0x1_0000_0000;
    assert x - INT_MIN == y + 0x1_0000_0000;
  }

  /** One full turn past `Integer.MAX_VALUE`, Java's arithmetic lands 2^32
      lower again, now on a non-negative value. */
  lemma Wrap32SecondTurn(x: int)
    requires 0x1_0000_0000 <= x <= 0x1_0000_0000 + INT_MAX
    ensures Wrap32(x) == x - 0x1_0000_0000
  {
    var y := x - INT_MIN - 0x1_0000_0000;
    assert 0 <= y < 0x1_0000_0000;
    assert x - INT_MIN == y + 0x1_0000_0000;
  }

  /** Below `Integer.MIN_VALUE`, down to -2^32, Java's arithmetic lands
      2^32 higher, on a non-negative value. */
  lemma Wrap32Underflow(x: int)
    requires -0x1_0000_0000 <= x < INT_MIN
    ensures Wrap32(x) == x + 0x1_0000_0000
  {
    var y := x - INT_MIN + 0x1_0000_0000;
    assert 0 <= y < 0x1_0000_0000;
    assert x - INT_MIN == y - 0x1_0000_0000;
  }

  /** A Java reference that may be `null`. */
  datatype Nullable<+T> = Null | Ref(get: T)

  /** What an `IllegalArgumentException` raised by the library reports
      (its message, reduced to its meaning). */
  datatype Reason =
    | NullOrEmpty        // "The given version must not be null or be empty."
    | InvalidFormat      // "Invalid version format: ..."
    | OutOfRange         // a component outside [MIN_VALUE, MAX_VALUE]
    | RevisionShape      // a server revision that is not three `_`-separated parts
    | NegativeVersion    // "Version number cannot be negative."

  /** The exceptions the modelled code can raise. */
  datatype Exception =
    | NumberFormat
    | IllegalArgument(reason: Reason, cause: Nullable<Exception>)
    | ArrayIndexOutOfBounds
    | StringIndexOutOfBounds
  {
    /** An `IllegalArgumentException` whose cause is a `NumberFormatException`. */
    predicate WrapsNumberFormat() {
      IllegalArgument? && cause == Ref(NumberFormat)
    }
  }

  /** Either the value a Java call returns or the exception it throws. */
  datatype Result<+T> = Ok(value: T) | Err(error: Exception) {
    predicate IsFailure() {
      Err?
    }

    function PropagateFailure<U>(): Result<U>
      requires Err?
    {
      Err(error)
    }

    function Extract(): T
      requires Ok?
    {
      value
    }
  }
}
