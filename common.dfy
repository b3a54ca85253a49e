/**
 * Shared vocabulary of the model: optional values, results carrying the
 * exceptions the application throws, identifiers, instants and the
 * string test `string.IsNullOrWhiteSpace` that every validator uses.
 */
module Common {

  /** A value that may be absent: the model of a C# nullable reference or `T?`. */
  datatype Option<+T> = None | Some(value: T) {
    /** `x ?? d` */
    function GetOr(default: T): T {
      match this
      case Some(v) => v
      case None => default
    }
  }

  /**
   * The exceptions of the core, kept distinguishable: validation errors
   * (`ArgumentException`, `ArgumentOutOfRangeException`, `ArgumentNullException`),
   * the ownership / not-found error (`InvalidOperationException`) and the
   * storage error raised when a commit is refused (`DbUpdateException`).
   */
  datatype Error =
    | ArgumentException(paramName: string)
    | ArgumentOutOfRangeException(paramName: string)
    | ArgumentNullException(paramName: string)
    | InvalidOperationException
    | DbUpdateException

  /** A call that returns a value or throws. */
  datatype Result<+T> = Success(value: T) | Failure(error: Error)

  /** A call that returns nothing or throws. */
  datatype Outcome = Pass | Fail(error: Error)

  /** Whether a call that returns a value threw, and what. */
  function OutcomeOf<T>(r: Result<T>): Outcome {
    if r.Success? then Pass else Fail(r.error)
  }

  /** Primary keys (`Guid`); their generation is an input of the model. */
  type Guid = nat

  /** A point in time (`DateTimeOffset`), as ticks. */
  type Instant = int

  /** `default(DateTimeOffset)`, the value of `CreatedAt` before the commit hook stamps it. */
  const DefaultInstant: Instant := 0

  /**
   * User identifiers. The source mixes `Guid` and `string` for them; the model
   * uses one type, strings, with blankness as a predicate.
   */
  type UserId = string

  /** `char.IsWhiteSpace`: the Unicode space separators, line and paragraph separators, and U+0009..U+000D, U+0085. */
  predicate IsWhiteSpace(c: char) {
    var n := c as int;
    (9 <= n <= 13) || n == 0x20 || n == 0x85 || n == 0xA0 || n == 0x1680
    || (0x2000 <= n <= 0x200A) || n == 0x2028 || n == 0x2029
    || n == 0x202F || n == 0x205F || n == 0x3000
  }

  /** `string.IsNullOrWhiteSpace` on a non-null string: empty or whitespace only. */
  predicate IsBlank(s: string) {
    forall i :: 0 <= i < |s| ==> IsWhiteSpace(s[i])
  }

  /** `string.IsNullOrWhiteSpace` on a nullable string. */
  predicate IsBlankOrNull(s: Option<string>) {
    s.None? || IsBlank(s.value)
  }
}
