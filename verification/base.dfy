/** Values shared by every part of the evaluation engine. */
module Base {

  /** One 8-bit colour channel, as PIL delivers it after convert('RGB'). */
  newtype byte = x: int | 0 <= x < 256

  datatype Option<T> = None | Some(value: T)

  datatype Result<T, E> = Success(value: T) | Failure(error: E)

  /** A PSNR value as the program holds it: `Inf` is Python's float('inf'),
      returned for an exact match; any other value is a finite float, which
      this model treats as an exact real. */
  datatype Score = Inf | Finite(value: real)

  /** `a` sorts at or above `b` under SQLite's ORDER BY psnr DESC:
      +inf is above every finite value. */
  predicate AtLeast(a: Score, b: Score)
  {
    match (a, b)
    case (Inf, _) => true
    case (Finite(_), Inf) => false
    case (Finite(x), Finite(y)) => x >= y
  }

  /** Python's `+` on two scores: +inf absorbs every finite value. */
  function Plus(a: Score, b: Score): Score
  {
    if a.Inf? || b.Inf? then Inf else Finite(a.value + b.value)
  }
}
