/** Optional values and error-carrying results, used where the source has
    nullable references and argument exceptions. */
module Wrappers {

  /** A value that may be absent: `None` stands for a null reference. */
  datatype Option<+T> = None | Some(value: T)

  /** The outcome of an operation that may throw: `Failure` stands for the exception. */
  datatype Result<+R, +E> = Success(value: R) | Failure(error: E)
}

/** Towel's three-way comparison result and the default comparison of numbers. */
module Compare {

  /** The result of comparing a first value with a second one. */
  datatype CompareResult = Less | Equal | Greater

  /** Position of a comparison result in the order Less, Equal, Greater. */
  function Rank(c: CompareResult): (r: nat)
    ensures r <= 2
    ensures r == 0 <==> c == Less
    ensures r == 2 <==> c == Greater
  {
    match c
    case Less => 0
    case Equal => 1
    case Greater => 2
  }

  /** The default comparison of two numbers: how `x` stands relative to `y`. */
  function Comparison(x: int, y: int): (c: CompareResult)
    ensures c == Less <==> x < y
    ensures c == Equal <==> x == y
    ensures c == Greater <==> y < x
  {
    if x < y then Less else if y < x then Greater else Equal
  }
}
