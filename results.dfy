/** Option and Result values for the pipeline's possible failures. */
module Results {

  datatype Option<+T> = None | Some(value: T)

  /** Either the value a step produced or the error that stopped it. */
  datatype Result<+T, +E> = Success(value: T) | Failure(error: E)

  /** The items of `x` followed by those of `y`; the first failure wins. */
  function Chain<T, E>(x: Result<seq<T>, E>, y: Result<seq<T>, E>): Result<seq<T>, E>
  {
    match x
    case Failure(e) => Failure(e)
    case Success(p) =>
      match y
      case Failure(e) => Failure(e)
      case Success(q) => Success(p + q)
  }
}
