/** Optional values, used for the parts of the model that can fail. */
module Wrappers {

  datatype Option<+T> = None | Some(value: T)

  /** Puts `x` in front of a successful sequence and passes a failure through. */
  function Cons<T>(x: T, rest: Option<seq<T>>): Option<seq<T>>
  {
    match rest
    case None => None
    case Some(xs) => Some([x] + xs)
  }
}
