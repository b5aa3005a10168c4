/** Failure-compatible wrappers and the injected source of randomness shared by the generator and the selector. */
module Common {

  /** A value that may be absent: the model of a JavaScript cell or array slot holding `undefined`. */
  datatype Option<T> = None | Some(value: T)

  /** The outcome of an entry point that throws on malformed input. */
  datatype Result<T> = Success(value: T) | Failure(message: string)

  /**
   * The source draws `Math.floor(Math.random() * length)`. The model receives the random
   * stream as a function: `rand(k)` is the k-th draw, an arbitrary natural number, and a pick
   * from a list of length n uses `rand(k) % n`. Every property proved below holds for every
   * stream, so it holds for any seed of any generator.
   */
  type RandomStream = nat -> nat

  /** getRandomElement: an element of a non-empty list chosen by one draw. */
  function RandomElement<T>(xs: seq<T>, draw: nat): (x: T)
    requires |xs| > 0
    ensures x in xs
  {
    xs[draw % |xs|]
  }
}
