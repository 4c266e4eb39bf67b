/** Failure-compatible wrappers and the fatal conditions of the benchmark harness. */
module Errors {

  datatype Option<+T> = None | Some(value: T)

  /**
   * The panics of the harness that the model tracks. Construction errors of
   * the SlimTrie and an out-of-range position reported by the trie are
   * outside the model.
   */
  datatype Error =
    | UnknownWorkload(name: string)            // newWorkLoad: neither "zipf" nor "scan"
    | EmptyKeySpace                            // NewGetSetting: rand.Int63n(0) panics
    | DivisionByZero                           // slimtrieMem: integer division by a zero key count
    | IndexOutOfRange(index: int, length: int) // a timed loop reads keys[n] or Values[n] of n entries

  datatype Result<+T> = Success(value: T) | Failure(error: Error)
}
