/** Failure-carrying datatypes shared by every module of the model.

    The C++ code reports failure by throwing; each thrown exception becomes a
    `Failure(e)` of `Result`, with `e` naming the exception class, so that a
    caller can tell, say, a lookup error from a parse error exactly as a
    `catch` clause of the source would. */
module Wrappers {

  datatype Option<+T> = None | Some(value: T)

  /** The C++ exception classes (and undefined behaviour) the core can raise. */
  datatype Error =
    | InvalidArgument   // std::invalid_argument: name lookups, stoi without digits, empty palette
    | OutOfRange        // std::out_of_range: unordered_map::at, string::substr past the end, stoi overflow
    | LogicError        // std::logic_error: json::Node accessors and the json::Builder
    | ParsingError      // json::ParsingError
    | Undefined         // undefined behaviour in the source (back() of an empty string, ...)
    | Diverges          // the source recurses without end

  datatype Result<+R> = Success(value: R) | Failure(error: Error) {

    predicate IsFailure() {
      Failure?
    }

    function PropagateFailure<U>(): Result<U>
      requires Failure?
    {
      Failure(error)
    }

    function Extract(): R
      requires Success?
    {
      value
    }
  }

  /** `at` of the standard associative containers: `out_of_range` for a
      missing key. */
  function MapAt<K, V>(m: map<K, V>, key: K): (r: Result<V>)
    ensures r.Failure? <==> key !in m
    ensures r.Failure? ==> r.error == OutOfRange
    ensures r.Success? ==> r.value == m[key]
  {
    if key in m then Success(m[key]) else Failure(OutOfRange)
  }
}
