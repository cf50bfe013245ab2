/** The error record every failing helper returns instead of throwing. */
module Factories {
  import opened Js

  /** A `UIError`: a message for the user and an optional diagnostic trace. */
  datatype UIError = UIError(message: string, trace: Option<string>)

  /** What a helper returns: its value, or the error record. This stands for
      the caller telling the two apart with `instanceof` and `typeof`. */
  datatype Result<+T> = Ok(value: T) | Err(error: UIError)

  /** `createUIError(message, trace?)`; an omitted trace is undefined. */
  function CreateUIError(message: string, trace: Option<string> := None): (e: UIError)
    ensures e.message == message
    ensures e.trace == trace
  {
    UIError(message, trace)
  }

  /** The record is made of its two arguments and nothing else: equal records
      come exactly from equal arguments. */
  lemma CreateUIErrorDeterminedByArguments(m1: string, t1: Option<string>, m2: string, t2: Option<string>)
    ensures CreateUIError(m1, t1) == CreateUIError(m2, t2) <==> m1 == m2 && t1 == t2
  {
  }

  /** Leaving the trace out leaves it undefined. */
  lemma CreateUIErrorOmittedTrace(m: string)
    ensures CreateUIError(m) == UIError(m, None)
  {
  }
}
