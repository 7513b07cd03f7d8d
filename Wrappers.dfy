/** Exceptions of the .NET original, as values. */
module Wrappers {

  /** The exception kinds the decode engine and the record codecs raise. */
  datatype Error =
    | ArgumentNull          // ArgumentNullException
    | ArgumentOutOfRange    // ArgumentOutOfRangeException, also a negative stream position
    | Argument              // ArgumentException from Array.Copy past the end of an array
    | IndexOutOfRange       // IndexOutOfRangeException from an array read past its end
    | EndOfStream           // EndOfStreamException, or a read helper that ran out of input
    | Format(message: string)  // FormatException
    | InvalidOperation      // InvalidOperationException
    | NotSupported          // NotSupportedException
    | NotImplemented        // NotImplementedException
    | DuplicateKey          // ArgumentException from Dictionary.Add with a key already present
    | FuelExhausted         // a linked walk still going after the number of links it was allowed

  datatype Result<+T> = Ok(value: T) | Err(error: Error) {
    predicate IsFailure() { Err? }

    function PropagateFailure<U>(): Result<U>
      requires Err?
    {
      Err(error)
    }

    function Extract(): T
      requires Ok?
    {
      value
    }
  }

  datatype Option<+T> = None | Some(value: T)

  /** The items read before the current one in front of the outcome of reading the rest. */
  function Prefixed<T>(done: seq<T>, rest: Result<seq<T>>): (r: Result<seq<T>>)
    ensures r.Ok? <==> rest.Ok?
  {
    match rest
    case Ok(es) => Ok(done + es)
    case Err(err) => Err(err)
  }

  lemma PrefixedNone<T>(rest: Result<seq<T>>)
    ensures Prefixed([], rest) == rest
  {
    if rest.Ok? {
      assert [] + rest.value == rest.value;
    }
  }

  /** An item read moves from the rest to the items already read. */
  lemma PrefixedAppend<T>(done: seq<T>, e: T, rest: Result<seq<T>>)
    ensures Prefixed(done, Prefixed([e], rest)) == Prefixed(done + [e], rest)
  {
    if rest.Ok? {
      assert done + ([e] + rest.value) == done + [e] + rest.value;
    }
  }
}
