/** Optional values and results, and the kinds of failure RelayX tells apart. */
module Wrappers {
  datatype Option<+T> = None | Some(value: T)

  /** The outcome of an operation that may raise. */
  datatype Result<+T> = Ok(value: T) | Err(error: ErrorKind) {
    predicate IsFailure() {
      Err?
    }

    function PropagateFailure<U>(): Result<U>
      requires Err?
    {
      Err(error)
    }

    function Extract(): T
      requires Ok?
    {
      value
    }
  }

  /** What a loop that appends has read so far, and the outcome of reading what is left. */
  ghost function Appended<T>(front: seq<T>, rest: Result<seq<T>>): Result<seq<T>> {
    match rest case Err(e) => Err(e) case Ok(more) => Ok(front + more)
  }

  lemma AppendedOne<T>(front: seq<T>, x: T, rest: Result<seq<T>>)
    ensures rest.Ok? ==> Appended(front, Ok([x] + rest.value)) == Appended(front + [x], rest)
  {
    if rest.Ok? {
      assert front + ([x] + rest.value) == (front + [x]) + rest.value;
    }
  }

  lemma AppendedNothing<T>(rest: Result<seq<T>>)
    ensures Appended([], rest) == rest
  {
    if rest.Ok? {
      assert [] + rest.value == rest.value;
    }
  }

  /** Exception classes; message texts are not modelled. */
  datatype ErrorKind =
    | ProtocolError
    | CryptoError
    | SerializationError
    | CompressionError
    | ReplayDetected
    | PacketExpired
    | PacketFromFuture
    | ReplayCacheFull
    | RequestTooLarge
    | ResponseTooLarge
    | IncompleteRead
    | PythonError        // ValueError, struct.error, UnicodeEncodeError, ...
    | CarrierFailure     // the HTTP exchange carrying a packet failed
}
