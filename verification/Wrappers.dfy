// Results of operations that Go reports through an `error` value.
module Wrappers {

  datatype Option<+T> = None | Some(value: T)

  datatype Error =
    | OffsetOutOfRange(offset: nat) // api.ErrOffsetOutOfRange
    | EndOfFile                     // io.EOF
    | UnexpectedEndOfFile           // io.ErrUnexpectedEOF
    | InvalidRecordSize             // store.Read on a zero length prefix
    | MalformedMessage              // proto.Unmarshal
    | DirectoryMissing              // os.ReadDir on a removed directory

  datatype Result<+T> = Ok(value: T) | Err(error: Error) {
    predicate IsFailure() {
      Err?
    }

    function PropagateFailure<U>(): Result<U>
      requires Err?
    {
      Err(error)
    }

    function Extract(): T
      requires Ok?
    {
      value
    }
  }

  /** Concatenation, regrouped. */
  lemma {:induction false} Regroup<T>(a: seq<T>, b: seq<T>, c: seq<T>)
    ensures a + (b + c) == (a + b) + c
    ensures [] + c == c && a + [] == a
  {
  }
}
