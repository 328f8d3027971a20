/** Optional values and results that either hold a value or carry what was thrown. */
module Wrappers {

  datatype Option<+T> = None | Some(value: T)

  datatype Result<+T, +E> = Success(value: T) | Failure(error: E) {

    predicate IsFailure() {
      Failure?
    }

    function PropagateFailure<U>(): Result<U, E>
      requires Failure?
    {
      Failure(error)
    }

    function Extract(): T
      requires Success?
    {
      value
    }
  }

  /** Concatenation is associative. */
  lemma AppendAssoc<T>(a: seq<T>, b: seq<T>, c: seq<T>)
    ensures a + (b + c) == (a + b) + c
  {
  }

  /** Moving the head of `s` onto the end of `a` leaves `a + s` as it was. */
  lemma AppendHead<T>(a: seq<T>, s: seq<T>)
    requires s != []
    ensures a + [s[0]] + s[1..] == a + s
  {
    assert s == [s[0]] + s[1..];
  }
}

/** The values the JavaScript source throws. */
module Exceptions {

  datatype ErrorKind = Error | TypeError

  datatype Thrown =
    /** `throw 'message'`: a bare string. */
    | Text(message: string)
    /** `throw new Error('message')` or `throw new TypeError('message')`. */
    | ErrorObject(kind: ErrorKind, message: string)
    /** The TypeError the engine raises for `push` on `null` or `undefined`. */
    | NullReceiver
}
