/** Failure values shared by every decoder: the error kinds and the two usual carriers. */
module Wrappers {

  /** The error kinds the decoders can report; offsets and context strings are not modelled. */
  datatype ErrorKind =
    | Truncated
    | Malformed
    | OutOfRange
    | Unsupported
    | RecursionLimit
    | UnknownOpcode
    | InvalidPrefixTarget

  datatype Option<+T> = None | Some(value: T)

  datatype Result<+T> = Ok(value: T) | Err(error: ErrorKind) {
    predicate IsFailure() {
      Err?
    }

    function PropagateFailure<U>(): Result<U>
      requires Err?
    {
      Err(error)
    }

    function Extract(): T
      requires Ok?
    {
      value
    }
  }

  // What a loop has gathered so far, followed by what its specification goes on to give.

  function Onto<T>(done: seq<T>, r: Result<seq<T>>): Result<seq<T>> {
    match r
    case Ok(v) => Ok(done + v)
    case Err(e) => Err(e)
  }

  lemma OntoNone<T>(r: Result<seq<T>>)
    ensures Onto([], r) == r
  {
    if r.Ok? {
      assert [] + r.value == r.value;
    }
  }

  lemma OntoOne<T>(done: seq<T>, x: T, r: Result<seq<T>>)
    ensures Onto(done + [x], r) == Onto(done, if r.Ok? then Ok([x] + r.value) else Err(r.error))
  {
    if r.Ok? {
      assert done + [x] + r.value == done + ([x] + r.value);
    }
  }

  /** The same where something is left over besides the list. */
  function Prepend<T, R>(done: seq<T>, r: Result<(seq<T>, R)>): Result<(seq<T>, R)> {
    match r
    case Ok(v) => Ok((done + v.0, v.1))
    case Err(e) => Err(e)
  }

  lemma PrependNone<T, R>(r: Result<(seq<T>, R)>)
    ensures Prepend([], r) == r
  {
    if r.Ok? {
      assert [] + r.value.0 == r.value.0;
    }
  }

  lemma PrependOne<T, R>(done: seq<T>, x: T, r: Result<(seq<T>, R)>)
    ensures Prepend(done + [x], r) == Prepend(done, if r.Ok? then Ok(([x] + r.value.0, r.value.1)) else Err(r.error))
  {
    if r.Ok? {
      assert done + [x] + r.value.0 == done + ([x] + r.value.0);
    }
  }

  lemma PrependDone<T, R>(done: seq<T>, rest: R)
    ensures Prepend(done, Ok(([], rest))) == Ok((done, rest))
  {
    assert done + [] == done;
  }
}
