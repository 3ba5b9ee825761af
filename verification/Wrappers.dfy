/** Failure-compatible result types, and results that grow in front. */
module Wrappers {
  datatype Option<+T> = None | Some(value: T)

  datatype Result<+T, +E> = Ok(value: T) | Err(error: E) {
    predicate IsFailure() {
      Err?
    }

    function PropagateFailure<U>(): Result<U, E>
      requires Err?
    {
      Err(error)
    }

    function Extract(): T
      requires Ok?
    {
      value
    }
  }

  /** Output so far, in front of what is still to come. */
  function Prefixed<T>(out: seq<T>, r: Option<seq<T>>): Option<seq<T>> {
    match r
    case Some(rest) => Some(out + rest)
    case None => None
  }

  lemma PrefixedTwice<T>(a: seq<T>, b: seq<T>, r: Option<seq<T>>)
    ensures Prefixed(a, Prefixed(b, r)) == Prefixed(a + b, r)
    ensures Prefixed([], r) == r && Prefixed(a, Some([])) == Some(a) && Prefixed(a, None) == None
  {
    if r.Some? {
      Concat3(a, b, r.value);
      assert [] + r.value == r.value;
    }
    assert a + [] == a;
  }

  function Prepended<T, E>(out: seq<T>, r: Result<seq<T>, E>): Result<seq<T>, E> {
    match r
    case Ok(rest) => Ok(out + rest)
    case Err(e) => Err(e)
  }

  lemma PrependedTwice<T, E>(a: seq<T>, b: seq<T>, r: Result<seq<T>, E>)
    ensures Prepended(a, Prepended(b, r)) == Prepended(a + b, r)
    ensures Prepended([], r) == r && Prepended<T, E>(a, Ok([])) == Ok(a)
    ensures r.Err? ==> Prepended(a, r) == r
  {
    if r.Ok? {
      Concat3(a, b, r.value);
      assert [] + r.value == r.value;
    }
    assert a + [] == a;
  }

  lemma Concat3<T>(a: seq<T>, b: seq<T>, c: seq<T>)
    ensures a + b + c == a + (b + c)
  {
  }
}
