/** Failure-compatible wrappers: `Option` for the values the source represents
    with `null`, and `Result` for the operations that can throw. */
module Wrappers {

  /** A value that may be absent (a C# `null` reference). */
  datatype Option<+T> = None | Some(value: T) {

    /** The wrapped value, or `default` when absent (C# `??`). */
    function GetOr(default: T): T {
      match this
      case Some(v) => v
      case None => default
    }
  }

  /** The .NET exceptions the modelled code can raise. */
  datatype Error =
    | Exception(message: string)
    | FormatException(message: string)
    | ArgumentException(message: string)
    | ArgumentNullException(parameter: string)
    | ArgumentOutOfRangeException(parameter: string)
    | IndexOutOfRangeException
    | InvalidCastException
    | NullReferenceException
    | NotImplementedException
    | NotSupportedException(message: string)
    | OverflowException

  /** Either a computed value or the exception that aborted the computation. */
  datatype Result<+T> = Ok(value: T) | Err(error: Error) {

    predicate IsFailure() {
      Err?
    }

    function PropagateFailure<U>(): Result<U>
      requires Err?
    {
      Err(error)
    }

    function Extract(): T
      requires Ok?
    {
      value
    }
  }

  /** Applies `f` to each element in order; the first failure aborts the
      whole computation (a C# `foreach` whose body can throw). */
  function MapAll<A, B>(xs: seq<A>, f: A --> Result<B>): (r: Result<seq<B>>)
    requires forall k :: 0 <= k < |xs| ==> f.requires(xs[k])
    ensures r.Ok? <==> forall k :: 0 <= k < |xs| ==> f(xs[k]).Ok?
    ensures r.Ok? ==> |r.value| == |xs| && forall k :: 0 <= k < |xs| ==> f(xs[k]) == Ok(r.value[k])
    ensures r.Err? ==> exists k :: 0 <= k < |xs| && f(xs[k]) == Err(r.error) && forall j :: 0 <= j < k ==> f(xs[j]).Ok?
  {
    if |xs| == 0 then Ok([])
    else
      var h :- f(xs[0]);
      var rest := MapAll(xs[1..], f);
      assert forall k :: 1 <= k < |xs| ==> xs[k] == xs[1..][k - 1];
      if rest.Err? then
        var k :| 0 <= k < |xs| - 1 && f(xs[1..][k]) == Err(rest.error) && forall j :: 0 <= j < k ==> f(xs[1..][j]).Ok?;
        assert f(xs[k + 1]) == Err(rest.error);
        Err(rest.error)
      else
        Ok([h] + rest.value)
  }
}
