/** Failure-carrying results shared by every module of the model. */
module Wrappers {

  datatype Option<+T> = None | Some(value: T)

  /** The .NET exceptions that the modelled code lets escape to its caller. */
  datatype Exception =
    | JsonException              // System.Text.Json: the text is not a JSON list of strings
    | InvalidOperationException  // Microsoft.Data.Sqlite: a bound parameter value is null
    | ArgumentNullException      // Encoding.UTF8.GetBytes(null)
    | FormatException            // DateTime.Parse: the text is not a date

  datatype Result<+T> = Success(value: T) | Failure(error: Exception)

  /** The result of an operation that returns nothing but may throw. */
  datatype Outcome = Pass | Fail(error: Exception)

  /** Applies `f` to each element in order and collects the values; the
      first failure is the result. */
  function MapAll<A, B>(xs: seq<A>, f: A -> Result<B>): (r: Result<seq<B>>)
    ensures r.Success? <==> forall i | 0 <= i < |xs| :: f(xs[i]).Success?
    ensures r.Success? ==> |r.value| == |xs|
    ensures r.Success? ==> forall i | 0 <= i < |xs| :: f(xs[i]) == Success(r.value[i])
    ensures r.Failure? ==> exists i | 0 <= i < |xs| ::
                             f(xs[i]) == Failure(r.error) && forall j | 0 <= j < i :: f(xs[j]).Success?
  {
    if xs == [] then Success([])
    else
      match f(xs[0])
      case Failure(e) => Failure(e)
      case Success(y) =>
        var rest := MapAll(xs[1..], f);
        assert forall i | 1 <= i < |xs| :: xs[i] == xs[1..][i - 1];
        Prepend([y], rest)
  }

  /** `xs` in front of a successful result. */
  function Prepend<T>(xs: seq<T>, r: Result<seq<T>>): Result<seq<T>> {
    match r
    case Success(ys) => Success(xs + ys)
    case Failure(e) => Failure(e)
  }
}
