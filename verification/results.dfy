/** Success and failure values.

    The solvers abort on malformed input (an `unwrap` or `expect` that fails,
    an `assert!`, an `unreachable!` arm, an unsigned subtraction that would go
    below zero). Every such abort is an `Err` here, so that the model keeps the
    error path instead of excluding it by a precondition. */
module Results {

  /** A value that may be absent, like Rust's `Option`. */
  datatype Option<+T> = None | Some(value: T)

  /** A value or the reason the solver would have aborted. */
  datatype Result<+T> = Ok(value: T) | Err(reason: string) {

    predicate IsFailure() {
      Err?
    }

    function PropagateFailure<U>(): Result<U>
      requires Err?
    {
      Err(reason)
    }

    function Extract(): T
      requires Ok?
    {
      value
    }
  }

  /** `collect::<Result<Vec<_>, _>>()`, or equally a `map(..).collect()`
      whose items abort on failure: all values in order, or the first
      failure. */
  function Collect<T>(rs: seq<Result<T>>): (res: Result<seq<T>>)
    ensures res.Ok? ==> |res.value| == |rs|
  {
    if |rs| == 0 then Ok([])
    else
      var v :- rs[0];
      var rest :- Collect(rs[1..]);
      Ok([v] + rest)
  }

  /** `map(f)`: `f` applied to each item, in order. */
  function Map<A, B>(f: A -> B, xs: seq<A>): (ys: seq<B>)
    ensures |ys| == |xs|
    ensures forall i :: 0 <= i < |xs| ==> ys[i] == f(xs[i])
  {
    if |xs| == 0 then [] else [f(xs[0])] + Map(f, xs[1..])
  }

  /** Collecting succeeds exactly when every item does, and keeps their
      values in order. */
  lemma {:induction false} CollectOk<T>(rs: seq<Result<T>>)
    ensures Collect(rs).Ok? <==> forall i :: 0 <= i < |rs| ==> rs[i].Ok?
    ensures Collect(rs).Ok? ==> forall i :: 0 <= i < |rs| ==> rs[i] == Ok(Collect(rs).value[i])
  {
    if |rs| > 0 {
      CollectOk(rs[1..]);
      assert forall i :: 1 <= i < |rs| ==> rs[i] == rs[1..][i - 1];
    }
  }

  /** A failed collection reports the first failing item. */
  lemma {:induction false} CollectFirstError<T>(rs: seq<Result<T>>)
    ensures Collect(rs).Err? ==>
      exists i :: 0 <= i < |rs| && rs[i].Err? && Collect(rs).reason == rs[i].reason
        && forall j :: 0 <= j < i ==> rs[j].Ok?
  {
    if |rs| > 0 && Collect(rs).Err? && rs[0].Ok? {
      CollectFirstError(rs[1..]);
      var i :| 0 <= i < |rs[1..]| && rs[1..][i].Err? && Collect(rs[1..]).reason == rs[1..][i].reason
        && forall j :: 0 <= j < i ==> rs[1..][j].Ok?;
      assert rs[i + 1] == rs[1..][i];
      assert forall j :: 1 <= j < i + 1 ==> rs[j] == rs[1..][j - 1];
    }
  }
}
