/** Failure-compatible wrappers shared by every module of the model.

    `Error` names the Python exceptions that the modelled code raises or lets
    propagate; `Result` replaces raising, `Option` replaces `None`. */
module Wrappers {

  datatype Option<+T> = None | Some(value: T) {
    predicate IsFailure() { None? }

    function PropagateFailure<U>(): Option<U>
      requires None?
    {
      None
    }

    function Extract(): T
      requires Some?
    {
      value
    }
  }

  /** The exceptions of the modelled code, by their Python class. */
  datatype Error =
    | FileNotFoundError
    | NotImplementedError
    | ValueError
    | KeyError
    | IndexError
    | AttributeError
    | RecursionError
    | ZeroDivisionError
    /** The bare `Exception("No poses found for ...")` of `lookup_sequence`. */
    | NoPosesFound

  datatype Result<+T> = Ok(value: T) | Err(error: Error) {
    predicate IsFailure() { Err? }

    function PropagateFailure<U>(): Result<U>
      requires Err?
    {
      Err(error)
    }

    function Extract(): T
      requires Ok?
    {
      value
    }
  }

  /** A list comprehension whose element computations may raise: the
      values in order, or the first error. */
  function AllOk<T>(rs: seq<Result<T>>): (r: Result<seq<T>>)
    ensures r.Ok? ==> |r.value| == |rs|
    decreases |rs|
  {
    if rs == [] then Ok([])
    else
      var prev :- AllOk(rs[..|rs| - 1]);
      var last := rs[|rs| - 1];
      if last.Err? then Err(last.error) else Ok(prev + [last.value])
  }

  /** The comprehension succeeds exactly when every element does, and then
      yields the elements' values in order. */
  lemma {:induction false} AllOkSpec<T>(rs: seq<Result<T>>)
    ensures AllOk(rs).Ok? <==> forall i :: 0 <= i < |rs| ==> rs[i].Ok?
    ensures AllOk(rs).Ok? ==> |AllOk(rs).value| == |rs|
    ensures AllOk(rs).Ok? ==> forall i :: 0 <= i < |rs| ==> AllOk(rs).value[i] == rs[i].value
    decreases |rs|
  {
    if rs != [] {
      var init := rs[..|rs| - 1];
      AllOkSpec(init);
      assert forall i :: 0 <= i < |init| ==> init[i] == rs[i];
    }
  }

  /** One more element that succeeds extends the values. */
  lemma AllOkSnoc<T>(rs: seq<Result<T>>, i: nat, values: seq<T>)
    requires i < |rs| && AllOk(rs[..i]) == Ok(values) && rs[i].Ok?
    ensures AllOk(rs[..i + 1]) == Ok(values + [rs[i].value])
  {
    assert rs[..i + 1][..i] == rs[..i];
  }

  /** An element that fails after a prefix that succeeds fails the whole
      comprehension with its error. */
  lemma AllOkStopsAt<T>(rs: seq<Result<T>>, i: nat)
    requires i < |rs| && AllOk(rs[..i]).Ok? && rs[i].Err?
    ensures AllOk(rs) == Err(rs[i].error)
  {
    AllOkSpec(rs[..i]);
    assert forall j :: 0 <= j < i ==> rs[..i][j] == rs[j];
    AllOkFirstError(rs, i);
  }

  /** It fails with the error of the first element that fails. */
  lemma {:induction false} AllOkFirstError<T>(rs: seq<Result<T>>, k: nat)
    requires k < |rs| && rs[k].Err? && forall i :: 0 <= i < k ==> rs[i].Ok?
    ensures AllOk(rs) == Err(rs[k].error)
    decreases |rs|
  {
    var init := rs[..|rs| - 1];
    if k < |rs| - 1 {
      AllOkFirstError(init, k);
    } else {
      AllOkSpec(init);
    }
  }

  /** A failure is the failure of some element. */
  lemma {:induction false} AllOkErrorFrom<T>(rs: seq<Result<T>>) returns (k: nat)
    requires AllOk(rs).Err?
    ensures k < |rs| && rs[k] == Err(AllOk(rs).error)
    decreases |rs|
  {
    var init := rs[..|rs| - 1];
    if AllOk(init).Err? {
      k := AllOkErrorFrom(init);
      assert init[k] == rs[k];
    } else {
      k := |rs| - 1;
    }
  }
}
