/** Outcome types shared by the backend and frontend models: an optional value
    (a Python key that may be absent, a JavaScript `undefined`) and a result
    that is either a value or the error that the source would raise. */
module Results {

  datatype Option<+T> = None | Some(value: T)

  datatype Result<+T, +E> = Ok(value: T) | Err(error: E)

  /** Runs through a list of outcomes: all the values if every one succeeded,
      otherwise the first error. */
  function Collect<T, E>(rs: seq<Result<T, E>>): (r: Result<seq<T>, E>)
    ensures r.Ok? <==> forall i :: 0 <= i < |rs| ==> rs[i].Ok?
    ensures r.Ok? ==> |r.value| == |rs| && forall i :: 0 <= i < |rs| ==> rs[i] == Ok(r.value[i])
    ensures r.Err? ==> exists i :: 0 <= i < |rs| && rs[i] == Err(r.error) && forall j :: 0 <= j < i ==> rs[j].Ok?
    decreases |rs|
  {
    if rs == [] then Ok([])
    else if rs[0].Err? then Err(rs[0].error)
    else
      var rest := Collect(rs[1..]);
      assert forall i :: 1 <= i < |rs| ==> rs[i] == rs[1..][i - 1];
      if rest.Err? then
        assert exists i :: 0 <= i < |rs| && rs[i] == Err(rest.error) && forall j :: 0 <= j < i ==> rs[j].Ok? by {
          var k :| 0 <= k < |rs[1..]| && rs[1..][k] == Err(rest.error) && forall j :: 0 <= j < k ==> rs[1..][j].Ok?;
          assert rs[k + 1] == Err(rest.error) && forall j :: 0 <= j < k + 1 ==> rs[j].Ok?;
        }
        Err(rest.error)
      else
        Ok([rs[0].value] + rest.value)
  }
}
