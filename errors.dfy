/** The crate's error enum (src/error.rs) and the `Result` every fallible
    operation returns. */
module Errors {

  datatype BridgeError =
    | Io(msg: string)
    | Parse(msg: string)
    | Database(msg: string)
    | Export(msg: string)
    | Fetch(msg: string)
    | HttpError(msg: string)
    | InvalidHeader(msg: string)
    | InvalidLine(msg: string)
    | InvalidTimestamp(msg: string)
    | InvalidFingerprint(msg: string)
    | Csv(msg: string)

  datatype Result<+T> = Ok(value: T) | Err(error: BridgeError)

  /** Runs of fallible steps as `?` inside a loop runs them: the values of all
      of them, or the error of the first that fails. */
  function Collect<T>(outcomes: seq<Result<T>>): Result<seq<T>> {
    if outcomes == [] then Ok([])
    else
      var n := |outcomes| - 1;
      match Collect(outcomes[..n])
      case Err(e) => Err(e)
      case Ok(done) =>
        match outcomes[n]
        case Err(e) => Err(e)
        case Ok(v) => Ok(done + [v])
  }

  /** Once a prefix has failed, the whole run fails with the same error. */
  lemma {:induction false} CollectFailedPrefix<T>(outcomes: seq<Result<T>>, i: nat)
    requires i <= |outcomes| && Collect(outcomes[..i]).Err?
    ensures Collect(outcomes) == Collect(outcomes[..i])
    decreases |outcomes| - i
  {
    if i < |outcomes| {
      assert outcomes[..i + 1][..i] == outcomes[..i];
      CollectFailedPrefix(outcomes, i + 1);
    } else {
      assert outcomes[..i] == outcomes;
    }
  }

  lemma {:induction false} CollectOk<T>(outcomes: seq<Result<T>>)
    ensures Collect(outcomes).Ok? <==> forall i :: 0 <= i < |outcomes| ==> outcomes[i].Ok?
    ensures Collect(outcomes).Ok? ==>
      |Collect(outcomes).value| == |outcomes|
      && forall i :: 0 <= i < |outcomes| ==> Collect(outcomes).value[i] == outcomes[i].value
  {
    if outcomes != [] {
      var n := |outcomes| - 1;
      var prefix := outcomes[..n];
      CollectOk(prefix);
      assert forall i :: 0 <= i < n ==> prefix[i] == outcomes[i];
    }
  }

  lemma {:induction false} CollectFirstError<T>(outcomes: seq<Result<T>>)
    requires Collect(outcomes).Err?
    ensures exists i ::
              && 0 <= i < |outcomes| && outcomes[i] == Err(Collect(outcomes).error)
              && forall j :: 0 <= j < i ==> outcomes[j].Ok?
  {
    var n := |outcomes| - 1;
    var prefix := outcomes[..n];
    assert forall i :: 0 <= i < n ==> prefix[i] == outcomes[i];
    if Collect(prefix).Err? {
      CollectFirstError(prefix);
    } else {
      CollectOk(prefix);
    }
  }

  lemma CollectStep<T>(outcomes: seq<Result<T>>, i: nat, done: seq<T>)
    requires i < |outcomes| && Collect(outcomes[..i]) == Ok(done)
    ensures outcomes[i].Ok? ==> Collect(outcomes[..i + 1]) == Ok(done + [outcomes[i].value])
    ensures outcomes[i].Err? ==> Collect(outcomes) == Err(outcomes[i].error)
  {
    assert outcomes[..i + 1][..i] == outcomes[..i];
    if outcomes[i].Err? {
      CollectFailedPrefix(outcomes, i + 1);
    }
  }
}
