/**
 `AnsibleBackend.execute_backend` of the newer backend: materialize the
 playbook, and only if the file is ready run the engine, fold its events
 and classify its terminal status.

 The engine is a parameter: given the materialized file's content it
 yields a terminal status token and the events its callback receives.
 */
module Backend {
  import opened Wrappers
  import opened Events
  import opened Playbook

  /** The `Result` handed back to the caller. */
  datatype Result = Result(successful: bool, output: seq<string>, errors: seq<string>)

  /** What one engine run reports: the status token and the emitted events. */
  datatype Run = Run(status: string, events: seq<Event>)

  /** The status tokens that classify a run as unsuccessful. */
  const FailureStatuses: seq<string> := ["failed", "timeout"]

  /** The classification of a terminal status. */
  function Successful(status: string): (b: bool)
    ensures b <==> status != "failed" && status != "timeout"
  {
    status !in FailureStatuses
  }

  /**
   One `execute_backend` call. `None` means the file never became ready:
   the engine is not invoked and no `Result` is assigned.
   */
  function Execute<P>(plays: seq<P>, serialize: P -> Option<string>, engine: string -> Run): (r: Option<Result>)
    ensures r.Some? <==> |plays| > 0 && AllSerialize(plays, serialize)
    ensures r.Some? ==>
              var run := engine(Materialize(plays, serialize).file.content);
              && (r.value.successful <==> run.status != "failed" && run.status != "timeout")
              && r.value.errors == FailedLines(run.events)
              && r.value.output == OkLines(run.events)
  {
    var st := Materialize(plays, serialize);
    if st.ready then
      var run := engine(st.file.content);
      var acc := Fold(EmptyAcc, run.events);
      FoldAppendsLines(EmptyAcc, run.events);
      Some(Result(Successful(run.status), acc.output, acc.errors))
    else None
  }

  /** A run the engine reports as failed or timed out is unsuccessful, whatever its events. */
  lemma FailedStatusUnsuccessful<P>(plays: seq<P>, serialize: P -> Option<string>, engine: string -> Run)
    requires Execute(plays, serialize, engine).Some?
    requires engine(Materialize(plays, serialize).file.content).status in FailureStatuses
    ensures !Execute(plays, serialize, engine).value.successful
  {
  }

  /**
   A successful classification does not imply an empty `errors`: the status
   check ignores the failed events, so a run the engine reports as
   "successful" (for instance with `ignore_errors` on a task) keeps them.
   */
  lemma SuccessfulWithErrors<P>(play: P, serialize: P -> Option<string>, engine: string -> Run, ev: Event)
    requires serialize(play).Some?
    requires ev.kind == FailedKind
    requires forall c :: engine(c) == Run("successful", [ev])
    ensures Execute([play], serialize, engine) == Some(Result(true, [], [FailedLine(ev)]))
  {
    assert AllSerialize([play], serialize);
    var run := engine(Materialize([play], serialize).file.content);
    assert run == Run("successful", [ev]);
    assert OfKind([ev], FailedKind) == [ev];
    assert OfKind([ev][1..], OkKind) == [];
    assert OfKind([ev], OkKind) == [];
    assert FailedLines([ev]) == [FailedLine(ev)];
    assert OkLines([ev]) == [];
  }

  /** One successful task gives one output line and no errors. */
  lemma OneOkTask<P>(play: P, serialize: P -> Option<string>, engine: string -> Run, ev: Event)
    requires serialize(play).Some?
    requires ev.kind == OkKind
    requires forall c :: engine(c) == Run("successful", [ev])
    ensures Execute([play], serialize, engine) == Some(Result(true, [OkLine(ev)], []))
  {
    assert AllSerialize([play], serialize);
    var run := engine(Materialize([play], serialize).file.content);
    assert run == Run("successful", [ev]);
    assert OfKind([ev], OkKind) == [ev];
    assert OfKind([ev][1..], FailedKind) == [];
    assert OfKind([ev], FailedKind) == [];
    assert OkLines([ev]) == [OkLine(ev)];
    assert FailedLines([ev]) == [];
  }

  /** One failed task under a "failed" status gives one error line and no output. */
  lemma OneFailedTask<P>(play: P, serialize: P -> Option<string>, engine: string -> Run, ev: Event)
    requires serialize(play).Some?
    requires ev.kind == FailedKind
    requires forall c :: engine(c) == Run("failed", [ev])
    ensures Execute([play], serialize, engine) == Some(Result(false, [], [FailedLine(ev)]))
  {
    assert AllSerialize([play], serialize);
    var run := engine(Materialize([play], serialize).file.content);
    assert run == Run("failed", [ev]);
    assert OfKind([ev], FailedKind) == [ev];
    assert OfKind([ev][1..], OkKind) == [];
    assert OfKind([ev], OkKind) == [];
    assert FailedLines([ev]) == [FailedLine(ev)];
    assert OkLines([ev]) == [];
  }

  /** A playbook whose play cannot be serialized produces no `Result`. */
  lemma UnserializableNoResult<P>(plays: seq<P>, serialize: P -> Option<string>, engine: string -> Run, k: nat)
    requires k < |plays| && serialize(plays[k]).None?
    ensures Execute(plays, serialize, engine).None?
  {
  }
}
