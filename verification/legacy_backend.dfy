/**
 `AnsibleBackend.execute_backend` of the older backend: the same
 materialization, then a run whose outcome is judged by the failures
 entry of the run's statistics, with the engine's stdout transcript,
 sanitized, as `output` and, on failure, also as `errors`.

 The engine is a parameter: given the materialized file's content it
 yields the per-host failure counts and the stdout lines.
 */
module LegacyBackend {
  import opened Wrappers
  import opened Ansi
  import opened Playbook
  import Backend

  /** What one legacy run reports: `stats["failures"]` and the stdout transcript. */
  datatype LegacyRun = LegacyRun(failures: map<string, nat>, stdout: seq<string>)

  /** The call's observable outcome: the `result` and whether the temporary file was closed. */
  datatype Outcome = Outcome(result: Option<Backend.Result>, tempClosed: bool)

  /** Python truthiness of the failures dictionary. */
  predicate HasFailures(run: LegacyRun) {
    |run.failures| > 0
  }

  function ExecuteLegacy<P>(plays: seq<P>, serialize: P -> Option<string>, engine: string -> LegacyRun): (o: Outcome)
    ensures o.result.Some? <==> |plays| > 0 && AllSerialize(plays, serialize)
    ensures o.tempClosed <==> o.result.Some?
    ensures o.result.Some? ==>
              var run := engine(Materialize(plays, serialize).file.content);
              && (o.result.value.successful <==> run.failures == map[])
              && o.result.value.output == FixAnsiList(run.stdout)
              && o.result.value.errors == (if run.failures == map[] then [] else FixAnsiList(run.stdout))
  {
    var st := Materialize(plays, serialize);
    if st.ready then
      var run := engine(st.file.content);
      var successful := !HasFailures(run);
      var errors := if HasFailures(run) then FixAnsiList(run.stdout) else [];
      var output := FixAnsiList(run.stdout);
      Outcome(Some(Backend.Result(successful, output, errors)), true)
    else Outcome(None, false)
  }

  /** In this backend a successful result never carries errors. */
  lemma LegacySuccessfulNoErrors<P>(plays: seq<P>, serialize: P -> Option<string>, engine: string -> LegacyRun)
    requires ExecuteLegacy(plays, serialize, engine).result.Some?
    ensures var r := ExecuteLegacy(plays, serialize, engine).result.value;
            !r.successful ==> r.errors == r.output
    ensures var r := ExecuteLegacy(plays, serialize, engine).result.value;
            r.successful ==> r.errors == []
  {
  }

  /** Every stored line is a line of the engine's transcript passed through the sanitizer. */
  lemma LegacyLinesSanitized<P>(plays: seq<P>, serialize: P -> Option<string>, engine: string -> LegacyRun)
    requires ExecuteLegacy(plays, serialize, engine).result.Some?
    ensures var r := ExecuteLegacy(plays, serialize, engine).result.value;
            var raw := engine(Materialize(plays, serialize).file.content).stdout;
            && (forall i :: 0 <= i < |r.output| ==> exists line :: line in raw && r.output[i] == Strip(line))
            && (forall i :: 0 <= i < |r.errors| ==> exists line :: line in raw && r.errors[i] == Strip(line))
            && (forall i :: 0 <= i < |r.output| ==> |r.output[i]| <= |raw[i]|)
  {
    var r := ExecuteLegacy(plays, serialize, engine).result.value;
    var raw := engine(Materialize(plays, serialize).file.content).stdout;
    forall i | 0 <= i < |r.output| ensures exists line :: line in raw && r.output[i] == Strip(line) {
      assert raw[i] in raw;
    }
    forall i | 0 <= i < |r.errors| ensures exists line :: line in raw && r.errors[i] == Strip(line) {
      assert raw[i] in raw;
    }
  }
}
