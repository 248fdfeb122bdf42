/**
 The event callback `_event_handler` of the newer backend, as a left fold
 over the events the engine emits during one run.

 An event carries its kind and the three `event_data` fields the handler
 reads; the result payload is kept as the text Python's f-string renders it to.
 */
module Events {

  datatype Event = Event(kind: string, host: string, action: string, res: string)

  const FailedKind: string := "runner_on_failed"
  const OkKind: string := "runner_on_ok"

  /** The two accumulators the callback appends to. */
  datatype Acc = Acc(output: seq<string>, errors: seq<string>)

  const EmptyAcc: Acc := Acc([], [])

  /** The line recorded in `errors` for a failed task. */
  function FailedLine(e: Event): string {
    "Task '" + e.action + "' " + "failed on host '" + e.host + "' " + "with result: '" + e.res + "'"
  }

  /** The line recorded in `output` for a successful task. */
  function OkLine(e: Event): string {
    "Task '" + e.action + "' " + "succeeded on host '" + e.host + "' " + "with result: '" + e.res + "'"
  }

  /**
   One callback invocation: the event's own reference lines (one line for a
   failed or ok event, none for any other kind) are appended to the lists.
   */
  function Handle(acc: Acc, e: Event): (r: Acc)
    ensures r == Acc(acc.output + OkLines([e]), acc.errors + FailedLines([e]))
  {
    assert OfKind([e][1..], FailedKind) == [] && OfKind([e][1..], OkKind) == [];
    if e.kind == FailedKind then acc.(errors := acc.errors + [FailedLine(e)])
    else if e.kind == OkKind then acc.(output := acc.output + [OkLine(e)])
    else acc
  }

  /**
   The callback applied to every event, in emission order. The lists only
   grow, each by one line per event of its kind.
   */
  function Fold(acc: Acc, events: seq<Event>): (r: Acc)
    ensures |r.errors| == |acc.errors| + Count(events, FailedKind) && r.errors[..|acc.errors|] == acc.errors
    ensures |r.output| == |acc.output| + Count(events, OkKind) && r.output[..|acc.output|] == acc.output
    decreases |events|
  {
    if |events| == 0 then acc
    else
      var h := Handle(acc, events[0]);
      var r := Fold(h, events[1..]);
      assert r.errors[..|acc.errors|] == r.errors[..|h.errors|][..|acc.errors|];
      assert r.output[..|acc.output|] == r.output[..|h.output|][..|acc.output|];
      r
  }

  /** The events of one kind, in emission order. */
  function OfKind(events: seq<Event>, kind: string): (r: seq<Event>)
    ensures |r| <= |events|
    ensures forall i :: 0 <= i < |r| ==> r[i].kind == kind && r[i] in events
    decreases |events|
  {
    if |events| == 0 then []
    else (if events[0].kind == kind then [events[0]] else []) + OfKind(events[1..], kind)
  }

  /** The number of events of one kind. */
  function Count(events: seq<Event>, kind: string): nat {
    |OfKind(events, kind)|
  }

  function MapLines(f: Event -> string, events: seq<Event>): (r: seq<string>)
    ensures |r| == |events|
    ensures forall i :: 0 <= i < |events| ==> r[i] == f(events[i])
    decreases |events|
  {
    if |events| == 0 then [] else [f(events[0])] + MapLines(f, events[1..])
  }

  /** Reference: the failed events' lines, in emission order. */
  function FailedLines(events: seq<Event>): seq<string> {
    MapLines(FailedLine, OfKind(events, FailedKind))
  }

  /** Reference: the successful events' lines, in emission order. */
  function OkLines(events: seq<Event>): seq<string> {
    MapLines(OkLine, OfKind(events, OkKind))
  }

  lemma {:induction false} OfKindAppend(a: seq<Event>, b: seq<Event>, kind: string)
    ensures OfKind(a + b, kind) == OfKind(a, kind) + OfKind(b, kind)
    decreases |a|
  {
    if |a| == 0 {
      assert a + b == b;
    } else {
      assert (a + b)[1..] == a[1..] + b;
      OfKindAppend(a[1..], b, kind);
    }
  }

  lemma MapLinesAppend(f: Event -> string, a: seq<Event>, b: seq<Event>)
    ensures MapLines(f, a + b) == MapLines(f, a) + MapLines(f, b)
  {
    var l, r := MapLines(f, a + b), MapLines(f, a) + MapLines(f, b);
    assert |l| == |r|;
    forall i | 0 <= i < |l| ensures l[i] == r[i] {
      if i < |a| { assert (a + b)[i] == a[i]; } else { assert (a + b)[i] == b[i - |a|]; }
    }
  }

  /**
   Folding the callback over a run appends exactly the failed events' lines
   to `errors` and the successful events' lines to `output`, in emission order.
   */
  lemma {:induction false} FoldAppendsLines(acc: Acc, events: seq<Event>)
    ensures Fold(acc, events) == Acc(acc.output + OkLines(events), acc.errors + FailedLines(events))
    decreases |events|
  {
    if |events| > 0 {
      var e, rest := events[0], events[1..];
      var h := Handle(acc, e);
      FoldAppendsLines(h, rest);
      assert Fold(acc, events) == Fold(h, rest);
      LinesCons(events);
      var fe := if e.kind == FailedKind then [FailedLine(e)] else [];
      var oe := if e.kind == OkKind then [OkLine(e)] else [];
      assert h.errors == acc.errors + fe;
      assert h.output == acc.output + oe;
      AppendAssoc(acc.errors, fe, FailedLines(rest));
      AppendAssoc(acc.output, oe, OkLines(rest));
    } else {
      assert OfKind(events, FailedKind) == [] && OfKind(events, OkKind) == [];
    }
  }

  lemma AppendAssoc(a: seq<string>, b: seq<string>, c: seq<string>)
    ensures a + (b + c) == (a + b) + c
  {
  }

  /** The reference lines of a non-empty run, split after its first event. */
  lemma LinesCons(events: seq<Event>)
    requires |events| > 0
    ensures FailedLines(events)
         == (if events[0].kind == FailedKind then [FailedLine(events[0])] else []) + FailedLines(events[1..])
    ensures OkLines(events)
         == (if events[0].kind == OkKind then [OkLine(events[0])] else []) + OkLines(events[1..])
  {
    var e := events[0];
    MapLinesAppend(FailedLine, if e.kind == FailedKind then [e] else [], OfKind(events[1..], FailedKind));
    MapLinesAppend(OkLine, if e.kind == OkKind then [e] else [], OfKind(events[1..], OkKind));
  }

  /** A whole run: `errors` has one line per failed event and `output` one per successful event. */
  lemma RunCounts(events: seq<Event>)
    ensures |Fold(EmptyAcc, events).errors| == Count(events, FailedKind)
    ensures |Fold(EmptyAcc, events).output| == Count(events, OkKind)
    ensures Fold(EmptyAcc, events).errors == [] <==> forall i :: 0 <= i < |events| ==> events[i].kind != FailedKind
  {
    NoneOfKind(events, FailedKind);
  }

  /** No event of a kind is selected exactly when no event has that kind. */
  lemma {:induction false} NoneOfKind(events: seq<Event>, kind: string)
    ensures OfKind(events, kind) == [] <==> forall i :: 0 <= i < |events| ==> events[i].kind != kind
    decreases |events|
  {
    if |events| > 0 {
      NoneOfKind(events[1..], kind);
      if forall i :: 0 <= i < |events[1..]| ==> events[1..][i].kind != kind {
        forall i | 0 < i < |events| ensures events[i].kind != kind { assert events[i] == events[1..][i - 1]; }
      }
    }
  }

  /** Events may be delivered in batches: folding a concatenation folds the parts in turn. */
  lemma {:induction false} FoldConcat(acc: Acc, a: seq<Event>, b: seq<Event>)
    ensures Fold(acc, a + b) == Fold(Fold(acc, a), b)
    decreases |a|
  {
    if |a| > 0 {
      assert (a + b)[1..] == a[1..] + b;
      FoldConcat(Handle(acc, a[0]), a[1..], b);
    } else {
      assert a + b == b;
    }
  }
}
