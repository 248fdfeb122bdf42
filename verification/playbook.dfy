/**
 The playbook materializer: the loop in `execute_backend` that dumps each
 play into the temporary file.

 The YAML serializer is an abstract total function returning `None` where
 the real one raises. The temporary file is its content plus a cursor.
 Because the loop seeks back to offset 0 after every dump, each play is
 written over the start of the previous one rather than after it.
 */
module Playbook {
  import opened Wrappers

  /** A text file opened for writing: its content and the stream position. */
  datatype File = File(content: string, cursor: nat)

  ghost predicate Valid(f: File) { f.cursor <= |f.content| }

  const EmptyFile: File := File("", 0)

  /** Writes `d` at the cursor, overwriting what was there and extending the file if needed. */
  function Write(f: File, d: string): (g: File)
    requires Valid(f)
    ensures Valid(g) && g.cursor == f.cursor + |d|
    ensures |g.content| == if f.cursor + |d| <= |f.content| then |f.content| else f.cursor + |d|
    ensures g.content[..f.cursor] == f.content[..f.cursor]
    ensures g.content[f.cursor..g.cursor] == d
    ensures g.content[g.cursor..] == if g.cursor <= |f.content| then f.content[g.cursor..] else ""
  {
    var rest := if f.cursor + |d| <= |f.content| then f.content[f.cursor + |d|..] else "";
    var c := f.content[..f.cursor] + d + rest;
    assert c[..f.cursor] == f.content[..f.cursor];
    assert c[f.cursor..f.cursor + |d|] == d;
    assert c[f.cursor + |d|..] == rest;
    File(c, f.cursor + |d|)
  }

  /** `seek(0)`. */
  function Rewind(f: File): File {
    f.(cursor := 0)
  }

  /** The loop's state: the file and the `playbook_file_ready` flag. */
  datatype State = State(file: File, ready: bool)

  ghost predicate AllSerialize<P>(plays: seq<P>, serialize: P -> Option<string>) {
    forall i :: 0 <= i < |plays| ==> serialize(plays[i]).Some?
  }

  /**
   The loop from a given state over the remaining plays. A non-empty run
   ends ready exactly when every play serialized, and a run that starts at
   offset 0 ends at offset 0, so every dump is written from offset 0.
   */
  function MaterializeFrom<P>(plays: seq<P>, serialize: P -> Option<string>, st: State): (r: State)
    requires Valid(st.file)
    ensures Valid(r.file)
    ensures r.ready <==> (if |plays| == 0 then st.ready else AllSerialize(plays, serialize))
    ensures st.file.cursor == 0 ==> r.file.cursor == 0
    decreases |plays|
  {
    if |plays| == 0 then st
    else match serialize(plays[0])
      case None => State(st.file, false)
      case Some(d) =>
        var r := MaterializeFrom(plays[1..], serialize, State(Rewind(Write(st.file, d)), true));
        assert AllSerialize(plays[1..], serialize) ==> AllSerialize(plays, serialize) by {
          if AllSerialize(plays[1..], serialize) {
            forall i | 0 <= i < |plays| ensures serialize(plays[i]).Some? {
              if i > 0 { assert plays[i] == plays[1..][i - 1]; }
            }
          }
        }
        r
  }

  /**
   The whole loop, from a fresh empty file with `playbook_file_ready` false:
   the file ends ready exactly when the playbook is non-empty and every play
   serialized, with the stream back at offset 0.
   */
  function Materialize<P>(plays: seq<P>, serialize: P -> Option<string>): (r: State)
    ensures Valid(r.file) && r.file.cursor == 0
    ensures r.ready <==> |plays| > 0 && AllSerialize(plays, serialize)
  {
    MaterializeFrom(plays, serialize, State(EmptyFile, false))
  }

  /**
   The loop stops at the first play that fails to serialize: the plays after
   it have no effect on the file, and the flag is false.
   */
  lemma {:induction false} MaterializeFromStops<P>(plays: seq<P>, serialize: P -> Option<string>, st: State, k: nat)
    requires Valid(st.file)
    requires k < |plays| && serialize(plays[k]).None?
    requires forall i :: 0 <= i < k ==> serialize(plays[i]).Some?
    ensures MaterializeFrom(plays, serialize, st) == State(MaterializeFrom(plays[..k], serialize, st).file, false)
    decreases k
  {
    if k > 0 {
      var d := serialize(plays[0]).value;
      var st' := State(Rewind(Write(st.file, d)), true);
      assert plays[..k][1..] == plays[1..][..k - 1];
      MaterializeFromStops(plays[1..], serialize, st', k - 1);
    }
  }

  lemma MaterializeStops<P>(plays: seq<P>, serialize: P -> Option<string>, k: nat)
    requires k < |plays| && serialize(plays[k]).None?
    requires forall i :: 0 <= i < k ==> serialize(plays[i]).Some?
    ensures Materialize(plays, serialize) == State(Materialize(plays[..k], serialize).file, false)
  {
    MaterializeFromStops(plays, serialize, State(EmptyFile, false), k);
  }

  /** The serializations of the plays, in order. */
  function Dumps<P>(plays: seq<P>, serialize: P -> Option<string>): (ds: seq<string>)
    requires AllSerialize(plays, serialize)
    ensures |ds| == |plays|
    ensures forall i :: 0 <= i < |plays| ==> serialize(plays[i]) == Some(ds[i])
    decreases |plays|
  {
    if |plays| == 0 then []
    else
      assert AllSerialize(plays[1..], serialize) by {
        forall i | 0 <= i < |plays[1..]| ensures serialize(plays[1..][i]).Some? {
          assert plays[1..][i] == plays[i + 1];
        }
      }
      [serialize(plays[0]).value] + Dumps(plays[1..], serialize)
  }

  /** `k` is the last dump long enough to reach offset `j`. */
  ghost predicate LastWriter(ds: seq<string>, j: int, k: int) {
    && 0 <= j && 0 <= k < |ds| && j < |ds[k]|
    && forall k' :: k < k' < |ds| ==> |ds[k']| <= j
  }

  /** No dump reaches offset `j`. */
  ghost predicate Unwritten(ds: seq<string>, j: int) {
    forall k :: 0 <= k < |ds| ==> |ds[k]| <= j
  }

  /**
   Reference for the file after overwriting `base` from offset 0 with each
   of `ds` in turn: every character comes from the last dump that reaches
   its offset, or from `base` where no dump does.
   */
  ghost predicate Overlays(base: string, ds: seq<string>, out: string) {
    && (forall k :: 0 <= k < |ds| ==> |ds[k]| <= |out|)
    && |base| <= |out|
    && (|out| == |base| || exists k :: 0 <= k < |ds| && |ds[k]| == |out|)
    && forall j :: 0 <= j < |out| ==>
         || (exists k :: LastWriter(ds, j, k) && out[j] == ds[k][j])
         || (Unwritten(ds, j) && j < |base| && out[j] == base[j])
  }

  /** One overwrite from offset 0 followed by `rest` is the overlay of `[d] + rest`. */
  lemma OverlaysCons(base: string, d: string, rest: seq<string>, out: string)
    requires Overlays(Write(File(base, 0), d).content, rest, out)
    ensures Overlays(base, [d] + rest, out)
  {
    var mid := Write(File(base, 0), d).content;
    var ds := [d] + rest;
    forall k | 0 <= k < |ds| ensures |ds[k]| <= |out| {
      if k > 0 { assert ds[k] == rest[k - 1]; }
    }
    if |out| != |base| {
      if |out| == |mid| {
        assert |ds[0]| == |out|;
      } else {
        var k :| 0 <= k < |rest| && |rest[k]| == |out|;
        assert ds[k + 1] == rest[k];
      }
    }
    forall j | 0 <= j < |out|
      ensures || (exists k :: LastWriter(ds, j, k) && out[j] == ds[k][j])
              || (Unwritten(ds, j) && j < |base| && out[j] == base[j])
    {
      OverlayPointCons(base, d, rest, out, j);
    }
  }

  /** Overwriting from offset 0, pointwise: `d` where it reaches, `base` beyond it. */
  lemma OverwritePoint(base: string, d: string, j: int)
    requires 0 <= j < |Write(File(base, 0), d).content|
    ensures var mid := Write(File(base, 0), d).content;
            if j < |d| then mid[j] == d[j] else j < |base| && mid[j] == base[j]
  {
    var mid := Write(File(base, 0), d).content;
    if j < |d| {
      assert mid[0..|d|] == d;
      assert mid[j] == mid[0..|d|][j];
    } else {
      assert mid[|d|..] == base[|d|..];
      assert mid[j] == mid[|d|..][j - |d|];
    }
  }

  lemma OverlayPointCons(base: string, d: string, rest: seq<string>, out: string, j: int)
    requires Overlays(Write(File(base, 0), d).content, rest, out)
    requires 0 <= j < |out|
    ensures var ds := [d] + rest;
            || (exists k :: LastWriter(ds, j, k) && out[j] == ds[k][j])
            || (Unwritten(ds, j) && j < |base| && out[j] == base[j])
  {
    var mid := Write(File(base, 0), d).content;
    var ds := [d] + rest;
    if k :| LastWriter(rest, j, k) && out[j] == rest[k][j] {
      LastWriterShift(d, rest, j, k);
    } else {
      assert Unwritten(rest, j) && j < |mid| && out[j] == mid[j];
      OverwritePoint(base, d, j);
      UnwrittenShift(d, rest, j);
    }
  }

  lemma LastWriterShift(d: string, rest: seq<string>, j: int, k: int)
    requires LastWriter(rest, j, k)
    ensures LastWriter([d] + rest, j, k + 1) && ([d] + rest)[k + 1] == rest[k]
  {
    var ds := [d] + rest;
    forall k' | k + 1 < k' < |ds| ensures |ds[k']| <= j { assert ds[k'] == rest[k' - 1]; }
  }

  lemma UnwrittenShift(d: string, rest: seq<string>, j: int)
    requires 0 <= j && Unwritten(rest, j)
    ensures j < |d| ==> LastWriter([d] + rest, j, 0)
    ensures |d| <= j ==> Unwritten([d] + rest, j)
  {
    var ds := [d] + rest;
    forall k' | 0 < k' < |ds| ensures |ds[k']| <= j { assert ds[k'] == rest[k' - 1]; }
  }

  lemma {:induction false} MaterializeFromOverlays<P>(plays: seq<P>, serialize: P -> Option<string>, st: State)
    requires Valid(st.file) && st.file.cursor == 0
    requires AllSerialize(plays, serialize)
    ensures Overlays(st.file.content, Dumps(plays, serialize), MaterializeFrom(plays, serialize, st).file.content)
    decreases |plays|
  {
    var ds := Dumps(plays, serialize);
    if |plays| == 0 {
      assert MaterializeFrom(plays, serialize, st) == st;
    } else {
      var f1 := Rewind(Write(st.file, ds[0]));
      assert AllSerialize(plays[1..], serialize) by {
        forall i | 0 <= i < |plays[1..]| ensures serialize(plays[1..][i]).Some? {
          assert plays[1..][i] == plays[i + 1];
        }
      }
      assert ds == [ds[0]] + Dumps(plays[1..], serialize);
      MaterializeFromOverlays(plays[1..], serialize, State(f1, true));
      assert st.file == File(st.file.content, 0);
      OverlaysCons(st.file.content, ds[0], Dumps(plays[1..], serialize),
                   MaterializeFrom(plays, serialize, st).file.content);
    }
  }

  /**
   After a fully successful loop, offset `j` of the file holds the character
   of the last play whose serialization reaches `j`: later plays overwrite
   earlier ones instead of following them.
   */
  lemma MaterializeOverlays<P>(plays: seq<P>, serialize: P -> Option<string>)
    requires AllSerialize(plays, serialize)
    ensures Overlays("", Dumps(plays, serialize), Materialize(plays, serialize).file.content)
  {
    MaterializeFromOverlays(plays, serialize, State(EmptyFile, false));
  }

  /** After a fully successful loop over a non-empty playbook, the file begins with the last play's serialization. */
  lemma MaterializeStartsWithLast<P>(plays: seq<P>, serialize: P -> Option<string>)
    requires |plays| > 0 && AllSerialize(plays, serialize)
    ensures var last := serialize(plays[|plays| - 1]).value;
            var content := Materialize(plays, serialize).file.content;
            |last| <= |content| && content[..|last|] == last
  {
    var ds := Dumps(plays, serialize);
    var n := |ds| - 1;
    var content := Materialize(plays, serialize).file.content;
    MaterializeOverlays(plays, serialize);
    forall j | 0 <= j < |ds[n]| ensures content[j] == ds[n][j] {
      assert LastWriter(ds, j, n);
      if k :| LastWriter(ds, j, k) && content[j] == ds[k][j] {
        assert k == n;
      }
    }
  }

  /** Two plays leave only the second one's text when it is at least as long as the first. */
  lemma SecondPlayOverwritesFirst()
    ensures var serialize := (p: int) => Some(if p == 0 then "- a: 1\n" else "- b: 2\n");
            Materialize([0, 1], serialize) == State(File("- b: 2\n", 0), true)
  {
    var serialize := (p: int) => Some(if p == 0 then "- a: 1\n" else "- b: 2\n");
    var plays := [0, 1];
    var f1 := Rewind(Write(EmptyFile, "- a: 1\n"));
    assert f1 == File("- a: 1\n", 0);
    var f2 := Rewind(Write(f1, "- b: 2\n"));
    assert f2.content[0..7] == "- b: 2\n";
    assert f2 == File("- b: 2\n", 0);
    assert plays[1..][1..] == [];
  }
}
