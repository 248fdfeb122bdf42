/**
 The ANSI sanitizer: `handle_ansi_chars` and `fix_ansi_list`.

 The sanitizer deletes every non-overlapping, leftmost terminal control
 sequence of the shape

     ESC  [@-_]  [0-?]*  [ -/]*  [@-~]

 from a string. The body classes after the introducer are pairwise disjoint
 and none of them contains ESC, so a greedy left-to-right scan never has to
 backtrack: at each position either one complete sequence starts there (and
 is dropped) or the character is kept and the scan moves on by one.
 */
module Ansi {
  import opened Wrappers

  const ESC: char := '\U{1B}'

  /** `[@-_]`: the 7-bit C1 introducer byte. */
  predicate IsIntroducer(c: char) { '@' <= c <= '_' }

  /** `[0-?]`: a parameter byte. */
  predicate IsParam(c: char) { '0' <= c <= '?' }

  /** `[ -/]`: an intermediate byte. */
  predicate IsIntermediate(c: char) { ' ' <= c <= '/' }

  /** `[@-~]`: the final byte. */
  predicate IsFinal(c: char) { '@' <= c <= '~' }

  /**
   The grammar of one complete control sequence, stated independently of
   the scanner: ESC, an introducer, parameter bytes up to some split point,
   intermediate bytes up to the last character, and a final byte.
   */
  ghost predicate IsEscSeq(t: string) {
    && |t| >= 3
    && t[0] == ESC
    && IsIntroducer(t[1])
    && IsFinal(t[|t| - 1])
    && exists p :: 2 <= p <= |t| - 1 && SplitsParamsIntermediates(t, p)
  }

  /** `t[2..p]` are parameter bytes and `t[p..|t|-1]` intermediate bytes. */
  ghost predicate SplitsParamsIntermediates(t: string, p: int)
    requires 2 <= p <= |t| - 1
  {
    && (forall m :: 2 <= m < p ==> IsParam(t[m]))
    && (forall m :: p <= m < |t| - 1 ==> IsIntermediate(t[m]))
  }

  /** Greedy `[0-?]*` starting at index `j`: the first index that is not a parameter byte. */
  function SkipParams(s: string, j: nat): (k: nat)
    requires j <= |s|
    ensures j <= k <= |s|
    ensures forall m :: j <= m < k ==> IsParam(s[m])
    ensures k < |s| ==> !IsParam(s[k])
    decreases |s| - j
  {
    if j < |s| && IsParam(s[j]) then SkipParams(s, j + 1) else j
  }

  /** Greedy `[ -/]*` starting at index `j`: the first index that is not an intermediate byte. */
  function SkipIntermediates(s: string, j: nat): (k: nat)
    requires j <= |s|
    ensures j <= k <= |s|
    ensures forall m :: j <= m < k ==> IsIntermediate(s[m])
    ensures k < |s| ==> !IsIntermediate(s[k])
    decreases |s| - j
  {
    if j < |s| && IsIntermediate(s[j]) then SkipIntermediates(s, j + 1) else j
  }

  /**
   The length of the complete control sequence that starts at `s[0]`, or
   `None` if the regular expression does not match at this position.
   */
  function MatchLen(s: string): (r: Option<nat>)
    ensures r.Some? ==> 3 <= r.value <= |s| && IsEscSeq(s[..r.value])
  {
    if 2 <= |s| && s[0] == ESC && IsIntroducer(s[1]) then
      var p := SkipParams(s, 2);
      var q := SkipIntermediates(s, p);
      if q < |s| && IsFinal(s[q]) then
        assert SplitsParamsIntermediates(s[..q + 1], p);
        Some(q + 1)
      else None
    else None
  }

  /** The scanner finds every complete sequence: the converse of `MatchLen`'s contract. */
  lemma MatchLenComplete(s: string, n: nat)
    requires n <= |s| && IsEscSeq(s[..n])
    ensures MatchLen(s) == Some(n)
  {
    var t := s[..n];
    var p :| 2 <= p <= |t| - 1 && SplitsParamsIntermediates(t, p);
    assert forall m :: 2 <= m < p ==> IsParam(s[m]) by {
      forall m | 2 <= m < p ensures IsParam(s[m]) { assert s[m] == t[m]; }
    }
    assert forall m :: p <= m < n - 1 ==> IsIntermediate(s[m]) by {
      forall m | p <= m < n - 1 ensures IsIntermediate(s[m]) { assert s[m] == t[m]; }
    }
    // the parameter run ends exactly at p, the intermediate run at the final byte
    assert s[p] == t[p] && s[n - 1] == t[n - 1];
    assert SkipParams(s, 2) == p;
    assert SkipIntermediates(s, p) == n - 1;
  }

  /** `MatchLen` and the grammar agree in both directions. */
  lemma MatchLenIff(s: string, n: nat)
    ensures MatchLen(s) == Some(n) <==> n <= |s| && IsEscSeq(s[..n])
  {
    if n <= |s| && IsEscSeq(s[..n]) {
      MatchLenComplete(s, n);
    }
  }

  /**
   `handle_ansi_chars`: the input with every complete control sequence
   found by the leftmost scan deleted.
   */
  function Strip(s: string): (r: string)
    ensures |r| <= |s|
    ensures ESC !in s ==> r == s
    decreases |s|
  {
    if |s| == 0 then ""
    else match MatchLen(s)
      case Some(n) => Strip(s[n..])
      case None => [s[0]] + Strip(s[1..])
  }

  /** A complete sequence at the front is removed entirely. */
  lemma StripDropsSequence(t: string, u: string)
    requires IsEscSeq(t)
    ensures Strip(t + u) == Strip(u)
  {
    assert (t + u)[..|t|] == t;
    MatchLenComplete(t + u, |t|);
    assert (t + u)[|t|..] == u;
  }

  /** A character that does not begin a complete sequence is kept, and the scan moves on by one. */
  lemma StripKeepsChar(s: string)
    requires |s| > 0
    requires forall n :: 0 <= n <= |s| ==> !IsEscSeq(s[..n])
    ensures Strip(s) == [s[0]] + Strip(s[1..])
  {
  }

  /** Only the first character of a complete sequence is ESC. */
  lemma EscSeqHasNoInnerEsc(t: string)
    requires IsEscSeq(t)
    ensures forall i :: 1 <= i < |t| ==> t[i] != ESC
  {
    var p :| 2 <= p <= |t| - 1 && SplitsParamsIntermediates(t, p);
    forall i | 1 <= i < |t| ensures t[i] != ESC {
      assert i == 1 || i < p || i < |t| - 1 || i == |t| - 1;
    }
  }

  /** No complete sequence reaches across an ESC that is not its first character. */
  lemma MatchLenStopsAtEsc(u: string, t: string)
    requires |u| > 0 && |t| > 0 && t[0] == ESC
    ensures MatchLen(u + t) == MatchLen(u)
  {
    var s := u + t;
    if MatchLen(s).Some? {
      var n := MatchLen(s).value;
      var w := s[..n];
      EscSeqHasNoInnerEsc(w);
      assert s[|u|] == ESC;
      assert n <= |u|;
      assert w == u[..n];
      MatchLenComplete(u, n);
    } else if MatchLen(u).Some? {
      var n := MatchLen(u).value;
      assert s[..n] == u[..n];
      MatchLenComplete(s, n);
    }
  }

  /** Text in front of an ESC is sanitized on its own: sanitizing splits at every ESC. */
  lemma {:induction false} StripSplitAtEsc(s: string, t: string)
    requires |t| > 0 && t[0] == ESC
    ensures Strip(s + t) == Strip(s) + Strip(t)
    decreases |s|
  {
    if |s| == 0 {
      assert s + t == t;
    } else {
      MatchLenStopsAtEsc(s, t);
      match MatchLen(s)
      case Some(n) =>
        assert (s + t)[n..] == s[n..] + t;
        StripSplitAtEsc(s[n..], t);
      case None =>
        assert (s + t)[1..] == s[1..] + t;
        assert (s + t)[0] == s[0];
        StripSplitAtEsc(s[1..], t);
    }
  }

  /** An ESC that does not begin a complete sequence, such as a trailing `ESC [`, is kept. */
  lemma StripKeepsTrailingIncomplete(s: string)
    ensures Strip(s + [ESC, '[']) == Strip(s) + [ESC, '[']
  {
    var tail := [ESC, '['];
    assert MatchLen(tail) == None;
    assert MatchLen(tail[1..]) == None;
    assert tail[1..][1..] == [];
    StripSplitAtEsc(s, tail);
  }

  /** `IsSubsequence(r, s)`: `r` is `s` with some characters deleted, the rest kept in order. */
  ghost predicate IsSubsequence(r: string, s: string)
    decreases |s|
  {
    || |r| == 0
    || (&& |s| > 0
        && ((r[0] == s[0] && IsSubsequence(r[1..], s[1..])) || IsSubsequence(r, s[1..])))
  }

  lemma {:induction false} SubsequenceOfSuffix(r: string, s: string, n: nat)
    requires n <= |s| && IsSubsequence(r, s[n..])
    ensures IsSubsequence(r, s)
    decreases n
  {
    if n > 0 {
      assert s[1..][n - 1..] == s[n..];
      SubsequenceOfSuffix(r, s[1..], n - 1);
    }
  }

  /** The sanitized string keeps the surviving characters of the input in their original order. */
  lemma {:induction false} StripIsSubsequence(s: string)
    ensures IsSubsequence(Strip(s), s)
    decreases |s|
  {
    if |s| > 0 {
      match MatchLen(s)
      case Some(n) =>
        StripIsSubsequence(s[n..]);
        SubsequenceOfSuffix(Strip(s[n..]), s, n);
      case None =>
        StripIsSubsequence(s[1..]);
        var r := Strip(s);
        assert r[0] == s[0] && r[1..] == Strip(s[1..]);
    }
  }

  /**
   Sanitizing is not idempotent: removing `ESC [ m` from `ESC ESC [ m A B`
   leaves `ESC A B`, which is itself a complete sequence.
   */
  lemma StripNotIdempotent()
    ensures Strip([ESC, ESC, '[', 'm', 'A', 'B']) == [ESC, 'A', 'B']
    ensures Strip([ESC, 'A', 'B']) == []
  {
    var s := [ESC, ESC, '[', 'm', 'A', 'B'];
    assert MatchLen(s) == None;
    assert s[1..] == [ESC, '[', 'm', 'A', 'B'];
    assert SkipParams(s[1..], 2) == 2;
    assert MatchLen(s[1..]) == Some(3);
    assert s[1..][3..] == ['A', 'B'];
    assert Strip(['B']) == ['B'];
    assert ['A', 'B'][1..] == ['B'];
    assert Strip(['A', 'B']) == ['A', 'B'];
    var t := [ESC, 'A', 'B'];
    assert SkipParams(t, 2) == 2;
    assert MatchLen(t) == Some(3);
    assert t[3..] == [];
  }

  /** `fix_ansi_list`: every string of the list sanitized, positions preserved. */
  function FixAnsiList(xs: seq<string>): (r: seq<string>)
    ensures |r| == |xs|
    ensures forall i :: 0 <= i < |xs| ==> r[i] == Strip(xs[i])
    decreases |xs|
  {
    if |xs| == 0 then [] else [Strip(xs[0])] + FixAnsiList(xs[1..])
  }

  /** Sanitizing a list distributes over concatenation of lists. */
  lemma {:induction false} FixAnsiListAppend(xs: seq<string>, ys: seq<string>)
    ensures FixAnsiList(xs + ys) == FixAnsiList(xs) + FixAnsiList(ys)
  {
    if |xs| == 0 {
      assert xs + ys == ys;
    } else {
      assert (xs + ys)[1..] == xs[1..] + ys;
      FixAnsiListAppend(xs[1..], ys);
    }
  }
}
