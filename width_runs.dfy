/**
 * The `/W` array of the CID font (ISO 32000-1:2008, section 9.7.4.3): runs
 * `first last width` meaning that every CID from `first` to `last`
 * INCLUSIVE has `width`; CIDs no run covers get the default width, which
 * the program sets to 0 (`default_width(0.0)`).
 *
 * The program's scan is modelled as written (EncodeWidths, ScanFrom): it
 * closes a run at the first index whose width differs, and passes that
 * index as the inclusive end; and when the last glyph's width differs from
 * the run before it, that glyph's own run is never written. The corrected
 * encoder (EncodeWidthsInclusive, InclusiveRunsFrom) is proved to describe
 * the table exactly.
 */
module WidthRuns {
  import opened Base

  /** One `same(first, last, width)` entry of the `/W` array. */
  datatype WidthRun = Same(first: GlyphId, last: GlyphId, width: real)

  // ---------------------------------------------------------------------
  // What a `/W` array says
  // ---------------------------------------------------------------------

  /**
   * The width a reader assigns to `cid`: that of a run covering it (first to
   * last inclusive), else the default 0. Where runs overlap, this reader takes
   * the first one; that rule is an assumption about readers, which neither the
   * standard nor the program fixes. The inputs of ScanMisdescribesWidths have
   * no overlapping runs, and the corrected runs are disjoint
   * (InclusiveRunsBounded), so the round trip does not rest on it.
   */
  function WidthOf(runs: seq<WidthRun>, cid: int): real {
    if runs == [] then 0.0
    else if runs[0].first <= cid <= runs[0].last then runs[0].width
    else WidthOf(runs[1..], cid)
  }

  /** The dense table of `n` widths that `runs` describes. */
  function Expand(runs: seq<WidthRun>, n: nat): (table: seq<real>)
    ensures |table| == n
  {
    seq(n, cid => WidthOf(runs, cid))
  }

  // ---------------------------------------------------------------------
  // The scan as written
  // ---------------------------------------------------------------------

  /**
   * Where the scan closes the run opened at `s`, searching from `j`: the
   * first index after `s` whose width differs from `widths[s]`, or the last
   * index of the table.
   */
  function CloseIndex(widths: seq<real>, s: nat, j: nat): (e: nat)
    requires s < j < |widths|
    requires forall k :: s < k < j ==> widths[k] == widths[s]
    ensures j <= e < |widths|
    ensures forall k :: s < k < e ==> widths[k] == widths[s]
    ensures widths[e] != widths[s] || e == |widths| - 1
    decreases |widths| - j
  {
    if widths[j] != widths[s] || j == |widths| - 1 then j else CloseIndex(widths, s, j + 1)
  }

  /**
   * The runs the scan writes once a run is open at `s`: the open run, closed
   * at CloseIndex with that index as its end, written when its width is
   * non-zero, and then the runs from the close index on. A run opened at the
   * last index is never written.
   */
  function ScanFrom(widths: seq<real>, s: nat): (runs: seq<WidthRun>)
    requires s < |widths| <= 0x1_0000
    ensures forall k :: 0 <= k < |runs| ==>
      runs[k].width != 0.0 && s <= runs[k].first < runs[k].last < |widths|
    decreases |widths| - s
  {
    if s == |widths| - 1 then []
    else
      var e := CloseIndex(widths, s, s + 1);
      (if widths[s] != 0.0 then [Same(s, e, widths[s])] else []) + ScanFrom(widths, e)
  }

  /** Closing the run open at `s` at index `i`: what ScanFrom writes next. */
  lemma ScanFromStep(widths: seq<real>, s: nat, i: nat)
    requires s < i < |widths| <= 0x1_0000
    requires forall k :: s < k < i ==> widths[k] == widths[s]
    requires widths[i] != widths[s] || i == |widths| - 1
    ensures ScanFrom(widths, s) == (if widths[s] != 0.0 then [Same(s, i, widths[s])] else []) + ScanFrom(widths, i)
  {
    assert CloseIndex(widths, s, s + 1) == i;
  }

  /**
   * The loop over `widths.iter().enumerate().skip(1)` with its mutable
   * `start` and `start_width`. An empty table panics at `widths[0]`.
   * `numGlyphs` is a `u16`, so every index fits the `as u16` casts.
   */
  method EncodeWidths(widths: seq<real>) returns (r: Result<seq<WidthRun>>)
    requires |widths| < 0x1_0000
    ensures |widths| == 0 ==> r == Err(EmptyWidthTable)
    ensures |widths| > 0 ==> r == Ok(ScanFrom(widths, 0))
    ensures |widths| == 1 ==> r == Ok([])
  {
    if |widths| == 0 {
      return Err(EmptyWidthTable);
    }
    var runs: seq<WidthRun> := [];
    var start: nat := 0;
    var startWidth := widths[0];
    for i := 1 to |widths|
      invariant start < i
      invariant startWidth == widths[start]
      invariant forall k :: start < k < i ==> widths[k] == startWidth
      invariant i == |widths| ==> start == |widths| - 1
      invariant runs + ScanFrom(widths, start) == ScanFrom(widths, 0)
    {
      var w := widths[i];
      if w != startWidth || i == |widths| - 1 {
        var closed := if startWidth != 0.0 then [Same(start, i, startWidth)] else [];
        ScanLoopStep(widths, runs, start, i, ScanFrom(widths, 0));
        runs := runs + closed;
        start := i;
        startWidth := w;
      }
    }
    ScanLoopEnd(widths, runs, start, ScanFrom(widths, 0));
    return Ok(runs);
  }

  /** The loop invariant survives closing the run open at `start` at index `i`. */
  lemma ScanLoopStep(widths: seq<real>, runs: seq<WidthRun>, start: nat, i: nat, all: seq<WidthRun>)
    requires start < i < |widths| <= 0x1_0000
    requires forall k :: start < k < i ==> widths[k] == widths[start]
    requires widths[i] != widths[start] || i == |widths| - 1
    requires runs + ScanFrom(widths, start) == all
    ensures runs + (if widths[start] != 0.0 then [Same(start, i, widths[start])] else []) + ScanFrom(widths, i) == all
  {
    ScanFromStep(widths, start, i);
    AppendRegroup(runs, if widths[start] != 0.0 then [Same(start, i, widths[start])] else [], ScanFrom(widths, i), all);
  }

  /** When the loop ends the open run is at the last index, so all runs are written. */
  lemma ScanLoopEnd(widths: seq<real>, runs: seq<WidthRun>, start: nat, all: seq<WidthRun>)
    requires start == |widths| - 1 && |widths| <= 0x1_0000
    requires runs + ScanFrom(widths, start) == all
    ensures runs == all
  {
  }

  /**
   * What one written run claims: a non-zero width, `first < last`, the width
   * held from `first` up to (not including) `last`, and `last` the first
   * index after `first` whose width differs, or the last index.
   */
  ghost predicate ScannedRun(widths: seq<real>, run: WidthRun) {
    run.width != 0.0 &&
    run.first < run.last < |widths| &&
    (forall k :: run.first <= k < run.last ==> widths[k] == run.width) &&
    (widths[run.last] != run.width || run.last == |widths| - 1)
  }

  /** A run of equal widths begins at `s`. */
  ghost predicate RunStart(widths: seq<real>, s: nat) {
    s < |widths| && (s == 0 || widths[s] != widths[s - 1])
  }

  /**
   * Every run the scan writes is a ScannedRun, starts at or after `s`, and
   * the runs come in ascending order, each starting no earlier than the
   * previous one ends (so their starts strictly ascend).
   */
  lemma {:induction false} ScanFromRuns(widths: seq<real>, s: nat)
    requires s < |widths| <= 0x1_0000
    ensures forall k :: 0 <= k < |ScanFrom(widths, s)| ==>
      ScannedRun(widths, ScanFrom(widths, s)[k]) && s <= ScanFrom(widths, s)[k].first
    ensures forall j, k :: 0 <= j < k < |ScanFrom(widths, s)| ==>
      ScanFrom(widths, s)[j].last <= ScanFrom(widths, s)[k].first
    decreases |widths| - s
  {
    if s < |widths| - 1 {
      var e := CloseIndex(widths, s, s + 1);
      ScanFromRuns(widths, e);
    }
  }

  /**
   * No run is lost in the middle of the table: every run of equal non-zero
   * widths that begins at or after `s` and before the last index is written.
   */
  lemma {:induction false} ScanFromComplete(widths: seq<real>, s: nat, t: nat)
    requires s < |widths| <= 0x1_0000
    requires s <= t < |widths| - 1 && (t == s || RunStart(widths, t)) && widths[t] != 0.0
    ensures exists k :: 0 <= k < |ScanFrom(widths, s)| && ScanFrom(widths, s)[k].first == t
    decreases |widths| - s
  {
    var e := CloseIndex(widths, s, s + 1);
    var head := if widths[s] != 0.0 then [Same(s, e, widths[s])] else [];
    assert ScanFrom(widths, s) == head + ScanFrom(widths, e);
    if t == s {
      assert ScanFrom(widths, s)[0].first == t;
    } else {
      assert e <= t;
      ScanFromComplete(widths, e, t);
      var k :| 0 <= k < |ScanFrom(widths, e)| && ScanFrom(widths, e)[k].first == t;
      assert ScanFrom(widths, s)[|head| + k].first == t;
    }
  }

  /**
   * The properties of the written `/W` array as a whole: runs with non-zero
   * widths, starts strictly ascending, `first < last`; a final glyph whose
   * width differs from its predecessor never starts a run; and every run of
   * equal non-zero widths that starts before the last index is written.
   */
  lemma ScanProperties(widths: seq<real>)
    requires 0 < |widths| <= 0x1_0000
    ensures forall k :: 0 <= k < |ScanFrom(widths, 0)| ==> ScannedRun(widths, ScanFrom(widths, 0)[k])
    ensures forall j, k :: 0 <= j < k < |ScanFrom(widths, 0)| ==> ScanFrom(widths, 0)[j].first < ScanFrom(widths, 0)[k].first
    ensures forall k :: 0 <= k < |ScanFrom(widths, 0)| ==> ScanFrom(widths, 0)[k].first != |widths| - 1
    ensures forall t :: 0 <= t < |widths| - 1 && RunStart(widths, t) && widths[t] != 0.0 ==>
      exists k :: 0 <= k < |ScanFrom(widths, 0)| && ScanFrom(widths, 0)[k].first == t
  {
    ScanFromRuns(widths, 0);
    forall t | 0 <= t < |widths| - 1 && RunStart(widths, t) && widths[t] != 0.0
      ensures exists k :: 0 <= k < |ScanFrom(widths, 0)| && ScanFrom(widths, 0)[k].first == t
    {
      ScanFromComplete(widths, 0, t);
    }
  }

  /**
   * The scan as written misdescribes the table. For widths [0, 600, 0] it
   * writes `1 2 600`, giving CID 2 the width 600; for [600, 500] it writes
   * `0 1 600` and no run for CID 1, giving CID 1 the width 600.
   */
  lemma ScanMisdescribesWidths()
    ensures ScanFrom([0.0, 600.0, 0.0], 0) == [Same(1, 2, 600.0)]
    ensures Expand(ScanFrom([0.0, 600.0, 0.0], 0), 3) == [0.0, 600.0, 600.0]
    ensures ScanFrom([600.0, 500.0], 0) == [Same(0, 1, 600.0)]
    ensures Expand(ScanFrom([600.0, 500.0], 0), 2) == [600.0, 600.0]
  {
    var a := [0.0, 600.0, 0.0];
    assert CloseIndex(a, 0, 1) == 1;
    assert CloseIndex(a, 1, 2) == 2;
    assert ScanFrom(a, 1) == [Same(1, 2, 600.0)];
    var ea := Expand([Same(1, 2, 600.0)], 3);
    assert ea[0] == 0.0 && ea[1] == 600.0 && ea[2] == 600.0;
    var b := [600.0, 500.0];
    assert CloseIndex(b, 0, 1) == 1;
    var eb := Expand([Same(0, 1, 600.0)], 2);
    assert eb[0] == 600.0 && eb[1] == 600.0;
  }

  // ---------------------------------------------------------------------
  // The corrected encoder: inclusive ends, last run flushed
  // ---------------------------------------------------------------------

  /**
   * The end (exclusive) of the run of equal widths starting at `s`,
   * searching from `j`: the first index whose width differs from
   * `widths[s]`, or the length of the table.
   */
  function RunEnd(widths: seq<real>, s: nat, j: nat): (e: nat)
    requires s < j <= |widths|
    requires forall k :: s < k < j ==> widths[k] == widths[s]
    ensures j <= e <= |widths|
    ensures forall k :: s <= k < e ==> widths[k] == widths[s]
    ensures e == |widths| || widths[e] != widths[s]
    decreases |widths| - j
  {
    if j == |widths| || widths[j] != widths[s] then j else RunEnd(widths, s, j + 1)
  }

  /** The maximal runs of equal widths from `s` on, each written as `s e-1 width` when its width is non-zero. */
  function InclusiveRunsFrom(widths: seq<real>, s: nat): (runs: seq<WidthRun>)
    requires s <= |widths| <= 0x1_0000
    ensures forall k :: 0 <= k < |runs| ==>
      runs[k].width != 0.0 && s <= runs[k].first <= runs[k].last < |widths|
    decreases |widths| - s
  {
    if s == |widths| then []
    else
      var e := RunEnd(widths, s, s + 1);
      (if widths[s] != 0.0 then [Same(s, e - 1, widths[s])] else []) + InclusiveRunsFrom(widths, e)
  }

  /** Every run from InclusiveRunsFrom(widths, s) lies within [s, |widths|) and they do not overlap. */
  lemma {:induction false} InclusiveRunsBounded(widths: seq<real>, s: nat)
    requires s <= |widths| <= 0x1_0000
    ensures forall k :: 0 <= k < |InclusiveRunsFrom(widths, s)| ==>
      s <= InclusiveRunsFrom(widths, s)[k].first <= InclusiveRunsFrom(widths, s)[k].last < |widths| &&
      InclusiveRunsFrom(widths, s)[k].width != 0.0
    ensures forall j, k :: 0 <= j < k < |InclusiveRunsFrom(widths, s)| ==>
      InclusiveRunsFrom(widths, s)[j].last < InclusiveRunsFrom(widths, s)[k].first
    decreases |widths| - s
  {
    if s < |widths| {
      InclusiveRunsBounded(widths, RunEnd(widths, s, s + 1));
    }
  }

  /** A CID before every run's start is covered by none of them. */
  lemma {:induction false} WidthOfBeforeRuns(runs: seq<WidthRun>, cid: int)
    requires forall k :: 0 <= k < |runs| ==> cid < runs[k].first
    ensures WidthOf(runs, cid) == 0.0
  {
    if runs != [] {
      WidthOfBeforeRuns(runs[1..], cid);
    }
  }

  /** The corrected runs describe every CID from `s` on exactly. */
  lemma {:induction false} InclusiveRunsExact(widths: seq<real>, s: nat, cid: nat)
    requires s <= cid < |widths| <= 0x1_0000
    ensures WidthOf(InclusiveRunsFrom(widths, s), cid) == widths[cid]
    decreases |widths| - s
  {
    var e := RunEnd(widths, s, s + 1);
    var rest := InclusiveRunsFrom(widths, e);
    InclusiveRunsStep(widths, s, e);
    if widths[s] == 0.0 {
      assert InclusiveRunsFrom(widths, s) == rest;
      if cid >= e {
        InclusiveRunsExact(widths, e, cid);
      } else {
        InclusiveRunsBounded(widths, e);
        WidthOfBeforeRuns(rest, cid);
      }
    } else {
      var run := Same(s, e - 1, widths[s]);
      assert InclusiveRunsFrom(widths, s) == [run] + rest;
      WidthOfCons(run, rest, cid);
      if cid >= e {
        InclusiveRunsExact(widths, e, cid);
      }
    }
  }

  /** A reader looks at the first run, then at the others. */
  lemma WidthOfCons(run: WidthRun, rest: seq<WidthRun>, cid: int)
    ensures WidthOf([run] + rest, cid) == if run.first <= cid <= run.last then run.width else WidthOf(rest, cid)
  {
    assert ([run] + rest)[1..] == rest;
  }

  /** Round trip: the corrected `/W` array gives back the width table it was built from. */
  lemma InclusiveRunsRoundTrip(widths: seq<real>)
    requires |widths| <= 0x1_0000
    ensures Expand(InclusiveRunsFrom(widths, 0), |widths|) == widths
  {
    forall cid | 0 <= cid < |widths|
      ensures Expand(InclusiveRunsFrom(widths, 0), |widths|)[cid] == widths[cid]
    {
      InclusiveRunsExact(widths, 0, cid);
    }
  }

  /** The maximal run of equal widths at `s` ends just before `i`: what InclusiveRunsFrom writes next. */
  lemma InclusiveRunsStep(widths: seq<real>, s: nat, i: nat)
    requires s < i <= |widths| <= 0x1_0000
    requires forall k :: s < k < i ==> widths[k] == widths[s]
    requires i == |widths| || widths[i] != widths[s]
    ensures InclusiveRunsFrom(widths, s) == (if widths[s] != 0.0 then [Same(s, i - 1, widths[s])] else []) + InclusiveRunsFrom(widths, i)
  {
    assert RunEnd(widths, s, s + 1) == i;
  }

  /**
   * The scan with the two corrections: a run closed by a differing width
   * ends at `i - 1`, and the run still open when the table ends is written.
   */
  method EncodeWidthsInclusive(widths: seq<real>) returns (r: Result<seq<WidthRun>>)
    requires |widths| < 0x1_0000
    ensures |widths| == 0 ==> r == Err(EmptyWidthTable)
    ensures |widths| > 0 ==> r == Ok(InclusiveRunsFrom(widths, 0))
    ensures |widths| > 0 ==> Expand(r.value, |widths|) == widths
  {
    if |widths| == 0 {
      return Err(EmptyWidthTable);
    }
    var runs: seq<WidthRun> := [];
    var start: nat := 0;
    var startWidth := widths[0];
    for i := 1 to |widths|
      invariant start < i
      invariant startWidth == widths[start]
      invariant forall k :: start < k < i ==> widths[k] == startWidth
      invariant runs + InclusiveRunsFrom(widths, start) == InclusiveRunsFrom(widths, 0)
    {
      var w := widths[i];
      if w != startWidth {
        var closed := if startWidth != 0.0 then [Same(start, i - 1, startWidth)] else [];
        InclusiveLoopStep(widths, runs, start, i, InclusiveRunsFrom(widths, 0));
        runs := runs + closed;
        start := i;
        startWidth := w;
      }
    }
    var closed := if startWidth != 0.0 then [Same(start, |widths| - 1, startWidth)] else [];
    InclusiveLoopEnd(widths, runs, start, InclusiveRunsFrom(widths, 0));
    runs := runs + closed;
    InclusiveRunsRoundTrip(widths);
    return Ok(runs);
  }

  /** The corrected loop's invariant survives closing the run at `start` just before `i`. */
  lemma InclusiveLoopStep(widths: seq<real>, runs: seq<WidthRun>, start: nat, i: nat, all: seq<WidthRun>)
    requires start < i < |widths| <= 0x1_0000
    requires forall k :: start < k < i ==> widths[k] == widths[start]
    requires widths[i] != widths[start]
    requires runs + InclusiveRunsFrom(widths, start) == all
    ensures runs + (if widths[start] != 0.0 then [Same(start, i - 1, widths[start])] else []) + InclusiveRunsFrom(widths, i) == all
  {
    InclusiveRunsStep(widths, start, i);
    AppendRegroup(runs, if widths[start] != 0.0 then [Same(start, i - 1, widths[start])] else [], InclusiveRunsFrom(widths, i), all);
  }

  /** Regrouping a concatenation of three runs sequences. */
  lemma AppendRegroup(a: seq<WidthRun>, b: seq<WidthRun>, c: seq<WidthRun>, all: seq<WidthRun>)
    requires a + (b + c) == all
    ensures a + b + c == all
  {
  }

  /** After the corrected loop, writing the run still open completes the runs. */
  lemma InclusiveLoopEnd(widths: seq<real>, runs: seq<WidthRun>, start: nat, all: seq<WidthRun>)
    requires start < |widths| <= 0x1_0000
    requires forall k :: start < k < |widths| ==> widths[k] == widths[start]
    requires runs + InclusiveRunsFrom(widths, start) == all
    ensures runs + (if widths[start] != 0.0 then [Same(start, |widths| - 1, widths[start])] else []) == all
  {
    InclusiveRunsStep(widths, start, |widths|);
  }
}
