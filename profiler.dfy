/**
 * `count_max_occur`: the length of the longest run of consecutive rows of one
 * patient other than the final run, and that patient's ID; the length fixes
 * the padding length of the input tensor. `LongestRun` is the length the
 * source's comment describes, which also counts the final run.
 */
module SequenceProfiler {
  import opened Frames

  /** The longest of the runs and the PatientID of the first run that is
      that long, or (0, sentinel) when there are no runs. */
  function Longest<T>(gs: seq<seq<Row<T>>>, sentinel: int): (nat, int)
  {
    if |gs| == 0 then (0, sentinel)
    else
      var best := Longest(gs[..|gs| - 1], sentinel);
      var g := gs[|gs| - 1];
      if best.0 < |g| then (|g|, g[0].pid) else best
  }

  /** What the source returns: the scan compares a run with the best so far
      only when the next run starts, so the final run is never compared;
      the ID starts out as the value in column 2 of the first row (the first
      symptom score), and is returned as such when no run is ever compared. */
  function MaxOccur(rows: seq<Row<int>>): (r: (nat, int))
    requires |rows| > 0 && |rows[0].cols| > 1
    ensures |Groups(rows)| == 1 ==> r == (0, rows[0].cols[1])
    ensures forall k :: 0 <= k < |Groups(rows)| - 1 ==> |Groups(rows)[k]| <= r.0
  {
    var gs := Groups(rows);
    GroupsPartition(rows);
    LongestIsMaximum(gs[..|gs| - 1], rows[0].cols[1]);
    Longest(gs[..|gs| - 1], rows[0].cols[1])
  }

  /** The longest run length bounds every run and is attained by a run whose
      PatientID is reported; of several such runs the first wins. */
  lemma {:induction false} LongestIsMaximum<T>(gs: seq<seq<Row<T>>>, sentinel: int)
    requires forall k :: 0 <= k < |gs| ==> |gs[k]| > 0
    ensures forall k :: 0 <= k < |gs| ==> |gs[k]| <= Longest(gs, sentinel).0
    ensures |gs| == 0 ==> Longest(gs, sentinel) == (0, sentinel)
    ensures |gs| > 0 ==> exists k ::
              && 0 <= k < |gs| && 0 < |gs[k]| == Longest(gs, sentinel).0
              && Longest(gs, sentinel).1 == gs[k][0].pid
              && forall j :: 0 <= j < k ==> |gs[j]| < Longest(gs, sentinel).0
  {
    if |gs| > 0 {
      var init: seq<seq<Row<T>>> := gs[..|gs| - 1];
      LongestIsMaximum(init, sentinel);
      var best := Longest(init, sentinel);
      if best.0 >= |gs[|gs| - 1]| && |init| > 0 {
        var k :| 0 <= k < |init| && |init[k]| == best.0 && best.1 == init[k][0].pid
          && forall j :: 0 <= j < k ==> |init[j]| < best.0;
        assert gs[k] == init[k];
      }
    }
  }

  /** `count_max_occur` as written: with two runs or more it reports the
      longest run other than the final one and the first patient attaining
      it; with a single run it reports 0 and the first row's column-2 value. */
  lemma MaxOccurExcludesFinalRun(rows: seq<Row<int>>)
    requires |rows| > 0 && |rows[0].cols| > 1
    ensures var gs, r := Groups(rows), MaxOccur(rows);
      && (|gs| == 1 ==> r == (0, rows[0].cols[1]))
      && (|gs| >= 2 ==>
            && (forall k :: 0 <= k < |gs| - 1 ==> |gs[k]| <= r.0)
            && exists k ::
                 && 0 <= k < |gs| - 1 && 0 < |gs[k]| == r.0 && r.1 == gs[k][0].pid
                 && forall j :: 0 <= j < k ==> |gs[j]| < r.0)
  {
    var gs := Groups(rows);
    var closed := gs[..|gs| - 1];
    GroupsNonEmpty(rows);
    LongestIsMaximum(closed, rows[0].cols[1]);
    if |gs| >= 2 {
      var r := MaxOccur(rows);
      forall k | 0 <= k < |gs| - 1 ensures |gs[k]| <= r.0 {
        assert closed[k] == gs[k];
      }
      var k :| 0 <= k < |closed| && 0 < |closed[k]| == r.0 && r.1 == closed[k][0].pid
        && forall j :: 0 <= j < k ==> |closed[j]| < r.0;
      assert closed[k] == gs[k];
      forall j | 0 <= j < k ensures |gs[j]| < r.0 {
        assert closed[j] == gs[j];
      }
    }
  }

  lemma ScanStep<T>(gs: seq<seq<Row<T>>>, r: Row<T>, sentinel: int)
    requires |gs| > 0 && |gs[|gs| - 1]| > 0
    ensures var gs', last := AddRow(gs, r), gs[|gs| - 1];
      var best := Longest(gs[..|gs| - 1], sentinel);
      && |gs'| > 0 && gs'[|gs'| - 1][0].pid == r.pid
      && (last[0].pid == r.pid ==>
            |gs'[|gs'| - 1]| == |last| + 1 && Longest(gs'[..|gs'| - 1], sentinel) == best)
      && (last[0].pid != r.pid ==>
            |gs'[|gs'| - 1]| == 1
            && Longest(gs'[..|gs'| - 1], sentinel)
               == if best.0 < |last| then (|last|, last[0].pid) else best)
  {
    var gs' := AddRow(gs, r);
    if Continues(gs, r) {
      assert gs'[..|gs'| - 1] == gs[..|gs| - 1];
    } else {
      assert gs'[..|gs'| - 1] == gs;
    }
  }

  method CountMaxOccur(rows: seq<Row<int>>) returns (maxCount: nat, maxId: int)
    requires |rows| > 0 && |rows[0].cols| > 1
    ensures (maxCount, maxId) == MaxOccur(rows)
  {
    var curId := rows[0].cols[1];
    var curCount: nat := 0;
    maxCount := 0;
    maxId := curId;
    var i := 0;
    ghost var gs: seq<seq<Row<int>>> := [];
    while i < |rows|
      invariant 0 <= i <= |rows|
      invariant gs == RunsUpTo(rows, i)
      invariant i == 0 ==> curId == maxId == rows[0].cols[1] && curCount == maxCount == 0
      invariant i > 0 ==>
        && |gs| > 0 && |gs[|gs| - 1]| == curCount > 0
        && gs[|gs| - 1][0].pid == curId
        && (maxCount, maxId) == Longest(gs[..|gs| - 1], rows[0].cols[1])
    {
      if i > 0 {
        ScanStep(gs, rows[i], rows[0].cols[1]);
      }
      gs := AddRow(gs, rows[i]);
      if rows[i].pid == curId {
        curCount := curCount + 1;
      } else {
        if maxCount < curCount {
          maxCount := curCount;
          maxId := curId;
        }
        curId := rows[i].pid;
        curCount := 1;
      }
      i := i + 1;
    }
  }

  // ---------------------------------------------------------------------
  // The evidently intended padding length: the longest of all runs
  // ---------------------------------------------------------------------

  /** The longest run of the whole table, the final run included. */
  function LongestRun<T>(rows: seq<Row<T>>): nat
  {
    Longest(Groups(rows), 0).0
  }

  /** Every run, the final one included, fits in the longest run length, and
      some run attains it. */
  lemma LongestRunIsMaximum<T>(rows: seq<Row<T>>)
    ensures forall k :: 0 <= k < |Groups(rows)| ==> |Groups(rows)[k]| <= LongestRun(rows)
    ensures |rows| > 0 ==> exists k :: 0 <= k < |Groups(rows)| && |Groups(rows)[k]| == LongestRun(rows)
  {
    GroupsNonEmpty(rows);
    LongestIsMaximum(Groups(rows), 0);
  }

  /** The runs of the table of `MaxOccurMissesFinalRun`. */
  lemma RunsOfShortFirstTable()
    ensures var a, b := Row(1, [0, 7]), Row(2, [0, 7]);
      Groups([a, b, b]) == [[a], [b, b]]
  {
    var a, b := Row(1, [0, 7]), Row(2, [0, 7]);
    var rows := [a, b, b];
    assert RunsUpTo(rows, 1) == [[a]];
    assert RunsUpTo(rows, 2) == [[a], [b]];
    assert Continues([[a], [b]], b);
    assert [[a], [b]][..1] == [[a]];
    assert [[a], [b]][1] + [b] == [b, b];
    assert RunsUpTo(rows, 3) == [[a], [b, b]];
  }

  /** A table whose longest run is its last: patient 1 with one visit, then
      patient 2 with two. The source reports 1 (patient 1), the longest run
      is 2. */
  lemma MaxOccurMissesFinalRun()
    ensures var rows := [Row(1, [0, 7]), Row(2, [0, 7]), Row(2, [0, 7])];
      MaxOccur(rows) == (1, 1) && LongestRun(rows) == 2
  {
    var a, b := Row(1, [0, 7]), Row(2, [0, 7]);
    RunsOfShortFirstTable();
    var gs := Groups([a, b, b]);
    assert gs[..1] == [[a]] && [[a]][..0] == [];
    assert Longest([[a]], 7) == (1, 1);
    assert Longest([[a]], 0) == (1, 1);
    assert Longest(gs, 0) == (2, 2);
  }
}
