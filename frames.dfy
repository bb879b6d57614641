/**
 * Shared vocabulary for the tables the pipeline passes between stages:
 * boolean-mask row selection (pandas `df[mask]`) and the maximal contiguous
 * same-PatientID runs that the profiler, the target extractor and the tensor
 * builder all walk.
 */
module Frames {

  /** A table row once the categorical columns are encoded: the PatientID and
      every other column in table order (`cols[0]` is VisitDay, `cols[1..31]`
      the thirty symptom scores, then the one-hot blocks). */
  datatype Row<T> = Row(pid: int, cols: seq<T>)

  /** A visit as read from a study table, reduced to the columns the pipeline
      keeps or uses: PatientID, VisitDay, Country, TxGroup and the thirty
      symptom scores P1..P7, N1..N7, G1..G16. */
  datatype Visit = Visit(pid: int, day: int, country: string, txGroup: string, scores: seq<int>)

  // ---------------------------------------------------------------------
  // Boolean-mask selection
  // ---------------------------------------------------------------------

  /** The rows whose mask entry is true, in table order. */
  function Select<T>(rows: seq<T>, mask: seq<bool>): (r: seq<T>)
    requires |mask| == |rows|
    ensures |r| <= |rows|
  {
    if |rows| == 0 then []
    else
      Select(rows[..|rows| - 1], mask[..|mask| - 1])
        + (if mask[|mask| - 1] then [rows[|rows| - 1]] else [])
  }

  /** Strictly increasing positions, each inside a table of length n. */
  predicate Increasing(idx: seq<nat>, n: nat)
  {
    && (forall k :: 0 <= k < |idx| ==> idx[k] < n)
    && (forall a, b :: 0 <= a < b < |idx| ==> idx[a] < idx[b])
  }

  /** The positions at which the mask is true, in increasing order. */
  function TrueIndices(mask: seq<bool>): (idx: seq<nat>)
    ensures Increasing(idx, |mask|)
    ensures forall k :: 0 <= k < |idx| ==> mask[idx[k]]
    ensures forall i :: 0 <= i < |mask| && mask[i] ==> i in idx
  {
    if |mask| == 0 then []
    else
      TrueIndices(mask[..|mask| - 1]) + (if mask[|mask| - 1] then [|mask| - 1] else [])
  }

  /** `out` is the subsequence of `rows` taken at the increasing positions `idx`. */
  ghost predicate SubsequenceAt<T>(out: seq<T>, rows: seq<T>, idx: seq<nat>)
  {
    && |idx| == |out|
    && Increasing(idx, |rows|)
    && forall k :: 0 <= k < |idx| ==> out[k] == rows[idx[k]]
  }

  /** Selecting by a mask keeps exactly the rows at the mask's true positions,
      in their original order. */
  lemma {:induction false} SelectAt<T>(rows: seq<T>, mask: seq<bool>)
    requires |mask| == |rows|
    ensures SubsequenceAt(Select(rows, mask), rows, TrueIndices(mask))
  {
    if |rows| > 0 {
      SelectAt(rows[..|rows| - 1], mask[..|mask| - 1]);
    }
  }

  /** An all-true mask selects the whole table. */
  lemma {:induction false} SelectAll<T>(rows: seq<T>, mask: seq<bool>)
    requires |mask| == |rows|
    requires forall i :: 0 <= i < |mask| ==> mask[i]
    ensures Select(rows, mask) == rows
  {
    if |rows| > 0 {
      SelectAll(rows[..|rows| - 1], mask[..|mask| - 1]);
      assert rows == rows[..|rows| - 1] + [rows[|rows| - 1]];
    }
  }

  /** Taking a subsequence of a subsequence is a subsequence of the original. */
  lemma SubsequenceCompose<T>(a: seq<T>, b: seq<T>, c: seq<T>, ab: seq<nat>, bc: seq<nat>)
    requires SubsequenceAt(b, a, ab)
    requires SubsequenceAt(c, b, bc)
    ensures SubsequenceAt(c, a, Compose(ab, bc))
  {
  }

  /** Positions in `a` of the elements picked by `bc` out of the positions `ab`. */
  function Compose(ab: seq<nat>, bc: seq<nat>): (r: seq<nat>)
    requires forall k :: 0 <= k < |bc| ==> bc[k] < |ab|
    ensures |r| == |bc|
    ensures forall k :: 0 <= k < |bc| ==> r[k] == ab[bc[k]]
  {
    seq(|bc|, k requires 0 <= k < |bc| => ab[bc[k]])
  }

  // ---------------------------------------------------------------------
  // Maximal contiguous runs of one PatientID
  // ---------------------------------------------------------------------

  function Pids<T>(rows: seq<Row<T>>): (p: seq<int>)
    ensures |p| == |rows| && forall i :: 0 <= i < |rows| ==> p[i] == rows[i].pid
  {
    seq(|rows|, i requires 0 <= i < |rows| => rows[i].pid)
  }

  /** The runs of consecutive rows sharing a PatientID among the first `n`
      rows, in table order: the scan the source performs with
      `cur_patient_id`, one row at a time. A PatientID that reappears after
      another patient starts a new run. */
  function RunsUpTo<T>(rows: seq<Row<T>>, n: nat): (gs: seq<seq<Row<T>>>)
    requires n <= |rows|
    ensures |gs| == 0 <==> n == 0
    ensures |gs| <= n
  {
    if n == 0 then [] else AddRow(RunsUpTo(rows, n - 1), rows[n - 1])
  }

  /** The runs of the whole table. */
  function Groups<T>(rows: seq<Row<T>>): (gs: seq<seq<Row<T>>>)
    ensures |gs| == 0 <==> |rows| == 0
    ensures |gs| <= |rows|
  {
    RunsUpTo(rows, |rows|)
  }

  /** One step of the scan: a row with the current run's PatientID extends
      that run, any other row starts a new one. */
  function AddRow<T>(gs: seq<seq<Row<T>>>, r: Row<T>): (gs': seq<seq<Row<T>>>)
    ensures |gs'| == if Continues(gs, r) then |gs| else |gs| + 1
  {
    if Continues(gs, r) then gs[..|gs| - 1] + [gs[|gs| - 1] + [r]] else gs + [[r]]
  }

  /** The row belongs to the run in progress. */
  predicate Continues<T>(gs: seq<seq<Row<T>>>, r: Row<T>)
  {
    |gs| > 0 && |gs[|gs| - 1]| > 0 && gs[|gs| - 1][0].pid == r.pid
  }

  /** The groups laid end to end. */
  function Flatten<T>(gs: seq<seq<T>>): seq<T>
  {
    if |gs| == 0 then [] else Flatten(gs[..|gs| - 1]) + gs[|gs| - 1]
  }

  /** A run: non-empty, one PatientID throughout. */
  predicate Uniform<T>(g: seq<Row<T>>)
  {
    |g| > 0 && forall j :: 0 <= j < |g| ==> g[j].pid == g[0].pid
  }

  /** Every group is a run and no two adjacent groups share a PatientID, so
      no run can be extended: the runs are maximal. */
  predicate MaximalRuns<T>(gs: seq<seq<Row<T>>>)
  {
    && (forall k :: 0 <= k < |gs| ==> Uniform(gs[k]))
    && (forall k :: 0 <= k < |gs| - 1 ==> gs[k][0].pid != gs[k + 1][0].pid)
  }

  /** Flattening distributes over appending one more group. */
  lemma FlattenSnoc<T>(gs: seq<seq<T>>, g: seq<T>)
    ensures Flatten(gs + [g]) == Flatten(gs) + g
  {
    assert (gs + [g])[..|gs|] == gs;
  }

  /** A new run may start after maximal runs when its PatientID differs from
      the last one. */
  lemma MaximalRunsStart<T>(gs: seq<seq<Row<T>>>, r: Row<T>)
    requires MaximalRuns(gs)
    requires |gs| > 0 ==> gs[|gs| - 1][0].pid != r.pid
    ensures MaximalRuns(gs + [[r]])
  {
    var gs' := gs + [[r]];
    forall k | 0 <= k < |gs'| ensures Uniform(gs'[k]) {
      if k < |gs| { assert gs'[k] == gs[k]; }
    }
  }

  /** A row with the last run's PatientID extends that run. */
  lemma MaximalRunsExtend<T>(gs: seq<seq<Row<T>>>, r: Row<T>)
    requires MaximalRuns(gs) && |gs| > 0
    requires gs[|gs| - 1][0].pid == r.pid
    ensures MaximalRuns(gs[..|gs| - 1] + [gs[|gs| - 1] + [r]])
  {
    var last := gs[|gs| - 1];
    var gs' := gs[..|gs| - 1] + [last + [r]];
    assert Uniform(last + [r]) by {
      forall j | 0 <= j < |last| + 1 ensures (last + [r])[j].pid == last[0].pid {
        if j < |last| { assert (last + [r])[j] == last[j]; }
      }
    }
    forall k | 0 <= k < |gs'| ensures Uniform(gs'[k]) {
      if k < |gs| - 1 { assert gs'[k] == gs[k]; }
    }
    forall k | 0 <= k < |gs'| - 1 ensures gs'[k][0].pid != gs'[k + 1][0].pid {
      assert gs'[k] == gs[k];
      assert gs'[k + 1][0].pid == gs[k + 1][0].pid;
    }
  }

  /** The last row of the flattened groups is the last row of the last group,
      so it carries the last group's PatientID. */
  lemma LastOfFlatten<T>(gs: seq<seq<Row<T>>>)
    requires |gs| > 0 && MaximalRuns(gs)
    ensures |Flatten(gs)| > 0
    ensures Flatten(gs)[|Flatten(gs)| - 1] == gs[|gs| - 1][|gs[|gs| - 1]| - 1]
    ensures Flatten(gs)[|Flatten(gs)| - 1].pid == gs[|gs| - 1][0].pid
  {
    assert gs == gs[..|gs| - 1] + [gs[|gs| - 1]];
    FlattenSnoc(gs[..|gs| - 1], gs[|gs| - 1]);
  }

  /** The scan of the first `n` rows depends on those rows alone. */
  lemma {:induction false} RunsOfPrefix<T>(a: seq<Row<T>>, b: seq<Row<T>>, n: nat)
    requires n <= |a| && n <= |b| && a[..n] == b[..n]
    ensures RunsUpTo(a, n) == RunsUpTo(b, n)
  {
    if n > 0 {
      assert a[n - 1] == a[..n][n - 1] == b[..n][n - 1] == b[n - 1];
      assert a[..n - 1] == a[..n][..n - 1] == b[..n][..n - 1] == b[..n - 1];
      RunsOfPrefix(a, b, n - 1);
    }
  }

  /** The runs of a prefix of the table are the runs scanned so far. */
  lemma GroupsOfPrefix<T>(rows: seq<Row<T>>, n: nat)
    requires n <= |rows|
    ensures Groups(rows[..n]) == RunsUpTo(rows, n)
  {
    assert rows[..n][..n] == rows[..n];
    RunsOfPrefix(rows[..n], rows, n);
  }

  /** One step of the scan keeps the runs maximal and their rows those
      scanned so far. */
  lemma AddRowPartition<T>(prev: seq<seq<Row<T>>>, r: Row<T>)
    requires MaximalRuns(prev)
    ensures Flatten(AddRow(prev, r)) == Flatten(prev) + [r]
    ensures MaximalRuns(AddRow(prev, r))
  {
    if Continues(prev, r) {
      var init := prev[..|prev| - 1];
      var last := prev[|prev| - 1];
      assert prev == init + [last];
      FlattenSnoc(init, last);
      FlattenSnoc(init, last + [r]);
      MaximalRunsExtend(prev, r);
    } else {
      FlattenSnoc(prev, [r]);
      MaximalRunsStart(prev, r);
    }
  }

  /** The scan cuts the first `n` rows into maximal runs that put back
      together give those rows. */
  lemma {:induction false} RunsPartition<T>(rows: seq<Row<T>>, n: nat)
    requires n <= |rows|
    ensures Flatten(RunsUpTo(rows, n)) == rows[..n]
    ensures MaximalRuns(RunsUpTo(rows, n))
  {
    if n > 0 {
      RunsPartition(rows, n - 1);
      AddRowPartition(RunsUpTo(rows, n - 1), rows[n - 1]);
      assert rows[..n] == rows[..n - 1] + [rows[n - 1]];
    }
  }

  /** The scan cuts the table into maximal runs that put back together give
      the table. */
  lemma GroupsPartition<T>(rows: seq<Row<T>>)
    ensures Flatten(Groups(rows)) == rows
    ensures MaximalRuns(Groups(rows))
  {
    RunsPartition(rows, |rows|);
    assert rows[..|rows|] == rows;
  }

  /** The first run begins with the first row scanned. */
  lemma {:induction false} RunsFirst<T>(rows: seq<Row<T>>, n: nat)
    requires 0 < n <= |rows|
    ensures |RunsUpTo(rows, n)| > 0 && |RunsUpTo(rows, n)[0]| > 0 && RunsUpTo(rows, n)[0][0] == rows[0]
  {
    var r := rows[n - 1];
    if n == 1 {
      assert AddRow([], r) == [[r]];
    } else {
      RunsFirst(rows, n - 1);
      var gs := RunsUpTo(rows, n - 1);
      if Continues(gs, r) && |gs| == 1 {
        assert AddRow(gs, r)[0] == gs[0] + [r];
      } else {
        assert AddRow(gs, r)[0] == gs[0];
      }
    }
  }

  /** The first run begins with the table's first row. */
  lemma FirstOfGroups<T>(rows: seq<Row<T>>)
    requires |rows| > 0
    ensures |Groups(rows)| > 0 && |Groups(rows)[0]| > 0 && Groups(rows)[0][0] == rows[0]
  {
    RunsFirst(rows, |rows|);
  }

  /** No run is empty. */
  lemma GroupsNonEmpty<T>(rows: seq<Row<T>>)
    ensures forall k :: 0 <= k < |Groups(rows)| ==> |Groups(rows)[k]| > 0
  {
    GroupsPartition(rows);
  }

  /** Dropping the last run keeps the others maximal. */
  lemma MaximalRunsInit<T>(gs: seq<seq<Row<T>>>)
    requires MaximalRuns(gs) && |gs| > 0
    ensures MaximalRuns(gs[..|gs| - 1])
  {
    var init := gs[..|gs| - 1];
    forall k | 0 <= k < |init| ensures Uniform(init[k]) { assert init[k] == gs[k]; }
  }

  /** Dropping the last row of a last run that has more than one keeps the
      runs maximal. */
  lemma MaximalRunsShorten<T>(gs: seq<seq<Row<T>>>)
    requires MaximalRuns(gs) && |gs| > 0 && |gs[|gs| - 1]| > 1
    ensures var g := gs[|gs| - 1]; MaximalRuns(gs[..|gs| - 1] + [g[..|g| - 1]])
  {
    var init, g := gs[..|gs| - 1], gs[|gs| - 1];
    var gs' := init + [g[..|g| - 1]];
    forall k | 0 <= k < |gs'| ensures Uniform(gs'[k]) {
      if k < |init| { assert gs'[k] == gs[k]; }
    }
    forall k | 0 <= k < |gs'| - 1 ensures gs'[k][0].pid != gs'[k + 1][0].pid {
      assert gs'[k] == gs[k];
      assert gs'[k + 1][0] == gs[k + 1][0];
    }
  }

  /** The runs with their last row taken away: the last run loses its last
      row, and disappears when that was its only one. */
  function DropLast<T>(gs: seq<seq<Row<T>>>): seq<seq<Row<T>>>
    requires |gs| > 0 && |gs[|gs| - 1]| > 0
  {
    var g := gs[|gs| - 1];
    if |g| == 1 then gs[..|gs| - 1] else gs[..|gs| - 1] + [g[..|g| - 1]]
  }

  /** Taking the last row away from the runs takes it away from the rows. */
  lemma DropLastFlatten<T>(gs: seq<seq<Row<T>>>)
    requires MaximalRuns(gs) && |gs| > 0
    ensures var f, g := Flatten(gs), gs[|gs| - 1];
      |f| > 0 && Flatten(DropLast(gs)) == f[..|f| - 1] && f[|f| - 1] == g[|g| - 1]
  {
    var init, g := gs[..|gs| - 1], gs[|gs| - 1];
    var r := g[|g| - 1];
    assert gs == init + [g];
    FlattenSnoc(init, g);
    if |g| == 1 {
      assert g == [r];
    } else {
      assert g == g[..|g| - 1] + [r];
      FlattenSnoc(init, g[..|g| - 1]);
    }
  }

  /** Taking the last row away keeps the runs maximal. */
  lemma DropLastMaximal<T>(gs: seq<seq<Row<T>>>)
    requires MaximalRuns(gs) && |gs| > 0
    ensures MaximalRuns(DropLast(gs))
  {
    if |gs[|gs| - 1]| == 1 {
      MaximalRunsInit(gs);
    } else {
      MaximalRunsShorten(gs);
    }
  }

  /** Scanning the last row again puts back the runs it was taken from. */
  lemma DropLastAddRow<T>(gs: seq<seq<Row<T>>>)
    requires MaximalRuns(gs) && |gs| > 0
    ensures var g := gs[|gs| - 1]; AddRow(DropLast(gs), g[|g| - 1]) == gs
  {
    var init, g := gs[..|gs| - 1], gs[|gs| - 1];
    var r := g[|g| - 1];
    assert gs == init + [g];
    if |g| == 1 {
      assert g == [r];
      if |init| > 0 {
        assert init[|init| - 1] == gs[|gs| - 2];
      }
      StartRun(init, r);
    } else {
      ContinueRun(init, g[..|g| - 1], r);
      assert g == g[..|g| - 1] + [r];
    }
  }

  /** The maximal runs are unique: any cutting of the table into maximal runs
      is the one the scan produces. */
  lemma {:induction false} GroupsUnique<T>(rows: seq<Row<T>>, gs: seq<seq<Row<T>>>)
    requires MaximalRuns(gs) && Flatten(gs) == rows
    ensures gs == Groups(rows)
    decreases |rows|
  {
    if |gs| > 0 {
      DropLastFlatten(gs);
      DropLastMaximal(gs);
      DropLastAddRow(gs);
      GroupsUnique(rows[..|rows| - 1], DropLast(gs));
      GroupsOfPrefix(rows, |rows| - 1);
    }
  }

  /** `rows[start..e]` all carry the PatientID of `rows[start]`. */
  predicate SamePatient<T>(rows: seq<Row<T>>, start: nat, e: nat)
    requires start <= e <= |rows|
  {
    forall j :: start <= j < e ==> rows[j].pid == rows[start].pid
  }

  /** A single row is a run of its own patient. */
  lemma SamePatientOne<T>(rows: seq<Row<T>>, start: nat)
    requires start < |rows|
    ensures SamePatient(rows, start, start + 1)
  {
  }

  /** A run grows by the next row when that row has the run's patient. */
  lemma SamePatientGrow<T>(rows: seq<Row<T>>, start: nat, e: nat)
    requires start < e < |rows| && SamePatient(rows, start, e)
    requires rows[e].pid == rows[e - 1].pid
    ensures SamePatient(rows, start, e + 1)
  {
  }

  /** The last run scanned carries the PatientID of the last row scanned. */
  lemma RunsLastPid<T>(rows: seq<Row<T>>, n: nat)
    requires 0 < n <= |rows|
    ensures var gs := RunsUpTo(rows, n);
      |gs| > 0 && |gs[|gs| - 1]| > 0 && gs[|gs| - 1][0].pid == rows[n - 1].pid
  {
    var gs, r := RunsUpTo(rows, n - 1), rows[n - 1];
    if Continues(gs, r) {
      assert (gs[|gs| - 1] + [r])[0] == gs[|gs| - 1][0];
    }
  }

  /** A row whose PatientID differs from the row before it starts a run. */
  lemma RunStarts<T>(rows: seq<Row<T>>, start: nat)
    requires start < |rows|
    requires start > 0 ==> rows[start - 1].pid != rows[start].pid
    ensures RunsUpTo(rows, start + 1) == RunsUpTo(rows, start) + [rows[start..start + 1]]
  {
    if start > 0 {
      RunsLastPid(rows, start);
    }
    StartRun(RunsUpTo(rows, start), rows[start]);
    assert rows[start..start + 1] == [rows[start]];
  }

  /** A row with the PatientID of the open run `rows[start..e - 1]` extends it. */
  lemma RunContinues<T>(rows: seq<Row<T>>, start: nat, e: nat)
    requires start < e - 1 && e <= |rows| && rows[e - 1].pid == rows[start].pid
    requires RunsUpTo(rows, e - 1) == RunsUpTo(rows, start) + [rows[start..e - 1]]
    ensures RunsUpTo(rows, e) == RunsUpTo(rows, start) + [rows[start..e]]
  {
    ContinueRun(RunsUpTo(rows, start), rows[start..e - 1], rows[e - 1]);
    assert rows[start..e] == rows[start..e - 1] + [rows[e - 1]];
  }

  /** Extending a run: when `rows[start..e]` is one patient's run that begins
      at a run boundary, the runs of the first `e` rows are those of the
      first `start` rows followed by that run. */
  lemma {:induction false} RunsExtend<T>(rows: seq<Row<T>>, start: nat, e: nat)
    requires start < e <= |rows|
    requires SamePatient(rows, start, e)
    requires start > 0 ==> rows[start - 1].pid != rows[start].pid
    ensures RunsUpTo(rows, e) == RunsUpTo(rows, start) + [rows[start..e]]
    decreases e
  {
    if e - 1 == start {
      RunStarts(rows, start);
    } else {
      assert rows[e - 1].pid == rows[start].pid;
      RunsExtend(rows, start, e - 1);
      RunContinues(rows, start, e);
    }
  }

  lemma StartRun<T>(before: seq<seq<Row<T>>>, r: Row<T>)
    requires |before| > 0 ==> |before[|before| - 1]| > 0 && before[|before| - 1][0].pid != r.pid
    ensures AddRow(before, r) == before + [[r]]
  {
  }

  lemma ContinueRun<T>(before: seq<seq<Row<T>>>, g: seq<Row<T>>, r: Row<T>)
    requires |g| > 0 && g[0].pid == r.pid
    ensures AddRow(before + [g], r) == before + [g + [r]]
  {
    assert (before + [g])[..|before|] == before;
  }

  /** Two run lists with the same number of runs, the same run lengths and
      the same PatientID at the head of each run. */
  predicate SameShape<T, U>(ga: seq<seq<Row<T>>>, gb: seq<seq<Row<U>>>)
  {
    && |ga| == |gb|
    && forall k :: 0 <= k < |ga| ==>
         |ga[k]| == |gb[k]| && |ga[k]| > 0 && ga[k][0].pid == gb[k][0].pid
  }

  lemma AddRowShape<T, U>(ga: seq<seq<Row<T>>>, gb: seq<seq<Row<U>>>, ra: Row<T>, rb: Row<U>)
    requires SameShape(ga, gb) && ra.pid == rb.pid
    ensures SameShape(AddRow(ga, ra), AddRow(gb, rb))
  {
    if Continues(ga, ra) {
      var ga': seq<seq<Row<T>>>, gb': seq<seq<Row<U>>> := AddRow(ga, ra), AddRow(gb, rb);
      forall k | 0 <= k < |ga'|
        ensures |ga'[k]| == |gb'[k]| && |ga'[k]| > 0 && ga'[k][0].pid == gb'[k][0].pid
      {
        if k < |ga| - 1 {
          assert ga'[k] == ga[k] && gb'[k] == gb[k];
        }
      }
    }
  }

  /** The scans of two tables with the same PatientIDs take the same shape. */
  lemma {:induction false} RunsFollowPids<T, U>(a: seq<Row<T>>, b: seq<Row<U>>, n: nat)
    requires n <= |a| && Pids(a) == Pids(b)
    ensures SameShape(RunsUpTo(a, n), RunsUpTo(b, n))
  {
    if n > 0 {
      RunsFollowPids(a, b, n - 1);
      assert a[n - 1].pid == Pids(a)[n - 1] == Pids(b)[n - 1] == b[n - 1].pid;
      AddRowShape(RunsUpTo(a, n - 1), RunsUpTo(b, n - 1), a[n - 1], b[n - 1]);
    }
  }

  /** The run structure depends on the PatientID column alone: two tables
      with the same PatientIDs have runs of the same lengths. */
  lemma GroupsFollowPids<T, U>(a: seq<Row<T>>, b: seq<Row<U>>)
    requires Pids(a) == Pids(b)
    ensures SameShape(Groups(a), Groups(b))
  {
    RunsFollowPids(a, b, |a|);
  }
}
