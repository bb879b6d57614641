/**
 * `extract_y`: the forecast target of each run of one patient's visits is
 * the thirty symptom scores of the run's last visit.
 */
module TargetExtraction {
  import opened Frames

  /** `df.iloc[i, 2:32]`: table columns 2 to 31, that is `cols[1..31]`, cut
      short like any pandas slice when the row is narrower. */
  function Target<T>(r: Row<T>): (t: seq<T>)
    ensures |r.cols| >= 31 ==> |t| == 30 && forall j :: 0 <= j < 30 ==> t[j] == r.cols[j + 1]
    ensures |t| <= 30
  {
    var lo := if |r.cols| < 1 then |r.cols| else 1;
    var hi := if |r.cols| < 31 then |r.cols| else 31;
    r.cols[lo..hi]
  }

  /** The target of a run: the scores of its last visit. */
  function LastTarget<T>(g: seq<Row<T>>): (t: seq<T>)
    ensures |g| > 0 ==> t == Target(g[|g| - 1])
  {
    if |g| == 0 then [] else Target(g[|g| - 1])
  }

  /** The target rows of the given runs, one per run, in run order. */
  function RunTargets<T>(gs: seq<seq<Row<T>>>): (y: seq<seq<T>>)
    ensures |y| == |gs|
  {
    if |gs| == 0 then [] else RunTargets(gs[..|gs| - 1]) + [LastTarget(gs[|gs| - 1])]
  }

  /** Entry `k` of the targets is the target of run `k`. */
  lemma {:induction false} RunTargetsAt<T>(gs: seq<seq<Row<T>>>, k: nat)
    requires k < |gs|
    ensures RunTargets(gs)[k] == LastTarget(gs[k])
    decreases |gs|
  {
    if k < |gs| - 1 {
      RunTargetsAt(gs[..|gs| - 1], k);
    }
  }

  /** The targets of the runs scanned up to the end of the run
      `rows[start..e]` are those scanned before it and its own target. */
  lemma TargetsExtend<T>(rows: seq<Row<T>>, start: nat, e: nat)
    requires start < e <= |rows| && SamePatient(rows, start, e)
    requires start > 0 ==> rows[start - 1].pid != rows[start].pid
    ensures RunTargets(RunsUpTo(rows, e)) == RunTargets(RunsUpTo(rows, start)) + [Target(rows[e - 1])]
  {
    RunsExtend(rows, start, e);
    var gs, g := RunsUpTo(rows, start), rows[start..e];
    assert (gs + [g])[..|gs|] == gs;
    assert g[|g| - 1] == rows[e - 1];
  }

  /** Closing the run `rows[start..e]` appends its last visit's target. */
  lemma CloseRun<T>(rows: seq<Row<T>>, start: nat, e: nat, y: seq<seq<T>>)
    requires start < e <= |rows| && SamePatient(rows, start, e)
    requires start > 0 ==> rows[start - 1].pid != rows[start].pid
    requires y == RunTargets(Groups(rows[..start]))
    ensures y + [Target(rows[e - 1])] == RunTargets(Groups(rows[..e]))
  {
    GroupsOfPrefix(rows, start);
    GroupsOfPrefix(rows, e);
    TargetsExtend(rows, start, e);
  }

  /** The state of the scan at the top of iteration `i`: the runs before
      `start` have their targets in `y`, and the run that began at `start`
      is still open. */
  ghost predicate Collecting<T>(rows: seq<Row<T>>, i: nat, start: nat, curId: int, y: seq<seq<T>>)
  {
    && start <= i < |rows|
    && curId == rows[i].pid
    && SamePatient(rows, start, i + 1)
    && (start > 0 ==> rows[start - 1].pid != rows[start].pid)
    && y == RunTargets(Groups(rows[..start]))
  }

  /** A run opens at `start`, after the targets of the runs before it. */
  lemma CollectOpen<T>(rows: seq<Row<T>>, start: nat, y: seq<seq<T>>)
    requires start < |rows|
    requires start > 0 ==> rows[start - 1].pid != rows[start].pid
    requires y == RunTargets(Groups(rows[..start]))
    ensures Collecting(rows, start, start, rows[start].pid, y)
  {
    SamePatientOne(rows, start);
  }

  /** Row `i` ends its run and another follows: its target is appended and
      a new run opens at `i + 1`. */
  lemma CollectClose<T>(rows: seq<Row<T>>, i: nat, start: nat, curId: int, y: seq<seq<T>>)
    requires Collecting(rows, i, start, curId, y)
    requires i + 1 < |rows| && rows[i + 1].pid != curId
    ensures Collecting(rows, i + 1, i + 1, rows[i + 1].pid, y + [Target(rows[i])])
  {
    CloseRun(rows, start, i + 1, y);
    CollectOpen(rows, i + 1, y + [Target(rows[i])]);
  }

  /** Row `i` is followed by the same patient: the run stays open. */
  lemma CollectKeep<T>(rows: seq<Row<T>>, i: nat, start: nat, curId: int, y: seq<seq<T>>)
    requires Collecting(rows, i, start, curId, y)
    requires i + 1 < |rows| && rows[i + 1].pid == curId
    ensures Collecting(rows, i + 1, start, curId, y)
  {
    SamePatientGrow(rows, start, i + 1);
  }

  /** Row `i` is the last: appending its target gives the targets of every
      run. */
  lemma CollectFinish<T>(rows: seq<Row<T>>, i: nat, start: nat, curId: int, y: seq<seq<T>>)
    requires Collecting(rows, i, start, curId, y)
    requires i + 1 == |rows|
    ensures y + [Target(rows[i])] == RunTargets(Groups(rows))
  {
    CloseRun(rows, start, i + 1, y);
    assert rows[..i + 1] == rows;
  }

  /** One target row per maximal run of one patient's visits, in the order
      the runs appear. */
  method ExtractY<T>(rows: seq<Row<T>>) returns (y: seq<seq<T>>)
    requires |rows| > 0
    ensures y == RunTargets(Groups(rows))
  {
    y := [];
    var curId := rows[0].pid;
    var i := 0;
    ghost var start := 0;
    assert rows[..0] == [];
    CollectOpen(rows, 0, y);
    while i < |rows|
      invariant i <= |rows|
      invariant i < |rows| ==> Collecting(rows, i, start, curId, y)
      invariant i == |rows| ==> y == RunTargets(Groups(rows))
    {
      if i != |rows| - 1 {
        if rows[i + 1].pid != curId {
          CollectClose(rows, i, start, curId, y);
          y := y + [Target(rows[i])];
          start := i + 1;
          curId := rows[i + 1].pid;
        } else {
          CollectKeep(rows, i, start, curId, y);
        }
      } else {
        CollectFinish(rows, i, start, curId, y);
        y := y + [Target(rows[i])];
      }
      i := i + 1;
    }
  }

  /** Every run is non-empty, and each target row is the scores of the last
      visit of its run: the `extract_y` row of a patient is their final
      visit of that run. */
  lemma TargetsAreLastVisits<T>(rows: seq<Row<T>>, k: nat)
    requires k < |Groups(rows)|
    ensures |Groups(rows)[k]| > 0
    ensures RunTargets(Groups(rows))[k] == Target(Groups(rows)[k][|Groups(rows)[k]| - 1])
  {
    GroupsNonEmpty(rows);
    RunTargetsAt(Groups(rows), k);
  }

  /** The last target row is the target of the table's last visit. */
  lemma FinalTargetIsLastVisit<T>(rows: seq<Row<T>>)
    requires |rows| > 0
    ensures |RunTargets(Groups(rows))| > 0
    ensures RunTargets(Groups(rows))[|Groups(rows)| - 1] == Target(rows[|rows| - 1])
  {
    var gs := Groups(rows);
    GroupsPartition(rows);
    GroupsNonEmpty(rows);
    LastOfFlatten(gs);
    RunTargetsAt(gs, |gs| - 1);
  }
}
