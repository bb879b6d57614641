/**
 * `extract_x`: each run of one patient's visits becomes a block of exactly
 * `maxCount` rows, zero rows first, then the run's earliest visits; the
 * run's last visit, whose scores are the target, is never an input.
 */
module TensorBuilder {
  import opened Frames
  import opened TargetExtraction
  import opened SequenceProfiler

  /** The masked row `[0] * row_length`. */
  function ZeroRow<T>(width: nat, zero: T): (row: seq<T>)
    ensures |row| == width && forall c :: 0 <= c < width ==> row[c] == zero
  {
    seq(width, _ => zero)
  }

  function ZeroRows<T>(count: nat, width: nat, zero: T): (z: seq<seq<T>>)
    ensures |z| == count && forall j :: 0 <= j < count ==> z[j] == ZeroRow(width, zero)
  {
    seq(count, _ => ZeroRow(width, zero))
  }

  /** The feature rows of some visits: every column but PatientID. */
  function Visits<T>(g: seq<Row<T>>): (v: seq<seq<T>>)
    ensures |v| == |g| && forall j :: 0 <= j < |g| ==> v[j] == g[j].cols
  {
    seq(|g|, j requires 0 <= j < |g| => g[j].cols)
  }

  /** Zero rows put in front of a run of `n` visits: one for each of the
      counts `n .. maxCount`. */
  function Padding(n: nat, maxCount: nat): nat
  {
    if n <= maxCount then maxCount + 1 - n else 0
  }

  /** Visits of a run of `n` that are kept: the first ones, neither the
      last nor any beyond the `maxCount`-th. */
  function Kept(n: nat, maxCount: nat): nat
  {
    if n == 0 then 0 else if n - 1 <= maxCount then n - 1 else maxCount
  }

  /** The input block of one run. */
  function Block<T>(g: seq<Row<T>>, maxCount: nat, width: nat, zero: T): seq<seq<T>>
  {
    ZeroRows(Padding(|g|, maxCount), width, zero) + Visits(g[..Kept(|g|, maxCount)])
  }

  /** The input blocks of the given runs, in run order. */
  function Blocks<T>(gs: seq<seq<Row<T>>>, maxCount: nat, width: nat, zero: T): (bs: seq<seq<seq<T>>>)
    ensures |bs| == |gs|
  {
    if |gs| == 0 then []
    else Blocks(gs[..|gs| - 1], maxCount, width, zero) + [Block(gs[|gs| - 1], maxCount, width, zero)]
  }

  /** Block `k` is the block of run `k`. */
  lemma {:induction false} BlocksAt<T>(gs: seq<seq<Row<T>>>, maxCount: nat, width: nat, zero: T, k: nat)
    requires k < |gs|
    ensures Blocks(gs, maxCount, width, zero)[k] == Block(gs[k], maxCount, width, zero)
    decreases |gs|
  {
    if k < |gs| - 1 {
      BlocksAt(gs[..|gs| - 1], maxCount, width, zero, k);
    }
  }

  /** Every block has exactly `maxCount` rows, whatever the run's length. */
  lemma BlockLength<T>(g: seq<Row<T>>, maxCount: nat, width: nat, zero: T)
    requires |g| > 0
    ensures |Block(g, maxCount, width, zero)| == maxCount
  {
  }

  /** Row `j` of a block is a zero row while `j` is inside the padding, and
      otherwise the visit `j - Padding` of the run: never the run's last
      visit, and never one past the `maxCount`-th. */
  lemma BlockRow<T>(g: seq<Row<T>>, maxCount: nat, width: nat, zero: T, j: nat)
    requires |g| > 0 && j < maxCount
    ensures var b, p := Block(g, maxCount, width, zero), Padding(|g|, maxCount);
      && (j < p ==> b[j] == ZeroRow(width, zero))
      && (j >= p ==> j - p < |g| - 1 && j - p < maxCount && b[j] == g[j - p].cols)
  {
  }

  /** When every visit has `width` feature columns, so has every row of the
      block: the blocks stack into one tensor. */
  lemma BlockWidth<T>(g: seq<Row<T>>, maxCount: nat, width: nat, zero: T)
    requires forall r :: r in g ==> |r.cols| == width
    ensures forall row :: row in Block(g, maxCount, width, zero) ==> |row| == width
  {
    var b := Block(g, maxCount, width, zero);
    forall row | row in b ensures |row| == width {
      var j :| 0 <= j < |b| && b[j] == row;
      if j >= Padding(|g|, maxCount) {
        assert g[j - Padding(|g|, maxCount)] in g;
      }
    }
  }

  /** A run of at most `maxCount + 1` visits loses none but its last: the
      block is padding followed by all its earlier visits. */
  lemma BlockComplete<T>(g: seq<Row<T>>, maxCount: nat, width: nat, zero: T)
    requires 0 < |g| <= maxCount + 1
    ensures Block(g, maxCount, width, zero) == ZeroRows(maxCount + 1 - |g|, width, zero) + Visits(g[..|g| - 1])
  {
  }

  /** A longer run has no padding and keeps only its first `maxCount`
      visits: the later ones are lost. */
  lemma BlockTruncated<T>(g: seq<Row<T>>, maxCount: nat, width: nat, zero: T)
    requires |g| > maxCount + 1
    ensures Block(g, maxCount, width, zero) == Visits(g[..maxCount])
  {
    assert ZeroRows(0, width, zero) == [];
  }

  lemma ZeroRowsCons<T>(count: nat, width: nat, zero: T, block: seq<seq<T>>)
    ensures [ZeroRow(width, zero)] + (ZeroRows(count, width, zero) + block)
         == ZeroRows(count + 1, width, zero) + block
  {
    assert [ZeroRow(width, zero)] + ZeroRows(count, width, zero) == ZeroRows(count + 1, width, zero);
  }

  /** The padding loop: zero rows are inserted at the front while the visit
      count has not passed `maxCount`. */
  method PadFront<T>(block: seq<seq<T>>, curIter: nat, maxCount: nat, width: nat, zero: T)
    returns (padded: seq<seq<T>>)
    ensures padded == ZeroRows(Padding(curIter, maxCount), width, zero) + block
  {
    padded := block;
    var it := curIter;
    assert ZeroRows(0, width, zero) + block == block;
    while it <= maxCount
      invariant curIter <= it
      invariant curIter <= maxCount ==> it <= maxCount + 1
      invariant curIter > maxCount ==> it == curIter
      invariant padded == ZeroRows(it - curIter, width, zero) + block
      decreases maxCount + 1 - it
    {
      ZeroRowsCons(it - curIter, width, zero, block);
      padded := [ZeroRow(width, zero)] + padded;
      it := it + 1;
    }
    var count := Padding(curIter, maxCount);
    if curIter <= maxCount {
      assert it == maxCount + 1 && it - curIter == count;
    } else {
      assert it == curIter && count == 0;
    }
    assert padded == ZeroRows(count, width, zero) + block;
  }

  lemma VisitsSnoc<T>(rows: seq<Row<T>>, a: nat, b: nat)
    requires a <= b < |rows|
    ensures Visits(rows[a..b + 1]) == Visits(rows[a..b]) + [rows[b].cols]
  {
    assert Visits(rows[a..b + 1])[b - a] == rows[b].cols;
  }

  /** One more visit of the current run: it is kept while the run has no
      more than `maxCount` visits before it. */
  lemma KeepStep<T>(rows: seq<Row<T>>, start: nat, i: nat, maxCount: nat, cur: seq<seq<T>>)
    requires start <= i < |rows|
    requires cur == Visits(rows[start..start + Kept(i + 1 - start, maxCount)])
    ensures i + 1 - start <= maxCount ==>
      cur + [rows[i].cols] == Visits(rows[start..start + Kept(i + 2 - start, maxCount)])
    ensures i + 1 - start > maxCount ==>
      cur == Visits(rows[start..start + Kept(i + 2 - start, maxCount)])
  {
    if i + 1 - start <= maxCount {
      VisitsSnoc(rows, start, i);
    }
  }

  lemma BlocksSnoc<T>(gs: seq<seq<Row<T>>>, g: seq<Row<T>>, maxCount: nat, width: nat, zero: T)
    ensures Blocks(gs + [g], maxCount, width, zero) == Blocks(gs, maxCount, width, zero) + [Block(g, maxCount, width, zero)]
  {
    assert (gs + [g])[..|gs|] == gs;
  }

  /** The blocks of the runs scanned up to the end of the run
      `rows[start..e]` are those scanned before it and its own block. */
  lemma BlocksExtend<T>(rows: seq<Row<T>>, start: nat, e: nat, maxCount: nat, width: nat, zero: T)
    requires start < e <= |rows| && SamePatient(rows, start, e)
    requires start > 0 ==> rows[start - 1].pid != rows[start].pid
    ensures Blocks(RunsUpTo(rows, e), maxCount, width, zero)
         == Blocks(RunsUpTo(rows, start), maxCount, width, zero) + [Block(rows[start..e], maxCount, width, zero)]
  {
    RunsExtend(rows, start, e);
    BlocksSnoc(RunsUpTo(rows, start), rows[start..e], maxCount, width, zero);
  }

  /** Closing the run `rows[start..e]` appends its block. */
  lemma CloseBlock<T>(rows: seq<Row<T>>, start: nat, e: nat, maxCount: nat, width: nat, zero: T,
                      x: seq<seq<seq<T>>>, block: seq<seq<T>>)
    requires start < e <= |rows| && SamePatient(rows, start, e)
    requires start > 0 ==> rows[start - 1].pid != rows[start].pid
    requires x == Blocks(Groups(rows[..start]), maxCount, width, zero)
    requires block == ZeroRows(Padding(e - start, maxCount), width, zero)
                      + Visits(rows[start..start + Kept(e - start, maxCount)])
    ensures x + [block] == Blocks(Groups(rows[..e]), maxCount, width, zero)
  {
    GroupsOfPrefix(rows, start);
    GroupsOfPrefix(rows, e);
    BlocksExtend(rows, start, e, maxCount, width, zero);
    BlockOfRun(rows, start, e, maxCount, width, zero);
  }

  lemma BlockOfRun<T>(rows: seq<Row<T>>, start: nat, e: nat, maxCount: nat, width: nat, zero: T)
    requires start < e <= |rows|
    ensures Block(rows[start..e], maxCount, width, zero)
         == ZeroRows(Padding(e - start, maxCount), width, zero) + Visits(rows[start..start + Kept(e - start, maxCount)])
  {
    var g := rows[start..e];
    assert g[..Kept(|g|, maxCount)] == rows[start..start + Kept(e - start, maxCount)];
  }

  /** The state of the scan of one split at the top of iteration `i`: the
      runs before `start` are closed into `x`, and `cur` holds the visits
      kept so far of the run that began at `start`. */
  ghost predicate Scanning<T>(rows: seq<Row<T>>, maxCount: nat, width: nat, zero: T, i: nat, start: nat,
                              curId: int, curIter: nat, cur: seq<seq<T>>, x: seq<seq<seq<T>>>)
  {
    && start <= i < |rows|
    && curId == rows[i].pid
    && SamePatient(rows, start, i + 1)
    && (start > 0 ==> rows[start - 1].pid != rows[start].pid)
    && curIter == i - start
    && cur == Visits(rows[start..start + Kept(i + 1 - start, maxCount)])
    && x == Blocks(Groups(rows[..start]), maxCount, width, zero)
  }

  /** A run opens at `start`: nothing of it is kept yet, and the blocks of
      the runs before it are done. */
  lemma ScanOpen<T>(rows: seq<Row<T>>, maxCount: nat, width: nat, zero: T, start: nat, x: seq<seq<seq<T>>>)
    requires start < |rows|
    requires start > 0 ==> rows[start - 1].pid != rows[start].pid
    requires x == Blocks(Groups(rows[..start]), maxCount, width, zero)
    ensures Scanning(rows, maxCount, width, zero, start, start, rows[start].pid, 0, [], x)
  {
    SamePatientOne(rows, start);
    assert rows[start..start + Kept(1, maxCount)] == [];
  }

  lemma ScanBegin<T>(rows: seq<Row<T>>, maxCount: nat, width: nat, zero: T)
    requires |rows| > 0
    ensures Scanning(rows, maxCount, width, zero, 0, 0, rows[0].pid, 0, [], [])
  {
    assert rows[..0] == [];
    ScanOpen(rows, maxCount, width, zero, 0, []);
  }

  /** Row `i` ends its run and another follows: the padded block is
      appended and a new run begins at `i + 1`. */
  lemma ScanClose<T>(rows: seq<Row<T>>, maxCount: nat, width: nat, zero: T, i: nat, start: nat,
                     curId: int, curIter: nat, cur: seq<seq<T>>, x: seq<seq<seq<T>>>, block: seq<seq<T>>)
    requires Scanning(rows, maxCount, width, zero, i, start, curId, curIter, cur, x)
    requires i + 1 < |rows| && rows[i + 1].pid != curId
    requires block == ZeroRows(Padding(curIter + 1, maxCount), width, zero) + cur
    ensures Scanning(rows, maxCount, width, zero, i + 1, i + 1, rows[i + 1].pid, 0, [], x + [block])
  {
    CloseBlock(rows, start, i + 1, maxCount, width, zero, x, block);
    ScanOpen(rows, maxCount, width, zero, i + 1, x + [block]);
  }

  /** Row `i` continues its run: it is kept while the run has at most
      `maxCount` visits up to it. */
  lemma ScanKeep<T>(rows: seq<Row<T>>, maxCount: nat, width: nat, zero: T, i: nat, start: nat,
                    curId: int, curIter: nat, prev: seq<seq<T>>, cur: seq<seq<T>>, x: seq<seq<seq<T>>>)
    requires curIter > 0 && Scanning(rows, maxCount, width, zero, i, start, curId, curIter - 1, prev, x)
    requires i + 1 < |rows| && rows[i + 1].pid == curId
    requires cur == if curIter <= maxCount then prev + [rows[i].cols] else prev
    ensures Scanning(rows, maxCount, width, zero, i + 1, start, curId, curIter, cur, x)
  {
    KeepStep(rows, start, i, maxCount, prev);
    SamePatientGrow(rows, start, i + 1);
  }

  /** Row `i` is the last of the split: appending its padded block gives
      the blocks of every run. */
  lemma ScanFinish<T>(rows: seq<Row<T>>, maxCount: nat, width: nat, zero: T, i: nat, start: nat,
                      curId: int, curIter: nat, cur: seq<seq<T>>, x: seq<seq<seq<T>>>, block: seq<seq<T>>)
    requires Scanning(rows, maxCount, width, zero, i, start, curId, curIter, cur, x)
    requires i + 1 == |rows|
    requires block == ZeroRows(Padding(curIter + 1, maxCount), width, zero) + cur
    ensures x + [block] == Blocks(Groups(rows), maxCount, width, zero)
  {
    CloseBlock(rows, start, i + 1, maxCount, width, zero, x, block);
    assert rows[..i + 1] == rows;
  }

  /** The inner loop of `extract_x` over one split: one block per maximal
      run, the zero rows as wide as the split's first row. */
  method BuildBlocks<T>(rows: seq<Row<T>>, maxCount: nat, zero: T) returns (x: seq<seq<seq<T>>>)
    requires |rows| > 0
    ensures x == Blocks(Groups(rows), maxCount, |rows[0].cols|, zero)
  {
    var width := |rows[0].cols|;
    x := [];
    var cur: seq<seq<T>> := [];
    var curId := rows[0].pid;
    var curIter := 0;
    var i := 0;
    ghost var start := 0;
    ScanBegin(rows, maxCount, width, zero);
    while i < |rows|
      invariant i <= |rows|
      invariant i < |rows| ==> Scanning(rows, maxCount, width, zero, i, start, curId, curIter, cur, x)
      invariant i == |rows| ==> x == Blocks(Groups(rows), maxCount, width, zero)
    {
      ghost var unpadded := cur;
      curIter := curIter + 1;
      if i != |rows| - 1 {
        if rows[i + 1].pid != curId {
          cur := PadFront(cur, curIter, maxCount, width, zero);
          ScanClose(rows, maxCount, width, zero, i, start, curId, curIter - 1, unpadded, x, cur);
          curIter := 0;
          x := x + [cur];
          cur := [];
          start := i + 1;
          curId := rows[i + 1].pid;
        } else {
          if curIter <= maxCount {
            cur := cur + [rows[i].cols];
          }
          ScanKeep(rows, maxCount, width, zero, i, start, curId, curIter, unpadded, cur, x);
        }
      } else {
        cur := PadFront(cur, curIter, maxCount, width, zero);
        ScanFinish(rows, maxCount, width, zero, i, start, curId, curIter - 1, unpadded, x, cur);
        curIter := 0;
        x := x + [cur];
      }
      i := i + 1;
    }
  }

  /** `extract_x` after normalisation: the table is cut at `cutIndex` and
      each part is turned into blocks on its own. */
  method ExtractX<T>(rows: seq<Row<T>>, maxCount: nat, cutIndex: nat, zero: T)
    returns (train: seq<seq<seq<T>>>, applied: seq<seq<seq<T>>>)
    requires 0 < cutIndex < |rows|
    ensures train == Blocks(Groups(rows[..cutIndex]), maxCount, |rows[0].cols|, zero)
    ensures applied == Blocks(Groups(rows[cutIndex..]), maxCount, |rows[cutIndex].cols|, zero)
  {
    var parts := [rows[..cutIndex], rows[cutIndex..]];
    var results: seq<seq<seq<seq<T>>>> := [];
    for p := 0 to 2
      invariant |results| == p
      invariant forall q :: 0 <= q < p ==> results[q] == Blocks(Groups(parts[q]), maxCount, |parts[q][0].cols|, zero)
    {
      var blocks := BuildBlocks(parts[p], maxCount, zero);
      results := results + [blocks];
    }
    train, applied := results[0], results[1];
  }

  /** Every block of a table has exactly `maxCount` rows, so the blocks of
      one split stack into a tensor of shape runs x `maxCount` x width. */
  lemma BlocksRectangular<T>(rows: seq<Row<T>>, maxCount: nat, width: nat, zero: T)
    ensures forall k :: 0 <= k < |Groups(rows)| ==> |Blocks(Groups(rows), maxCount, width, zero)[k]| == maxCount
  {
    var gs := Groups(rows);
    GroupsNonEmpty(rows);
    forall k | 0 <= k < |gs| ensures |Blocks(gs, maxCount, width, zero)[k]| == maxCount {
      BlocksAt(gs, maxCount, width, zero, k);
      BlockLength(gs[k], maxCount, width, zero);
    }
  }

  /** When every row of the table has `width` feature columns, every row of
      every block has `width` entries. */
  lemma BlocksWidth<T>(rows: seq<Row<T>>, maxCount: nat, width: nat, zero: T)
    requires forall r :: r in rows ==> |r.cols| == width
    ensures forall k, j :: 0 <= k < |Groups(rows)| && 0 <= j < |Blocks(Groups(rows), maxCount, width, zero)[k]|
              ==> |Blocks(Groups(rows), maxCount, width, zero)[k][j]| == width
  {
    var gs := Groups(rows);
    GroupsPartition(rows);
    forall k, j | 0 <= k < |gs| && 0 <= j < |Blocks(gs, maxCount, width, zero)[k]|
      ensures |Blocks(gs, maxCount, width, zero)[k][j]| == width
    {
      BlocksAt(gs, maxCount, width, zero, k);
      FlattenMember(gs, k);
      BlockWidth(gs[k], maxCount, width, zero);
      assert Blocks(gs, maxCount, width, zero)[k][j] in Block(gs[k], maxCount, width, zero);
    }
  }

  /** Every row of a group is a row of the flattened groups. */
  lemma {:induction false} FlattenMember<T>(gs: seq<seq<T>>, k: nat)
    requires k < |gs|
    ensures forall r :: r in gs[k] ==> r in Flatten(gs)
    decreases |gs|
  {
    var init := gs[..|gs| - 1];
    if k < |gs| - 1 {
      FlattenMember(init, k);
      assert init[k] == gs[k];
    }
  }

  /** With `maxCount` at least the longest run, no block loses a visit:
      each is padding followed by every visit of its run but the last. */
  lemma LongEnoughKeepsAllVisits<T>(rows: seq<Row<T>>, maxCount: nat, width: nat, zero: T, k: nat)
    requires maxCount >= LongestRun(rows) && k < |Groups(rows)|
    ensures var g := Groups(rows)[k];
      && 0 < |g| <= maxCount
      && Blocks(Groups(rows), maxCount, width, zero)[k]
         == ZeroRows(maxCount + 1 - |g|, width, zero) + Visits(g[..|g| - 1])
  {
    var gs := Groups(rows);
    LongestRunIsMaximum(rows);
    GroupsNonEmpty(rows);
    assert 0 < |gs[k]| <= maxCount;
    BlocksAt(gs, maxCount, width, zero, k);
    BlockComplete(gs[k], maxCount, width, zero);
  }

  /** Each split is cut into runs on its own: a patient whose visits cross
      `cutIndex` ends the last run of the training split and begins the
      first run of the applied split, and gets a block in each. */
  lemma StraddlingRunSplits<T>(rows: seq<Row<T>>, cutIndex: nat)
    requires 0 < cutIndex < |rows| && rows[cutIndex - 1].pid == rows[cutIndex].pid
    ensures var before, after := Groups(rows[..cutIndex]), Groups(rows[cutIndex..]);
      && |before| > 0 && |after| > 0 && |before[|before| - 1]| > 0 && |after[0]| > 0
      && before[|before| - 1][0].pid == rows[cutIndex].pid
      && after[0][0].pid == rows[cutIndex].pid
  {
    var before := Groups(rows[..cutIndex]);
    GroupsPartition(rows[..cutIndex]);
    LastOfFlatten(before);
    FirstOfGroups(rows[cutIndex..]);
  }

  /** `extract_y` on the unscaled training rows and `extract_x` on the
      scaled table pair up: scaling keeps the PatientID column, so target
      row `k` and block `k` come from runs of the same patient and the same
      length, and there are as many targets as blocks. */
  lemma TrainingPairsAligned<T>(table: seq<Row<int>>, scaled: seq<Row<T>>, cutIndex: nat,
                                maxCount: nat, width: nat, zero: T)
    requires Pids(table) == Pids(scaled) && cutIndex <= |table|
    ensures |Blocks(Groups(scaled[..cutIndex]), maxCount, width, zero)| == |RunTargets(Groups(table[..cutIndex]))|
    ensures SameShape(Groups(table[..cutIndex]), Groups(scaled[..cutIndex]))
  {
    assert Pids(table[..cutIndex]) == Pids(scaled[..cutIndex]);
    GroupsFollowPids(table[..cutIndex], scaled[..cutIndex]);
  }

  /** The runs of the table of `MaxOccurLosesVisit`. */
  lemma RunsOfLosingTable()
    ensures var a, b1, b2, b3 := Row(1, [0, 5]), Row(2, [1, 6]), Row(2, [2, 7]), Row(2, [3, 8]);
      Groups([a, b1, b2, b3]) == [[a], [b1, b2, b3]]
  {
    var a, b1, b2, b3 := Row(1, [0, 5]), Row(2, [1, 6]), Row(2, [2, 7]), Row(2, [3, 8]);
    var rows := [a, b1, b2, b3];
    assert RunsUpTo(rows, 1) == [[a]];
    assert RunsUpTo(rows, 2) == [[a], [b1]];
    assert Continues([[a], [b1]], b2);
    assert [[a], [b1]][..1] == [[a]];
    assert [[a], [b1]][1] + [b2] == [b1, b2];
    assert RunsUpTo(rows, 3) == [[a], [b1, b2]];
    assert Continues([[a], [b1, b2]], b3);
    assert [[a], [b1, b2]][..1] == [[a]];
    assert [[a], [b1, b2]][1] + [b3] == [b1, b2, b3];
    assert RunsUpTo(rows, 4) == [[a], [b1, b2, b3]];
  }

  /** The padding length as `count_max_occur` computes it can cut a visit
      that is not the target: patient 1 with one visit, then patient 2 with
      visits scoring 6, 7 and 8. The reported length is 1, so patient 2's
      block keeps only the first visit and loses the second; with the
      longest run length 3 the block keeps both. */
  lemma MaxOccurLosesVisit()
    ensures var rows := [Row(1, [0, 5]), Row(2, [1, 6]), Row(2, [2, 7]), Row(2, [3, 8])];
      && MaxOccur(rows).0 == 1 && LongestRun(rows) == 3
      && |Groups(rows)| == 2
      && Blocks(Groups(rows), MaxOccur(rows).0, 2, 0)[1] == [[1, 6]]
      && Blocks(Groups(rows), LongestRun(rows), 2, 0)[1] == [[0, 0], [1, 6], [2, 7]]
  {
    var a, b1, b2, b3 := Row(1, [0, 5]), Row(2, [1, 6]), Row(2, [2, 7]), Row(2, [3, 8]);
    var rows := [a, b1, b2, b3];
    RunsOfLosingTable();
    var gs := Groups(rows);
    assert gs[..1] == [[a]] && [[a]][..0] == [];
    assert Longest([[a]], 5) == (1, 1);
    assert Longest([[a]], 0) == (1, 1);
    assert Longest(gs, 0) == (3, 2);
    var g := gs[1];
    BlocksAt(gs, 1, 2, 0, 1);
    BlocksAt(gs, 3, 2, 0, 1);
    assert g[..1] == [b1] && g[..2] == [b1, b2];
    assert ZeroRows(0, 2, 0) == [];
    assert ZeroRow(2, 0) == [0, 0];
    assert ZeroRows(1, 2, 0) == [[0, 0]];
    assert Visits([b1]) == [[1, 6]];
    assert Visits([b1, b2]) == [[1, 6], [2, 7]];
  }
}
