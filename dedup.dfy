/**
 * Removal of repeated (PatientID, VisitDay) visits, keeping the first one in
 * table order: `drop_duplicates(subset=["PatientID", "VisitDay"], keep='first')`.
 */
module Deduplication {
  import opened Frames

  /** The key duplicates are judged on. */
  function Key(v: Visit): (int, int)
  {
    (v.pid, v.day)
  }

  /** No earlier row shares the key of row i. */
  predicate FirstOfKey(rows: seq<Visit>, i: nat)
    requires i < |rows|
  {
    forall j :: 0 <= j < i ==> Key(rows[j]) != Key(rows[i])
  }

  /** The negation of pandas' `duplicated(keep='first')` mask. */
  function KeepMask(rows: seq<Visit>): (m: seq<bool>)
    ensures |m| == |rows| && forall i :: 0 <= i < |rows| ==> m[i] == FirstOfKey(rows, i)
  {
    seq(|rows|, i requires 0 <= i < |rows| => FirstOfKey(rows, i))
  }

  function DropDuplicates(rows: seq<Visit>): (r: seq<Visit>)
    ensures |r| <= |rows|
  {
    Select(rows, KeepMask(rows))
  }

  /** The result is the order-preserving subsequence of exactly those rows
      that are the first of their key. */
  lemma DropDuplicatesKeepsFirsts(rows: seq<Visit>)
    ensures SubsequenceAt(DropDuplicates(rows), rows, TrueIndices(KeepMask(rows)))
    ensures forall i :: 0 <= i < |rows| ==> (i in TrueIndices(KeepMask(rows)) <==> FirstOfKey(rows, i))
  {
    SelectAt(rows, KeepMask(rows));
  }

  /** No two kept rows share a key. */
  lemma DropDuplicatesDistinct(rows: seq<Visit>)
    ensures var out := DropDuplicates(rows);
      forall a, b :: 0 <= a < b < |out| ==> Key(out[a]) != Key(out[b])
  {
    var out, idx := DropDuplicates(rows), TrueIndices(KeepMask(rows));
    DropDuplicatesKeepsFirsts(rows);
    forall a, b | 0 <= a < b < |out| ensures Key(out[a]) != Key(out[b]) {
      assert idx[a] < idx[b];
      assert FirstOfKey(rows, idx[b]);
    }
  }

  /** The first row carrying the key of row i. */
  lemma {:induction false} FirstOccurrence(rows: seq<Visit>, i: nat) returns (f: nat)
    requires i < |rows|
    ensures f <= i && FirstOfKey(rows, f) && Key(rows[f]) == Key(rows[i])
    decreases i
  {
    if FirstOfKey(rows, i) {
      f := i;
    } else {
      var j :| 0 <= j < i && Key(rows[j]) == Key(rows[i]);
      f := FirstOccurrence(rows, j);
    }
  }

  /** Every key of the input survives, carried by the first row that had it. */
  lemma DropDuplicatesCovers(rows: seq<Visit>, i: nat)
    requires i < |rows|
    ensures exists k, f ::
              && 0 <= k < |DropDuplicates(rows)| && 0 <= f <= i
              && DropDuplicates(rows)[k] == rows[f] && Key(rows[f]) == Key(rows[i])
              && FirstOfKey(rows, f)
  {
    var out, idx := DropDuplicates(rows), TrueIndices(KeepMask(rows));
    DropDuplicatesKeepsFirsts(rows);
    var f := FirstOccurrence(rows, i);
    assert f in idx;
    var k :| 0 <= k < |idx| && idx[k] == f;
    assert out[k] == rows[f];
  }

  /** Of two rows with one key, the later one is dropped: a table of two
      visits on the same day collapses to its first row. */
  lemma DropDuplicatesPair(v: Visit, w: Visit)
    requires Key(v) == Key(w)
    ensures DropDuplicates([v, w]) == [v]
  {
    var rows := [v, w];
    assert Key(rows[0]) == Key(rows[1]);
    assert KeepMask(rows) == [true, false];
    assert rows[..1] == [v] && [true, false][..1] == [true];
    assert Select([v], [true]) == [v] by {
      assert [v][..0] == [] && [true][..0] == [];
    }
  }

  /** Dropping duplicates twice drops nothing more. */
  lemma DropDuplicatesIdempotent(rows: seq<Visit>)
    ensures DropDuplicates(DropDuplicates(rows)) == DropDuplicates(rows)
  {
    var out := DropDuplicates(rows);
    DropDuplicatesDistinct(rows);
    SelectAll(out, KeepMask(out));
  }

  /** A non-empty table keeps at least its first row. */
  lemma DropDuplicatesNonEmpty(rows: seq<Visit>)
    requires |rows| > 0
    ensures |DropDuplicates(rows)| > 0 && DropDuplicates(rows)[0] == rows[0]
  {
    DropDuplicatesKeepsFirsts(rows);
    var idx := TrueIndices(KeepMask(rows));
    assert 0 in idx;
  }
}
