/**
 * Selection of the training cohort from the merged study tables: keep the
 * rows whose LeadStatus is 'Passed', then keep those whose patient has a
 * 'Passed' visit after day 120, then drop the LeadStatus column.
 */
module CohortFilter {
  import opened Frames

  /** A training-table row: the visit and its LeadStatus flag. */
  datatype StudyVisit = StudyVisit(visit: Visit, leadStatus: string)

  /** A patient qualifies with a 'Passed' visit after this day. */
  const LateVisitDay: int := 120

  /** `df.LeadStatus == 'Passed'` */
  function PassedMask(rows: seq<StudyVisit>): (m: seq<bool>)
    ensures |m| == |rows| && forall i :: 0 <= i < |rows| ==> m[i] == (rows[i].leadStatus == "Passed")
  {
    seq(|rows|, i requires 0 <= i < |rows| => rows[i].leadStatus == "Passed")
  }

  /** The PatientIDs of the rows with VisitDay > 120. */
  function LatePatients(rows: seq<StudyVisit>): (ids: set<int>)
    ensures forall p :: p in ids <==> exists j :: 0 <= j < |rows| && rows[j].visit.day > LateVisitDay && rows[j].visit.pid == p
  {
    set j | 0 <= j < |rows| && rows[j].visit.day > LateVisitDay :: rows[j].visit.pid
  }

  /** `PatientID.isin(ids)` */
  function MemberMask(rows: seq<StudyVisit>, ids: set<int>): (m: seq<bool>)
    ensures |m| == |rows| && forall i :: 0 <= i < |rows| ==> m[i] == (rows[i].visit.pid in ids)
  {
    seq(|rows|, i requires 0 <= i < |rows| => rows[i].visit.pid in ids)
  }

  /** The two mask selections, before LeadStatus is dropped. */
  function Cohort(rows: seq<StudyVisit>): (c: seq<StudyVisit>)
    ensures |c| <= |rows|
  {
    var passed := Select(rows, PassedMask(rows));
    Select(passed, MemberMask(passed, LatePatients(passed)))
  }

  /** The cohort with the LeadStatus column dropped. */
  function CohortVisits(rows: seq<StudyVisit>): (vs: seq<Visit>)
    ensures |vs| == |Cohort(rows)|
    ensures forall k :: 0 <= k < |vs| ==> vs[k] == Cohort(rows)[k].visit
  {
    var c := Cohort(rows);
    seq(|c|, k requires 0 <= k < |c| => c[k].visit)
  }

  /** Row i qualifies: it is a 'Passed' row of a patient who has a 'Passed'
      row with VisitDay > 120. */
  ghost predicate Qualifies(rows: seq<StudyVisit>, i: nat)
    requires i < |rows|
  {
    && rows[i].leadStatus == "Passed"
    && exists j :: 0 <= j < |rows| && rows[j].leadStatus == "Passed"
         && rows[j].visit.day > LateVisitDay && rows[j].visit.pid == rows[i].visit.pid
  }

  /** The positions of the cohort rows in the input table. */
  ghost function CohortIndices(rows: seq<StudyVisit>): seq<nat>
  {
    var m1 := PassedMask(rows);
    var passed := Select(rows, m1);
    SelectAt(rows, m1);
    Compose(TrueIndices(m1), TrueIndices(MemberMask(passed, LatePatients(passed))))
  }

  /** The cohort is an order-preserving subsequence of the table, taken at
      `CohortIndices`. */
  lemma CohortIsSubsequence(rows: seq<StudyVisit>)
    ensures SubsequenceAt(Cohort(rows), rows, CohortIndices(rows))
  {
    var m1 := PassedMask(rows);
    var passed := Select(rows, m1);
    var m2 := MemberMask(passed, LatePatients(passed));
    SelectAt(rows, m1);
    SelectAt(passed, m2);
    SubsequenceCompose(rows, passed, Cohort(rows), TrueIndices(m1), TrueIndices(m2));
  }

  /** Every kept row qualifies. */
  lemma KeptRowQualifies(rows: seq<StudyVisit>, i: nat)
    requires i < |rows| && i in CohortIndices(rows)
    ensures Qualifies(rows, i)
  {
    var m1 := PassedMask(rows);
    var passed := Select(rows, m1);
    var late := LatePatients(passed);
    var m2 := MemberMask(passed, late);
    var i1, i2 := TrueIndices(m1), TrueIndices(m2);
    SelectAt(rows, m1);
    SelectAt(passed, m2);
    var ci := CohortIndices(rows);
    assert ci == Compose(i1, i2);
    var k :| 0 <= k < |ci| && ci[k] == i;
    var a := i2[k];
    assert passed[a] == rows[i];
    assert passed[a].visit.pid in late;
    var b :| 0 <= b < |passed| && passed[b].visit.day > LateVisitDay && passed[b].visit.pid == rows[i].visit.pid;
    assert passed[b] == rows[i1[b]];
  }

  /** Every qualifying row is kept. */
  lemma QualifyingRowKept(rows: seq<StudyVisit>, i: nat)
    requires i < |rows| && Qualifies(rows, i)
    ensures i in CohortIndices(rows)
  {
    var m1 := PassedMask(rows);
    var passed := Select(rows, m1);
    var late := LatePatients(passed);
    var m2 := MemberMask(passed, late);
    var i1, i2 := TrueIndices(m1), TrueIndices(m2);
    SelectAt(rows, m1);
    SelectAt(passed, m2);
    var j :| 0 <= j < |rows| && rows[j].leadStatus == "Passed"
      && rows[j].visit.day > LateVisitDay && rows[j].visit.pid == rows[i].visit.pid;
    assert j in i1;
    var b :| 0 <= b < |i1| && i1[b] == j;
    assert passed[b] == rows[j];
    assert i in i1;
    var a :| 0 <= a < |i1| && i1[a] == i;
    assert passed[a] == rows[i];
    assert m2[a];
    assert a in i2;
    var k :| 0 <= k < |i2| && i2[k] == a;
    assert CohortIndices(rows)[k] == i;
  }

  /** The cohort is the order-preserving subsequence of exactly the
      qualifying rows: every kept row qualifies and every qualifying row is
      kept. */
  lemma CohortExactlyQualifying(rows: seq<StudyVisit>)
    ensures SubsequenceAt(Cohort(rows), rows, CohortIndices(rows))
    ensures forall i :: 0 <= i < |rows| ==> (i in CohortIndices(rows) <==> Qualifies(rows, i))
  {
    CohortIsSubsequence(rows);
    forall i | 0 <= i < |rows| ensures i in CohortIndices(rows) <==> Qualifies(rows, i) {
      if i in CohortIndices(rows) {
        KeptRowQualifies(rows, i);
      }
      if Qualifies(rows, i) {
        QualifyingRowKept(rows, i);
      }
    }
  }
}
