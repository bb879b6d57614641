/**
 * `init_data_split`: deduplicate both tables, remember where the training
 * rows end, concatenate, and replace Country and TxGroup by one-hot blocks
 * fitted on the concatenation. The identifying columns Study, SiteID,
 * RaterID, AssessmentID and PANSS_Total are not part of `Visit`, so their
 * drop is already reflected in the row layout.
 */
module DataSplit {
  import opened Frames
  import opened Deduplication
  import opened CategoricalEncoding

  function Countries(vs: seq<Visit>): (c: seq<string>)
    ensures |c| == |vs| && forall i :: 0 <= i < |vs| ==> c[i] == vs[i].country
  {
    seq(|vs|, i requires 0 <= i < |vs| => vs[i].country)
  }

  function TxGroups(vs: seq<Visit>): (c: seq<string>)
    ensures |c| == |vs| && forall i :: 0 <= i < |vs| ==> c[i] == vs[i].txGroup
  {
    seq(|vs|, i requires 0 <= i < |vs| => vs[i].txGroup)
  }

  /** The deduplicated training rows followed by the deduplicated applied rows. */
  function Combined(train: seq<Visit>, applied: seq<Visit>): (c: seq<Visit>)
    ensures |c| <= |train| + |applied|
  {
    DropDuplicates(train) + DropDuplicates(applied)
  }

  /** Returns the encoded combined table and the number of training rows in
      it. `to_categorical` fails on an empty label array, hence the
      precondition. */
  function InitDataSplit(train: seq<Visit>, applied: seq<Visit>): (result: (seq<Row<int>>, nat))
    requires |train| > 0 || |applied| > 0
    ensures |result.0| == |Combined(train, applied)|
  {
    var dtrain := DropDuplicates(train);
    var dapplied := DropDuplicates(applied);
    assert |dtrain + dapplied| > 0 by {
      if |train| > 0 { DropDuplicatesNonEmpty(train); } else { DropDuplicatesNonEmpty(applied); }
    }
    (EncodeTable(dtrain + dapplied), |dtrain|)
  }

  /** The one-hot blocks fitted on the whole table, placed after the
      remaining columns (`np.hstack` then `pd.concat(axis=1)`). */
  function EncodeTable(all: seq<Visit>): (rows: seq<Row<int>>)
    requires |all| > 0
    ensures |rows| == |all|
  {
    var countryOhc := ToCategorical(LabelEncode(Countries(all)));
    var txGroupOhc := ToCategorical(LabelEncode(TxGroups(all)));
    seq(|all|, i requires 0 <= i < |all| =>
      Row(all[i].pid, [all[i].day] + all[i].scores + countryOhc[i] + txGroupOhc[i]))
  }

  /** An encoded row: PatientID, then VisitDay, the scores, the Country block
      and the TxGroup block, each block the one-hot vector of the label's
      rank among the given sorted distinct labels. */
  function EncodeVisit(v: Visit, countries: seq<string>, txGroups: seq<string>): Row<int>
    requires v.country in countries && v.txGroup in txGroups
  {
    Row(v.pid, [v.day] + v.scores
      + OneHot(IndexOf(countries, v.country), |countries|)
      + OneHot(IndexOf(txGroups, v.txGroup), |txGroups|))
  }

  /** Row i of the table is encoded against the classes of the whole table:
      `to_categorical`'s width is the number of classes. */
  lemma EncodeTableAt(all: seq<Visit>, i: nat)
    requires i < |all|
    ensures var cc, tc := Classes(Countries(all)), Classes(TxGroups(all));
      && all[i].country in cc && all[i].txGroup in tc
      && EncodeTable(all)[i] == EncodeVisit(all[i], cc, tc)
  {
    var cs, ts := Countries(all), TxGroups(all);
    var cc, tc := Classes(cs), Classes(ts);
    assert cs[i] in cs && ts[i] in ts;
    MaxCodeIsLastClass(cs);
    MaxCodeIsLastClass(ts);
    var cCodes, tCodes := LabelEncode(cs), LabelEncode(ts);
    assert cCodes[i] == IndexOf(cc, all[i].country);
    assert tCodes[i] == IndexOf(tc, all[i].txGroup);
    assert ToCategorical(cCodes)[i] == OneHot(IndexOf(cc, all[i].country), |cc|);
    assert ToCategorical(tCodes)[i] == OneHot(IndexOf(tc, all[i].txGroup), |tc|);
  }

  /** The boundary index splits the encoded table back into the
      deduplicated training rows and the deduplicated applied rows, and every
      row, in either split, is encoded against the classes of the combined
      table, so both splits share one feature space. */
  lemma InitDataSplitRows(train: seq<Visit>, applied: seq<Visit>)
    requires |train| > 0 || |applied| > 0
    ensures var (rows, cut) := InitDataSplit(train, applied);
      var all := Combined(train, applied);
      var cc, tc := Classes(Countries(all)), Classes(TxGroups(all));
      && cut == |DropDuplicates(train)|
      && all[..cut] == DropDuplicates(train) && all[cut..] == DropDuplicates(applied)
      && |rows| == |all|
      && forall k :: 0 <= k < |rows| ==>
           all[k].country in cc && all[k].txGroup in tc && rows[k] == EncodeVisit(all[k], cc, tc)
  {
    var all := Combined(train, applied);
    assert |all| > 0 by {
      if |train| > 0 { DropDuplicatesNonEmpty(train); } else { DropDuplicatesNonEmpty(applied); }
    }
    forall k | 0 <= k < |all|
      ensures all[k].country in Classes(Countries(all)) && all[k].txGroup in Classes(TxGroups(all))
      ensures EncodeTable(all)[k] == EncodeVisit(all[k], Classes(Countries(all)), Classes(TxGroups(all)))
    {
      EncodeTableAt(all, k);
    }
  }
}
