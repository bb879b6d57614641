/**
 * The joint categorical encoding and the train/applied concatenation of
 * `init_data_split`: both tables are deduplicated, the boundary index is
 * recorded, and Country and TxGroup are label-encoded (a label's code is its
 * position among the sorted distinct labels of the combined table) and
 * one-hot expanded, Country block first.
 */
module CategoricalEncoding {
  import opened Frames
  import Deduplication

  // ---------------------------------------------------------------------
  // String order (Python's `<` on str: code point by code point, a proper
  // prefix first)
  // ---------------------------------------------------------------------

  predicate LexLess(a: string, b: string)
  {
    if |a| == 0 then |b| > 0
    else if |b| == 0 then false
    else if a[0] != b[0] then a[0] < b[0]
    else LexLess(a[1..], b[1..])
  }

  lemma {:induction false} LexIrreflexive(a: string)
    ensures !LexLess(a, a)
  {
    if |a| > 0 { LexIrreflexive(a[1..]); }
  }

  lemma {:induction false} LexTransitive(a: string, b: string, c: string)
    requires LexLess(a, b) && LexLess(b, c)
    ensures LexLess(a, c)
  {
    if |a| > 0 && |b| > 0 && |c| > 0 && a[0] == b[0] && b[0] == c[0] {
      LexTransitive(a[1..], b[1..], c[1..]);
    }
  }

  lemma {:induction false} LexTotal(a: string, b: string)
    requires a != b
    ensures LexLess(a, b) || LexLess(b, a)
  {
    if |a| > 0 && |b| > 0 && a[0] == b[0] {
      assert a == [a[0]] + a[1..] && b == [b[0]] + b[1..];
      LexTotal(a[1..], b[1..]);
    }
  }

  lemma LexAsymmetric(a: string, b: string)
    requires LexLess(a, b)
    ensures !LexLess(b, a)
  {
    if LexLess(b, a) {
      LexTransitive(a, b, a);
      LexIrreflexive(a);
    }
  }

  // ---------------------------------------------------------------------
  // LabelEncoder: classes are the sorted distinct labels
  // ---------------------------------------------------------------------

  predicate StrictlySorted(s: seq<string>)
  {
    forall i, j :: 0 <= i < j < |s| ==> LexLess(s[i], s[j])
  }

  lemma PrependSorted(x: string, s: seq<string>)
    requires StrictlySorted(s) && (|s| > 0 ==> LexLess(x, s[0]))
    ensures StrictlySorted([x] + s)
  {
    forall j | 0 < j < |s| { LexTransitive(x, s[0], s[j]); }
  }

  /** Inserts a label into the sorted distinct labels, unless already there. */
  function Insert(x: string, s: seq<string>): (r: seq<string>)
    requires StrictlySorted(s)
    ensures StrictlySorted(r)
    ensures forall y :: y in r <==> y in s || y == x
  {
    if |s| == 0 then [x]
    else if x == s[0] then s
    else if LexLess(x, s[0]) then
      PrependSorted(x, s);
      [x] + s
    else
      LexTotal(x, s[0]);
      var tail := Insert(x, s[1..]);
      assert forall y :: y in tail ==> LexLess(s[0], y);
      PrependSorted(s[0], tail);
      [s[0]] + tail
  }

  /** `LabelEncoder.classes_`: the distinct labels in increasing order. */
  function Classes(labels: seq<string>): (cs: seq<string>)
    ensures StrictlySorted(cs)
    ensures forall y :: y in cs <==> y in labels
  {
    if |labels| == 0 then []
    else Insert(labels[|labels| - 1], Classes(labels[..|labels| - 1]))
  }

  /** Where a class sits among the classes. */
  function IndexOf(cs: seq<string>, x: string): (i: nat)
    requires x in cs
    ensures i < |cs| && cs[i] == x
  {
    if cs[0] == x then 0 else 1 + IndexOf(cs[1..], x)
  }

  /** `LabelEncoder.fit_transform`: each label replaced by its class index. */
  function LabelEncode(labels: seq<string>): (codes: seq<nat>)
    ensures |codes| == |labels|
  {
    var cs := Classes(labels);
    seq(|labels|, i requires 0 <= i < |labels| => IndexOf(cs, labels[i]))
  }

  function Max(s: seq<nat>): (m: nat)
    requires |s| > 0
    ensures forall i :: 0 <= i < |s| ==> s[i] <= m
    ensures exists i :: 0 <= i < |s| && s[i] == m
  {
    if |s| == 1 then s[0]
    else
      var m := Max(s[..|s| - 1]);
      assert forall i :: 0 <= i < |s| - 1 ==> s[..|s| - 1][i] == s[i];
      if s[|s| - 1] > m then s[|s| - 1] else m
  }

  /** One row of `to_categorical`: width `n`, a 1 in column `k`. */
  function OneHot(k: nat, n: nat): (v: seq<int>)
    ensures |v| == n
  {
    seq(n, j => if j == k then 1 else 0)
  }

  /** `to_categorical(codes)`: one row per code, as many columns as the
      largest code plus one. */
  function ToCategorical(codes: seq<nat>): (m: seq<seq<int>>)
    requires |codes| > 0
    ensures |m| == |codes|
  {
    var n := Max(codes) + 1;
    seq(|codes|, i requires 0 <= i < |codes| => OneHot(codes[i], n))
  }

  // ---------------------------------------------------------------------
  // Properties of the encoding
  // ---------------------------------------------------------------------

  /** In a strictly sorted sequence, order of labels is order of positions. */
  lemma SortedIndexOrder(cs: seq<string>, x: string, y: string)
    requires StrictlySorted(cs) && x in cs && y in cs
    ensures LexLess(x, y) <==> IndexOf(cs, x) < IndexOf(cs, y)
    ensures x == y <==> IndexOf(cs, x) == IndexOf(cs, y)
  {
    var i, j := IndexOf(cs, x), IndexOf(cs, y);
    if i < j { LexAsymmetric(x, y); }
    if j < i { LexAsymmetric(y, x); }
    if i == j { LexIrreflexive(x); }
  }

  /** A label's code is its rank among the distinct labels: labels compare
      as their codes do, and equal labels get equal codes. */
  lemma LabelEncodeRanks(labels: seq<string>, i: nat, j: nat)
    requires i < |labels| && j < |labels|
    ensures LabelEncode(labels)[i] < |Classes(labels)|
    ensures LexLess(labels[i], labels[j]) <==> LabelEncode(labels)[i] < LabelEncode(labels)[j]
    ensures labels[i] == labels[j] <==> LabelEncode(labels)[i] == LabelEncode(labels)[j]
  {
    SortedIndexOrder(Classes(labels), labels[i], labels[j]);
  }

  /** The largest code belongs to the largest class, so `to_categorical`
      makes exactly one column per distinct label. */
  lemma MaxCodeIsLastClass(labels: seq<string>)
    requires |labels| > 0
    ensures Max(LabelEncode(labels)) + 1 == |Classes(labels)|
  {
    var cs, codes := Classes(labels), LabelEncode(labels);
    var last := cs[|cs| - 1];
    assert last in cs;
    var i :| 0 <= i < |labels| && labels[i] == last;
    assert codes[i] == IndexOf(cs, last);
    var k :| 0 <= k < |codes| && codes[k] == Max(codes);
    assert IndexOf(cs, last) == |cs| - 1 by {
      var p := IndexOf(cs, last);
      if p < |cs| - 1 { LexIrreflexive(last); }
    }
  }

  /** A strictly sorted sequence holds each element once, so its length is
      the number of distinct elements. */
  lemma {:induction false} SortedCardinality(cs: seq<string>)
    requires StrictlySorted(cs)
    ensures |set y | y in cs| == |cs|
  {
    if |cs| > 0 {
      var tail := cs[1..];
      SortedCardinality(tail);
      assert (set y | y in cs) == (set y | y in tail) + {cs[0]};
      assert cs[0] !in tail by {
        if cs[0] in tail {
          var j :| 0 <= j < |tail| && tail[j] == cs[0];
          assert LexLess(cs[0], cs[j + 1]);
          LexIrreflexive(cs[0]);
        }
      }
    }
  }

  /** The sorted distinct labels depend on the set of labels only, not on
      their order or multiplicity: the two splits need not agree on order. */
  lemma {:induction false} SortedUnique(a: seq<string>, b: seq<string>)
    requires StrictlySorted(a) && StrictlySorted(b)
    requires forall y :: y in a <==> y in b
    ensures a == b
  {
    assert |a| > 0 ==> a[0] in a;
    assert |b| > 0 ==> b[0] in b;
    if |a| > 0 && |b| > 0 {
      assert a[0] == b[0] by {
        if a[0] != b[0] {
          assert a[0] in a && b[0] in b;
          var j :| 0 <= j < |b| && b[j] == a[0];
          var i :| 0 <= i < |a| && a[i] == b[0];
          assert LexLess(b[0], a[0]);
          assert LexLess(a[0], b[0]);
          LexAsymmetric(a[0], b[0]);
        }
      }
      forall y ensures y in a[1..] <==> y in b[1..] {
        if y in a[1..] {
          var i :| 1 <= i < |a| && a[i] == y;
          assert LexLess(a[0], y);
          LexIrreflexive(y);
          assert y in b;
        }
        if y in b[1..] {
          var i :| 1 <= i < |b| && b[i] == y;
          assert LexLess(b[0], y);
          LexIrreflexive(y);
          assert y in a;
        }
      }
      SortedUnique(a[1..], b[1..]);
      assert a == [a[0]] + a[1..] && b == [b[0]] + b[1..];
    }
  }

  /** Two label columns with the same distinct values get the same classes,
      whatever the row order: the encoder depends on the value universe only. */
  lemma ClassesOrderIndependent(a: seq<string>, b: seq<string>)
    requires forall y :: y in a <==> y in b
    ensures Classes(a) == Classes(b)
  {
    SortedUnique(Classes(a), Classes(b));
  }

  /** The one-hot block of a label column: one row per label, as wide as
      the number of distinct labels, holding a single 1 in the column of the
      label's rank. */
  lemma OneHotBlock(labels: seq<string>, i: nat)
    requires i < |labels|
    ensures |ToCategorical(LabelEncode(labels))[i]| == |set y | y in labels|
    ensures forall j :: 0 <= j < |ToCategorical(LabelEncode(labels))[i]| ==>
              (ToCategorical(LabelEncode(labels))[i][j] == 1 <==> j == IndexOf(Classes(labels), labels[i]))
    ensures forall j :: 0 <= j < |ToCategorical(LabelEncode(labels))[i]| ==>
              ToCategorical(LabelEncode(labels))[i][j] in {0, 1}
  {
    MaxCodeIsLastClass(labels);
    SortedCardinality(Classes(labels));
    assert (set y | y in labels) == (set y | y in Classes(labels));
  }

  /** The position of a class among strictly sorted classes. */
  lemma IndexOfSorted(cs: seq<string>, j: nat)
    requires StrictlySorted(cs) && j < |cs|
    ensures IndexOf(cs, cs[j]) == j
  {
    var p := IndexOf(cs, cs[j]);
    if p != j { LexIrreflexive(cs[j]); }
  }

  /** The one-hot vector of a label against sorted distinct classes has a
      single 1, in the column holding that label, and as many columns as
      there are distinct classes; two labels share a vector exactly when
      they are equal. */
  lemma OneHotColumns(cs: seq<string>, x: string, y: string)
    requires StrictlySorted(cs) && x in cs && y in cs
    ensures |OneHot(IndexOf(cs, x), |cs|)| == |set z | z in cs|
    ensures forall j :: 0 <= j < |cs| ==>
              (OneHot(IndexOf(cs, x), |cs|)[j] == 1 <==> cs[j] == x)
              && OneHot(IndexOf(cs, x), |cs|)[j] in {0, 1}
    ensures x == y <==> OneHot(IndexOf(cs, x), |cs|) == OneHot(IndexOf(cs, y), |cs|)
  {
    SortedCardinality(cs);
    var ix, iy := IndexOf(cs, x), IndexOf(cs, y);
    SortedIndexOrder(cs, x, y);
    if ix != iy { assert OneHot(ix, |cs|)[ix] != OneHot(iy, |cs|)[ix]; }
    forall j | 0 <= j < |cs| ensures OneHot(ix, |cs|)[j] == 1 <==> cs[j] == x {
      IndexOfSorted(cs, j);
    }
  }
}
