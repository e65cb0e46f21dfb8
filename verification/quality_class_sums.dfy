/**
 * Model of calculate_quality_class_sums.py: the records of a quality report
 * are counted by their assessment label.
 *
 * Reading and parsing the JSON file is not modelled: its outcome is given,
 * None when the file is missing or cannot be read or decoded, and otherwise
 * the records, each with its optional `image_name` and `assessment` strings.
 */
module QualityClassSums {

  import opened Wrappers
  import QualityAssessment

  /** One record of the report: its `image_name` and `assessment`, if present. */
  datatype Item = Item(imageName: Option<string>, assessment: Option<string>)

  /** The name a warning gives an item: `item.get('image_name', 'an image')`. */
  const Unnamed := "an image"

  /** An item whose assessment is present and non-empty, which is counted. */
  predicate Labelled(item: Item) {
    item.assessment.Some? && item.assessment.value != ""
  }

  /** The number of items whose assessment is `verdict`. */
  function CountOf(items: seq<Item>, verdict: string): (n: nat)
    ensures n <= |items|
    ensures n > 0 <==> exists i :: 0 <= i < |items| && items[i].assessment == Some(verdict)
    decreases |items|
  {
    if items == [] then 0
    else
      var init := items[..|items| - 1];
      var n := CountOf(init, verdict);
      assert forall i :: 0 <= i < |init| ==> init[i] == items[i];
      n + if items[|items| - 1].assessment == Some(verdict) then 1 else 0
  }

  /** The dictionary after the counting loop has seen `items`. */
  function Tally(items: seq<Item>): map<string, nat>
    decreases |items|
  {
    if items == [] then map[]
    else
      var counts := Tally(items[..|items| - 1]);
      var item := items[|items| - 1];
      if Labelled(item) then
        var verdict := item.assessment.value;
        counts[verdict := (if verdict in counts then counts[verdict] else 0) + 1]
      else counts
  }

  /** The name a warning gives an item that is not counted. */
  function WarningName(item: Item): string {
    if item.imageName.Some? then item.imageName.value else Unnamed
  }

  /** The indices below `n` of the items that are counted (`labelled`) or warned about. */
  ghost function Indices(items: seq<Item>, n: nat, labelled: bool): set<nat>
    requires n <= |items|
  {
    set i: nat | i < n && Labelled(items[i]) == labelled
  }

  /** Going one item further adds that item's index to one of the two sets. */
  lemma IndicesStep(items: seq<Item>, n: nat, labelled: bool)
    requires n < |items|
    ensures |Indices(items, n + 1, labelled)| ==
      |Indices(items, n, labelled)| + if Labelled(items[n]) == labelled then 1 else 0
  {
    if Labelled(items[n]) == labelled {
      assert Indices(items, n + 1, labelled) == Indices(items, n, labelled) + {n};
    } else {
      assert Indices(items, n + 1, labelled) == Indices(items, n, labelled);
    }
  }

  /** The indices below `n` depend only on the first `n` items. */
  lemma IndicesPrefix(items: seq<Item>, m: nat, n: nat, labelled: bool)
    requires n <= m <= |items|
    ensures Indices(items[..m], n, labelled) == Indices(items, n, labelled)
  {
    assert forall i :: 0 <= i < n ==> items[..m][i] == items[i];
  }

  /** The names the warnings mention, one per item that is not counted. */
  function Warnings(items: seq<Item>): seq<string>
    decreases |items|
  {
    if items == [] then []
    else
      var rest := Warnings(items[..|items| - 1]);
      var item := items[|items| - 1];
      if Labelled(item) then rest
      else rest + [WarningName(item)]
  }

  /**
   * One warning per item that is not counted, in order: the warning about
   * the item at index i is the k-th, where k is the number of earlier items
   * that were not counted, and it names that item.
   */
  lemma {:induction false} WarningsExactly(items: seq<Item>)
    ensures |Warnings(items)| == |Indices(items, |items|, false)|
    ensures forall i :: 0 <= i < |items| && !Labelled(items[i]) ==>
      |Indices(items, i, false)| < |Warnings(items)| && Warnings(items)[|Indices(items, i, false)|] == WarningName(items[i])
    decreases |items|
  {
    if items == [] {
      assert Indices(items, 0, false) == {};
    } else {
      var n := |items| - 1;
      var init := items[..n];
      var w := Warnings(items);
      WarningsExactly(init);
      assert init[..n] == init;
      IndicesPrefix(items, n, n, false);
      IndicesStep(items, n, false);
      assert |w| == |Indices(items, |items|, false)|;
      assert w[..|Warnings(init)|] == Warnings(init);
      forall i | 0 <= i < |items| && !Labelled(items[i])
        ensures |Indices(items, i, false)| < |w| && w[|Indices(items, i, false)|] == WarningName(items[i])
      {
        if i < n {
          IndicesPrefix(items, n, i, false);
          assert init[i] == items[i];
        }
      }
    }
  }

  /**
   * `calculate_quality_class_sums` (lines 8-44): None when the report cannot
   * be read or decoded; otherwise the counting loop of lines 35-42, which adds
   * one to the entry of each non-empty assessment and warns about the rest.
   */
  method CalculateQualityClassSums(loaded: Option<seq<Item>>)
    returns (sums: Option<map<string, nat>>, warnings: seq<string>)
    ensures loaded.None? ==> sums.None? && warnings == []
    ensures loaded.Some? ==> sums == Some(Tally(loaded.value)) && warnings == Warnings(loaded.value)
  {
    warnings := [];
    if loaded.None? {
      return None, warnings;
    }
    var data := loaded.value;
    var qualityClassCounts: map<string, nat> := map[];
    for i := 0 to |data|
      invariant qualityClassCounts == Tally(data[..i])
      invariant warnings == Warnings(data[..i])
    {
      assert data[..i + 1][..i] == data[..i];
      var item := data[i];
      var assessment := item.assessment;
      if assessment.Some? && assessment.value != "" {
        var previous := if assessment.value in qualityClassCounts then qualityClassCounts[assessment.value] else 0;
        qualityClassCounts := qualityClassCounts[assessment.value := previous + 1];
      } else {
        warnings := warnings + [WarningName(item)];
      }
    }
    assert data[..|data|] == data;
    sums := Some(qualityClassCounts);
  }

  /**
   * The counts are exact: a label is a key exactly when it is non-empty and
   * some item carries it, and its count is the number of items carrying it.
   */
  lemma {:induction false} TallyCounts(items: seq<Item>, verdict: string)
    ensures verdict in Tally(items) <==> verdict != "" && CountOf(items, verdict) > 0
    ensures verdict in Tally(items) ==> Tally(items)[verdict] == CountOf(items, verdict)
    decreases |items|
  {
    if items != [] {
      TallyCounts(items[..|items| - 1], verdict);
    }
  }

  /** The sum of the counts of a dictionary. */
  ghost function Total(counts: map<string, nat>): nat
    decreases |counts|
  {
    if counts == map[] then 0
    else
      var k :| k in counts;
      assert |(counts - {k}).Keys| < |counts.Keys| by {
        assert (counts - {k}).Keys == counts.Keys - {k};
      }
      counts[k] + Total(counts - {k})
  }

  /** The total does not depend on which key is taken out first. */
  lemma {:induction false} TotalRemove(counts: map<string, nat>, k: string)
    requires k in counts
    ensures Total(counts) == counts[k] + Total(counts - {k})
    decreases |counts|
  {
    var j :| j in counts && Total(counts) == counts[j] + Total(counts - {j});
    if j != k {
      assert (counts - {j}).Keys == counts.Keys - {j};
      assert (counts - {k}).Keys == counts.Keys - {k};
      TotalRemove(counts - {j}, k);
      TotalRemove(counts - {k}, j);
      assert counts - {j} - {k} == counts - {k} - {j};
    }
  }

  /** Setting one count changes the total by the difference. */
  lemma TotalUpdate(counts: map<string, nat>, k: string, v: nat)
    ensures Total(counts[k := v]) + (if k in counts then counts[k] else 0) == Total(counts) + v
  {
    TotalRemove(counts[k := v], k);
    assert counts[k := v] - {k} == counts - {k};
    if k in counts {
      TotalRemove(counts, k);
    } else {
      assert counts - {k} == counts;
    }
  }

  /** Every index below `n` is either counted or warned about. */
  lemma {:induction false} IndicesPartition(items: seq<Item>, n: nat)
    requires n <= |items|
    ensures |Indices(items, n, true)| + |Indices(items, n, false)| == n
  {
    if n == 0 {
      assert Indices(items, 0, true) == {} && Indices(items, 0, false) == {};
    } else {
      IndicesPartition(items, n - 1);
      IndicesStep(items, n - 1, true);
      IndicesStep(items, n - 1, false);
    }
  }

  /** The counts sum to the number of items with a non-empty assessment. */
  lemma {:induction false} TallyLabelled(items: seq<Item>)
    ensures Total(Tally(items)) == |Indices(items, |items|, true)|
    decreases |items|
  {
    if items == [] {
      assert Indices(items, 0, true) == {};
    } else {
      var n := |items| - 1;
      var init := items[..n];
      TallyLabelled(init);
      assert init[..n] == init;
      IndicesPrefix(items, n, n, true);
      IndicesStep(items, n, true);
      var item := items[n];
      if Labelled(item) {
        var counts := Tally(init);
        var verdict := item.assessment.value;
        TotalUpdate(counts, verdict, (if verdict in counts then counts[verdict] else 0) + 1);
      }
    }
  }

  /**
   * Every item is either counted once or warned about once: the counts sum
   * to the number of items with a non-empty assessment, so never exceed the
   * number of items.
   */
  lemma TallyTotal(items: seq<Item>)
    ensures Total(Tally(items)) == |Indices(items, |items|, true)|
    ensures Total(Tally(items)) + |Warnings(items)| == |items|
  {
    TallyLabelled(items);
    WarningsExactly(items);
    IndicesPartition(items, |items|);
  }

  lemma {:induction false} CountOfAppend(a: seq<Item>, b: seq<Item>, verdict: string)
    ensures CountOf(a + b, verdict) == CountOf(a, verdict) + CountOf(b, verdict)
    decreases |b|
  {
    if b == [] {
      assert a + b == a;
    } else {
      assert (a + b)[..|a + b| - 1] == a + b[..|b| - 1];
      CountOfAppend(a, b[..|b| - 1], verdict);
    }
  }

  /** Taking the item at `j` out of `ys`. */
  lemma RemoveAt(ys: seq<Item>, j: nat, verdict: string)
    requires j < |ys|
    ensures multiset(ys[..j] + ys[j + 1..]) + multiset{ys[j]} == multiset(ys)
    ensures CountOf(ys, verdict) == CountOf(ys[..j] + ys[j + 1..], verdict) + CountOf([ys[j]], verdict)
  {
    var left, right := ys[..j], ys[j + 1..];
    assert ys == left + [ys[j]] + right;
    CountOfAppend(left + [ys[j]], right, verdict);
    CountOfAppend(left, [ys[j]], verdict);
    CountOfAppend(left, right, verdict);
  }

  /** Counting one label does not depend on the order of the items. */
  lemma {:induction false} CountOfPermutation(xs: seq<Item>, ys: seq<Item>, verdict: string)
    requires multiset(xs) == multiset(ys)
    ensures CountOf(xs, verdict) == CountOf(ys, verdict)
    decreases |xs|
  {
    if xs == [] {
      assert |multiset(ys)| == 0;
    } else {
      var x := xs[|xs| - 1];
      var init := xs[..|xs| - 1];
      assert xs == init + [x];
      assert multiset(xs) == multiset(init) + multiset{x};
      assert x in multiset(ys);
      var j :| 0 <= j < |ys| && ys[j] == x;
      var rest := ys[..j] + ys[j + 1..];
      RemoveAt(ys, j, verdict);
      assert multiset(rest) + multiset{x} == multiset(init) + multiset{x};
      assert multiset(rest) == multiset(init) by {
        forall e ensures multiset(rest)[e] == multiset(init)[e] {
          assert (multiset(rest) + multiset{x})[e] == (multiset(init) + multiset{x})[e];
        }
      }
      CountOfPermutation(init, rest, verdict);
      CountOfAppend(init, [x], verdict);
    }
  }

  /** Permuting the records yields the same counts. */
  lemma TallyPermutation(xs: seq<Item>, ys: seq<Item>)
    requires multiset(xs) == multiset(ys)
    ensures Tally(xs) == Tally(ys)
  {
    forall verdict
      ensures (verdict in Tally(xs) <==> verdict in Tally(ys))
      ensures verdict in Tally(xs) ==> Tally(xs)[verdict] == Tally(ys)[verdict]
    {
      TallyCounts(xs, verdict);
      TallyCounts(ys, verdict);
      CountOfPermutation(xs, ys, verdict);
    }
  }

  /** What the script prints after calling the function (lines 51-56). */
  datatype Summary = CouldNotCalculate | Distribution(counts: map<string, nat>)

  /**
   * An absent result and an empty dictionary are both falsy: either gives
   * the "could not calculate" message; any other dictionary is printed.
   */
  function Summarise(sums: Option<map<string, nat>>): (s: Summary)
    ensures s.CouldNotCalculate? <==> sums.None? || sums.value == map[]
    ensures s.Distribution? ==> s.counts == sums.value
  {
    if sums.Some? && sums.value != map[] then Distribution(sums.value) else CouldNotCalculate
  }

  /**
   * A report that was read is summarised as "could not calculate" exactly
   * when none of its records has a non-empty assessment, in particular when
   * it holds no records.
   */
  lemma CouldNotCalculateExactly(items: seq<Item>)
    ensures Summarise(Some(Tally(items))).CouldNotCalculate? <==>
      forall i :: 0 <= i < |items| ==> !Labelled(items[i])
  {
    if exists i :: 0 <= i < |items| && Labelled(items[i]) {
      var i :| 0 <= i < |items| && Labelled(items[i]);
      var verdict := items[i].assessment.value;
      TallyCounts(items, verdict);
      assert verdict in Tally(items);
    } else {
      forall k ensures k !in Tally(items) {
        TallyCounts(items, k);
      }
      assert Tally(items) == map[];
    }
  }

  /** The report item a quality record becomes once written and read back. */
  function ItemOf(rec: QualityAssessment.QualityRecord): Item {
    Item(Some(rec.imageName), Some(rec.assessment))
  }

  /** The report items the assessor's records become, in order. */
  function ItemsOf(records: seq<QualityAssessment.QualityRecord>): (items: seq<Item>)
    ensures |items| == |records|
    ensures forall i :: 0 <= i < |records| ==> items[i] == ItemOf(records[i])
  {
    seq(|records|, i requires 0 <= i < |records| => ItemOf(records[i]))
  }

  /**
   * Items that all carry a label from `labels`: no warning, one count per
   * item, and only those labels as keys.
   */
  lemma CountingLabelledItems(items: seq<Item>, labels: set<string>)
    requires forall i :: 0 <= i < |items| ==> Labelled(items[i]) && items[i].assessment.value in labels
    ensures Warnings(items) == [] && Total(Tally(items)) == |items| && Tally(items).Keys <= labels
  {
    NoWarningsWhenLabelled(items);
    TallyTotal(items);
    forall k | k in Tally(items) ensures k in labels {
      TallyCounts(items, k);
      var i :| 0 <= i < |items| && items[i].assessment == Some(k);
    }
  }

  /**
   * Counting the assessor's own report: no warning is raised, the counts sum
   * to the number of records, and every key is one of the five labels.
   */
  lemma CountingAssessorReport(folder: string, entries: seq<QualityAssessment.FolderEntry>)
    ensures
      var items := ItemsOf(QualityAssessment.Assessed(folder, entries));
      && Warnings(items) == []
      && Total(Tally(items)) == |items|
      && Tally(items).Keys <= QualityAssessment.Labels
  {
    var records := QualityAssessment.Assessed(folder, entries);
    var items := ItemsOf(records);
    QualityAssessment.AssessedLabels(folder, entries);
    forall i | 0 <= i < |items|
      ensures Labelled(items[i]) && items[i].assessment.value in QualityAssessment.Labels
    {
      assert items[i] == ItemOf(records[i]);
    }
    CountingLabelledItems(items, QualityAssessment.Labels);
  }

  lemma {:induction false} NoWarningsWhenLabelled(items: seq<Item>)
    requires forall i :: 0 <= i < |items| ==> Labelled(items[i])
    ensures Warnings(items) == []
    decreases |items|
  {
    if items != [] {
      NoWarningsWhenLabelled(items[..|items| - 1]);
    }
  }
}
