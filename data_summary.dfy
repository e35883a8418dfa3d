/** scripts/data_summary.py: `report_missing_values`, which lists the columns
    that have missing cells, most gaps first, and flags those above a share of
    the rows. What it prints is returned here as a `Report`. */
module DataSummary {
  import opened Seqs
  import opened Frames

  /** A column label with its number of missing cells. */
  type Count = (string, nat)

  /** The alert line: the columns over the threshold together with the
      percentage the message states, or the message that none is. */
  datatype Alert =
    | Flagged(percent: int, columns: seq<string>)
    | NoneFlagged(percent: int)

  /** Either "no missing values", or the listed counts and the alert line. */
  datatype Report =
    | Complete
    | Gaps(counts: seq<Count>, alert: Alert)

  function IsMissing(x: Cell): bool
  {
    x.Missing?
  }

  /** `df.isna().sum()`: one count per column, in column order. */
  function MissingCounts(f: Frame): (counts: seq<Count>)
    ensures |counts| == |f.names|
  {
    seq(|f.names|, k requires 0 <= k < |f.names| => (f.names[k], CountWhere(f.cols[k], IsMissing)))
  }

  /** The order of `sort_values(ascending=False)` on the counts. */
  function MoreGaps(a: Count, b: Count): bool
  {
    a.1 >= b.1
  }

  lemma MoreGapsTotalPreorder()
    ensures TotalPreorder(MoreGaps)
  {
  }

  function HasGaps(e: Count): bool
  {
    e.1 > 0
  }

  /** `na > limit`. */
  function Above(limit: real): Count -> bool
  {
    (e: Count) => e.1 as real > limit
  }

  function Label(e: Count): string
  {
    e.0
  }

  /** Python's `int()` of a number: its integer part, truncated toward zero. */
  function Truncate(x: real): (n: int)
    ensures 0.0 <= x ==> n as real <= x < n as real + 1.0
    ensures x < 0.0 ==> n as real - 1.0 < x <= n as real
  {
    if x >= 0.0 then x.Floor else -((-x).Floor)
  }

  /** `na.sort_values(ascending=False)` then `na[na > 0]`. */
  function ListedCounts(f: Frame): seq<Count>
  {
    var sorted := SortBy(MissingCounts(f), MoreGaps);
    Mask(sorted, Map(sorted, HasGaps))
  }

  /** `na[na > limit]`. */
  function Important(listed: seq<Count>, limit: real): seq<Count>
  {
    Mask(listed, Map(listed, Above(limit)))
  }

  /** `threshold * len(df)`. */
  function Limit(f: Frame, threshold: real): real
  {
    threshold * f.height as real
  }

  /** `report_missing_values(df, threshold)`: the counts sorted, most gaps
      first, and those above zero kept; then the columns whose count exceeds
      `threshold * len(df)`, announced with `int(threshold * 100)`, or the
      message that states 5 whatever the threshold. */
  function ReportMissingValues(f: Frame, threshold: real := 0.05): Report
  {
    var listed := ListedCounts(f);
    if |listed| == 0 then Complete
    else
      var important := Important(listed, Limit(f, threshold));
      Gaps(listed, if |important| > 0 then Flagged(Truncate(threshold * 100.0), Map(important, Label)) else NoneFlagged(5))
  }

  /** The count of a column is zero exactly when it has no missing cell. */
  lemma {:induction false} CountMissing(c: seq<Cell>)
    ensures CountWhere(c, IsMissing) == 0 <==> NoMissing(c)
    decreases |c|
  {
    if |c| > 0 {
      CountMissing(c[1..]);
      assert forall i :: 0 < i < |c| ==> c[1..][i - 1] == c[i];
    }
  }

  /** The listed counts: exactly the columns with missing cells, each with
      its count as often as it occurs, most gaps first. */
  lemma ListedSpec(f: Frame)
    ensures var counts := ListedCounts(f);
      && (forall e :: multiset(counts)[e] == if e.1 > 0 then multiset(MissingCounts(f))[e] else 0)
      && (forall i, j :: 0 <= i < j < |counts| ==> counts[i].1 >= counts[j].1)
      && (forall i :: 0 <= i < |counts| ==> counts[i].1 > 0)
  {
    var all := MissingCounts(f);
    var sorted := SortBy(all, MoreGaps);
    var counts := ListedCounts(f);
    MoreGapsTotalPreorder();
    SortBySorted(all, MoreGaps);
    MaskSorted(sorted, Map(sorted, HasGaps), MoreGaps);
    MaskWhereMultiset(sorted, HasGaps);
    forall i | 0 <= i < |counts|
      ensures counts[i].1 > 0
    {
      assert counts[i] in multiset(counts);
    }
  }

  /** Column `k` is listed, with its count, exactly when it has a missing
      cell. */
  lemma ListedColumn(f: Frame, k: nat)
    requires k < |f.names|
    ensures (f.names[k], CountWhere(f.cols[k], IsMissing)) in ListedCounts(f) <==> !NoMissing(f.cols[k])
  {
    var e := (f.names[k], CountWhere(f.cols[k], IsMissing));
    CountMissing(f.cols[k]);
    assert MissingCounts(f)[k] == e;
    ListedSpec(f);
    assert e in ListedCounts(f) <==> e in multiset(ListedCounts(f));
  }

  /** "No missing values found" is the outcome exactly when no column has a
      missing cell; otherwise the report lists the counts above. */
  lemma ReportComplete(f: Frame, threshold: real)
    ensures ReportMissingValues(f, threshold).Complete? <==> forall k :: 0 <= k < |f.names| ==> NoMissing(f.cols[k])
    ensures ReportMissingValues(f, threshold).Gaps? ==> ReportMissingValues(f, threshold).counts == ListedCounts(f)
  {
    var listed := ListedCounts(f);
    if |listed| > 0 {
      ListedSpec(f);
      assert listed[0] in multiset(MissingCounts(f));
      var k :| 0 <= k < |f.names| && MissingCounts(f)[k] == listed[0];
      CountMissing(f.cols[k]);
    } else {
      forall k | 0 <= k < |f.names|
        ensures NoMissing(f.cols[k])
      {
        ListedColumn(f, k);
      }
    }
  }

  /** The counts over the limit, in listed order: one exists exactly when
      some listed count is over, and their labels are those of the listed
      counts over the limit. */
  lemma ImportantSpec(listed: seq<Count>, limit: real)
    ensures |Important(listed, limit)| > 0 <==> exists i :: 0 <= i < |listed| && listed[i].1 as real > limit
    ensures forall x :: x in Map(Important(listed, limit), Label) <==>
      exists i :: 0 <= i < |listed| && listed[i].1 as real > limit && listed[i].0 == x
    ensures var m, important := Map(listed, Above(limit)), Important(listed, limit);
      && |important| == |TrueIndices(m)|
      && (forall j :: 0 <= j < |important| ==>
            TrueIndices(m)[j] < |listed| && important[j] == listed[TrueIndices(m)[j]])
      && (forall k, l :: 0 <= k < l < |TrueIndices(m)| ==> TrueIndices(m)[k] < TrueIndices(m)[l])
      && (forall i :: 0 <= i < |listed| && listed[i].1 as real > limit ==> i in TrueIndices(m))
  {
    var m := Map(listed, Above(limit));
    var important := Important(listed, limit);
    MaskPositions(listed, m);
    var labels := Map(important, Label);
    if exists i :: 0 <= i < |listed| && listed[i].1 as real > limit {
      var i :| 0 <= i < |listed| && listed[i].1 as real > limit;
      InMask(listed, m, listed[i]);
    }
    if |important| > 0 {
      InMask(listed, m, important[0]);
    }
    forall x
      ensures x in labels <==> exists i :: 0 <= i < |listed| && listed[i].1 as real > limit && listed[i].0 == x
    {
      if x in labels {
        var j :| 0 <= j < |important| && labels[j] == x;
        InMask(listed, m, important[j]);
      }
      if exists i :: 0 <= i < |listed| && listed[i].1 as real > limit && listed[i].0 == x {
        var i :| 0 <= i < |listed| && listed[i].1 as real > limit && listed[i].0 == x;
        InMask(listed, m, listed[i]);
        var j :| 0 <= j < |important| && important[j] == listed[i];
        assert labels[j] == x;
      }
    }
  }

  /** The alert: columns are flagged exactly when a listed count exceeds
      `threshold * len(df)`; they are the labels of those counts, announced
      with the truncated percentage; otherwise the message states 5. */
  lemma ReportAlert(f: Frame, threshold: real)
    requires ReportMissingValues(f, threshold).Gaps?
    ensures var r, limit := ReportMissingValues(f, threshold), Limit(f, threshold);
      && (r.alert.Flagged? <==> exists i :: 0 <= i < |r.counts| && r.counts[i].1 as real > limit)
      && (r.alert.Flagged? ==>
            && r.alert.percent == Truncate(threshold * 100.0)
            && r.alert.columns == Map(Important(r.counts, limit), Label)
            && forall x :: x in r.alert.columns <==>
                 exists i :: 0 <= i < |r.counts| && r.counts[i].1 as real > limit && r.counts[i].0 == x)
      && (r.alert.NoneFlagged? ==> r.alert.percent == 5)
  {
    var limit := Limit(f, threshold);
    var listed := ListedCounts(f);
    var important := Important(listed, limit);
    assert ReportMissingValues(f, threshold) ==
      Gaps(listed, if |important| > 0 then Flagged(Truncate(threshold * 100.0), Map(important, Label)) else NoneFlagged(5));
    ImportantSpec(listed, limit);
  }

  /** With a threshold of 10%, a column missing its only cell is flagged
      under "10%". */
  lemma FlaggedPercent()
    ensures ReportMissingValues(Table(["GHI"], [[Missing]], 1), 0.1) == Gaps([("GHI", 1)], Flagged(10, ["GHI"]))
  {
    var f := Table(["GHI"], [[Missing]], 1);
    assert CountWhere([Missing], IsMissing) == 1;
    assert MissingCounts(f) == [("GHI", 1)];
    assert ListedCounts(f) == [("GHI", 1)];
    assert Important([("GHI", 1)], 0.1) == [("GHI", 1)];
    assert Truncate(0.1 * 100.0) == 10;
    assert Map([("GHI", 1)], Label) == ["GHI"];
  }

  /** With a threshold of 10%, a column missing 1 cell in 20 (5%) is listed
      but not flagged, and the message still states 5. */
  lemma QuietPercent()
    ensures ReportMissingValues(Table(["GHI"], [[Missing] + seq(19, _ => Num(1.0))], 20), 0.1) == Gaps([("GHI", 1)], NoneFlagged(5))
  {
    var c: seq<Cell> := [Missing] + seq(19, _ => Num(1.0));
    var f := Table(["GHI"], [c], 20);
    assert CountWhere(c, IsMissing) == 1 by {
      CountMissing(c[1..]);
    }
    assert MissingCounts(f) == [("GHI", 1)];
    assert ListedCounts(f) == [("GHI", 1)];
    assert Important([("GHI", 1)], 0.1 * 20.0) == [];
  }
}
