/**
 * The data half of the `update_graph` callback: the rows chosen by the
 * dropdown value, and the per-region counts of those rows that the bar chart
 * draws. The dropdown offers "All", "Hospitalized", "Recovered" and
 * "Deceased", but the callback accepts any value: "All" keeps every row, any
 * other value (an unknown label, or `None` once the dropdown is cleared) keeps
 * the rows whose status equals it, which may be none.
 */
module UpdateGraph {
  import opened Patients
  import opened Aggregation

  const ALL: string := "All"

  /** Whether the callback aggregates row `r` when the dropdown holds `sel`. */
  predicate Keeps(sel: Option<string>, r: Record)
  {
    sel == Some(ALL) || CellEquals(r.status, sel)
  }

  /** The rows aggregated for the dropdown value `sel`. */
  function FilteredRows(t: Table, sel: Option<string>): Table
  {
    if sel == Some(ALL) then t else Select(t, sel)
  }

  /** The `detected_state` column of some rows. */
  function DetectedState(rows: Table): Column
  {
    seq(|rows|, i requires 0 <= i < |rows| => rows[i].state)
  }

  /** The (region, count) pairs the bar chart draws for the dropdown value `sel`. */
  function BarData(t: Table, sel: Option<string>): seq<StateCount>
  {
    ValueCounts(DetectedState(FilteredRows(t, sel)))
  }

  /** Reference definition: positions of the aggregated rows labelled `k`. */
  ghost function KeptWithState(t: Table, sel: Option<string>, k: string): set<int>
  {
    set i | 0 <= i < |t| && Keeps(sel, t[i]) && t[i].state == Some(k)
  }

  /** Reference definition: positions of the aggregated rows that have a region at all. */
  ghost function KeptWithRegion(t: Table, sel: Option<string>): set<int>
  {
    set i | 0 <= i < |t| && Keeps(sel, t[i]) && t[i].state.Some?
  }

  /**
   * "All" uses every row; any other value uses exactly the rows whose status
   * equals it, as often as the table holds them, and no other row.
   */
  lemma FilteredRowsExact(t: Table, sel: Option<string>)
    ensures sel == Some(ALL) ==> FilteredRows(t, sel) == t
    ensures forall r :: multiset(FilteredRows(t, sel))[r] == if Keeps(sel, r) then multiset(t)[r] else 0
  {
    if sel != Some(ALL) {
      SelectExact(t, sel);
    }
  }

  /** Filtering a table with one more row adds that row at the end when it is kept. */
  lemma FilteredRowsSnoc(t: Table, x: Record, sel: Option<string>)
    ensures FilteredRows(t + [x], sel) == FilteredRows(t, sel) + (if Keeps(sel, x) then [x] else [])
  {
  }

  /** Projecting a table with one more row adds that row's region at the end. */
  lemma DetectedStateSnoc(rows: Table, x: Record)
    ensures DetectedState(rows + [x]) == DetectedState(rows) + [x.state]
  {
  }

  /** The aggregated column of a table with one more row gains that row's region when the row is kept. */
  lemma ColumnSnoc(t: Table, x: Record, sel: Option<string>)
    ensures DetectedState(FilteredRows(t + [x], sel)) ==
              DetectedState(FilteredRows(t, sel)) + (if Keeps(sel, x) then [x.state] else [])
  {
  }

  /**
   * The count of region `k` in the aggregated column is the number of
   * aggregated rows of the table labelled `k`.
   */
  lemma {:induction false} OccurrencesInTable(t: Table, sel: Option<string>, k: string)
    ensures Occurrences(DetectedState(FilteredRows(t, sel)), k) == |KeptWithState(t, sel, k)|
  {
    if t != [] {
      var n := |t| - 1;
      var init := t[..n];
      assert t == init + [t[n]];
      OccurrencesInTable(init, sel, k);
      ColumnSnoc(init, t[n], sel);
      KeptSnoc(t, sel, k);
      if Keeps(sel, t[n]) {
        AppendCell(DetectedState(FilteredRows(init, sel)), t[n].state, k);
      } else {
        assert DetectedState(FilteredRows(init, sel)) + [] == DetectedState(FilteredRows(init, sel));
      }
    }
  }

  /** The non-missing cells of the aggregated column are the aggregated rows that have a region. */
  lemma {:induction false} NonMissingInTable(t: Table, sel: Option<string>)
    ensures NonMissing(DetectedState(FilteredRows(t, sel))) == |KeptWithRegion(t, sel)|
  {
    if t != [] {
      var n := |t| - 1;
      var init := t[..n];
      assert t == init + [t[n]];
      NonMissingInTable(init, sel);
      ColumnSnoc(init, t[n], sel);
      KeptRegionSnoc(t, sel);
      if Keeps(sel, t[n]) {
        AppendCell(DetectedState(FilteredRows(init, sel)), t[n].state, "");
      } else {
        assert DetectedState(FilteredRows(init, sel)) + [] == DetectedState(FilteredRows(init, sel));
      }
    }
  }

  /** The positions of the aggregated rows labelled `k` grow by the last position when the last row qualifies. */
  lemma KeptSnoc(t: Table, sel: Option<string>, k: string)
    requires t != []
    ensures |KeptWithState(t, sel, k)| ==
              |KeptWithState(t[..|t| - 1], sel, k)| + (if Keeps(sel, t[|t| - 1]) && t[|t| - 1].state == Some(k) then 1 else 0)
  {
    var n := |t| - 1;
    var init := t[..n];
    var x := t[n];
    var extra := if Keeps(sel, x) && x.state == Some(k) then {n} else {};
    forall i ensures i in KeptWithState(t, sel, k) <==> i in KeptWithState(init, sel, k) + extra {
      if 0 <= i < n {
        assert t[i] == init[i];
      }
    }
    assert KeptWithState(t, sel, k) == KeptWithState(init, sel, k) + extra;
    assert n !in KeptWithState(init, sel, k);
  }

  /** The same for the aggregated rows that have a region. */
  lemma KeptRegionSnoc(t: Table, sel: Option<string>)
    requires t != []
    ensures |KeptWithRegion(t, sel)| ==
              |KeptWithRegion(t[..|t| - 1], sel)| + (if Keeps(sel, t[|t| - 1]) && t[|t| - 1].state.Some? then 1 else 0)
  {
    var n := |t| - 1;
    var init := t[..n];
    var x := t[n];
    var extra' := if Keeps(sel, x) && x.state.Some? then {n} else {};
    forall i ensures i in KeptWithRegion(t, sel) <==> i in KeptWithRegion(init, sel) + extra' {
      if 0 <= i < n {
        assert t[i] == init[i];
      }
    }
    assert KeptWithRegion(t, sel) == KeptWithRegion(init, sel) + extra';
    assert n !in KeptWithRegion(init, sel);
  }

  /**
   * The chart data: one pair per region found among the aggregated rows and
   * no other, each counting the aggregated rows of that region (so at least
   * 1), the counts adding up to the aggregated rows that have a region, and
   * the pairs in non-increasing order of count.
   */
  lemma BarDataSpec(t: Table, sel: Option<string>)
    ensures Distinct(BarData(t, sel))
    ensures NonIncreasing(BarData(t, sel))
    ensures forall i :: 0 <= i < |BarData(t, sel)| ==>
              BarData(t, sel)[i].count == |KeptWithState(t, sel, BarData(t, sel)[i].state)| >= 1
    ensures forall k :: k in Keys(BarData(t, sel)) <==> KeptWithState(t, sel, k) != {}
    ensures TotalCount(BarData(t, sel)) == |KeptWithRegion(t, sel)|
  {
    var col := DetectedState(FilteredRows(t, sel));
    var bars := BarData(t, sel);
    CountsPositive(col, bars);
    NonMissingInTable(t, sel);
    forall k ensures Occurrences(col, k) == |KeptWithState(t, sel, k)| {
      OccurrencesInTable(t, sel, k);
    }
    forall k ensures k in Keys(bars) <==> KeptWithState(t, sel, k) != {} {
      PresentIff(col, k);
    }
  }

  /** The chart is empty exactly when no aggregated row has a region. */
  lemma BarDataEmpty(t: Table, sel: Option<string>)
    ensures BarData(t, sel) == [] <==> forall i :: 0 <= i < |t| && Keeps(sel, t[i]) ==> t[i].state.None?
  {
    var bars := BarData(t, sel);
    BarDataSpec(t, sel);
    if bars != [] {
      assert bars[0].state in Keys(bars);
      var i :| i in KeptWithState(t, sel, bars[0].state);
    } else {
      assert Keys(bars) == {};
      forall i | 0 <= i < |t| && Keeps(sel, t[i]) ensures t[i].state.None? {
        var v := if t[i].state.Some? then t[i].state.value else "";
        assert KeptWithState(t, sel, v) == {};
        assert t[i].state.Some? ==> i in KeptWithState(t, sel, v);
      }
    }
  }

  /**
   * A value other than "All" that no row's status equals (an unknown label, a
   * status absent from the table, a cleared dropdown) gives an empty chart,
   * and so does an empty table for every value.
   */
  lemma NoMatchNoBars(t: Table, sel: Option<string>)
    ensures sel != Some(ALL) && (forall i :: 0 <= i < |t| ==> !CellEquals(t[i].status, sel)) ==> BarData(t, sel) == []
    ensures BarData(t, None) == []
    ensures BarData([], sel) == []
  {
    BarDataEmpty(t, sel);
    BarDataEmpty(t, None);
    BarDataEmpty([], sel);
  }

  /**
   * Filtering on a status never raises a region's count above its count for
   * "All": every region on the filtered chart is on the "All" chart with a
   * count at least as large.
   */
  lemma FilterNeverExceedsAll(t: Table, s: string)
    ensures forall i :: 0 <= i < |BarData(t, Some(s))| ==>
              exists j :: 0 <= j < |BarData(t, Some(ALL))| &&
                BarData(t, Some(ALL))[j].state == BarData(t, Some(s))[i].state &&
                BarData(t, Some(ALL))[j].count >= BarData(t, Some(s))[i].count
  {
    var bars := BarData(t, Some(s));
    BarDataSpec(t, Some(s));
    forall i | 0 <= i < |bars|
      ensures exists j :: 0 <= j < |BarData(t, Some(ALL))| &&
                BarData(t, Some(ALL))[j].state == bars[i].state &&
                BarData(t, Some(ALL))[j].count >= bars[i].count
    {
      KeptSubset(t, s, bars[i].state);
      ChartHasRegion(t, Some(ALL), bars[i].state);
    }
  }

  /** A region found among the aggregated rows is on the chart with their number as its count. */
  lemma ChartHasRegion(t: Table, sel: Option<string>, k: string)
    requires KeptWithState(t, sel, k) != {}
    ensures exists j :: 0 <= j < |BarData(t, sel)| &&
              BarData(t, sel)[j].state == k && BarData(t, sel)[j].count == |KeptWithState(t, sel, k)|
  {
    var bars := BarData(t, sel);
    BarDataSpec(t, sel);
    var e :| e in bars && e.state == k;
    var j :| 0 <= j < |bars| && bars[j] == e;
  }

  /** A status filter keeps a subset of the rows of a region that "All" keeps. */
  lemma KeptSubset(t: Table, s: string, k: string)
    ensures KeptWithState(t, Some(s), k) <= KeptWithState(t, Some(ALL), k)
    ensures |KeptWithState(t, Some(s), k)| <= |KeptWithState(t, Some(ALL), k)|
  {
    var a := KeptWithState(t, Some(s), k);
    var b := KeptWithState(t, Some(ALL), k);
    assert b == a + (b - a);
  }

  /**
   * The chart for a status never counts more rows than that status's card,
   * and counts exactly as many when every such row has a region.
   */
  lemma BarsWithinCard(t: Table, s: string)
    requires s != ALL
    ensures TotalCount(BarData(t, Some(s))) <= |StatusRows(t, Some(s))|
    ensures (forall i :: 0 <= i < |t| && t[i].status == Some(s) ==> t[i].state.Some?) ==>
              TotalCount(BarData(t, Some(s))) == |StatusRows(t, Some(s))|
  {
    var col := DetectedState(FilteredRows(t, Some(s)));
    SelectSize(t, Some(s));
    assert |col| == |Select(t, Some(s))|;
    if forall i :: 0 <= i < |t| && t[i].status == Some(s) ==> t[i].state.Some? {
      NonMissingAll(col);
      forall i | 0 <= i < |col| ensures col[i].Some? {
        var rows := Select(t, Some(s));
        SelectExact(t, Some(s));
        assert rows[i] in multiset(rows);
        assert rows[i] in multiset(t);
      }
    }
  }
}
