/**
 * Worked examples on a three-row table: two patients from "MH" (one
 * hospitalized, one recovered) and one deceased patient from "KL".
 */
module Scenarios {
  import opened Patients
  import opened Aggregation
  import opened Cards
  import opened UpdateGraph

  function ThreeRows(): Table
  {
    [ Record(Some(HOSPITALIZED), Some("MH")),
      Record(Some(RECOVERED), Some("MH")),
      Record(Some(DECEASED), Some("KL")) ]
  }

  /** Every row counts for "All": MH twice, KL once. */
  lemma ThreeRowsAll()
    ensures BarData(ThreeRows(), Some(ALL)) == [StateCount("MH", 2), StateCount("KL", 1)]
  {
    var col := DetectedState(ThreeRows());
    assert col == [Some("MH"), Some("MH"), Some("KL")];
    assert col[..2][..1] == col[..1] == [Some("MH")];
    assert Tally(col[..1]) == [StateCount("MH", 1)] by {
      assert col[..1][..0] == [];
    }
    assert Tally(col[..2]) == [StateCount("MH", 2)];
    var t := [StateCount("MH", 2), StateCount("KL", 1)];
    assert Tally(col) == t by {
      assert col[..|col| - 1] == col[..2];
      assert Bump([StateCount("MH", 2)], "KL") == t;
    }
    assert SortByCount(t[1..]) == [StateCount("KL", 1)];
  }

  /** Only the first row is hospitalized. */
  lemma ThreeRowsHospitalized()
    ensures BarData(ThreeRows(), Some(HOSPITALIZED)) == [StateCount("MH", 1)]
  {
    var t := ThreeRows();
    assert Select(t[..1], Some(HOSPITALIZED)) == [t[0]];
    assert Select(t[..2], Some(HOSPITALIZED)) == [t[0]] by {
      assert t[..2][..1] == t[..1];
    }
    assert Select(t, Some(HOSPITALIZED)) == [t[0]] by {
      assert t[..2] == t[..|t| - 1];
    }
    var col := DetectedState([t[0]]);
    assert col == [Some("MH")];
    assert col[..0] == [];
  }

  /** Only the last row is deceased. */
  lemma ThreeRowsDeceased()
    ensures BarData(ThreeRows(), Some(DECEASED)) == [StateCount("KL", 1)]
  {
    var t := ThreeRows();
    assert Select(t[..1], Some(DECEASED)) == [];
    assert Select(t[..2], Some(DECEASED)) == [] by {
      assert t[..2][..1] == t[..1];
    }
    assert Select(t, Some(DECEASED)) == [t[2]] by {
      assert t[..2] == t[..|t| - 1];
    }
    var col := DetectedState([t[2]]);
    assert col == [Some("KL")];
    assert col[..0] == [];
  }

  /** A label outside the dropdown's options matches no row: the chart is empty, with no error. */
  lemma ThreeRowsUnmatched()
    ensures BarData(ThreeRows(), Some("Active")) == []
  {
    NoMatchNoBars(ThreeRows(), Some("Active"));
  }

  /** Without its recovered row, the table gives an empty chart for "Recovered". */
  lemma NoRecoveredRows()
    ensures BarData([ThreeRows()[0], ThreeRows()[2]], Some(RECOVERED)) == []
  {
    NoMatchNoBars([ThreeRows()[0], ThreeRows()[2]], Some(RECOVERED));
  }

  /** The cards of the three-row table. */
  lemma ThreeRowsCards()
    ensures SummaryCards(ThreeRows()) == Cards(3, 1, 1, 1)
  {
    var t := ThreeRows();
    assert StatusRows(t, Some(HOSPITALIZED)) == {0};
    assert StatusRows(t, Some(RECOVERED)) == {1};
    assert StatusRows(t, Some(DECEASED)) == {2};
  }
}
