/**
 * The four summary cards shown above the chart: the number of patient rows
 * and the number of rows whose status is exactly "Hospitalized" (shown as
 * active cases), "Recovered" and "Deceased".
 */
module Cards {
  import opened Patients

  datatype Cards = Cards(total: nat, active: nat, recovered: nat, deaths: nat)

  /**
   * Each card is the row count of a selection of the table; the three status
   * cards are taken with mutually exclusive exact-match tests, so together
   * they never exceed the total.
   */
  function SummaryCards(t: Table): (c: Cards)
    ensures c.total == |t|
    ensures c.active == |StatusRows(t, Some(HOSPITALIZED))|
    ensures c.recovered == |StatusRows(t, Some(RECOVERED))|
    ensures c.deaths == |StatusRows(t, Some(DECEASED))|
    ensures c.active + c.recovered + c.deaths <= c.total
  {
    SelectSize(t, Some(HOSPITALIZED));
    SelectSize(t, Some(RECOVERED));
    SelectSize(t, Some(DECEASED));
    StatusCardsBounded(t);
    Cards(|t|,
          |Select(t, Some(HOSPITALIZED))|,
          |Select(t, Some(RECOVERED))|,
          |Select(t, Some(DECEASED))|)
  }

  /** No row is counted under two status cards. */
  lemma {:induction false} StatusCardsBounded(t: Table)
    ensures |Select(t, Some(HOSPITALIZED))| + |Select(t, Some(RECOVERED))| + |Select(t, Some(DECEASED))| <= |t|
  {
    if t != [] {
      StatusCardsBounded(t[..|t| - 1]);
    }
  }

  /** An empty table shows zero on every card. */
  lemma EmptyTableCards()
    ensures SummaryCards([]) == Cards(0, 0, 0, 0)
  {
  }
}
