/**
 * Column progress (`get_next_pcr_plate_dests`, `remaining_cols`): a counter
 * of finished destination columns that hands out the next contiguous slice.
 */
module ColumnProgress {
  import opened Outcomes
  import opened Plate

  /** `remaining_cols`: columns not yet handed out. */
  function RemainingCols(numCols: nat, doneCols: nat): (r: int)
    ensures doneCols <= numCols ==> 0 <= r <= numCols
    ensures r == 0 <==> doneCols == numCols
  {
    numCols - doneCols
  }

  /** One hand-out: the destinations returned and the new done count. */
  datatype Handout = Handout(dests: seq<nat>, doneCols: nat)

  /**
   * `get_next_pcr_plate_dests(n)` on a tracker that has finished `doneCols`
   * of `numCols` columns: fails once nothing remains, otherwise returns the
   * next `min(remaining, n)` destinations and advances the counter by as many.
   */
  function NextDests(numCols: nat, doneCols: nat, n: nat): (r: Result<Handout>)
    ensures r.Err? <==> doneCols >= numCols
    ensures r.Ok? ==>
      && doneCols <= r.value.doneCols <= numCols
      && r.value.doneCols - doneCols == (if n < numCols - doneCols then n else numCols - doneCols)
      && |r.value.dests| == r.value.doneCols - doneCols
      && RemainingCols(numCols, r.value.doneCols) == RemainingCols(numCols, doneCols) - |r.value.dests|
      && (forall j :: 0 <= j < |r.value.dests| ==> r.value.dests[j] == ColumnTop(doneCols + j))
  {
    if doneCols < numCols then
      var toDo := if numCols - doneCols < n then numCols - doneCols else n;
      Ok(Handout(SampleDests(numCols)[doneCols..doneCols + toDo], doneCols + toDo))
    else
      Err("No more columns to do")
  }

  /** A hand-out is the run of the plate's sample destinations between the old and the new done count. */
  lemma NextDestsIsSlice(numCols: nat, doneCols: nat, n: nat)
    requires doneCols < numCols
    ensures var h := NextDests(numCols, doneCols, n).value;
      doneCols <= h.doneCols <= numCols && h.dests == SampleDests(numCols)[doneCols..h.doneCols]
  {
  }

  /**
   * Two successive hand-outs are contiguous and do not overlap: together
   * they are exactly the destinations from the first done count to the last.
   */
  lemma {:induction false} SuccessiveHandoutsContiguous(numCols: nat, doneCols: nat, n1: nat, n2: nat, h1: Handout, h2: Handout)
    requires NextDests(numCols, doneCols, n1) == Ok(h1)
    requires NextDests(numCols, h1.doneCols, n2) == Ok(h2)
    ensures h1.dests + h2.dests == SampleDests(numCols)[doneCols..h2.doneCols]
    ensures forall x :: x in h1.dests ==> x !in h2.dests
  {
    var all := SampleDests(numCols);
    assert h1.dests == all[doneCols..h1.doneCols];
    assert h2.dests == all[h1.doneCols..h2.doneCols];
    assert all[doneCols..h1.doneCols] + all[h1.doneCols..h2.doneCols] == all[doneCols..h2.doneCols];
    // the first hand-out lies in columns before h1.doneCols, the second from it on
    assert forall x :: x in h1.dests ==> x / WellsPerColumn < h1.doneCols;
    assert forall x :: x in h2.dests ==> x / WellsPerColumn >= h1.doneCols;
  }

  /** Each hand-out extends the destinations handed out since `start` by the next ones. */
  lemma HandoutExtendsDone(numCols: nat, start: nat, doneCols: nat, n: nat, h: Handout)
    requires start <= doneCols
    requires NextDests(numCols, doneCols, n) == Ok(h)
    ensures SampleDests(numCols)[start..doneCols] + h.dests == SampleDests(numCols)[start..h.doneCols]
  {
    var all := SampleDests(numCols);
    assert h.dests == all[doneCols..h.doneCols];
    assert all[start..doneCols] + all[doneCols..h.doneCols] == all[start..h.doneCols];
  }
}
