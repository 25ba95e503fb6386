/**
 * The control wells (`control_wells_not_in_samples`): the control positions
 * that the eight-channel pipette does not already fill with the sample columns.
 */
module Controls {
  import opened Plate

  /** The control wells, in their configured order, that lie outside the sample wells. */
  function ControlWellsNotInSamples(controls: seq<nat>, numCols: nat): (r: seq<nat>)
    ensures |r| <= |controls|
    ensures forall w :: w in r <==> w in controls && !IsWellInSamples(w, numCols)
  {
    if controls == [] then []
    else
      var rest := ControlWellsNotInSamples(controls[1..], numCols);
      if IsWellInSamples(controls[0], numCols) then rest else [controls[0]] + rest
  }

  /**
   * The filter keeps the configured order: filtering a concatenation is the
   * concatenation of the filtered parts.
   */
  lemma {:induction false} ControlWellsKeepOrder(a: seq<nat>, b: seq<nat>, numCols: nat)
    ensures ControlWellsNotInSamples(a + b, numCols) ==
            ControlWellsNotInSamples(a, numCols) + ControlWellsNotInSamples(b, numCols)
  {
    if a == [] {
      assert a + b == b;
    } else {
      assert (a + b)[1..] == a[1..] + b;
      ControlWellsKeepOrder(a[1..], b, numCols);
    }
  }

  /** Each kept well is kept as often as it is configured; a sample well is dropped entirely. */
  lemma {:induction false} ControlWellsCount(controls: seq<nat>, numCols: nat, w: nat)
    ensures multiset(ControlWellsNotInSamples(controls, numCols))[w] ==
            if IsWellInSamples(w, numCols) then 0 else multiset(controls)[w]
  {
    if controls != [] {
      ControlWellsCount(controls[1..], numCols, w);
      assert controls == [controls[0]] + controls[1..];
    }
  }

  /** The default controls, A12 and H12, need their own dispense only while the run has fewer than twelve columns. */
  lemma DefaultControls(numCols: nat)
    ensures ControlWellsNotInSamples([88, 95], numCols) ==
            if numCols >= 12 then [] else [88, 95]
  {
    assert [88, 95][1..] == [95];
    assert [95][1..] == [];
  }
}
