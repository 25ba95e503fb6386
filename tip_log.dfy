/**
 * The single-protocol revision's tip bookkeeping: a per-pipette count of the
 * tips used from its racks, a pick-up that pauses for fresh racks when the
 * count reaches the rack total, and the count snapshot saved at the end of a
 * run and loaded at the start of the next.
 */
module TipLog {
  import opened Outcomes

  /** The two pipettes: the eight-channel 20 ul and the single-channel 300 ul. */
  datatype Pipette = M20 | P300

  /** What one pick-up does on a count `count` of `max` tips. */
  datatype Pick = Pick(paused: bool, tip: Result<nat>, count: nat)

  /**
   * `pick_up` on one pipette: when every tip is used, pause for fresh racks
   * and start again from the first tip; then take the tip at the count (an
   * index error when there is no such tip) and count it.
   */
  function PickUpStep(count: nat, max: nat): (p: Pick)
    ensures p.paused <==> count == max
    ensures var from := if count == max then 0 else count;
      && (p.tip.Ok? <==> from < max)
      && (p.tip.Ok? ==> p.tip.value == from && p.count == from + 1)
      && (p.tip.Err? ==> p.count == from)
    ensures count <= max && max > 0 ==> p.tip.Ok? && 1 <= p.count <= max
  {
    var paused := count == max;
    var from := if paused then 0 else count;
    if from < max then Pick(paused, Ok(from), from + 1)
    else Pick(paused, Err("tip index out of range"), from)
  }

  /** The state of `k` pick-ups on one pipette: tips taken, final count, pauses. */
  datatype Run = Run(tips: seq<nat>, count: nat, pauses: nat)

  /** `k` successive pick-ups on one pipette from a count within its racks. */
  function PickUps(count: nat, max: nat, k: nat): (r: Run)
    requires 0 < max && count <= max
    ensures |r.tips| == k && r.count <= max
    decreases k
  {
    if k == 0 then Run([], count, 0)
    else
      var prev := PickUps(count, max, k - 1);
      var p := PickUpStep(prev.count, max);
      Run(prev.tips + [p.tip.value], p.count, prev.pauses + (if p.paused then 1 else 0))
  }

  lemma MulAtLeast(m: int, e: int)
    requires m > 0 && e >= 1
    ensures m * e >= m
    decreases e
  {
    if e > 1 {
      MulAtLeast(m, e - 1);
      assert m * e == m * (e - 1) + m;
    }
  }

  /** Euclidean division is unique: `a == m * d + r` with `0 <= r < m` fixes `d` and `r`. */
  lemma DivModUnique(a: int, m: int, d: int, r: int)
    requires m > 0 && 0 <= r < m && a == m * d + r
    ensures a / m == d && a % m == r
  {
    var d' := a / m;
    var r' := a % m;
    assert a == m * d' + r';
    if d > d' {
      MulAtLeast(m, d - d');
    } else if d < d' {
      MulAtLeast(m, d' - d);
    }
  }

  /** One more count: the remainder steps up by one, or wraps to 0 and the quotient steps up. */
  lemma SuccDivMod(a: nat, m: nat)
    requires m > 0
    ensures a % m + 1 < m ==> (a + 1) % m == a % m + 1 && (a + 1) / m == a / m
    ensures a % m + 1 == m ==> (a + 1) % m == 0 && (a + 1) / m == a / m + 1
  {
    var d := a / m;
    var r := a % m;
    assert a == m * d + r;
    if r + 1 < m {
      DivModUnique(a + 1, m, d, r + 1);
    } else {
      assert a + 1 == m * (d + 1) + 0;
      DivModUnique(a + 1, m, d + 1, 0);
    }
  }

  /**
   * After `k >= 1` pick-ups from a count `count <= max`: pick-up `j` takes
   * tip `(count + j) % max`, the count is `(count + k - 1) % max + 1`, and the
   * run paused `(count + k - 1) / max` times for fresh racks.
   */
  lemma {:induction false} PickUpsClosedForm(count: nat, max: nat, k: nat)
    requires 0 < max && count <= max && k >= 1
    ensures var r := PickUps(count, max, k);
      && r.count == (count + k - 1) % max + 1
      && r.pauses == (count + k - 1) / max
      && forall j :: 0 <= j < k ==> r.tips[j] == (count + j) % max
    decreases k
  {
    var r := PickUps(count, max, k);
    if k == 1 {
      var p := PickUpStep(count, max);
      assert r.tips == [p.tip.value];
      if count == max {
        DivModUnique(count, max, 1, 0);
      } else {
        DivModUnique(count, max, 0, count);
      }
    } else {
      PickUpsClosedForm(count, max, k - 1);
      var prev := PickUps(count, max, k - 1);
      var a := count + k - 2;
      SuccDivMod(a, max);
      assert prev.count == a % max + 1;
      forall j | 0 <= j < k
        ensures r.tips[j] == (count + j) % max
      {
        if j < k - 1 {
          assert r.tips[j] == prev.tips[j];
        }
      }
    }
  }

  /**
   * The tip counts of a run, per pipette, the tips those counts index into,
   * the pauses for fresh racks and the tips taken so far.
   */
  class TipTracker {
    const max: map<Pipette, nat>          // tips in the racks of each pipette
    var count: map<Pipette, nat>          // tips used since the racks were (re)filled
    var pauses: nat                       // pauses for fresh racks
    var used: seq<(Pipette, nat)>         // every tip taken, in order

    ghost predicate Valid()
      reads this
    {
      M20 in count && P300 in count && M20 in max && P300 in max
    }

    constructor (max: map<Pipette, nat>, initial: map<Pipette, nat>)
      requires M20 in max && P300 in max && M20 in initial && P300 in initial
      ensures Valid()
      ensures this.max == max && count == initial && pauses == 0 && used == []
    {
      this.max := max;
      count := initial;
      pauses := 0;
      used := [];
    }

    /** `pick_up(pip)`: as `PickUpStep` on that pipette's count; the other pipette's count is unchanged. */
    method PickUp(pip: Pipette) returns (r: Result<nat>)
      requires Valid()
      modifies this`count, this`pauses, this`used
      ensures Valid()
      ensures var p := PickUpStep(old(count[pip]), max[pip]);
        && r == p.tip
        && count == old(count)[pip := p.count]
        && pauses == old(pauses) + (if p.paused then 1 else 0)
        && used == old(used) + (if r.Ok? then [(pip, r.value)] else [])
    {
      if count[pip] == max[pip] {
        pauses := pauses + 1;
        count := count[pip := 0];
      }
      if count[pip] >= max[pip] {
        return Err("tip index out of range");
      }
      r := Ok(count[pip]);
      used := used + [(pip, count[pip])];
      count := count[pip := count[pip] + 1];
    }
  }

  /** The saved snapshot: a JSON object that may hold the keys "tips20" and "tips300". */
  type Snapshot = map<string, nat>

  /**
   * The counts a run starts from: with tracking off, when simulating, or with
   * no snapshot file, both counts are 0; otherwise each count is read from
   * its key, 0 when the key is missing.
   */
  function InitialCounts(tipTrack: bool, simulating: bool, file: Option<Snapshot>): (c: map<Pipette, nat>)
    ensures c.Keys == {M20, P300}
    ensures !tipTrack || simulating || file.None? ==> c[M20] == 0 && c[P300] == 0
    ensures tipTrack && !simulating && file.Some? ==>
      && (c[M20] != 0 ==> "tips20" in file.value && c[M20] == file.value["tips20"])
      && (c[P300] != 0 ==> "tips300" in file.value && c[P300] == file.value["tips300"])
    ensures tipTrack && !simulating && file.Some? && "tips20" in file.value ==> c[M20] == file.value["tips20"]
    ensures tipTrack && !simulating && file.Some? && "tips300" in file.value ==> c[P300] == file.value["tips300"]
  {
    if tipTrack && !simulating && file.Some? then
      var data := file.value;
      map[M20 := if "tips20" in data then data["tips20"] else 0,
          P300 := if "tips300" in data then data["tips300"] else 0]
    else
      map[M20 := 0, P300 := 0]
  }

  /** The snapshot a run saves at its end: only when tracking and not simulating. */
  function FinalSnapshot(tipTrack: bool, simulating: bool, count: map<Pipette, nat>): (s: Option<Snapshot>)
    requires M20 in count && P300 in count
    ensures s.Some? <==> tipTrack && !simulating
    ensures s.Some? ==> s.value.Keys == {"tips20", "tips300"}
  {
    if tipTrack && !simulating then Some(map["tips20" := count[M20], "tips300" := count[P300]])
    else None
  }

  /** A tracked run that loads the snapshot the previous tracked run saved resumes from its final counts. */
  lemma ResumeFromSnapshot(count: map<Pipette, nat>)
    requires count.Keys == {M20, P300}
    ensures InitialCounts(true, false, FinalSnapshot(true, false, count)) == count
  {
    var c := InitialCounts(true, false, FinalSnapshot(true, false, count));
    assert c.Keys == count.Keys;
    assert c[M20] == count[M20] && c[P300] == count[P300];
  }

  /** Saving the counts loaded from a snapshot with exactly the two keys writes that snapshot back. */
  lemma SnapshotRoundTrip(data: Snapshot)
    requires data.Keys == {"tips20", "tips300"}
    ensures FinalSnapshot(true, false, InitialCounts(true, false, Some(data))) == Some(data)
  {
    var s := FinalSnapshot(true, false, InitialCounts(true, false, Some(data))).value;
    assert s == map["tips20" := data["tips20"], "tips300" := data["tips300"]];
    assert data == map["tips20" := data["tips20"], "tips300" := data["tips300"]];
  }
}
