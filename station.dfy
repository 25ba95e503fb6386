/**
 * The station protocol `BioerMastermixPrep`: its column counter, its list of
 * source tubes with their available volumes, and the hardware calls it makes,
 * kept as a log of actions.
 */
module Station {
  import opened Outcomes
  import opened Plate
  import opened SourceTubes
  import opened ColumnProgress
  import opened Headroom
  import opened Controls

  /** The strip is one column of eight wells. */
  const StripWells: nat := 8

  /** The pipetting calls the protocol issues, in the order it issues them. */
  datatype Action =
    | Aspirate(tube: nat, vol: real)             // single-channel pipette, from a source tube
    | DispenseToStrip(well: nat, vol: real)      // single-channel pipette, into a strip well
    | DispenseToControl(well: nat, vol: real)    // single-channel pipette, into a control well
    | TransferToColumn(dest: nat, vol: real)     // eight-channel pipette, strip to a plate column

  /** One aspirate per recorded withdrawal, in the recorded order. */
  function AspirateActions(ws: seq<Withdrawal>): (a: seq<Action>)
    ensures |a| == |ws|
    ensures forall k :: 0 <= k < |ws| ==> a[k] == Aspirate(ws[k].tube, ws[k].vol)
  {
    seq(|ws|, k requires 0 <= k < |ws| => Aspirate(ws[k].tube, ws[k].vol))
  }

  /** One eight-channel transfer per destination column. */
  function Transfers(dests: seq<nat>, vol: real): (a: seq<Action>)
    ensures |a| == |dests|
    ensures forall k :: 0 <= k < |dests| ==> a[k] == TransferToColumn(dests[k], vol)
  {
    seq(|dests|, k requires 0 <= k < |dests| => TransferToColumn(dests[k], vol))
  }

  /** One dispense of `vol` into each control well, in the configured order. */
  function ControlDispenses(controls: seq<nat>, vol: real): (a: seq<Action>)
    ensures |a| == |controls|
    ensures forall k :: 0 <= k < |controls| ==> a[k] == DispenseToControl(controls[k], vol)
  {
    seq(|controls|, k requires 0 <= k < |controls| => DispenseToControl(controls[k], vol))
  }

  /** The plate columns served from the strip so far, in order. */
  function Served(actions: seq<Action>): seq<nat>
  {
    if actions == [] then []
    else
      var last := actions[|actions| - 1];
      Served(actions[..|actions| - 1]) + (if last.TransferToColumn? then [last.dest] else [])
  }

  lemma {:induction false} ServedAppend(a: seq<Action>, b: seq<Action>)
    ensures Served(a + b) == Served(a) + Served(b)
    decreases |b|
  {
    if b == [] {
      assert a + b == a;
    } else {
      var b' := b[..|b| - 1];
      assert (a + b)[..|a + b| - 1] == a + b';
      ServedAppend(a, b');
    }
  }

  /** Only the eight-channel transfers serve columns, each the column it names. */
  lemma {:induction false} ServedOnlyByTransfers(ws: seq<Withdrawal>, controls: seq<nat>, dests: seq<nat>, well: nat, v: real)
    ensures Served(AspirateActions(ws)) == []
    ensures Served(ControlDispenses(controls, v)) == []
    ensures Served([DispenseToStrip(well, v)]) == []
    ensures Served(Transfers(dests, v)) == dests
    decreases |ws| + |controls| + |dests|
  {
    assert [DispenseToStrip(well, v)][..0] == [];
    if ws != [] {
      var ws' := ws[..|ws| - 1];
      assert AspirateActions(ws)[..|ws| - 1] == AspirateActions(ws');
      ServedOnlyByTransfers(ws', controls, dests, well, v);
    }
    if controls != [] {
      var controls' := controls[..|controls| - 1];
      assert ControlDispenses(controls, v)[..|controls| - 1] == ControlDispenses(controls', v);
      ServedOnlyByTransfers([], controls', dests, well, v);
    }
    if dests != [] {
      var dests' := dests[..|dests| - 1];
      assert Transfers(dests, v)[..|dests| - 1] == Transfers(dests', v);
      ServedOnlyByTransfers([], [], dests', well, v);
    }
  }

  /** Filling one strip well serves no plate column. */
  lemma ServedAfterStripWell(log: seq<Action>, ws: seq<Withdrawal>, well: nat, v: real)
    ensures Served(log + AspirateActions(ws) + [DispenseToStrip(well, v)]) == Served(log)
  {
    ServedOnlyByTransfers(ws, [], [], well, v);
    ServedAppend(log, AspirateActions(ws));
    ServedAppend(log + AspirateActions(ws), [DispenseToStrip(well, v)]);
  }

  /** Filling the control wells serves no plate column. */
  lemma ServedAfterControls(log: seq<Action>, ws: seq<Withdrawal>, controls: seq<nat>, v: real)
    ensures Served(log + AspirateActions(ws) + ControlDispenses(controls, v)) == Served(log)
  {
    ServedOnlyByTransfers(ws, controls, [], 0, v);
    ServedAppend(log, AspirateActions(ws));
    ServedAppend(log + AspirateActions(ws), ControlDispenses(controls, v));
  }

  /** The eight-channel transfers serve exactly the columns they name, in order. */
  lemma ServedAfterTransfers(log: seq<Action>, dests: seq<nat>, v: real)
    ensures Served(log + Transfers(dests, v)) == Served(log) + dests
  {
    ServedOnlyByTransfers([], [], dests, 0, v);
    ServedAppend(log, Transfers(dests, v));
  }

  lemma AppendAssoc<T>(a: seq<T>, b: seq<T>, c: seq<T>)
    ensures (a + b) + c == a + (b + c)
  {
  }

  lemma SliceConcat<T>(s: seq<T>, i: nat, j: nat, k: nat)
    requires i <= j <= k <= |s|
    ensures s[i..j] + s[j..k] == s[i..k]
  {
  }

  /** The strip wells filled so far, in order. */
  function StripFilled(actions: seq<Action>): seq<nat>
  {
    if actions == [] then []
    else
      var last := actions[|actions| - 1];
      StripFilled(actions[..|actions| - 1]) + (if last.DispenseToStrip? then [last.well] else [])
  }

  lemma {:induction false} StripFilledAppend(a: seq<Action>, b: seq<Action>)
    ensures StripFilled(a + b) == StripFilled(a) + StripFilled(b)
    decreases |b|
  {
    if b == [] {
      assert a + b == a;
    } else {
      var b' := b[..|b| - 1];
      assert (a + b)[..|a + b| - 1] == a + b';
      StripFilledAppend(a, b');
    }
  }

  /** Aspirating fills no strip well. */
  lemma {:induction false} AspiratesFillNoWell(ws: seq<Withdrawal>)
    ensures StripFilled(AspirateActions(ws)) == []
    decreases |ws|
  {
    if ws != [] {
      var ws' := ws[..|ws| - 1];
      assert AspirateActions(ws)[..|ws| - 1] == AspirateActions(ws');
      AspiratesFillNoWell(ws');
    }
  }

  /** The strip wells from `well` to the last, in order. */
  function WellsFrom(well: nat): (wells: seq<nat>)
    requires well <= StripWells
    ensures |wells| == StripWells - well
    ensures forall k :: 0 <= k < |wells| ==> wells[k] == well + k
  {
    seq(StripWells - well, k requires 0 <= k => well + k)
  }

  /** What filling the strip from one well on does: the pool it leaves, the calls it logs, whether every well was filled. */
  datatype StripRun = StripRun(tubes: seq<real>, log: seq<Action>, ok: bool)

  /**
   * `fill_strip` from strip well `well` on: each well draws `volume` from the
   * tubes, first fit, and receives it; the first draw the tubes cannot meet
   * stops the fill with the tubes as that draw left them.
   */
  function FillStripWells(tubes: seq<real>, volume: real, well: nat): (run: StripRun)
    ensures |run.tubes| == |tubes|
    decreases StripWells - well
  {
    if well >= StripWells then StripRun(tubes, [], true)
    else
      var d := Deplete(tubes, volume);
      if !d.met then StripRun(d.after, [], false)
      else
        var rest := FillStripWells(d.after, volume, well + 1);
        StripRun(rest.tubes, AspirateActions(d.withdrawals) + [DispenseToStrip(well, volume)] + rest.log, rest.ok)
  }

  /** One strip well's calls: its aspirates and its dispense, which fill that well and serve no column. */
  lemma OneStripWell(ws: seq<Withdrawal>, well: nat, v: real)
    ensures StripFilled(AspirateActions(ws) + [DispenseToStrip(well, v)]) == [well]
    ensures Served(AspirateActions(ws) + [DispenseToStrip(well, v)]) == []
  {
    ServedAfterStripWell([], ws, well, v);
    assert [] + AspirateActions(ws) + [DispenseToStrip(well, v)] == AspirateActions(ws) + [DispenseToStrip(well, v)];
    AspiratesFillNoWell(ws);
    assert StripFilled([DispenseToStrip(well, v)]) == [well] by {
      assert [DispenseToStrip(well, v)][..0] == [];
    }
    StripFilledAppend(AspirateActions(ws), [DispenseToStrip(well, v)]);
  }

  /** A strip fill serves no plate column. */
  lemma {:induction false} FillStripWellsServesNothing(tubes: seq<real>, volume: real, well: nat)
    ensures Served(FillStripWells(tubes, volume, well).log) == []
    decreases StripWells - well
  {
    if well < StripWells {
      var d := Deplete(tubes, volume);
      if d.met {
        var rest := FillStripWells(d.after, volume, well + 1);
        FillStripWellsServesNothing(d.after, volume, well + 1);
        var head := AspirateActions(d.withdrawals) + [DispenseToStrip(well, volume)];
        assert FillStripWells(tubes, volume, well).log == head + rest.log;
        OneStripWell(d.withdrawals, well, volume);
        ServedAppend(head, rest.log);
      }
    }
  }

  /**
   * The wells a strip fill fills are the first of the remaining strip wells,
   * in order, and all of them exactly when it succeeds.
   */
  lemma {:induction false} FillStripWellsFills(tubes: seq<real>, volume: real, well: nat)
    requires well <= StripWells
    ensures var run := FillStripWells(tubes, volume, well);
      && StripFilled(run.log) <= WellsFrom(well)
      && (run.ok <==> StripFilled(run.log) == WellsFrom(well))
    decreases StripWells - well
  {
    var run := FillStripWells(tubes, volume, well);
    if well < StripWells {
      var d := Deplete(tubes, volume);
      assert WellsFrom(well) == [well] + WellsFrom(well + 1);
      if d.met {
        var rest := FillStripWells(d.after, volume, well + 1);
        FillStripWellsFills(d.after, volume, well + 1);
        var head := AspirateActions(d.withdrawals) + [DispenseToStrip(well, volume)];
        assert run.log == head + rest.log;
        OneStripWell(d.withdrawals, well, volume);
        StripFilledAppend(head, rest.log);
        assert StripFilled(run.log) == [well] + StripFilled(rest.log);
        assert run.ok == rest.ok;
        ConsPrefix(well, StripFilled(rest.log), WellsFrom(well + 1));
      } else {
        assert run.log == [];
      }
    } else {
      assert run.log == [];
    }
  }

  /** Putting the same element in front keeps a prefix a prefix, and equal sequences equal. */
  lemma ConsPrefix<T>(x: T, a: seq<T>, b: seq<T>)
    ensures a <= b <==> [x] + a <= [x] + b
    ensures a == b <==> [x] + a == [x] + b
  {
    if [x] + a == [x] + b {
      assert a == ([x] + a)[1..];
    }
    if [x] + a <= [x] + b {
      assert a == ([x] + a)[1..] <= ([x] + b)[1..] == b;
    }
  }

  /** One strip well of the fill: its draw fails and stops the fill, or the fill goes on from the next well. */
  lemma FillStripWellsStep(tubes: seq<real>, volume: real, well: nat)
    requires well < StripWells
    ensures var d := Deplete(tubes, volume);
      var run := FillStripWells(tubes, volume, well);
      var rest := FillStripWells(d.after, volume, well + 1);
      && (!d.met ==> run == StripRun(d.after, [], false))
      && (d.met ==> run.tubes == rest.tubes && run.ok == rest.ok &&
                    run.log == AspirateActions(d.withdrawals) + [DispenseToStrip(well, volume)] + rest.log)
  {
  }

  /** With no tubes, the first strip well's draw fails and nothing is logged. */
  lemma FillStripWellsNoTubes(volume: real, well: nat)
    requires well < StripWells
    ensures !FillStripWells([], volume, well).ok && FillStripWells([], volume, well).log == []
  {
    assert !Deplete([], volume).met;
  }

  /**
   * `target` is a strip fill that logged `done` and then went on from `well`
   * with the pool `tubes`.
   */
  ghost predicate ContinuesFrom(target: StripRun, done: seq<Action>, tubes: seq<real>, volume: real, well: nat)
  {
    var now := FillStripWells(tubes, volume, well);
    target.tubes == now.tubes && target.ok == now.ok && target.log == done + now.log
  }

  /**
   * A fill resumed at `well`, after the calls `done`,
   * either stops at that well's draw, having logged only `done`, or goes on
   * from the next well once that draw and dispense are logged too.
   */
  lemma FillStripWellsAdvance(target: StripRun, done: seq<Action>, tubes: seq<real>, volume: real, well: nat)
    requires well < StripWells
    requires ContinuesFrom(target, done, tubes, volume, well)
    ensures var d := Deplete(tubes, volume);
      var wellLog := AspirateActions(d.withdrawals) + [DispenseToStrip(well, volume)];
      && (!d.met ==> target == StripRun(d.after, done, false))
      && (d.met ==> ContinuesFrom(target, done + wellLog, d.after, volume, well + 1))
  {
    var d := Deplete(tubes, volume);
    var wellLog := AspirateActions(d.withdrawals) + [DispenseToStrip(well, volume)];
    FillStripWellsStep(tubes, volume, well);
    if d.met {
      AppendAssoc(done, wellLog, FillStripWells(d.after, volume, well + 1).log);
    }
  }

  /** A fill resumed past the last well is complete, having logged `done`. */
  lemma FillStripWellsEnds(target: StripRun, done: seq<Action>, tubes: seq<real>, volume: real)
    requires ContinuesFrom(target, done, tubes, volume, StripWells)
    ensures target == StripRun(tubes, done, true)
  {
  }

  /** A strip fill keeps a pool of non-negative volumes non-negative. */
  lemma {:induction false} FillStripWellsKeepsNonnegative(tubes: seq<real>, volume: real, well: nat)
    requires Nonnegative(tubes)
    ensures Nonnegative(FillStripWells(tubes, volume, well).tubes)
    decreases StripWells - well
  {
    if well < StripWells {
      var d := Deplete(tubes, volume);
      DepleteKeepsNonnegative(tubes, 0, volume, d);
      if d.met {
        FillStripWellsKeepsNonnegative(d.after, volume, well + 1);
      }
    }
  }

  /**
   * Non-negative tubes that hold what the remaining strip wells take fill
   * them all, and their total falls by exactly that.
   */
  lemma {:induction false} FillStripWellsDraws(tubes: seq<real>, volume: real, well: nat)
    requires well <= StripWells && Nonnegative(tubes) && |tubes| > 0 && volume >= 0.0
    requires Sum(tubes) >= Times(StripWells - well, volume)
    ensures var run := FillStripWells(tubes, volume, well);
      run.ok && Sum(run.tubes) == Sum(tubes) - Times(StripWells - well, volume)
    decreases StripWells - well
  {
    if well < StripWells {
      var n := StripWells - well;
      TimesMonotone(0, n - 1, volume);
      assert Times(n, volume) == Times(n - 1, volume) + volume;
      DepleteSucceeds(tubes, volume);
      var d := Deplete(tubes, volume);
      FillStripWellsDraws(d.after, volume, well + 1);
    }
  }

  /** What a fill of the whole strip does to the pool and the log, in one place. */
  lemma FillStripFacts(tubes: seq<real>, volume: real)
    ensures var run := FillStripWells(tubes, volume, 0);
      && Served(run.log) == []
      && (Nonnegative(tubes) ==> Nonnegative(run.tubes))
      && (|tubes| == 0 ==> !run.ok)
      && (Nonnegative(tubes) && |tubes| > 0 && volume >= 0.0 && Sum(tubes) >= 8.0 * volume ==>
            run.ok && Sum(run.tubes) == Sum(tubes) - 8.0 * volume)
  {
    FillStripWellsServesNothing(tubes, volume, 0);
    if Nonnegative(tubes) {
      FillStripWellsKeepsNonnegative(tubes, volume, 0);
    }
    if |tubes| == 0 {
      FillStripWellsNoTubes(volume, 0);
    }
    if Nonnegative(tubes) && |tubes| > 0 && volume >= 0.0 && Sum(tubes) >= 8.0 * volume {
      TimesIsProduct(StripWells, volume);
      FillStripWellsDraws(tubes, volume, 0);
    }
  }

  /** The volumes dispensed into strip wells, in order. */
  function StripVolumes(actions: seq<Action>): seq<real>
  {
    if actions == [] then []
    else
      var last := actions[|actions| - 1];
      StripVolumes(actions[..|actions| - 1]) + (if last.DispenseToStrip? then [last.vol] else [])
  }

  lemma {:induction false} StripVolumesAppend(a: seq<Action>, b: seq<Action>)
    ensures StripVolumes(a + b) == StripVolumes(a) + StripVolumes(b)
    decreases |b|
  {
    if b == [] {
      assert a + b == a;
    } else {
      var b' := b[..|b| - 1];
      assert (a + b)[..|a + b| - 1] == a + b';
      StripVolumesAppend(a, b');
    }
  }

  /** Calls none of which dispenses into the strip put no volume into it. */
  lemma {:induction false} NoStripVolumes(log: seq<Action>)
    requires forall k :: 0 <= k < |log| ==> !log[k].DispenseToStrip?
    ensures StripVolumes(log) == []
    decreases |log|
  {
    if log != [] {
      assert log[..|log| - 1][..] == log[..|log| - 1];
      NoStripVolumes(log[..|log| - 1]);
    }
  }

  /** No strip well receives more than `cap` in these calls. */
  ghost predicate WithinCapacity(actions: seq<Action>, cap: real)
  {
    forall k :: 0 <= k < |StripVolumes(actions)| ==> StripVolumes(actions)[k] <= cap
  }

  /**
   * The strip wells receive in all, in these calls, eight wells' worth of
   * every column from `doneCols` on and `headroom` per well once.
   */
  ghost predicate HeadroomOnce(actions: seq<Action>, numCols: nat, doneCols: nat, headroom: real, mastermixVol: real)
  {
    doneCols <= numCols && Sum(StripVolumes(actions)) == 8.0 * (Times(numCols - doneCols, mastermixVol) + headroom)
  }

  lemma WithinCapacityAppend(a: seq<Action>, b: seq<Action>, cap: real)
    requires WithinCapacity(a, cap) && WithinCapacity(b, cap)
    ensures WithinCapacity(a + b, cap)
  {
    StripVolumesAppend(a, b);
    var sa, sb := StripVolumes(a), StripVolumes(b);
    assert forall k :: 0 <= k < |sa + sb| ==> (sa + sb)[k] == (if k < |sa| then sa[k] else sb[k - |sa|]);
  }

  /** Filling the controls puts nothing into the strip. */
  lemma StripVolumesAfterControls(log: seq<Action>, ws: seq<Withdrawal>, controls: seq<nat>, v: real)
    ensures StripVolumes(log + AspirateActions(ws) + ControlDispenses(controls, v)) == StripVolumes(log)
  {
    var added := AspirateActions(ws) + ControlDispenses(controls, v);
    assert forall k :: 0 <= k < |added| ==> !added[k].DispenseToStrip?;
    NoStripVolumes(added);
    AppendAssoc(log, AspirateActions(ws), ControlDispenses(controls, v));
    StripVolumesAppend(log, added);
    assert StripVolumes(log) + [] == StripVolumes(log);
  }

  /**
   * Calls from `a0` to `a1` that put nothing into the strip can be skipped:
   * the calls after `a0` put into it what the calls after `a1` put.
   */
  lemma StripVolumesSkip(a0: seq<Action>, a1: seq<Action>, a2: seq<Action>)
    requires a0 <= a1 <= a2 && StripVolumes(a1) == StripVolumes(a0)
    ensures StripVolumes(a2[|a0|..]) == StripVolumes(a2[|a1|..])
  {
    var mid, rest := a1[|a0|..], a2[|a1|..];
    assert a1 == a0 + mid;
    StripVolumesAppend(a0, mid);
    assert StripVolumes(mid) == [] by {
      assert |StripVolumes(a0) + StripVolumes(mid)| == |StripVolumes(a0)|;
    }
    assert a2[|a0|..] == mid + rest;
    StripVolumesAppend(mid, rest);
    assert [] + StripVolumes(rest) == StripVolumes(rest);
  }

  /** A met draw puts one dispense of `volume` into the strip ahead of the rest of the fill's. */
  lemma FillStripWellsVolumesStep(tubes: seq<real>, volume: real, well: nat)
    requires well < StripWells && Deplete(tubes, volume).met
    ensures var d := Deplete(tubes, volume);
      && FillStripWells(tubes, volume, well).ok == FillStripWells(d.after, volume, well + 1).ok
      && StripVolumes(FillStripWells(tubes, volume, well).log) ==
           [volume] + StripVolumes(FillStripWells(d.after, volume, well + 1).log)
  {
    var d := Deplete(tubes, volume);
    var rest := FillStripWells(d.after, volume, well + 1);
    var aspirates := AspirateActions(d.withdrawals);
    var head := aspirates + [DispenseToStrip(well, volume)];
    assert FillStripWells(tubes, volume, well).log == head + rest.log;
    NoStripVolumes(aspirates);
    assert StripVolumes([DispenseToStrip(well, volume)]) == [volume] by {
      assert [DispenseToStrip(well, volume)][..0] == [];
    }
    StripVolumesAppend(aspirates, [DispenseToStrip(well, volume)]);
    StripVolumesAppend(head, rest.log);
  }

  /** A strip fill dispenses `volume` into every well it fills. */
  lemma {:induction false} FillStripWellsDispenses(tubes: seq<real>, volume: real, well: nat)
    ensures var vs := StripVolumes(FillStripWells(tubes, volume, well).log);
      forall k :: 0 <= k < |vs| ==> vs[k] == volume
    decreases StripWells - well
  {
    if well < StripWells && Deplete(tubes, volume).met {
      var rest := FillStripWells(Deplete(tubes, volume).after, volume, well + 1);
      FillStripWellsDispenses(Deplete(tubes, volume).after, volume, well + 1);
      FillStripWellsVolumesStep(tubes, volume, well);
      var vs := StripVolumes(FillStripWells(tubes, volume, well).log);
      forall k | 0 < k < |vs|
        ensures vs[k] == volume
      {
        assert vs[k] == StripVolumes(rest.log)[k - 1];
      }
    }
  }

  /** A strip fill that succeeds from well `well` dispenses `volume` into each of the remaining wells. */
  lemma {:induction false} FillStripWellsStripTotal(tubes: seq<real>, volume: real, well: nat)
    requires well <= StripWells
    ensures var run := FillStripWells(tubes, volume, well);
      run.ok ==> Sum(StripVolumes(run.log)) == Times(StripWells - well, volume)
    decreases StripWells - well
  {
    if well < StripWells && Deplete(tubes, volume).met {
      var rest := FillStripWells(Deplete(tubes, volume).after, volume, well + 1);
      FillStripWellsStripTotal(Deplete(tubes, volume).after, volume, well + 1);
      FillStripWellsVolumesStep(tubes, volume, well);
      var vs := StripVolumes(FillStripWells(tubes, volume, well).log);
      assert vs[1..] == StripVolumes(rest.log);
      if rest.ok {
        assert Sum(vs) == volume + Sum(StripVolumes(rest.log));
        assert Times(StripWells - well, volume) == Times(StripWells - (well + 1), volume) + volume;
      }
    }
  }

  /** What the main loop of `body` does from a done count on: the pool it leaves, the calls it logs, the count it reaches, whether it finished. */
  datatype PlateRun = PlateRun(tubes: seq<real>, log: seq<Action>, doneCols: nat, ok: bool)

  /**
   * A turn that fills every strip well with `fillVolume`, then serves the
   * `cols` columns after the first `doneCols` and counts them as done.
   */
  function StripTurn(tubes: seq<real>, numCols: nat, doneCols: nat, cols: nat, fillVolume: real,
                     mastermixVol: real): (t: PlateRun)
    requires doneCols + cols <= numCols
    ensures |t.tubes| == |tubes|
    ensures t.doneCols == if t.ok then doneCols + cols else doneCols
  {
    var strip := FillStripWells(tubes, fillVolume, 0);
    if !strip.ok then PlateRun(strip.tubes, strip.log, doneCols, false)
    else PlateRun(strip.tubes, strip.log + Transfers(SampleDests(numCols)[doneCols..doneCols + cols], mastermixVol),
                  doneCols + cols, true)
  }

  /**
   * Such a turn serves exactly the columns it counts as done, keeps volumes
   * non-negative, and fails with no tubes.
   */
  lemma StripTurnServes(tubes: seq<real>, numCols: nat, doneCols: nat, cols: nat, fillVolume: real, mastermixVol: real)
    requires doneCols + cols <= numCols
    ensures var t := StripTurn(tubes, numCols, doneCols, cols, fillVolume, mastermixVol);
      && Served(t.log) == SampleDests(numCols)[doneCols..t.doneCols]
      && (Nonnegative(tubes) ==> Nonnegative(t.tubes))
      && (|tubes| == 0 ==> !t.ok)
  {
    FillStripFacts(tubes, fillVolume);
    TurnLogParts(FillStripWells(tubes, fillVolume, 0).log, SampleDests(numCols)[doneCols..doneCols + cols], mastermixVol);
  }

  /**
   * Such a turn puts `fillVolume` into each well it fills, so no more than
   * a capacity above it, and eight times `fillVolume` in all on success.
   */
  lemma StripTurnVolumes(tubes: seq<real>, numCols: nat, doneCols: nat, cols: nat, fillVolume: real,
                         mastermixVol: real, stripCapacity: real)
    requires doneCols + cols <= numCols && fillVolume <= stripCapacity
    ensures var t := StripTurn(tubes, numCols, doneCols, cols, fillVolume, mastermixVol);
      && WithinCapacity(t.log, stripCapacity)
      && (t.ok ==> Sum(StripVolumes(t.log)) == 8.0 * fillVolume)
  {
    StripFillVolumes(tubes, fillVolume);
    TurnLogParts(FillStripWells(tubes, fillVolume, 0).log, SampleDests(numCols)[doneCols..doneCols + cols], mastermixVol);
  }

  /**
   * One turn of the main loop of `body` with `doneCols` of `numCols` columns
   * done: every strip well receives the planned fill volume, then one
   * transfer serves each of the planned columns, which count as done. A
   * strip fill the tubes cannot meet ends the turn and does no column.
   */
  function PlateTurn(tubes: seq<real>, numCols: nat, doneCols: nat, headroom: real,
                     mastermixVol: real, stripCapacity: real): (t: PlateRun)
    requires doneCols < numCols && mastermixVol > 0.0 && headroom >= 0.0 && stripCapacity >= headroom
    ensures |t.tubes| == |tubes|
    ensures doneCols <= t.doneCols <= numCols
    ensures !t.ok ==> t.doneCols == doneCols
    ensures t.ok && stripCapacity >= mastermixVol + headroom ==> doneCols < t.doneCols
  {
    var f := PlanStripFill(numCols - doneCols, headroom, mastermixVol, stripCapacity);
    StripFillCols(numCols - doneCols, headroom, mastermixVol, stripCapacity);
    StripTurn(tubes, numCols, doneCols, f.cols, f.fillVolume, mastermixVol)
  }

  /**
   * The main loop of `body` from `doneCols` on: turns until every column is
   * done or a strip fill fails. Only the first turn carries `headroom`; every
   * later turn carries none.
   */
  function FillPlateRun(tubes: seq<real>, numCols: nat, doneCols: nat, headroom: real,
                        mastermixVol: real, stripCapacity: real): (run: PlateRun)
    requires doneCols <= numCols && headroom >= 0.0
    requires doneCols < numCols ==> mastermixVol > 0.0 && stripCapacity >= mastermixVol && stripCapacity >= headroom
    ensures |run.tubes| == |tubes|
    ensures doneCols <= run.doneCols <= numCols
    decreases numCols - doneCols, if headroom == 0.0 then 0 else 1
  {
    if doneCols == numCols then PlateRun(tubes, [], doneCols, true)
    else
      var turn := PlateTurn(tubes, numCols, doneCols, headroom, mastermixVol, stripCapacity);
      if !turn.ok then turn
      else
        var rest := FillPlateRun(turn.tubes, numCols, turn.doneCols, 0.0, mastermixVol, stripCapacity);
        PlateRun(rest.tubes, turn.log + rest.log, rest.doneCols, rest.ok)
  }

  /** A turn's calls: the strip fill's calls, then transfers that serve `dests` and put nothing into the strip. */
  lemma TurnLogParts(stripLog: seq<Action>, dests: seq<nat>, mastermixVol: real)
    ensures Served(stripLog + Transfers(dests, mastermixVol)) == Served(stripLog) + dests
    ensures StripVolumes(stripLog + Transfers(dests, mastermixVol)) == StripVolumes(stripLog)
  {
    var moves := Transfers(dests, mastermixVol);
    ServedAfterTransfers(stripLog, dests, mastermixVol);
    NoStripVolumes(moves);
    StripVolumesAppend(stripLog, moves);
    assert StripVolumes(stripLog) + [] == StripVolumes(stripLog);
  }

  /** A fill of the whole strip puts `volume` into each well it fills, and eight times `volume` in all on success. */
  lemma StripFillVolumes(tubes: seq<real>, volume: real)
    ensures var run := FillStripWells(tubes, volume, 0);
      && (forall k :: 0 <= k < |StripVolumes(run.log)| ==> StripVolumes(run.log)[k] == volume)
      && (run.ok ==> Sum(StripVolumes(run.log)) == 8.0 * volume)
  {
    FillStripWellsDispenses(tubes, volume, 0);
    FillStripWellsStripTotal(tubes, volume, 0);
    TimesIsProduct(StripWells, volume);
  }

  /**
   * One turn serves exactly the columns it counts as done, keeps volumes
   * non-negative, and fails with no tubes.
   */
  lemma PlateTurnServes(tubes: seq<real>, numCols: nat, doneCols: nat, headroom: real,
                        mastermixVol: real, stripCapacity: real)
    requires doneCols < numCols && mastermixVol > 0.0 && headroom >= 0.0 && stripCapacity >= headroom
    ensures var t := PlateTurn(tubes, numCols, doneCols, headroom, mastermixVol, stripCapacity);
      && Served(t.log) == SampleDests(numCols)[doneCols..t.doneCols]
      && (Nonnegative(tubes) ==> Nonnegative(t.tubes))
      && (|tubes| == 0 ==> !t.ok)
  {
    var f := PlanStripFill(numCols - doneCols, headroom, mastermixVol, stripCapacity);
    StripFillCols(numCols - doneCols, headroom, mastermixVol, stripCapacity);
    StripTurnServes(tubes, numCols, doneCols, f.cols, f.fillVolume, mastermixVol);
  }

  /**
   * One turn never puts more than the strip capacity into a well, and on
   * success puts the planned fill volume into each of the eight wells.
   */
  lemma PlateTurnVolumes(tubes: seq<real>, numCols: nat, doneCols: nat, headroom: real,
                         mastermixVol: real, stripCapacity: real)
    requires doneCols < numCols && mastermixVol > 0.0 && headroom >= 0.0 && stripCapacity >= headroom
    ensures var t := PlateTurn(tubes, numCols, doneCols, headroom, mastermixVol, stripCapacity);
      && WithinCapacity(t.log, stripCapacity)
      && (t.ok ==> Sum(StripVolumes(t.log)) == 8.0 * PlanStripFill(numCols - doneCols, headroom, mastermixVol, stripCapacity).fillVolume)
  {
    var f := PlanStripFill(numCols - doneCols, headroom, mastermixVol, stripCapacity);
    StripFillCols(numCols - doneCols, headroom, mastermixVol, stripCapacity);
    StripTurnVolumes(tubes, numCols, doneCols, f.cols, f.fillVolume, mastermixVol, stripCapacity);
  }

  /**
   * The tubes are non-empty, hold no negative volume, and hold in all
   * exactly what the strip wells still need: eight wells' worth of every
   * remaining column's sample volume, plus `headroom` per well.
   */
  ghost predicate HoldsExactly(tubes: seq<real>, numCols: nat, doneCols: nat, headroom: real, mastermixVol: real)
  {
    && doneCols <= numCols && |tubes| > 0 && Nonnegative(tubes)
    && Sum(tubes) == 8.0 * (Times(numCols - doneCols, mastermixVol) + headroom)
  }

  /** What one turn does to a log `log` and to the pool, as the main loop relies on it. */
  lemma PlateTurnFacts(log: seq<Action>, tubes: seq<real>, numCols: nat, doneCols: nat, headroom: real,
                       mastermixVol: real, stripCapacity: real)
    requires doneCols < numCols && mastermixVol > 0.0 && headroom >= 0.0 && stripCapacity >= headroom
    ensures var t := PlateTurn(tubes, numCols, doneCols, headroom, mastermixVol, stripCapacity);
      && Served(log + t.log) == Served(log) + SampleDests(numCols)[doneCols..t.doneCols]
      && log <= log + t.log
      && (Nonnegative(tubes) ==> Nonnegative(t.tubes))
      && (|tubes| == 0 ==> !t.ok)
      && (HoldsExactly(tubes, numCols, doneCols, headroom, mastermixVol) ==>
            t.ok && HoldsExactly(t.tubes, numCols, t.doneCols, 0.0, mastermixVol))
  {
    var t := PlateTurn(tubes, numCols, doneCols, headroom, mastermixVol, stripCapacity);
    PlateTurnServes(tubes, numCols, doneCols, headroom, mastermixVol, stripCapacity);
    PlateTurnDraws(tubes, numCols, doneCols, headroom, mastermixVol, stripCapacity);
    ServedAppend(log, t.log);
  }

  /**
   * A turn that starts from tubes holding exactly what the remaining columns
   * and the headroom need succeeds, and leaves exactly what the columns
   * still remaining need, with no headroom; what the strip received and what
   * is left add up to what the tubes held.
   */
  lemma PlateTurnDraws(tubes: seq<real>, numCols: nat, doneCols: nat, headroom: real,
                       mastermixVol: real, stripCapacity: real)
    requires doneCols < numCols && mastermixVol > 0.0 && headroom >= 0.0 && stripCapacity >= headroom
    ensures var t := PlateTurn(tubes, numCols, doneCols, headroom, mastermixVol, stripCapacity);
      var f := PlanStripFill(numCols - doneCols, headroom, mastermixVol, stripCapacity);
      && (t.ok ==> 8.0 * f.fillVolume + 8.0 * Times(numCols - t.doneCols, mastermixVol) ==
                   8.0 * (Times(numCols - doneCols, mastermixVol) + headroom))
      && (Nonnegative(tubes) && |tubes| > 0 &&
          Sum(tubes) == 8.0 * (Times(numCols - doneCols, mastermixVol) + headroom) ==>
            t.ok && Sum(t.tubes) == 8.0 * (Times(numCols - t.doneCols, mastermixVol) + 0.0))
  {
    var rem := numCols - doneCols;
    var f := PlanStripFill(rem, headroom, mastermixVol, stripCapacity);
    var need := 8.0 * (Times(rem, mastermixVol) + headroom);
    StripFillDraws(rem, headroom, mastermixVol, stripCapacity, need);
    StripFillCols(rem, headroom, mastermixVol, stripCapacity);
    var t := PlateTurn(tubes, numCols, doneCols, headroom, mastermixVol, stripCapacity);
    var strip := FillStripWells(tubes, f.fillVolume, 0);
    assert t == StripTurn(tubes, numCols, doneCols, f.cols, f.fillVolume, mastermixVol);
    assert t.tubes == strip.tubes && t.ok == strip.ok;
    assert t.ok ==> numCols - t.doneCols == rem - f.cols;
    if Nonnegative(tubes) && |tubes| > 0 && Sum(tubes) == need {
      FillStripFacts(tubes, f.fillVolume);
      assert strip.ok && Sum(strip.tubes) == need - 8.0 * f.fillVolume;
    }
  }

  /** The main loop serves the columns from its start to the count it reaches, in order, and finishes only with every column done. */
  lemma {:induction false} FillPlateRunServes(tubes: seq<real>, numCols: nat, doneCols: nat, headroom: real,
                                              mastermixVol: real, stripCapacity: real)
    requires doneCols <= numCols && headroom >= 0.0
    requires doneCols < numCols ==> mastermixVol > 0.0 && stripCapacity >= mastermixVol && stripCapacity >= headroom
    ensures var run := FillPlateRun(tubes, numCols, doneCols, headroom, mastermixVol, stripCapacity);
      && Served(run.log) == SampleDests(numCols)[doneCols..run.doneCols]
      && (run.ok ==> run.doneCols == numCols)
    decreases numCols - doneCols, if headroom == 0.0 then 0 else 1
  {
    if doneCols < numCols {
      var turn := PlateTurn(tubes, numCols, doneCols, headroom, mastermixVol, stripCapacity);
      PlateTurnServes(tubes, numCols, doneCols, headroom, mastermixVol, stripCapacity);
      if turn.ok {
        var rest := FillPlateRun(turn.tubes, numCols, turn.doneCols, 0.0, mastermixVol, stripCapacity);
        FillPlateRunServes(turn.tubes, numCols, turn.doneCols, 0.0, mastermixVol, stripCapacity);
        ServedAppend(turn.log, rest.log);
        SliceConcat(SampleDests(numCols), doneCols, turn.doneCols, rest.doneCols);
      }
    }
  }

  /** The main loop keeps a pool of non-negative volumes non-negative. */
  lemma {:induction false} FillPlateRunKeepsNonnegative(tubes: seq<real>, numCols: nat, doneCols: nat, headroom: real,
                                                        mastermixVol: real, stripCapacity: real)
    requires doneCols <= numCols && headroom >= 0.0
    requires doneCols < numCols ==> mastermixVol > 0.0 && stripCapacity >= mastermixVol && stripCapacity >= headroom
    requires Nonnegative(tubes)
    ensures Nonnegative(FillPlateRun(tubes, numCols, doneCols, headroom, mastermixVol, stripCapacity).tubes)
    decreases numCols - doneCols, if headroom == 0.0 then 0 else 1
  {
    if doneCols < numCols {
      var turn := PlateTurn(tubes, numCols, doneCols, headroom, mastermixVol, stripCapacity);
      PlateTurnServes(tubes, numCols, doneCols, headroom, mastermixVol, stripCapacity);
      if turn.ok {
        FillPlateRunKeepsNonnegative(turn.tubes, numCols, turn.doneCols, 0.0, mastermixVol, stripCapacity);
      }
    }
  }

  /** With no tubes the main loop does no column, and finishes only if none remained. */
  lemma FillPlateRunNoTubes(numCols: nat, doneCols: nat, headroom: real, mastermixVol: real, stripCapacity: real)
    requires doneCols <= numCols && headroom >= 0.0
    requires doneCols < numCols ==> mastermixVol > 0.0 && stripCapacity >= mastermixVol && stripCapacity >= headroom
    ensures var run := FillPlateRun([], numCols, doneCols, headroom, mastermixVol, stripCapacity);
      run.doneCols == doneCols && (run.ok <==> doneCols == numCols)
  {
    if doneCols < numCols {
      PlateTurnServes([], numCols, doneCols, headroom, mastermixVol, stripCapacity);
    }
  }

  /**
   * Non-negative tubes that hold exactly what the remaining columns and the
   * first turn's headroom need let the main loop finish, and leave every
   * tube empty when there was a column to do.
   */
  lemma {:induction false} FillPlateRunDrains(tubes: seq<real>, numCols: nat, doneCols: nat, headroom: real,
                                              mastermixVol: real, stripCapacity: real)
    requires doneCols <= numCols && headroom >= 0.0
    requires doneCols < numCols ==> mastermixVol > 0.0 && stripCapacity >= mastermixVol && stripCapacity >= headroom
    requires HoldsExactly(tubes, numCols, doneCols, headroom, mastermixVol)
    ensures var run := FillPlateRun(tubes, numCols, doneCols, headroom, mastermixVol, stripCapacity);
      && run.ok
      && (doneCols < numCols ==> forall j :: 0 <= j < |run.tubes| ==> run.tubes[j] == 0.0)
    decreases numCols - doneCols, if headroom == 0.0 then 0 else 1
  {
    if doneCols < numCols {
      var turn := PlateTurn(tubes, numCols, doneCols, headroom, mastermixVol, stripCapacity);
      PlateTurnServes(tubes, numCols, doneCols, headroom, mastermixVol, stripCapacity);
      PlateTurnDraws(tubes, numCols, doneCols, headroom, mastermixVol, stripCapacity);
      FillPlateRunDrains(turn.tubes, numCols, turn.doneCols, 0.0, mastermixVol, stripCapacity);
      if turn.doneCols == numCols {
        ZeroSumMeansEmpty(turn.tubes);
      }
    }
  }

  /** No strip well ever receives more than the strip capacity. */
  lemma {:induction false} FillPlateRunWithinCapacity(tubes: seq<real>, numCols: nat, doneCols: nat, headroom: real,
                                                      mastermixVol: real, stripCapacity: real)
    requires doneCols <= numCols && headroom >= 0.0
    requires doneCols < numCols ==> mastermixVol > 0.0 && stripCapacity >= mastermixVol && stripCapacity >= headroom
    ensures WithinCapacity(FillPlateRun(tubes, numCols, doneCols, headroom, mastermixVol, stripCapacity).log, stripCapacity)
    decreases numCols - doneCols, if headroom == 0.0 then 0 else 1
  {
    if doneCols < numCols {
      var turn := PlateTurn(tubes, numCols, doneCols, headroom, mastermixVol, stripCapacity);
      PlateTurnVolumes(tubes, numCols, doneCols, headroom, mastermixVol, stripCapacity);
      if turn.ok {
        var rest := FillPlateRun(turn.tubes, numCols, turn.doneCols, 0.0, mastermixVol, stripCapacity);
        FillPlateRunWithinCapacity(turn.tubes, numCols, turn.doneCols, 0.0, mastermixVol, stripCapacity);
        WithinCapacityAppend(turn.log, rest.log, stripCapacity);
      }
    } else {
      assert StripVolumes([]) == [];
    }
  }

  /**
   * A main loop that finishes puts into the strip, over all its turns, eight
   * wells' worth of every remaining column's sample volume plus the
   * headroom once: later turns carry no headroom.
   */
  lemma {:induction false} FillPlateRunStripTotal(tubes: seq<real>, numCols: nat, doneCols: nat, headroom: real,
                                                  mastermixVol: real, stripCapacity: real)
    requires doneCols <= numCols && headroom >= 0.0
    requires doneCols < numCols ==> mastermixVol > 0.0 && stripCapacity >= mastermixVol && stripCapacity >= headroom
    ensures var run := FillPlateRun(tubes, numCols, doneCols, headroom, mastermixVol, stripCapacity);
      run.ok && doneCols < numCols ==>
        Sum(StripVolumes(run.log)) == 8.0 * (Times(numCols - doneCols, mastermixVol) + headroom)
    decreases numCols - doneCols, if headroom == 0.0 then 0 else 1
  {
    if doneCols < numCols {
      var turn := PlateTurn(tubes, numCols, doneCols, headroom, mastermixVol, stripCapacity);
      PlateTurnVolumes(tubes, numCols, doneCols, headroom, mastermixVol, stripCapacity);
      PlateTurnDraws(tubes, numCols, doneCols, headroom, mastermixVol, stripCapacity);
      if turn.ok {
        var rest := FillPlateRun(turn.tubes, numCols, turn.doneCols, 0.0, mastermixVol, stripCapacity);
        FillPlateRunStripTotal(turn.tubes, numCols, turn.doneCols, 0.0, mastermixVol, stripCapacity);
        StripVolumesAppend(turn.log, rest.log);
        SumAppend(StripVolumes(turn.log), StripVolumes(rest.log));
        if turn.doneCols == numCols {
          assert rest.log == [];
        }
      }
    }
  }

  /**
   * `target` is a main loop that logged `done` and then went on from
   * `doneCols` with the pool `tubes` and the headroom `headroom`.
   */
  ghost predicate PlateContinuesFrom(target: PlateRun, done: seq<Action>, tubes: seq<real>, numCols: nat, doneCols: nat,
                                     headroom: real, mastermixVol: real, stripCapacity: real)
  {
    && doneCols <= numCols && headroom >= 0.0
    && (doneCols < numCols ==> mastermixVol > 0.0 && stripCapacity >= mastermixVol && stripCapacity >= headroom)
    && var now := FillPlateRun(tubes, numCols, doneCols, headroom, mastermixVol, stripCapacity);
       target == PlateRun(now.tubes, done + now.log, now.doneCols, now.ok)
  }

  /**
   * A main loop resumed with columns left either stops at the next turn,
   * having logged that turn's calls, or goes on after it with no headroom.
   */
  lemma FillPlateRunAdvance(target: PlateRun, done: seq<Action>, tubes: seq<real>, numCols: nat, doneCols: nat,
                            headroom: real, mastermixVol: real, stripCapacity: real)
    requires doneCols < numCols
    requires PlateContinuesFrom(target, done, tubes, numCols, doneCols, headroom, mastermixVol, stripCapacity)
    ensures var t := PlateTurn(tubes, numCols, doneCols, headroom, mastermixVol, stripCapacity);
      && (!t.ok ==> target == PlateRun(t.tubes, done + t.log, t.doneCols, false))
      && (t.ok ==> PlateContinuesFrom(target, done + t.log, t.tubes, numCols, t.doneCols, 0.0, mastermixVol, stripCapacity))
  {
    var t := PlateTurn(tubes, numCols, doneCols, headroom, mastermixVol, stripCapacity);
    if t.ok {
      AppendAssoc(done, t.log, FillPlateRun(t.tubes, numCols, t.doneCols, 0.0, mastermixVol, stripCapacity).log);
    }
  }

  lemma SliceToEnd<T>(s: seq<T>, i: nat)
    requires i <= |s|
    ensures s[i..|s|] == s[i..]
  {
  }

  /** What the main loop does to a log `log` and to the pool, in one place. */
  lemma FillPlateRunFacts(log: seq<Action>, tubes: seq<real>, numCols: nat, doneCols: nat, headroom: real,
                          mastermixVol: real, stripCapacity: real)
    requires doneCols <= numCols && headroom >= 0.0
    requires doneCols < numCols ==> mastermixVol > 0.0 && stripCapacity >= mastermixVol && stripCapacity >= headroom
    ensures var run := FillPlateRun(tubes, numCols, doneCols, headroom, mastermixVol, stripCapacity);
      && (log + run.log)[|log|..] == run.log
      && log <= log + run.log
      && (run.ok ==> run.doneCols == numCols &&
                     Served(log + run.log) == Served(log) + SampleDests(numCols)[doneCols..])
      && (|tubes| == 0 ==> run.doneCols == doneCols && (run.ok <==> doneCols == numCols))
  {
    var run := FillPlateRun(tubes, numCols, doneCols, headroom, mastermixVol, stripCapacity);
    assert (log + run.log)[|log|..] == run.log;
    FillPlateRunServes(tubes, numCols, doneCols, headroom, mastermixVol, stripCapacity);
    ServedAppend(log, run.log);
    if run.ok {
      assert run.doneCols == numCols;
      assert Served(run.log) == SampleDests(numCols)[doneCols..numCols];
      SliceToEnd(SampleDests(numCols), doneCols);
    }
    if |tubes| == 0 {
      FillPlateRunNoTubes(numCols, doneCols, headroom, mastermixVol, stripCapacity);
    }
  }

  /**
   * The volumes of the main loop: tubes that hold exactly what it needs are
   * drained, no strip dispense exceeds the capacity, and the strip receives
   * the headroom once.
   */
  lemma FillPlateRunVolumeFacts(tubes: seq<real>, numCols: nat, doneCols: nat, headroom: real,
                                mastermixVol: real, stripCapacity: real)
    requires doneCols <= numCols && headroom >= 0.0
    requires doneCols < numCols ==> mastermixVol > 0.0 && stripCapacity >= mastermixVol && stripCapacity >= headroom
    ensures var run := FillPlateRun(tubes, numCols, doneCols, headroom, mastermixVol, stripCapacity);
      && (HoldsExactly(tubes, numCols, doneCols, headroom, mastermixVol) ==>
            run.ok && (doneCols < numCols ==> forall j :: 0 <= j < |run.tubes| ==> run.tubes[j] == 0.0))
      && WithinCapacity(run.log, stripCapacity)
      && (run.ok && doneCols < numCols ==>
            HeadroomOnce(run.log, numCols, doneCols, headroom, mastermixVol))
  {
    if HoldsExactly(tubes, numCols, doneCols, headroom, mastermixVol) {
      FillPlateRunDrains(tubes, numCols, doneCols, headroom, mastermixVol, stripCapacity);
    }
    FillPlateRunWithinCapacity(tubes, numCols, doneCols, headroom, mastermixVol, stripCapacity);
    FillPlateRunStripTotal(tubes, numCols, doneCols, headroom, mastermixVol, stripCapacity);
  }

  /** A main loop resumed with every column done is complete, having logged `done`. */
  lemma FillPlateRunEnds(target: PlateRun, done: seq<Action>, tubes: seq<real>, numCols: nat,
                         headroom: real, mastermixVol: real, stripCapacity: real)
    requires PlateContinuesFrom(target, done, tubes, numCols, numCols, headroom, mastermixVol, stripCapacity)
    ensures target == PlateRun(tubes, done, numCols, true)
  {
    assert done + [] == done;
  }

  class BioerMastermixPrep {
    const mastermixVol: real                   // per sample, in microlitres
    const mastermixVolHeadroom: real           // extra volume over the whole run
    const mastermixHeadroomPartInStrip: real   // share of the headroom that goes into the strip
    const mmStripsCapacity: real               // capacity of one strip well
    const numCols: nat                         // destination columns of the run
    const controlWells: seq<nat>               // plate indices of the control positions
    var doneCols: nat
    var sourceTubesAndVol: seq<real>           // available volume of each source tube, in order
    var actions: seq<Action>                   // pipetting calls issued so far

    ghost predicate Valid()
      reads this`doneCols
    {
      && 0.0 <= mastermixHeadroomPartInStrip <= 1.0
      && numCols <= PlateColumns
      && doneCols <= numCols
    }

    constructor (mastermixVol: real, mastermixVolHeadroom: real, mastermixHeadroomPartInStrip: real,
                 mmStripsCapacity: real, numCols: nat, controlWells: seq<nat>)
      requires 0.0 <= mastermixHeadroomPartInStrip <= 1.0
      requires numCols <= PlateColumns
      ensures Valid()
      ensures this.mastermixVol == mastermixVol && this.mastermixVolHeadroom == mastermixVolHeadroom
      ensures this.mastermixHeadroomPartInStrip == mastermixHeadroomPartInStrip
      ensures this.mmStripsCapacity == mmStripsCapacity
      ensures this.numCols == numCols && this.controlWells == controlWells
      ensures doneCols == 0 && sourceTubesAndVol == [] && actions == []
    {
      this.mastermixVol := mastermixVol;
      this.mastermixVolHeadroom := mastermixVolHeadroom;
      this.mastermixHeadroomPartInStrip := mastermixHeadroomPartInStrip;
      this.mmStripsCapacity := mmStripsCapacity;
      this.numCols := numCols;
      this.controlWells := controlWells;
      doneCols := 0;
      sourceTubesAndVol := [];
      actions := [];
    }

    /** `control_wells_not_in_samples` of this run. */
    function ControlsToFill(): seq<nat>
    {
      ControlWellsNotInSamples(controlWells, numCols)
    }

    /** One sample volume for every control well outside the sample wells. */
    function ControlsVolume(): real
    {
      mastermixVol * |ControlsToFill()| as real
    }

    /** The volume the source tubes are planned to hold: everything for the strip and the controls. */
    function VolumeForTubes(): real
      reads this
      requires Valid()
    {
      var v := RunVolumes(mastermixVol, numCols, |ControlsToFill()|, mastermixVolHeadroom, mastermixHeadroomPartInStrip);
      v.toStrip + v.forControls
    }

    /**
     * `aspirate_from_tubes`: draw `volume` from the tubes front to back; on
     * success issue one aspirate per non-zero draw, otherwise raise with the
     * tubes already drained and nothing aspirated.
     */
    method AspirateFromTubes(volume: real) returns (r: Result<seq<Withdrawal>>)
      requires Valid()
      modifies this`sourceTubesAndVol, this`actions
      ensures Valid()
      ensures sourceTubesAndVol == Deplete(old(sourceTubesAndVol), volume).after
      ensures old(Nonnegative(sourceTubesAndVol)) ==> Nonnegative(sourceTubesAndVol)
      ensures Deplete(old(sourceTubesAndVol), volume).met ==>
        r == Ok(Deplete(old(sourceTubesAndVol), volume).withdrawals) &&
        actions == old(actions) + AspirateActions(r.value)
      ensures !Deplete(old(sourceTubesAndVol), volume).met ==> r.Err? && actions == old(actions)
    {
      ghost var target := Deplete(sourceTubesAndVol, volume);
      ghost var wasNonnegative := Nonnegative(sourceTubesAndVol);
      // the walk works on a local copy of the volumes, stored back on either exit
      var tubes := sourceTubesAndVol;
      var aspirateList: seq<Withdrawal> := [];
      var leftVolume := volume;
      var i := 0;
      while i < |tubes|
        invariant i <= |tubes|
        invariant actions == old(actions)
        invariant wasNonnegative ==> Nonnegative(tubes)
        invariant target == Resume(aspirateList, DepleteFrom(tubes, i, leftVolume))
        decreases |tubes| - i
      {
        DepleteStep(aspirateList, tubes, i, leftVolume);
        if wasNonnegative {
          TakeKeepsNonnegative(tubes, i, leftVolume);
        }
        var aspirateVol := Take(tubes[i], leftVolume);
        leftVolume := leftVolume - aspirateVol;
        tubes := tubes[i := tubes[i] - aspirateVol];
        if aspirateVol != 0.0 {
          aspirateList := aspirateList + [Withdrawal(i, aspirateVol)];
        }
        if leftVolume == 0.0 {
          sourceTubesAndVol := tubes;
          actions := actions + AspirateActions(aspirateList);
          return Ok(aspirateList);
        }
        i := i + 1;
      }
      sourceTubesAndVol := tubes;
      return Err("No volume left in source tubes.");
    }

    /**
     * `fill_strip`: for each of the eight strip wells, draw `volume` from the
     * tubes and dispense it there; the first draw the tubes cannot meet raises.
     */
    method FillStrip(volume: real) returns (r: Result<()>)
      requires Valid()
      modifies this`sourceTubesAndVol, this`actions
      ensures Valid()
      ensures var run := FillStripWells(old(sourceTubesAndVol), volume, 0);
        && sourceTubesAndVol == run.tubes
        && actions == old(actions) + run.log
        && (r.Ok? <==> run.ok)
    {
      ghost var run := FillStripWells(sourceTubesAndVol, volume, 0);
      ghost var target := StripRun(run.tubes, actions + run.log, run.ok);
      var well := 0;
      while well < StripWells
        invariant well <= StripWells
        invariant ContinuesFrom(target, actions, sourceTubesAndVol, volume, well)
      {
        FillStripWellsAdvance(target, actions, sourceTubesAndVol, volume, well);
        var f := FillStripWell(well, volume);
        if f.Err? {
          return Err(f.msg);
        }
        well := well + 1;
      }
      FillStripWellsEnds(target, actions, sourceTubesAndVol, volume);
      return Ok(());
    }

    /** One turn of `fill_strip`: draw `volume` from the tubes and dispense it into strip well `well`. */
    method FillStripWell(well: nat, volume: real) returns (r: Result<()>)
      requires Valid()
      modifies this`sourceTubesAndVol, this`actions
      ensures Valid()
      ensures sourceTubesAndVol == Deplete(old(sourceTubesAndVol), volume).after
      ensures var d := Deplete(old(sourceTubesAndVol), volume);
        && (d.met ==> r.Ok? && actions == old(actions) + (AspirateActions(d.withdrawals) + [DispenseToStrip(well, volume)]))
        && (!d.met ==> r.Err? && actions == old(actions))
    {
      var a := AspirateFromTubes(volume);
      if a.Err? {
        return Err(a.msg);
      }
      actions := actions + [DispenseToStrip(well, volume)];
      return Ok(());
    }

    /**
     * `fill_controls`: when some control wells lie outside the sample wells,
     * draw one sample volume for each of them, then dispense one sample
     * volume into every configured control well.
     */
    method FillControls() returns (r: Result<()>)
      requires Valid()
      modifies this`sourceTubesAndVol, this`actions
      ensures Valid()
      ensures |sourceTubesAndVol| == |old(sourceTubesAndVol)|
      ensures Served(actions) == Served(old(actions))
      ensures StripVolumes(actions) == StripVolumes(old(actions))
      ensures old(Nonnegative(sourceTubesAndVol)) ==> Nonnegative(sourceTubesAndVol)
      ensures |ControlsToFill()| == 0 ==>
        r.Ok? && sourceTubesAndVol == old(sourceTubesAndVol) && actions == old(actions)
      ensures |ControlsToFill()| > 0 && old(|sourceTubesAndVol|) == 0 ==> r.Err?
      ensures |ControlsToFill()| > 0 ==>
        var d := Deplete(old(sourceTubesAndVol), ControlsVolume());
        sourceTubesAndVol == d.after && (r.Ok? <==> d.met)
      ensures r.Err? ==> actions == old(actions)
      ensures |ControlsToFill()| > 0 && r.Ok? ==>
        var d := Deplete(old(sourceTubesAndVol), ControlsVolume());
        actions == old(actions) + AspirateActions(d.withdrawals) + ControlDispenses(controlWells, mastermixVol)
      ensures old(Nonnegative(sourceTubesAndVol)) && old(|sourceTubesAndVol|) > 0 && mastermixVol >= 0.0 &&
              old(Sum(sourceTubesAndVol)) >= ControlsVolume() ==>
        r.Ok? && Sum(sourceTubesAndVol) == old(Sum(sourceTubesAndVol)) - ControlsVolume()
    {
      var notInSamples := ControlsToFill();
      if |notInSamples| > 0 {
        var vol := ControlsVolume();
        ghost var before := sourceTubesAndVol;
        ghost var d := Deplete(before, vol);
        ghost var enough := Nonnegative(before) && |before| > 0 && mastermixVol >= 0.0 && Sum(before) >= vol;
        if enough {
          DepleteSucceeds(before, vol);
        }
        var a := AspirateFromTubes(vol);
        if a.Err? {
          return Err(a.msg);
        }
        assert a.value == d.withdrawals;
        ghost var aspirated := actions;
        assert aspirated == old(actions) + AspirateActions(d.withdrawals);
        assert enough ==> Sum(sourceTubesAndVol) == Sum(before) - vol;
        DispenseToControls();
        assert actions == aspirated + ControlDispenses(controlWells, mastermixVol);
        ServedAfterControls(old(actions), a.value, controlWells, mastermixVol);
        StripVolumesAfterControls(old(actions), a.value, controlWells, mastermixVol);
        return Ok(());
      }
      return Ok(());
    }

    /** The dispensing loop of `fill_controls`: one sample volume into each configured control well. */
    method DispenseToControls()
      modifies this`actions
      ensures actions == old(actions) + ControlDispenses(controlWells, mastermixVol)
    {
      var i := 0;
      while i < |controlWells|
        invariant i <= |controlWells|
        invariant actions == old(actions) + ControlDispenses(controlWells[..i], mastermixVol)
      {
        assert ControlDispenses(controlWells[..i + 1], mastermixVol) ==
               ControlDispenses(controlWells[..i], mastermixVol) + [DispenseToControl(controlWells[i], mastermixVol)];
        actions := actions + [DispenseToControl(controlWells[i], mastermixVol)];
        i := i + 1;
      }
      assert controlWells[..i] == controlWells;
    }

    /**
     * `get_next_pcr_plate_dests`: hand out the next `numColumns` destination
     * columns (fewer at the end of the plate) and count them as done; raise
     * when every column is already done.
     */
    method GetNextPcrPlateDests(numColumns: nat) returns (r: Result<seq<nat>>)
      requires Valid()
      modifies this`doneCols
      ensures Valid()
      ensures NextDests(numCols, old(doneCols), numColumns).Ok? ==>
        r == Ok(NextDests(numCols, old(doneCols), numColumns).value.dests) &&
        doneCols == NextDests(numCols, old(doneCols), numColumns).value.doneCols
      ensures NextDests(numCols, old(doneCols), numColumns).Err? ==> r.Err? && doneCols == old(doneCols)
    {
      if doneCols >= numCols {
        return Err("No more columns to do");
      }
      var toDo := if numCols - doneCols < numColumns then numCols - doneCols else numColumns;
      var samplesToDo := SampleDests(numCols)[doneCols..doneCols + toDo];
      doneCols := doneCols + toDo;
      return Ok(samplesToDo);
    }

    /**
     * `transfer_to_pcr_plate_and_mark_done`: one eight-channel transfer of a
     * sample volume from the strip to each column handed out.
     */
    method TransferToPcrPlateAndMarkDone(numColumns: nat) returns (r: Result<()>)
      requires Valid()
      modifies this`doneCols, this`actions
      ensures Valid()
      ensures NextDests(numCols, old(doneCols), numColumns).Ok? ==>
        r.Ok? && doneCols == NextDests(numCols, old(doneCols), numColumns).value.doneCols &&
        actions == old(actions) + Transfers(NextDests(numCols, old(doneCols), numColumns).value.dests, mastermixVol)
      ensures NextDests(numCols, old(doneCols), numColumns).Err? ==>
        r.Err? && doneCols == old(doneCols) && actions == old(actions)
      ensures r.Ok? ==>
        old(doneCols) <= doneCols && Served(actions) == Served(old(actions)) + SampleDests(numCols)[old(doneCols)..doneCols]
    {
      var dests := GetNextPcrPlateDests(numColumns);
      if dests.Err? {
        return Err(dests.msg);
      }
      ghost var done := doneCols;
      var i := 0;
      while i < |dests.value|
        invariant i <= |dests.value|
        invariant doneCols == done
        invariant actions == old(actions) + Transfers(dests.value[..i], mastermixVol)
      {
        assert Transfers(dests.value[..i + 1], mastermixVol) ==
               Transfers(dests.value[..i], mastermixVol) + [TransferToColumn(dests.value[i], mastermixVol)];
        actions := actions + [TransferToColumn(dests.value[i], mastermixVol)];
        i := i + 1;
      }
      assert dests.value[..i] == dests.value;
      NextDestsIsSlice(numCols, old(doneCols), numColumns);
      ServedAfterTransfers(old(actions), dests.value, mastermixVol);
      return Ok(());
    }

    /**
     * The first half of `body`: plan the volumes, load the source tubes with
     * equal shares of what the strip and the controls need, and fill the
     * controls. On success the tubes hold exactly what the strip fills will
     * draw, the strip's share of the headroom included.
     */
    method LoadTubesAndFillControls(numTubes: nat, volPerTube: real) returns (r: Result<()>)
      requires Valid() && mastermixVol >= 0.0 && mastermixVolHeadroom >= 0.0 && mmStripsCapacity >= 0.0
      modifies this`sourceTubesAndVol, this`actions
      ensures Valid()
      ensures Served(actions) == Served(old(actions))
      ensures StripVolumes(actions) == StripVolumes(old(actions))
      ensures old(actions) <= actions
      ensures r.Ok? ==> |sourceTubesAndVol| == numTubes
      ensures r.Ok? && |ControlsToFill()| > 0 ==>
        var planned := PlannedSources(VolumeForTubes(), numTubes, volPerTube);
        && planned.Ok?
        && actions == old(actions) + AspirateActions(Deplete(planned.value, ControlsVolume()).withdrawals) +
                      ControlDispenses(controlWells, mastermixVol)
      ensures r.Ok? && numTubes > 0 ==>
        && Nonnegative(sourceTubesAndVol)
        && Sum(sourceTubesAndVol) ==
           8.0 * (Times(numCols, mastermixVol) +
                  HeadroomVolFromStripToPcrSingle(mastermixVolHeadroom, mastermixHeadroomPartInStrip))
      ensures numTubes > 0 && volPerTube > VolumeForTubes() / numTubes as real && mmStripsCapacity > 0.0 ==> r.Ok?
      ensures numTubes > 0 && volPerTube <= VolumeForTubes() / numTubes as real ==>
        r.Err? && sourceTubesAndVol == [] && actions == old(actions)
      ensures numTubes == 0 && |ControlsToFill()| > 0 ==> r.Err?
      ensures mmStripsCapacity == 0.0 ==> r.Err? && actions == old(actions)
    {
      var volumes := RunVolumes(mastermixVol, numCols, |ControlsToFill()|, mastermixVolHeadroom, mastermixHeadroomPartInStrip);
      var need := volumes.toStrip + volumes.forControls;
      assert need == VolumeForTubes();
      sourceTubesAndVol := [];
      var planned := PlannedSources(need, numTubes, volPerTube);
      if planned.Err? {
        return Err(planned.msg);
      }
      sourceTubesAndVol := planned.value;
      ghost var stripNeed := 8.0 * (Times(numCols, mastermixVol) +
        HeadroomVolFromStripToPcrSingle(mastermixVolHeadroom, mastermixHeadroomPartInStrip));
      if numTubes > 0 {
        NeedSplits(mastermixVol, numCols, |ControlsToFill()|, mastermixVolHeadroom, mastermixHeadroomPartInStrip);
        assert need == stripNeed + ControlsVolume();
        PlannedSourcesSum(need, numTubes, volPerTube);
      }
      // the number of strip fills divides by the strip capacity
      if mmStripsCapacity == 0.0 {
        return Err("float floor division by zero");
      }
      r := FillControls();
    }

    /**
     * `body`: load the source tubes and fill the controls, then fill the
     * strip and transfer from it column group by column group until every
     * column is done. The first strip fill carries the strip's share of the
     * headroom; later fills carry none. `numTubes` and `volPerTube` are the
     * tube split of the total volume, which is made elsewhere.
     */
    method Body(numTubes: nat, volPerTube: real) returns (r: Result<()>)
      requires Valid() && doneCols == 0
      requires mastermixVol >= 0.0 && mastermixVolHeadroom >= 0.0 && mmStripsCapacity >= 0.0
      requires numCols > 0 && mastermixVol > 0.0 ==>
        mmStripsCapacity >= mastermixVol &&
        mmStripsCapacity >= HeadroomVolFromStripToPcrSingle(mastermixVolHeadroom, mastermixHeadroomPartInStrip)
      modifies this`doneCols, this`sourceTubesAndVol, this`actions
      ensures Valid()
      ensures r.Ok? ==> doneCols == numCols && Served(actions) == Served(old(actions)) + SampleDests(numCols)
      ensures r.Err? ==> doneCols == old(doneCols)
      ensures r.Ok? && |ControlsToFill()| > 0 ==>
        var planned := PlannedSources(VolumeForTubes(), numTubes, volPerTube);
        && planned.Ok?
        && old(actions) + AspirateActions(Deplete(planned.value, ControlsVolume()).withdrawals) +
             ControlDispenses(controlWells, mastermixVol) <= actions
      ensures r.Ok? && numTubes > 0 && numCols > 0 ==>
        |sourceTubesAndVol| == numTubes && forall j :: 0 <= j < numTubes ==> sourceTubesAndVol[j] == 0.0
      ensures
        && numTubes > 0 && volPerTube > VolumeForTubes() / numTubes as real
        && mmStripsCapacity > 0.0 && (numCols == 0 || mastermixVol > 0.0)
        ==> r.Ok?
      ensures numTubes > 0 && volPerTube <= VolumeForTubes() / numTubes as real ==>
        r.Err? && sourceTubesAndVol == [] && actions == old(actions)
      ensures numTubes == 0 && (numCols > 0 || |ControlsToFill()| > 0) ==> r.Err?
      ensures mmStripsCapacity == 0.0 ==> r.Err? && actions == old(actions)
      ensures numCols > 0 && mastermixVol == 0.0 ==> r.Err?
      ensures old(actions) <= actions
      // no strip well receives more than it holds, and the headroom goes into the strip once
      ensures WithinCapacity(actions[|old(actions)|..], mmStripsCapacity)
      ensures r.Ok? && numCols > 0 ==>
        HeadroomOnce(actions[|old(actions)|..], numCols, 0,
                     HeadroomVolFromStripToPcrSingle(mastermixVolHeadroom, mastermixHeadroomPartInStrip), mastermixVol)
    {
      var loaded := LoadTubesAndFillControls(numTubes, volPerTube);
      if loaded.Err? {
        StripVolumesSkip(old(actions), actions, actions);
        return Err(loaded.msg);
      }
      ghost var setUp := actions;
      r := FillPlate(HeadroomVolFromStripToPcrSingle(mastermixVolHeadroom, mastermixHeadroomPartInStrip));
      StripVolumesSkip(old(actions), setUp, actions);
    }

    /**
     * The main loop of `body`: while columns remain, fill the strip and
     * transfer from it; only the first turn adds `firstHeadroom` per well.
     * A zero sample volume makes the first turn's division by it fail.
     */
    method FillPlate(firstHeadroom: real) returns (r: Result<()>)
      requires Valid() && mastermixVol >= 0.0 && firstHeadroom >= 0.0
      requires doneCols < numCols && mastermixVol > 0.0 ==>
        mmStripsCapacity >= mastermixVol && mmStripsCapacity >= firstHeadroom
      modifies this`doneCols, this`sourceTubesAndVol, this`actions
      ensures Valid()
      ensures mastermixVol > 0.0 || old(doneCols) == numCols ==>
        var run := FillPlateRun(old(sourceTubesAndVol), numCols, old(doneCols), firstHeadroom, mastermixVol, mmStripsCapacity);
        && sourceTubesAndVol == run.tubes && actions == old(actions) + run.log && doneCols == run.doneCols
        && (r.Ok? <==> run.ok)
      ensures |sourceTubesAndVol| == old(|sourceTubesAndVol|)
      ensures r.Ok? ==>
        doneCols == numCols && Served(actions) == Served(old(actions)) + SampleDests(numCols)[old(doneCols)..]
      ensures mastermixVol == 0.0 && old(doneCols) < numCols ==>
        r.Err? && doneCols == old(doneCols) && sourceTubesAndVol == old(sourceTubesAndVol) && actions == old(actions)
      ensures old(|sourceTubesAndVol|) == 0 ==> doneCols == old(doneCols)
      ensures old(actions) <= actions
      ensures old(|sourceTubesAndVol|) == 0 && old(doneCols) < numCols ==> r.Err?
      ensures old(doneCols) == numCols ==> r.Ok?
      ensures mastermixVol > 0.0 && old(HoldsExactly(sourceTubesAndVol, numCols, doneCols, firstHeadroom, mastermixVol)) ==>
        r.Ok? && (old(doneCols) < numCols ==> forall j :: 0 <= j < |sourceTubesAndVol| ==> sourceTubesAndVol[j] == 0.0)
      // no strip well receives more than it holds, and the headroom goes into the strip once
      ensures WithinCapacity(actions[|old(actions)|..], mmStripsCapacity)
      ensures r.Ok? && old(doneCols) < numCols ==>
        HeadroomOnce(actions[|old(actions)|..], numCols, old(doneCols), firstHeadroom, mastermixVol)
    {
      if mastermixVol == 0.0 && doneCols < numCols {
        assert actions[|old(actions)|..] == [];
        return Err("float floor division by zero");
      }
      ghost var run := FillPlateRun(sourceTubesAndVol, numCols, doneCols, firstHeadroom, mastermixVol, mmStripsCapacity);
      r := FillPlateTurns(firstHeadroom);
      FillPlateRunFacts(old(actions), old(sourceTubesAndVol), numCols, old(doneCols), firstHeadroom,
                        mastermixVol, mmStripsCapacity);
      FillPlateRunVolumeFacts(old(sourceTubesAndVol), numCols, old(doneCols), firstHeadroom,
                              mastermixVol, mmStripsCapacity);
      assert actions[|old(actions)|..] == run.log;
    }

    /**
     * The turns of the main loop of `body`, once the sample volume is known
     * to be positive (or no column remains): exactly `FillPlateRun`.
     */
    method FillPlateTurns(firstHeadroom: real) returns (r: Result<()>)
      requires Valid() && firstHeadroom >= 0.0
      requires doneCols < numCols ==>
        mastermixVol > 0.0 && mmStripsCapacity >= mastermixVol && mmStripsCapacity >= firstHeadroom
      modifies this`doneCols, this`sourceTubesAndVol, this`actions
      ensures Valid()
      ensures var run := FillPlateRun(old(sourceTubesAndVol), numCols, old(doneCols), firstHeadroom, mastermixVol, mmStripsCapacity);
        && sourceTubesAndVol == run.tubes && actions == old(actions) + run.log && doneCols == run.doneCols
        && (r.Ok? <==> run.ok)
    {
      ghost var run := FillPlateRun(sourceTubesAndVol, numCols, doneCols, firstHeadroom, mastermixVol, mmStripsCapacity);
      ghost var target := PlateRun(run.tubes, actions + run.log, run.doneCols, run.ok);
      var headroom := firstHeadroom;
      r := Ok(());
      while doneCols < numCols
        invariant Valid()
        invariant headroom == 0.0 || headroom == firstHeadroom
        invariant PlateContinuesFrom(target, actions, sourceTubesAndVol, numCols, doneCols, headroom,
                                     mastermixVol, mmStripsCapacity)
        // a turn either does columns or, the first time, drops the headroom
        decreases numCols - doneCols, if headroom == 0.0 then 0 else 1
      {
        FillPlateRunAdvance(target, actions, sourceTubesAndVol, numCols, doneCols, headroom, mastermixVol, mmStripsCapacity);
        var t := FillStripAndTransfer(headroom);
        if t.Err? {
          r := Err(t.msg);
          break;
        }
        headroom := 0.0;
      }
      if r.Ok? {
        FillPlateRunEnds(target, actions, sourceTubesAndVol, numCols, headroom, mastermixVol, mmStripsCapacity);
      }
    }

    /**
     * One turn of the main loop of `body`: fill every strip well with as many
     * columns' sample volumes as the strip holds beside `headroom`, plus
     * `headroom`, then transfer them to the next columns and count those
     * columns as done. A strip too small for one more column makes a turn
     * that fills only the headroom and does no column.
     */
    method FillStripAndTransfer(headroom: real) returns (r: Result<()>)
      requires Valid() && doneCols < numCols && mastermixVol > 0.0 && headroom >= 0.0
      requires mmStripsCapacity >= headroom
      modifies this`doneCols, this`sourceTubesAndVol, this`actions
      ensures Valid()
      ensures var t := PlateTurn(old(sourceTubesAndVol), numCols, old(doneCols), headroom, mastermixVol, mmStripsCapacity);
        && sourceTubesAndVol == t.tubes && actions == old(actions) + t.log && doneCols == t.doneCols
        && (r.Ok? <==> t.ok)
      ensures |sourceTubesAndVol| == old(|sourceTubesAndVol|)
      ensures old(Nonnegative(sourceTubesAndVol)) ==> Nonnegative(sourceTubesAndVol)
      ensures r.Ok? ==>
        old(doneCols) <= doneCols && Served(actions) == Served(old(actions)) + SampleDests(numCols)[old(doneCols)..doneCols]
      ensures r.Ok? && mmStripsCapacity >= mastermixVol + headroom ==> old(doneCols) < doneCols
      ensures r.Err? ==> doneCols == old(doneCols)
      ensures old(|sourceTubesAndVol|) == 0 ==> r.Err?
      ensures old(actions) <= actions
      ensures old(HoldsExactly(sourceTubesAndVol, numCols, doneCols, headroom, mastermixVol)) ==>
        r.Ok? && HoldsExactly(sourceTubesAndVol, numCols, doneCols, 0.0, mastermixVol)
    {
      var remaining := numCols - doneCols;
      var fill := PlanStripFill(remaining, headroom, mastermixVol, mmStripsCapacity);
      StripFillCols(remaining, headroom, mastermixVol, mmStripsCapacity);
      assert PlateTurn(sourceTubesAndVol, numCols, doneCols, headroom, mastermixVol, mmStripsCapacity) ==
             StripTurn(sourceTubesAndVol, numCols, doneCols, fill.cols, fill.fillVolume, mastermixVol);
      r := FillStripThenTransfer(fill.cols, fill.fillVolume);
      PlateTurnFacts(old(actions), old(sourceTubesAndVol), numCols, old(doneCols), headroom, mastermixVol, mmStripsCapacity);
    }

    /**
     * The calls of one turn once it is sized: fill every strip well with
     * `fillVolume`, then transfer to the next `cols` columns and count them
     * as done.
     */
    method FillStripThenTransfer(cols: nat, fillVolume: real) returns (r: Result<()>)
      requires Valid() && doneCols + cols <= numCols && doneCols < numCols
      modifies this`doneCols, this`sourceTubesAndVol, this`actions
      ensures Valid()
      ensures var t := StripTurn(old(sourceTubesAndVol), numCols, old(doneCols), cols, fillVolume, mastermixVol);
        && sourceTubesAndVol == t.tubes && actions == old(actions) + t.log && doneCols == t.doneCols
        && (r.Ok? <==> t.ok)
    {
      ghost var strip := FillStripWells(sourceTubesAndVol, fillVolume, 0);
      ghost var dests := SampleDests(numCols)[doneCols..doneCols + cols];
      ghost var t := StripTurn(sourceTubesAndVol, numCols, doneCols, cols, fillVolume, mastermixVol);
      var f := FillStrip(fillVolume);
      if f.Err? {
        assert t == PlateRun(strip.tubes, strip.log, doneCols, false);
        return Err(f.msg);
      }
      assert t == PlateRun(strip.tubes, strip.log + Transfers(dests, mastermixVol), doneCols + cols, true);
      NextDestsIsSlice(numCols, doneCols, cols);
      r := TransferToPcrPlateAndMarkDone(cols);
      AppendAssoc(old(actions), strip.log, Transfers(dests, mastermixVol));
    }
  }
}
