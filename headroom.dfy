/**
 * Volume planning of the station protocol: how the mastermix headroom is
 * split between the two transfer stages, the volumes the run needs, the
 * planned content of each source tube, and the sizing of one strip fill.
 * Volumes are in microlitres.
 */
module Headroom {
  import opened Outcomes
  import opened SourceTubes

  /** `headroom_vol_from_strip_to_pcr`: the part of the headroom that goes into the strip. */
  function HeadroomVolFromStripToPcr(headroom: real, partInStrip: real): (r: real)
    requires 0.0 <= partInStrip <= 1.0
    ensures headroom >= 0.0 ==> 0.0 <= r <= headroom
  {
    ScaledPart(headroom, partInStrip);
    headroom * partInStrip
  }

  /**
   * `headroom_vol_from_tubes_to_strip`: the rest of the headroom, left in the
   * tubes; together with the strip part it is the whole headroom.
   */
  function HeadroomVolFromTubesToStrip(headroom: real, partInStrip: real): (r: real)
    requires 0.0 <= partInStrip <= 1.0
    ensures headroom >= 0.0 ==> 0.0 <= r <= headroom
    ensures r + HeadroomVolFromStripToPcr(headroom, partInStrip) == headroom
  {
    ScaledPart(headroom, 1.0 - partInStrip);
    MulSub(1.0, partInStrip, headroom);
    assert headroom * (1.0 - partInStrip) == (1.0 - partInStrip) * headroom;
    assert partInStrip * headroom == headroom * partInStrip;
    headroom * (1.0 - partInStrip)
  }

  /** `headroom_vol_from_strip_to_pcr_single`: the strip headroom of one of the eight strip wells. */
  function HeadroomVolFromStripToPcrSingle(headroom: real, partInStrip: real): (r: real)
    requires 0.0 <= partInStrip <= 1.0
    ensures 8.0 * r == HeadroomVolFromStripToPcr(headroom, partInStrip)
  {
    HeadroomVolFromStripToPcr(headroom, partInStrip) / 8.0
  }

  /** The volumes `body` computes before it fills anything. */
  datatype Volumes = Volumes(forControls: real, forSamples: real, toPcrPlate: real, toStrip: real, total: real)

  function RunVolumes(mastermixVol: real, numCols: nat, numControls: nat, headroom: real, partInStrip: real): (v: Volumes)
    requires 0.0 <= partInStrip <= 1.0
    ensures v.forControls == mastermixVol * numControls as real
    ensures v.forSamples == 8.0 * numCols as real * mastermixVol
    ensures v.toPcrPlate == v.forSamples + v.forControls
    // the whole headroom is counted once in the total, split between the two stages
    ensures v.total == v.forSamples + v.forControls + headroom
    ensures v.toStrip - v.forSamples == HeadroomVolFromStripToPcr(headroom, partInStrip)
  {
    var forControls := numControls as real * mastermixVol;
    var forSamples := mastermixVol * numCols as real * 8.0;
    var toStrip := forSamples + HeadroomVolFromStripToPcr(headroom, partInStrip);
    Volumes(forControls, forSamples, forSamples + forControls, toStrip,
            toStrip + forControls + HeadroomVolFromTubesToStrip(headroom, partInStrip))
  }

  /**
   * The initial `available_volume` of the `numTubes` source tubes: the
   * volume for the strip and the controls, shared equally; each share must
   * stay below the volume loaded per tube, or the run stops with an error
   * and the tube list stays empty.
   */
  function PlannedSources(need: real, numTubes: nat, volPerTube: real): (r: Result<seq<real>>)
    ensures numTubes == 0 ==> r == Ok([])
    ensures numTubes > 0 ==> (r.Ok? <==> volPerTube > need / numTubes as real)
    ensures r.Ok? ==> |r.value| == numTubes
    ensures r.Ok? ==> forall j :: 0 <= j < numTubes ==> r.value[j] < volPerTube
  {
    if numTubes == 0 then Ok([])
    else
      var available := need / numTubes as real;
      if volPerTube > available then Ok(seq(numTubes, _ => available))
      else Err("Error in volume calcuations")
  }

  lemma {:induction false} SumOfEqualShares(n: nat, v: real)
    ensures Sum(seq(n, _ => v)) == n as real * v
  {
    var s := seq(n, _ => v);
    if n > 0 {
      assert s[0] == v;
      assert s[1..] == seq(n - 1, _ => v);
      SumOfEqualShares(n - 1, v);
      assert Sum(s) == v + Sum(s[1..]);
      assert (n - 1) as real == n as real - 1.0;
      MulSub(n as real, 1.0, v);
    } else {
      assert s == [];
    }
  }

  /** The planned tube volumes add up to exactly the volume needed, and none is negative when the need is not. */
  lemma PlannedSourcesSum(need: real, numTubes: nat, volPerTube: real)
    requires numTubes > 0 && PlannedSources(need, numTubes, volPerTube).Ok?
    ensures Sum(PlannedSources(need, numTubes, volPerTube).value) == need
    ensures need >= 0.0 ==> Nonnegative(PlannedSources(need, numTubes, volPerTube).value)
  {
    var share := need / numTubes as real;
    SumOfEqualShares(numTubes, share);
    assert numTubes as real * share == need;
  }

  /** The sizing of one strip fill: columns it serves and volume per strip well. */
  datatype StripFill = StripFill(cols: int, fillVolume: real)

  /**
   * One turn of the strip-refill loop with `remainingCols` columns to do and
   * `headroom` still to add per strip well: the strip volume is the smaller of
   * the strip capacity and what the remaining columns need, and the fill covers
   * the whole number of columns that volume allows.
   */
  function PlanStripFill(remainingCols: nat, headroom: real, mastermixVol: real, stripCapacity: real): (f: StripFill)
    requires mastermixVol > 0.0
    ensures f.cols <= remainingCols
    ensures f.fillVolume == f.cols as real * mastermixVol + headroom
    ensures f.fillVolume <= stripCapacity
    // as many columns as fit
    ensures f.cols == remainingCols || (f.cols + 1) as real * mastermixVol + headroom > stripCapacity
  {
    var needed := remainingCols as real * mastermixVol + headroom;
    var stripVolume := if stripCapacity < needed then stripCapacity else needed;
    var cols := ((stripVolume - headroom) / mastermixVol).Floor;
    FloorDivBounds(stripVolume - headroom, mastermixVol);
    ExactDiv(remainingCols as real, mastermixVol);
    assert stripVolume == needed ==> (stripVolume - headroom) / mastermixVol == remainingCols as real;
    StripFill(cols, cols as real * mastermixVol + headroom)
  }

  lemma FloorDivBounds(x: real, m: real)
    requires m > 0.0
    ensures (x / m).Floor as real * m <= x < ((x / m).Floor + 1) as real * m
  {
    var q := x / m;
    var f := q.Floor;
    assert f as real <= q < f as real + 1.0;
    assert q * m == x;
    MulMonotone(f as real, q, m);
    var g := f as real + 1.0;
    MulStrict(q, g, m);
    assert q * m < g * m;
    assert x < g * m;
    assert (f + 1) as real == f as real + 1.0;
    assert x < (f + 1) as real * m;
  }

  /** A fraction between 0 and 1 of a non-negative volume lies between 0 and that volume. */
  lemma ScaledPart(v: real, part: real)
    requires 0.0 <= part <= 1.0
    ensures v >= 0.0 ==> 0.0 <= v * part <= v
  {
    if v >= 0.0 {
      MulMonotone(part, 1.0, v);
    }
  }

  lemma ExactDiv(n: real, m: real)
    requires m > 0.0
    ensures (n * m) / m == n
  {
  }

  lemma MulMonotone(a: real, b: real, m: real)
    requires a <= b && m >= 0.0
    ensures a * m <= b * m
  {
  }

  lemma MulSub(a: real, b: real, m: real)
    ensures (a - b) * m == a * m - b * m
  {
  }

  lemma MulStrict(a: real, b: real, m: real)
    requires a < b && m > 0.0
    ensures a * m < b * m
  {
  }

  /**
   * `n` copies of `v`, summed: the volume of `n` columns in one strip well, or
   * of `n` strip wells, kept apart from the product so that the methods that
   * track volumes reason by addition only.
   */
  function Times(n: nat, v: real): real
  {
    if n == 0 then 0.0 else Times(n - 1, v) + v
  }

  lemma {:induction false} TimesIsProduct(n: nat, v: real)
    ensures Times(n, v) == n as real * v
  {
    if n > 0 {
      TimesIsProduct(n - 1, v);
    }
  }

  /**
   * The strip part of the run's volumes is eight strip wells, each holding
   * every column's sample volume plus the single-well headroom; neither part
   * of the need is negative.
   */
  lemma NeedSplits(mastermixVol: real, numCols: nat, numControls: nat, headroom: real, partInStrip: real)
    requires 0.0 <= partInStrip <= 1.0 && mastermixVol >= 0.0 && headroom >= 0.0
    ensures var v := RunVolumes(mastermixVol, numCols, numControls, headroom, partInStrip);
      && v.toStrip == 8.0 * (Times(numCols, mastermixVol) + HeadroomVolFromStripToPcrSingle(headroom, partInStrip))
      && v.toStrip >= 0.0 && v.forControls >= 0.0
  {
    var v := RunVolumes(mastermixVol, numCols, numControls, headroom, partInStrip);
    var columns := numCols as real * mastermixVol;
    assert v.forSamples == 8.0 * columns;
    TimesIsProduct(numCols, mastermixVol);
    var single := HeadroomVolFromStripToPcrSingle(headroom, partInStrip);
    assert v.toStrip == 8.0 * columns + 8.0 * single;
    MulMonotone(0.0, numCols as real, mastermixVol);
    MulMonotone(0.0, numControls as real, mastermixVol);
  }

  lemma {:induction false} TimesMonotone(m: nat, n: nat, v: real)
    requires m <= n && v >= 0.0
    ensures Times(m, v) <= Times(n, v)
    decreases n
  {
    if m < n {
      TimesMonotone(m, n - 1, v);
    }
  }

  /**
   * A fill from tubes holding exactly what the strip still needs: the
   * `remainingCols` columns' sample volumes plus `headroom`. One planned fill
   * covers at most those columns (at least one when the capacity leaves room
   * for a column beyond the headroom), draws eight times its non-negative
   * fill volume, and leaves exactly the other columns' sample volumes, with
   * no headroom.
   */
  lemma StripFillDraws(remainingCols: nat, headroom: real, mastermixVol: real, stripCapacity: real, tubes: real)
    requires mastermixVol > 0.0 && headroom >= 0.0 && stripCapacity >= headroom
    requires tubes == 8.0 * (Times(remainingCols, mastermixVol) + headroom)
    ensures var f := PlanStripFill(remainingCols, headroom, mastermixVol, stripCapacity);
      && 0 <= f.cols <= remainingCols
      && (remainingCols > 0 && stripCapacity >= mastermixVol + headroom ==> f.cols >= 1)
      && f.fillVolume >= 0.0
      && tubes >= 8.0 * f.fillVolume
      && tubes - 8.0 * f.fillVolume == 8.0 * (Times(remainingCols - f.cols, mastermixVol) + 0.0)
  {
    var f := PlanStripFill(remainingCols, headroom, mastermixVol, stripCapacity);
    StripFillNonnegative(remainingCols, headroom, mastermixVol, stripCapacity);
    if remainingCols > 0 && stripCapacity >= mastermixVol + headroom {
      StripFillProgress(remainingCols, headroom, mastermixVol, stripCapacity);
    }
    TimesIsProduct(remainingCols, mastermixVol);
    TimesIsProduct(remainingCols - f.cols, mastermixVol);
    var cols := f.cols as real;
    MulMonotone(0.0, cols, mastermixVol);
    MulMonotone(cols, remainingCols as real, mastermixVol);
    assert (remainingCols - f.cols) as real == remainingCols as real - cols;
    MulSub(remainingCols as real, cols, mastermixVol);
    var rest := (remainingCols - f.cols) as real * mastermixVol;
    assert rest == remainingCols as real * mastermixVol - cols * mastermixVol;
    assert f.fillVolume == cols * mastermixVol + headroom;
    assert tubes == 8.0 * (remainingCols as real * mastermixVol + headroom);
    assert tubes - 8.0 * f.fillVolume == 8.0 * rest;
  }

  /** The columns a turn plans: never negative, and at least one when the strip has room for one beside the headroom. */
  lemma StripFillCols(remainingCols: nat, headroom: real, mastermixVol: real, stripCapacity: real)
    requires mastermixVol > 0.0 && headroom >= 0.0 && stripCapacity >= headroom
    ensures var f := PlanStripFill(remainingCols, headroom, mastermixVol, stripCapacity);
      && f.cols >= 0
      && (remainingCols > 0 && stripCapacity >= mastermixVol + headroom ==> f.cols >= 1)
  {
    StripFillNonnegative(remainingCols, headroom, mastermixVol, stripCapacity);
    if remainingCols > 0 && stripCapacity >= mastermixVol + headroom {
      StripFillProgress(remainingCols, headroom, mastermixVol, stripCapacity);
    }
  }

  /** A fill makes progress when the capacity leaves room for one column beyond the headroom. */
  lemma StripFillProgress(remainingCols: nat, headroom: real, mastermixVol: real, stripCapacity: real)
    requires mastermixVol > 0.0 && remainingCols > 0
    requires stripCapacity >= mastermixVol + headroom
    ensures PlanStripFill(remainingCols, headroom, mastermixVol, stripCapacity).cols >= 1
  {
  }

  /** A strip that holds the headroom is planned for a whole number of columns, none negative. */
  lemma StripFillNonnegative(remainingCols: nat, headroom: real, mastermixVol: real, stripCapacity: real)
    requires mastermixVol > 0.0 && headroom >= 0.0 && stripCapacity >= headroom
    ensures PlanStripFill(remainingCols, headroom, mastermixVol, stripCapacity).cols >= 0
  {
    var f := PlanStripFill(remainingCols, headroom, mastermixVol, stripCapacity);
    if f.cols < 0 {
      // the columns that would fit after this fill's would still be none
      assert f.cols + 1 <= 0;
      MulMonotone((f.cols + 1) as real, 0.0, mastermixVol);
      assert false;
    }
  }

  /**
   * A strip that cannot hold the headroom is planned for a negative number
   * of columns: the floor division of a negative volume.
   */
  lemma StripFillOvershoots(remainingCols: nat, headroom: real, mastermixVol: real, stripCapacity: real)
    requires mastermixVol > 0.0 && stripCapacity < headroom
    ensures PlanStripFill(remainingCols, headroom, mastermixVol, stripCapacity).cols < 0
  {
    var f := PlanStripFill(remainingCols, headroom, mastermixVol, stripCapacity);
    var cols := f.cols as real;
    var covered := cols * mastermixVol;
    assert covered + headroom <= stripCapacity;
    if f.cols >= 0 {
      MulMonotone(0.0, cols, mastermixVol);
      assert false;
    }
  }

  /**
   * A strip that holds the headroom but not one more sample volume is
   * planned for no column, and its fill is the headroom alone. With the
   * headroom spent (every turn after the first) and a capacity below one
   * sample volume, this repeats on every turn, so the refill loop never ends.
   */
  lemma StripFillStalls(remainingCols: nat, headroom: real, mastermixVol: real, stripCapacity: real)
    requires mastermixVol > 0.0 && headroom >= 0.0
    requires headroom <= stripCapacity < mastermixVol + headroom
    ensures PlanStripFill(remainingCols, headroom, mastermixVol, stripCapacity).cols == 0
    ensures PlanStripFill(remainingCols, headroom, mastermixVol, stripCapacity).fillVolume == headroom
  {
    var f := PlanStripFill(remainingCols, headroom, mastermixVol, stripCapacity);
    var cols := f.cols as real;
    assert f.fillVolume == cols * mastermixVol + headroom;
    assert f.fillVolume <= stripCapacity;
    var covered := cols * mastermixVol;
    assert covered <= stripCapacity - headroom < mastermixVol;
    ProductBelowFactor(cols, mastermixVol, covered);
    StripFillNonnegative(remainingCols, headroom, mastermixVol, stripCapacity);
    assert f.cols == 0;
    assert covered == 0.0 * mastermixVol;
  }

  /** A product smaller than one of its positive factors has its other factor below one. */
  lemma ProductBelowFactor(c: real, m: real, product: real)
    requires m > 0.0 && product == c * m && product < m
    ensures c < 1.0
  {
    if c >= 1.0 {
      MulMonotone(1.0, c, m);
    }
  }
}
