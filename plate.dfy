/**
 * The 96-well PCR plate.  A well is named by its plate index in the order the
 * plate lists its wells, column by column: A1 is 0, B1 is 1, ..., H1 is 7,
 * A2 is 8, ..., A12 is 88 and H12 is 95.  A column holds eight wells.
 */
module Plate {

  const PlateColumns: nat := 12
  const WellsPerColumn: nat := 8
  const PlateWells: nat := 96

  /** The destination of one column: its top well (row A), as `rows()[0]` lists them. */
  function ColumnTop(col: nat): (w: nat)
    ensures w % WellsPerColumn == 0 && w / WellsPerColumn == col
    ensures col < PlateColumns ==> w < PlateWells
  {
    WellsPerColumn * col
  }

  /** `sample_dests`: the row-A wells of the first `numCols` columns, left to right. */
  function SampleDests(numCols: nat): (dests: seq<nat>)
    ensures |dests| == numCols
    ensures forall c :: 0 <= c < numCols ==> dests[c] == ColumnTop(c)
  {
    seq(numCols, c requires 0 <= c => ColumnTop(c))
  }

  /**
   * `is_well_in_samples`: whether a well is among `wells()[:numCols*8]`,
   * the wells the eight-channel pipette fills.
   */
  function IsWellInSamples(well: nat, numCols: nat): (r: bool)
    ensures r <==> well < PlateWells && well / WellsPerColumn < numCols
  {
    well < PlateWells && well < WellsPerColumn * numCols
  }
}
