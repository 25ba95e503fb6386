# Bioer mastermix preparation, modelled in Dafny

This project models the bookkeeping of an Opentrons robot protocol. The protocol fills a 96-well PCR plate with mastermix for a Bioer thermocycler. It comes in two revisions, and the model covers both.

**The station revision** (`BioerMastermixPrep`, `MasterMix_prep_stations.py`):
- plans the mastermix volumes of a run and loads them into source tubes as equal shares;
- fills the control wells that the sample columns do not already cover;
- fills one eight-well strip again and again, drawing from the source tubes first-fit (`aspirate_from_tubes`);
- transfers from the strip to the next plate columns with the eight-channel pipette, counting the columns done (`get_next_pcr_plate_dests`).

**The single-protocol revision** (`MasterMix_prep.py`):
- computes how many mastermix tubes a run needs (`num_mm_tubes`);
- splits the samples over the tubes in multiples of eight (`samples_per_mm_tube`);
- builds the sample-to-tube index list (`mm_indices`) and pairs every eighth entry of it with a plate column;
- spreads each tube's share over the eight wells of its strip;
- tracks tip use per pipette (`pick_up`), with a count snapshot that one run saves and the next run loads.

The station's state is modelled by the class `Station.BioerMastermixPrep`:
- `doneCols` is the column counter.
- `sourceTubesAndVol` holds the available volume of each source tube. A tube is named by its position in that list.
- `actions` logs the pipetting calls made so far.

Each method is proved against a pure specification:
- `SourceTubes.Deplete` for the first-fit walk;
- `Station.FillStripWells` for one strip fill;
- `ColumnProgress.NextDests` for the column hand-out;
- `Station.PlateTurn` for one turn of the main loop: `Headroom.PlanStripFill` sizes the fill, and `Station.StripTurn` fills the strip and transfers from it;
- `Station.FillPlateRun` for the whole main loop, in which only the first turn carries the headroom.

The properties of those specifications are proved as lemmas. Among them: no strip dispense exceeds the strip capacity (`Station.WithinCapacity`), and the strip receives the columns' sample volumes plus the headroom exactly once (`Station.HeadroomOnce`).

Wells are plate indices in the plate's column-by-column order. A1 is 0, H1 is 7, A12 is 88 and H12 is 95. Volumes are in microlitres and are exact `real`s.

Files:
- `outcomes.dfy`: `Result` and `Option`.
- `plate.dfy`: plate geometry.
- `controls.dfy`: the control-well filter.
- `column_progress.dfy`: the column counter.
- `headroom.dfy`: volume planning.
- `source_tubes.dfy`: the first-fit depletion.
- `station.dfy`: the station class.
- `tube_split.dfy`: tube planning in the single-protocol revision.
- `tip_log.dfy`: tip tracking.

## Model

| member | source | states |
|---|---|---|
| Plate.ColumnTop | MasterMix_prep_stations.py:139-141 | the destination of column `c` is a row-A well that lies in column `c`, and it is on the plate for the twelve plate columns |
| Plate.SampleDests | MasterMix_prep_stations.py:139-141 | `sample_dests` has one destination per column, and entry `c` is column `c`'s top well |
| Plate.IsWellInSamples | MasterMix_prep_stations.py:179-185 | a well is a sample well exactly when it is on the plate and lies in one of the first `numCols` columns |
| Controls.ControlWellsNotInSamples | MasterMix_prep_stations.py:187-192 | a well is kept exactly when it is a configured control and not a sample well; the result is no longer than the configuration |
| Controls.ControlWellsKeepOrder | MasterMix_prep_stations.py:187-192 | the filter keeps the configured order: filtering a concatenation concatenates the filtered parts |
| Controls.ControlWellsCount | MasterMix_prep_stations.py:187-192 | a kept well occurs as often as it is configured; a sample well never occurs |
| Controls.DefaultControls | MasterMix_prep_stations.py:30 | the default controls A12 and H12 need their own dispense exactly when the run has fewer than twelve columns |
| ColumnProgress.RemainingCols | MasterMix_prep_stations.py:147-149 | the remaining columns lie between 0 and `numCols`, and are 0 exactly when every column is done |
| ColumnProgress.NextDests | MasterMix_prep_stations.py:258-265 | fails exactly when nothing remains; otherwise hands out `min(remaining, n)` columns, the next ones in plate order, and advances the counter by as many |
| ColumnProgress.SuccessiveHandoutsContiguous | MasterMix_prep_stations.py:258-265 | two successive hand-outs are disjoint and together form the contiguous run of destinations between the two counts |
| ColumnProgress.HandoutExtendsDone | MasterMix_prep_stations.py:258-265 | the destinations handed out since a count, followed by the next hand-out, are the contiguous destinations up to the new count |
| Headroom.HeadroomVolFromStripToPcr | MasterMix_prep_stations.py:160-164 | the strip part of a non-negative headroom lies between 0 and the headroom |
| Headroom.HeadroomVolFromTubesToStrip | MasterMix_prep_stations.py:170-173 | the tube part lies between 0 and the headroom, and with the strip part adds up to the whole headroom |
| Headroom.HeadroomVolFromStripToPcrSingle | MasterMix_prep_stations.py:166-168 | eight single-well strip headrooms make up the strip headroom |
| Headroom.RunVolumes | MasterMix_prep_stations.py:274-284 | the controls get one sample volume each and the samples eight per column; the strip gets the samples plus the strip headroom; the total counts the whole headroom once |
| Headroom.NeedSplits | MasterMix_prep_stations.py:277-283 | the strip volume is eight strip wells, each holding every column's sample volume plus the single-well headroom; no part of the need is negative |
| Headroom.PlannedSources | MasterMix_prep_stations.py:289-299 | with tubes, the plan succeeds exactly when the volume per tube exceeds an equal share of the need; then it has one entry per tube, each below the volume per tube; no tubes give an empty list |
| Headroom.PlannedSourcesSum | MasterMix_prep_stations.py:292-299 | the planned tube volumes add up to the need and are non-negative when the need is |
| Headroom.PlanStripFill | MasterMix_prep_stations.py:315-321 | a fill covers at most the remaining columns, holds their sample volumes plus the headroom, stays within the strip capacity, and covers as many columns as fit |
| Headroom.StripFillProgress | MasterMix_prep_stations.py:315-318 | a fill covers at least one column when the capacity holds one sample volume beyond the headroom |
| Headroom.StripFillNonnegative | MasterMix_prep_stations.py:315-318 | a strip that holds the headroom is planned for no negative number of columns |
| Headroom.StripFillOvershoots | MasterMix_prep_stations.py:315-318 | a strip that cannot hold the headroom is planned for a negative number of columns |
| Headroom.StripFillCols | MasterMix_prep_stations.py:315-318 | a strip that holds the headroom is planned for no negative number of columns, and for at least one when it also holds a sample volume beyond the headroom |
| Headroom.StripFillStalls | MasterMix_prep_stations.py:315-321 | a strip that holds the headroom but not one more sample volume is planned for no column and filled with the headroom alone; with no headroom, as on every turn after the first, a capacity below one sample volume does this on every turn |
| Headroom.StripFillDraws | MasterMix_prep_stations.py:312-325 | when the tubes hold exactly what the remaining columns and the headroom need, one fill draws at most that and leaves exactly the other columns' volumes, with no headroom |
| SourceTubes.DepleteFrom | MasterMix_prep_stations.py:226-240 | the walk keeps the pool's length, changes only the visited tubes, and visits every tube when it fails |
| SourceTubes.Deplete | MasterMix_prep_stations.py:223-240 | a request keeps the pool's length; an empty pool never meets it and records no draw |
| SourceTubes.DepleteStep | MasterMix_prep_stations.py:226-238 | one turn of the loop (draw, lower the tube, record a non-zero draw, stop when nothing is left) continues to the same end result |
| SourceTubes.TakeKeepsNonnegative | MasterMix_prep_stations.py:227-233 | one tube's draw keeps every volume non-negative |
| SourceTubes.DepleteConserves | MasterMix_prep_stations.py:226-238 | the volume leaving the pool equals the volume recorded in the aspirate list |
| SourceTubes.DepleteDrawsRequest | MasterMix_prep_stations.py:226-238 | when the request is met, the aspirate list draws exactly the requested volume |
| SourceTubes.DepleteRecords | MasterMix_prep_stations.py:234-235 | every recorded draw names a visited tube with a non-zero volume, and the tubes appear in increasing order, each at most once |
| SourceTubes.DepleteLowersByDrawn | MasterMix_prep_stations.py:232-235 | each tube falls by exactly what the aspirate list draws from it |
| SourceTubes.DepleteDrains | MasterMix_prep_stations.py:226-240 | first fit: every visited tube but the last is drained, and all are drained when the request fails |
| SourceTubes.DepleteKeepsNonnegative | MasterMix_prep_stations.py:226-238 | volumes stay non-negative; a non-negative request only lowers tubes and records positive draws |
| SourceTubes.DepleteMetIff | MasterMix_prep_stations.py:226-240 | the request is met exactly when a tube remains to visit and the unvisited tubes hold at least what is still wanted |
| SourceTubes.DepleteSucceeds | MasterMix_prep_stations.py:223-240 | a non-empty, non-negative pool holding at least the request meets it and its total falls by exactly the request |
| SourceTubes.DepleteFails | MasterMix_prep_stations.py:239-240 | the request fails exactly when the pool is empty or holds less than asked, and then every tube is drained |
| SourceTubes.DepleteExample | MasterMix_prep_stations.py:223-240 | tubes of 50 and 30 asked for 70 give draws of 50 and 20 and keep 0 and 10 |
| SourceTubes.ZeroSumMeansEmpty | MasterMix_prep_stations.py:312-327 | a non-negative pool that sums to zero is empty in every tube |
| Station.AspirateActions | MasterMix_prep_stations.py:242-243 | one aspirate per recorded draw, in the recorded order |
| Station.Transfers | MasterMix_prep_stations.py:251-255 | one eight-channel transfer of one sample volume per destination column, in order |
| Station.ControlDispenses | MasterMix_prep_stations.py:218-219 | one dispense of a sample volume into each configured control well, in order |
| Station.ServedAppend | MasterMix_prep_stations.py:247-256 | the columns served by two logs in sequence are those of the first followed by those of the second |
| Station.ServedOnlyByTransfers | MasterMix_prep_stations.py:194-256 | aspirates, strip dispenses and control dispenses serve no plate column; the transfers serve exactly the columns they name |
| Station.ServedAfterStripWell | MasterMix_prep_stations.py:201-203 | filling one strip well serves no plate column |
| Station.ServedAfterControls | MasterMix_prep_stations.py:215-219 | filling the controls serves no plate column |
| Station.ServedAfterTransfers | MasterMix_prep_stations.py:251-255 | a transfer round serves its destinations, in order, after those served before |
| Station.FillStripWells | MasterMix_prep_stations.py:194-205 | a strip fill keeps the number of tubes |
| Station.OneStripWell | MasterMix_prep_stations.py:202-203 | one strip well's aspirates and dispense fill exactly that well and serve no plate column |
| Station.FillStripWellsServesNothing | MasterMix_prep_stations.py:201-203 | a strip fill serves no plate column |
| Station.FillStripWellsFills | MasterMix_prep_stations.py:201-203 | the wells a strip fill fills are the first of the remaining strip wells, in order, and all of them exactly when it succeeds |
| Station.FillStripWellsStep | MasterMix_prep_stations.py:201-203 | an unmet draw stops the fill with the tubes as it left them and nothing logged; a met one logs its aspirates and its dispense before the rest of the fill, which goes on from the next well |
| Station.FillStripWellsNoTubes | MasterMix_prep_stations.py:201-203 | with no tubes the first draw fails and nothing is logged |
| Station.FillStripWellsKeepsNonnegative | MasterMix_prep_stations.py:201-203 | a strip fill keeps non-negative tube volumes non-negative |
| Station.FillStripWellsDraws | MasterMix_prep_stations.py:197-203 | non-negative tubes holding the remaining wells' draws fill them all, and their total falls by exactly those draws |
| Station.FillStripFacts | MasterMix_prep_stations.py:194-205 | a whole strip fill serves no column, keeps volumes non-negative, fails with no tubes, and succeeds lowering the total by eight draws when the tubes hold them |
| Station.StripVolumesAppend | MasterMix_prep_stations.py:201-203 | the strip dispenses of two logs in sequence are those of the first followed by those of the second |
| Station.StripVolumesAfterControls | MasterMix_prep_stations.py:215-219 | filling the controls dispenses nothing into the strip |
| Station.FillStripWellsVolumesStep | MasterMix_prep_stations.py:201-203 | a met draw puts one dispense of the fill volume into the strip, ahead of the rest of the fill's |
| Station.FillStripWellsDispenses | MasterMix_prep_stations.py:201-203 | every strip dispense of a fill is of the fill volume |
| Station.FillStripWellsStripTotal | MasterMix_prep_stations.py:201-203 | a complete fill from well `w` dispenses `8 - w` fill volumes into the strip |
| Station.StripFillVolumes | MasterMix_prep_stations.py:197-203 | a strip fill dispenses `volume` into each well, and `8 * volume` in all when it completes |
| Station.TurnLogParts | MasterMix_prep_stations.py:247-256 | the transfers after a strip fill serve exactly their destinations and dispense nothing into the strip |
| Station.StripTurn | MasterMix_prep_stations.py:325-327 | a sized turn keeps the number of tubes and counts its `cols` columns as done exactly when its strip fill succeeds |
| Station.StripTurnServes | MasterMix_prep_stations.py:325-327 | a sized turn serves exactly the columns it counts, the next ones in plate order; it keeps volumes non-negative and fails with no tubes |
| Station.StripTurnVolumes | MasterMix_prep_stations.py:325 | a fill volume within the strip capacity keeps every strip dispense within it; a completed turn puts eight fill volumes into the strip |
| Station.PlateTurn | MasterMix_prep_stations.py:313-327 | one turn keeps the number of tubes, never counts past the last column, leaves the counter on failure, and advances it when the strip holds one sample volume beyond the headroom |
| Station.PlateTurnServes | MasterMix_prep_stations.py:313-327 | one turn serves exactly the columns it counts, the next ones in plate order; it keeps volumes non-negative and fails with no tubes |
| Station.PlateTurnVolumes | MasterMix_prep_stations.py:314-325 | no strip dispense of a turn exceeds the strip capacity, and a completed turn puts eight planned fill volumes into the strip |
| Station.PlateTurnDraws | MasterMix_prep_stations.py:314-325 | a completed turn's fill and the columns still to do make up what the remaining columns and the headroom need; tubes holding exactly that complete the turn and then hold exactly the columns still to do, with no headroom |
| Station.PlateTurnFacts | MasterMix_prep_stations.py:313-327 | one turn extends the log, serves the next columns in order, keeps volumes non-negative, fails with no tubes, and keeps tubes that hold exactly what is needed doing so, with the headroom spent |
| Station.FillPlateRun | MasterMix_prep_stations.py:312-327 | the main loop keeps the number of tubes and ends with the counter between its start and the last column |
| Station.FillPlateRunServes | MasterMix_prep_stations.py:312-327 | the main loop serves exactly the columns it counts, in plate order, and on success every column |
| Station.FillPlateRunKeepsNonnegative | MasterMix_prep_stations.py:312-327 | the main loop keeps tube volumes non-negative |
| Station.FillPlateRunNoTubes | MasterMix_prep_stations.py:223-245 | with no tubes the first aspirate raises, so the loop counts no column and succeeds exactly when none remains |
| Station.FillPlateRunDrains | MasterMix_prep_stations.py:312-327 | tubes holding exactly the remaining columns' volumes plus the first headroom complete the loop, and empty every tube when there was a column to do |
| Station.FillPlateRunWithinCapacity | MasterMix_prep_stations.py:314-325 | no strip dispense in the whole loop exceeds the strip capacity |
| Station.FillPlateRunStripTotal | MasterMix_prep_stations.py:314-325 | a completed loop with columns to do puts eight times the remaining columns' sample volumes plus the first headroom into the strip: the headroom goes in once |
| Station.FillPlateRunAdvance | MasterMix_prep_stations.py:312-327 | one turn of the loop continues to the same end result: a failed turn ends it, a completed one goes on with no headroom |
| Station.FillPlateRunEnds | MasterMix_prep_stations.py:312 | the loop ends successfully once no column remains |
| Station.FillPlateRunFacts | MasterMix_prep_stations.py:312-327 | the main loop extends the log, serves the remaining columns in order on success, and with no tubes counts no column and succeeds exactly when none remains |
| Station.FillPlateRunVolumeFacts | MasterMix_prep_stations.py:312-327 | the main loop drains tubes that hold exactly what it needs, keeps every strip dispense within the capacity, and on success puts the headroom into the strip once |
| Station.BioerMastermixPrep.constructor | MasterMix_prep_stations.py:78-93 | the part of the headroom in the strip lies in [0, 1]; the counter starts at 0 with no tubes and no actions |
| Station.BioerMastermixPrep.AspirateFromTubes | MasterMix_prep_stations.py:223-245 | the tubes end as `Deplete` leaves them and stay non-negative; on success the method returns the aspirate list and issues one aspirate per entry; when the list runs out it raises and aspirates nothing |
| Station.BioerMastermixPrep.FillStrip | MasterMix_prep_stations.py:194-205 | the tubes and the log end exactly as the strip fill `FillStripWells` from the first well leaves them, and the method succeeds exactly when that fill fills all eight wells |
| Station.BioerMastermixPrep.FillStripWell | MasterMix_prep_stations.py:202-203 | the tubes end as `Deplete` leaves them; a met draw logs its aspirates and then the dispense into that strip well; an unmet one raises and logs nothing |
| Station.BioerMastermixPrep.LoadTubesAndFillControls | MasterMix_prep_stations.py:274-309 | one tube per planned share; a volume per tube not above an equal share of the need raises before any action, with no tubes; a zero strip capacity raises before any action; no tubes with controls to fill raise; on success the controls' draw and dispenses are exactly what was logged, and the non-negative tubes hold exactly what the strip fills will draw, single-well headroom included; nothing is dispensed into the strip |
| Station.BioerMastermixPrep.FillControls | MasterMix_prep_stations.py:208-221 | with no control outside the samples, nothing happens; otherwise the tubes end as one draw of a sample volume per such control leaves them, and it succeeds exactly when that draw is met, then logging the draw's aspirates and one dispense per configured control; a failure logs nothing; when the non-negative tubes hold the controls' volume it succeeds and their total falls by exactly that; nothing is dispensed into the strip |
| Station.BioerMastermixPrep.DispenseToControls | MasterMix_prep_stations.py:218-219 | one dispense per configured control well, in order |
| Station.BioerMastermixPrep.GetNextPcrPlateDests | MasterMix_prep_stations.py:258-265 | returns and counts exactly the hand-out of `NextDests`, or raises with the counter unchanged |
| Station.BioerMastermixPrep.TransferToPcrPlateAndMarkDone | MasterMix_prep_stations.py:247-256 | logs one transfer per handed-out column and advances the counter, or raises and changes nothing; on success the columns served are the next ones in plate order, up to the new count |
| Station.BioerMastermixPrep.Body | MasterMix_prep_stations.py:267-327 | on success every column is done, the plate columns are served exactly once each in plate order, and the controls' draw and dispenses come first in the log; with tubes, a volume per tube not above an equal share of the need raises before any action; with tubes holding more, a positive strip capacity and a positive sample volume (or no columns), it succeeds and a run with columns leaves every tube empty; no tubes with work to do, a zero strip capacity or a zero sample volume with columns raise; no strip dispense exceeds the strip capacity, and a successful run with columns puts the single-well headroom into the strip once |
| Station.BioerMastermixPrep.FillPlate | MasterMix_prep_stations.py:311-327 | with a positive sample volume or nothing to do, the tubes, log and counter end exactly as `FillPlateRun` leaves them, and it succeeds exactly when that run does; the refill loop serves the remaining columns in order; with nothing left to do it succeeds; a zero sample volume with columns left raises before any action, as the floor division by it does; with no tubes it raises; when the tubes hold exactly the remaining columns' volumes plus the first headroom, it succeeds and drains every tube; no strip dispense exceeds the strip capacity, and on success the first headroom goes into the strip once |
| Station.BioerMastermixPrep.FillPlateTurns | MasterMix_prep_stations.py:312-327 | the loop's turns leave the tubes, log and counter exactly as `FillPlateRun` does, and succeed exactly when it does |
| Station.BioerMastermixPrep.FillStripAndTransfer | MasterMix_prep_stations.py:313-327 | the tubes, log and counter end exactly as `PlateTurn` (the fill sized by `PlanStripFill`) leaves them, and it succeeds exactly when that turn does; one turn serves the next columns in order and advances the counter, by at least one column when the strip holds a sample volume beyond the headroom; a failure leaves the counter; with no tubes it raises; with matching tube volumes it succeeds and leaves exactly the columns still to do, with no headroom |
| Station.BioerMastermixPrep.FillStripThenTransfer | MasterMix_prep_stations.py:325-327 | the tubes, log and counter end exactly as `StripTurn` leaves them: the strip fill, then on success the transfers to the next columns |
| TubeSplit.TubeCapacity | MasterMix_prep.py:50-52 | a tube is planned to hold no more than its strip of eight wells or its maximum volume, and holds one of the two |
| TubeSplit.NumMmTubes | MasterMix_prep.py:140 | at least one tube, and the fewest whose capacity covers every sample's volume plus the headroom |
| TubeSplit.TubeDemand | MasterMix_prep.py:140 | the tubes must hold every sample's volume on top of the headroom, so never less than the headroom |
| TubeSplit.NumCols | MasterMix_prep.py:89 | the fewest columns of eight that hold the samples |
| TubeSplit.Share | MasterMix_prep.py:144-145 | a share never exceeds the samples left, is a multiple of eight unless it takes them all, and the last tube takes them all |
| TubeSplit.Split | MasterMix_prep.py:143-145 | one share per tube |
| TubeSplit.ShareBoundedBy | MasterMix_prep.py:144-145 | when `c` columns per tube hold the samples left, the next share is at most `8 * c` and the samples after it still fit `c` columns per later tube |
| TubeSplit.SplitBoundedBy | MasterMix_prep.py:143-145 | when `c` columns per tube hold every sample, no share exceeds `8 * c` |
| TubeSplit.EvenColumnsHoldAll | MasterMix_prep.py:145 | rounding the even split up to whole columns leaves room for every sample |
| TubeSplit.SplitBounded | MasterMix_prep.py:143-145 | no share exceeds the even split rounded up to whole columns of eight |
| TubeSplit.SplitHeadBound | MasterMix_prep.py:143-145 | no later share exceeds the first |
| TubeSplit.SplitNonincreasing | MasterMix_prep.py:143-145 | each share is at most the one before it |
| TubeSplit.SamplesPerMmTube | MasterMix_prep.py:141-145 | the loop builds exactly the split |
| TubeSplit.SplitSum | MasterMix_prep.py:143-145 | with at least one tube, the shares add up to the number of samples |
| TubeSplit.SplitEntry | MasterMix_prep.py:143-145 | each share takes at most the samples still unassigned, is a multiple of eight unless it takes them all, and is 0 once none are left |
| TubeSplit.SplitPrefixAligned | MasterMix_prep.py:143-145 | every tube's block of samples ends on a multiple of eight or on the last sample |
| TubeSplit.SplitColumnAligned | MasterMix_prep.py:143-145 | the split is column-aligned |
| TubeSplit.IndicesFrom | MasterMix_prep.py:155 | one index per sample, each naming one of the tubes |
| TubeSplit.MmIndices | MasterMix_prep.py:155 | `mm_indices` has one entry per sample, each a valid tube index |
| TubeSplit.Repeat | MasterMix_prep.py:155 | `repeat(i, n)` is `n` copies of `i` |
| TubeSplit.IndicesSorted | MasterMix_prep.py:155 | tube indices never decrease along the samples |
| TubeSplit.IndexAt | MasterMix_prep.py:155 | sample `p` draws from tube `t` exactly when `p` lies in tube `t`'s block of the split |
| TubeSplit.IndicesCount | MasterMix_prep.py:155 | each tube occurs in `mm_indices` exactly as often as its share |
| TubeSplit.ColumnFromOneTube | MasterMix_prep.py:155 | under an aligned split, the eight samples of one plate column draw from the same tube |
| TubeSplit.EveryEighth | MasterMix_prep.py:175 | `s[::8]` has one entry per column of eight, and entry `c` is `s[8c]` |
| TubeSplit.ColumnTubes | MasterMix_prep.py:175-177 | `mm_indices[::8]` has one tube per plate column, and it is the tube of every sample in that column |
| TubeSplit.StripShares | MasterMix_prep.py:166-168 | the first `k` strip wells' shares, in well order |
| TubeSplit.StripWellShare | MasterMix_prep.py:168 | a strip well receives the count of whole columns, plus one exactly when its row lies within the remainder |
| TubeSplit.StripSharesSum | MasterMix_prep.py:166-168 | the first `k` strip wells receive `k` times the whole columns plus one for each well within the remainder |
| TubeSplit.StripSharesBalanced | MasterMix_prep.py:166-168 | the eight strip wells receive the whole share, and no two differ by more than one sample |
| TubeSplit.StripWellCoversColumns | MasterMix_prep.py:166-177 | a strip well holds at most one sample volume per column it serves, and exactly that many when the share fills whole columns or the well's row is occupied in the last column |
| TipLog.PickUpStep | MasterMix_prep.py:123-131 | pauses exactly when every tip is used, then restarts from tip 0; takes the tip at the count, or fails when there is no such tip; then counts the tip |
| TipLog.PickUps | MasterMix_prep.py:123-131 | `k` pick-ups take `k` tips and never count past the racks |
| TipLog.PickUpsClosedForm | MasterMix_prep.py:123-131 | pick-up `j` from count `c` takes tip `(c + j) % max`; after `k` pick-ups the count is `(c + k - 1) % max + 1` and the run has paused `(c + k - 1) / max` times |
| TipLog.TipTracker.constructor | MasterMix_prep.py:94-121 | a run starts from the loaded counts with no pauses and no tips taken |
| TipLog.TipTracker.PickUp | MasterMix_prep.py:123-131 | `pick_up(pip)` acts as `PickUpStep` on that pipette's count and logs the tip; the other pipette's count is unchanged |
| TipLog.InitialCounts | MasterMix_prep.py:97-112 | both counts are 0 when tracking is off, when simulating, or with no snapshot file; otherwise each count is the value under its key when the key is present, and 0 when it is not |
| TipLog.FinalSnapshot | MasterMix_prep.py:196-204 | a snapshot with the keys `tips20` and `tips300` is saved exactly when tracking is on and not simulating |
| TipLog.ResumeFromSnapshot | MasterMix_prep.py:97-112 | a tracked run that loads the previous tracked run's snapshot resumes from its final counts |
| TipLog.SnapshotRoundTrip | MasterMix_prep.py:199-204 | saving the counts loaded from a two-key snapshot writes that snapshot back |

## Left out

- Pipette motion, flow rates, heights, and the tip handling of the station revision are not modelled. That tip handling is the `pick_up` and `drop` inherited from the `Station` base class, which is not part of this model. The station's hardware calls are kept only as the `actions` log.
- `uniform_divide` is not part of this model. Its result `(num_tubes, vol_per_tube)` is a parameter of `Body`.
- The derivation of `num_cols` from `num_samples` in the `Station` base class is not modelled. `numCols` is a constructor parameter.
- Control positions are given as plate indices (A12 is 88) instead of well names.
- Labware loading, logging, `print` and `ctx.comment` are not modelled.
- Pause messages, homing and the blinking light are not modelled.
- Reading and writing `tip_log.json` is not modelled. The file is an `Option` of a key-to-count map: `None` is a missing file. The folder creation is not modelled either.
- Exception types are not modelled. Every raise, including the floor divisions by a zero strip capacity (`MasterMix_prep_stations.py:302`) and by a zero sample volume (`MasterMix_prep_stations.py:318`), becomes an `Err` result with a message.
- Volumes are exact reals, not IEEE floats. So the exact comparison `left_volume == 0` and the `//` on floats are modelled without rounding.
- `headroom_from_strip_to_pcr` (`MasterMix_prep_stations.py:156-158`) is not modelled. It is used nowhere.
- `strip_num_fills` and `strip_headroom_vol_each_fill_single` (`MasterMix_prep_stations.py:302-305`) are not modelled. They are only computed and logged.
- Station.BioerMastermixPrep.Body requires, for a run with columns and a positive sample volume, a strip capacity of at least one sample volume. With less, every turn after the first plans no column (`StripFillStalls` with no headroom) and the source loops forever, since each such turn asks the tubes for nothing and the first tube meets that. With no tubes, the first `aspirate_from_tubes` raises instead (`MasterMix_prep_stations.py:239-240`, `FillPlateRunNoTubes`).
- Station.BioerMastermixPrep.Body requires, in the same case, a strip capacity of at least the single-well headroom. With less, the first turn plans a negative number of columns (`StripFillOvershoots`), which the source would pass on as a negative slice bound.
- Station.BioerMastermixPrep.Body requires a non-negative strip capacity, sample volume and headroom. Negative volumes are not modelled.
- Station.BioerMastermixPrep.Body uses all `numTubes` planned tubes. The source takes only the first `num_tubes` wells of the tube block (`MasterMix_prep_stations.py:289`), so at most its 24 wells, and divides by that count (`MasterMix_prep_stations.py:294`). More than 24 tubes are not modelled.
- Station.BioerMastermixPrep.Body requires a fresh run (no column done), as `body` is called once per protocol run.
- Station.BioerMastermixPrep.Body: an empty plate run (`numCols == 0`) leaves the strip headroom in the tubes. So the all-tubes-empty guarantee is stated only for runs with columns.
- Station.BioerMastermixPrep.FillControls states its volume result only for non-negative tubes that hold the controls' volume.
- The class invariant limits the run to the twelve plate columns.
- Station.BioerMastermixPrep.constructor requires the strip part of the headroom to lie between 0 and 1. The source checks this with an assertion (`MasterMix_prep_stations.py:81-82`), and the failing case is not modelled as an error result.
- `MasterMix_prep.py:168`: only the number of samples each strip well receives is modelled. The volume factor (`MM_PER_SAMPLE * 1.1`) is not.
- `mm_per_tube` and `NUM_MM` (`MasterMix_prep.py:146-147`) are not modelled. They only feed a message.
- The repetition over `NUM_SEDUTE` runs is not modelled.
- The column offset `NUM_COLONNA`, which is 0, is not modelled.
- The two control transfers from `mm_tube[1]` (`MasterMix_prep.py:170-171`) are not modelled. They also assume a second tube exists.
- The eight-channel transfers of `MasterMix_prep.py:175-178` are modelled only as the pairing of tubes with plate columns (`ColumnTubes`).
- TipLog.PickUpStep models counts as naturals. Python's negative indexing of a negative saved count and non-integer JSON values are not modelled.
- `reset_tipracks` is not modelled. It is a hardware call.
- TipLog.InitialCounts takes the snapshot's values as naturals.
- SourceTubes.DepleteExample is a single worked example, not a general property.
