# Underlying-event histogram filling, modelled in Dafny

This project models the bin-indexing and fill-dispatch core of
`UEAnalysisHandler`, the object that the top-quark underlying-event analysis
uses to fill its unfolding histograms event by event. The core has four parts:

- `getBinForVariable` clamps a value to an axis. It returns 0 below the range,
  `nbins` above it, and otherwise the axis's own bin lookup.
- `fillInclusive` builds one generated and one reconstructed bin per event and
  variation. Each bin can be moved into the slice of a second variable, and is
  -1 when its selection fails. The call then fills the two marginals, the fakes
  histogram, the per-systematic histogram and the migration matrix of the
  variation.
- `fillDifferential` lays the axes of three regions (relative to a reference
  axis) end to end into one flat bin index. It fills the two marginals and
  the 3 x 3 response cells.
- The `VARS` table and the three name lists filtered from it.

The handler's state is a log of the fills it has performed, oldest first.
Each `Fill` records a histogram key, one or two integer coordinates and a
weight. Every state-changing method ensures that the new log is the old log
followed by a specification function of its inputs:
`IncFills` for the inclusive fill, `DiffFills` for the differential fill.
The properties are proved about those functions. Filtering the log by one
histogram key (`FillsTo`) shows what each histogram receives.

Modules, one per file:

- `Records`: keys, fills, the event record and the log filter.
- `Binning`: axes, bin lookup, flattening and its inverse.
- `Slicing`: the slice shifts that both fill modes compute inside a bare
  `try`.
- `Variables`: the variable table.
- `Inclusive`: the inclusive fill as a function of the event.
- `Differential`: the differential fill as a function of a context of
  per-region bin counts, zero-based bins, counts and keys.
- `UEAnalysis`: the class `UEAnalysisHandler`.

The loops of `fillDifferential` are kept as loops. The outer generated loop,
its body and the inner response loop are three methods, so that each can be
proved on its own.

The model follows the code in these places:

- A value exactly at the upper edge of an axis is not clamped by
  `getBinForVariable` (its test is strict). It falls through to the axis's
  own lookup, which puts the upper edge in the overflow bin `nbins + 1`.
  A value exactly at the lower edge is in bin 1, not 0.
- The filled bin is `getBinForVariable(...) - 1`. An overflowing value
  therefore lands in zero-based bin `nbins - 1`.
- The reconstructed-marginal pass of `fillDifferential` does not advance its
  offset past a region with a zero count (its `continue` skips the
  increment). So its offsets are not the plain prefix sums that the response
  cells use.
- `fillDifferential` looks its slicing axes up in an attribute that the
  constructor never assigns. The failure is swallowed, so both slice shifts
  stay 0, while the histogram keys still carry the slicing variable.

## Model

| member | source | states |
|---|---|---|
| Binning.FindBin | TopAnalysis/test/TopUEAnalysis/UEAnalysisHandler.py:197 | the axis's own lookup: 0 below the range, `nbins + 1` at or above the upper edge, otherwise the unique bin whose half-open interval holds the value |
| Binning.LocateEdge | TopAnalysis/test/TopUEAnalysis/UEAnalysisHandler.py:197 | the bin found by scanning the edges holds the value |
| Binning.HoldsUnique | TopAnalysis/test/TopUEAnalysis/UEAnalysisHandler.py:197 | at most one bin of an axis holds a value, so the in-range lookup is determined |
| Binning.RangeNonEmpty | TopAnalysis/test/TopUEAnalysis/UEAnalysisHandler.py:194 | a valid axis has `xmin < xmax`, so the two clamping tests never both apply |
| Binning.GetBinForVariable | TopAnalysis/test/TopUEAnalysis/UEAnalysisHandler.py:193-197 | above `xmax` gives `nbins`; below `xmin` gives 0; inside the range gives the bin holding the value; exactly `xmax` gives `nbins + 1` |
| Binning.ZeroBasedBinRange | TopAnalysis/test/TopUEAnalysis/UEAnalysisHandler.py:193-197 | away from the upper edge, `getBinForVariable - 1` lies in `[-1, nbins - 1]`, and it is -1 exactly for values below the range |
| Binning.OffsetMonotone | TopAnalysis/test/TopUEAnalysis/UEAnalysisHandler.py:184-186 | running offsets, as the response loops accumulate them, never decrease |
| Binning.UnflattenOffset | TopAnalysis/test/TopUEAnalysis/UEAnalysisHandler.py:162 | the flattening `offset(k) + local` is one-to-one: region and local bin come back from the flat index |
| Binning.FlatBinInBlock | TopAnalysis/test/TopUEAnalysis/UEAnalysisHandler.py:162 | the flat index of a bin of region k lies in `[offset(k), offset(k+1))`, within the total |
| Binning.UnderflowLandsInPreviousAxis | TopAnalysis/test/TopUEAnalysis/UEAnalysisHandler.py:162 | an underflow (-1) in region k > 0 becomes the last bin of region k - 1 once flattened, not a distinct out-of-range index |
| Binning.UpperEdgeLandsInNextAxis | TopAnalysis/test/TopUEAnalysis/UEAnalysisHandler.py:162 | the zero-based bin `nbins` of region k, which a value exactly at the upper edge gets, becomes the first bin of region k + 1 once flattened |
| Binning.SliceRoundTrip | TopAnalysis/test/TopUEAnalysis/UEAnalysisHandler.py:90-91 | `shift * nbins + local`, with `0 <= local < nbins`, gives back the shift by division and the local bin by remainder |
| Slicing.SliceShifts | TopAnalysis/test/TopUEAnalysis/UEAnalysisHandler.py:73-80 | the slicing variable is bound whenever a triple is given; the generated shift is set only when its axis exists, and the reconstructed shift only when both axes exist; each shift is the zero-based slice bin or 0 |
| Variables.ObsVars | TopAnalysis/test/TopUEAnalysis/UEAnalysisHandler.py:28 | the observables are exactly the nine names flagged as observables in the table |
| Variables.EvAxes | TopAnalysis/test/TopUEAnalysis/UEAnalysisHandler.py:29 | the event axes are exactly the three azimuthal angles |
| Variables.SliceVars | TopAnalysis/test/TopUEAnalysis/UEAnalysisHandler.py:30 | the slicing variables are exactly the eight names flagged for slicing |
| Variables.EvAxesAreSlicingAngles | TopAnalysis/test/TopUEAnalysis/UEAnalysisHandler.py:29-30 | every event axis is an angle and is also a slicing variable |
| Variables.OnlyChmultSlicesItself | TopAnalysis/test/TopUEAnalysis/UEAnalysisHandler.py:28-30 | `chmult` is the only name that is both an observable and a slicing variable |
| Inclusive.IncFills | TopAnalysis/test/TopUEAnalysis/UEAnalysisHandler.py:71-111 | slicing an observable by itself fills nothing; otherwise a call makes at most four fills, all with weight `w[ivar]` |
| Inclusive.IncFillsShape | TopAnalysis/test/TopUEAnalysis/UEAnalysisHandler.py:85-111 | a call makes at most four fills, all with weight `w[ivar]`, all into the five histograms of the observable under the bound slicing variable |
| Inclusive.IncFillsByHistogram | TopAnalysis/test/TopUEAnalysis/UEAnalysisHandler.py:93-111 | for each of the five histograms, the fill it receives and the exact condition under which it receives it |
| Inclusive.IncGenMarginalFills | TopAnalysis/test/TopUEAnalysis/UEAnalysisHandler.py:93-94 | the generated marginal gets `genBin` only for `ivar == 0` with generated particles |
| Inclusive.IncRecMarginalFills | TopAnalysis/test/TopUEAnalysis/UEAnalysisHandler.py:102-104 | the reconstructed marginal gets `recBin` only for `ivar == 0`, a passing selection and reconstructed particles |
| Inclusive.IncFakesFills | TopAnalysis/test/TopUEAnalysis/UEAnalysisHandler.py:105 | fakes are filled under the reconstructed-marginal condition plus no generated particles |
| Inclusive.IncSystFills | TopAnalysis/test/TopUEAnalysis/UEAnalysisHandler.py:106 | the per-systematic histogram gets `(recBin, ivar)` for every variation of a selected event with reconstructed particles |
| Inclusive.IncMigrationFills | TopAnalysis/test/TopUEAnalysis/UEAnalysisHandler.py:109-111 | the migration matrix of the variation gets `(genBin, recBin)` exactly when there are generated particles |
| Inclusive.IncFillsTo | TopAnalysis/test/TopUEAnalysis/UEAnalysisHandler.py:93-111 | filtering a call's fills by one key keeps, in order, those of the five conditional fills aimed at that key |
| Inclusive.IncGenBin | TopAnalysis/test/TopUEAnalysis/UEAnalysisHandler.py:88-92 | a failed generated selection gives -1; a selected value off the upper edge gives a bin in `[s*nbins - 1, s*nbins + nbins)` for slice shift s, at `s*nbins - 1` exactly when it is below the axis; a value exactly at the upper edge gives `(s + 1)*nbins`, the first bin of the next slice |
| Inclusive.IncRecBin | TopAnalysis/test/TopUEAnalysis/UEAnalysisHandler.py:97-101 | the same for the reconstructed bin of variation `ivar`, with the reconstructed selection of that variation |
| Inclusive.IncGenBinLocatesSlice | TopAnalysis/test/TopUEAnalysis/UEAnalysisHandler.py:88-92 | a failed generated selection gives -1; otherwise an in-range value's bin yields its slice by division and its own bin by remainder |
| Inclusive.IncRecBinLocatesSlice | TopAnalysis/test/TopUEAnalysis/UEAnalysisHandler.py:97-101 | the same for the reconstructed bin of variation `ivar` |
| Inclusive.IncFailedRecSelectionMigrates | TopAnalysis/test/TopUEAnalysis/UEAnalysisHandler.py:101-111 | an event failing the reconstructed selection but with generated particles enters the migration matrix at `(genBin, -1)` and no reconstructed histogram |
| Differential.DiffFills | TopAnalysis/test/TopUEAnalysis/UEAnalysisHandler.py:116-186 | with both selections failed a call fills nothing; otherwise it makes at most 3 + 3 + 9 fills |
| Differential.DiffSliceUnshifted | TopAnalysis/test/TopUEAnalysis/UEAnalysisHandler.py:122-127 | with the slicing registry unassigned, both shifts are 0 and the keys carry a non-empty slicing name |
| Differential.RecMarginalFillsMembers | TopAnalysis/test/TopUEAnalysis/UEAnalysisHandler.py:141-150 | the set of fill records of the reconstructed pass: one record per region with a non-zero count, at that region's bin, and no other; at most one fill per region |
| Differential.GenMarginalFillsMembers | TopAnalysis/test/TopUEAnalysis/UEAnalysisHandler.py:158-168 | the set of fill records of the generated marginal: one record per region with generated particles, and no other; at most one fill per region |
| Differential.RowFillsMembers | TopAnalysis/test/TopUEAnalysis/UEAnalysisHandler.py:171-182 | the set of fill records of a row: the cells `(g, r)` where region g has generated particles or the cell has reconstructed ones, and no other |
| Differential.ResponseFillsMembers | TopAnalysis/test/TopUEAnalysis/UEAnalysisHandler.py:158-186 | the set of fill records of the response matrix: exactly the filled cells; at most nine fills |
| Differential.RecMarginalFillsLength | TopAnalysis/test/TopUEAnalysis/UEAnalysisHandler.py:141-150 | the reconstructed pass makes exactly as many fills as there are regions with a non-zero count |
| Differential.RecMarginalFillsCount | TopAnalysis/test/TopUEAnalysis/UEAnalysisHandler.py:141-150 | each fill record occurs in the reconstructed pass exactly as often as there are regions with a non-zero count that produce it |
| Differential.GenMarginalFillsLength | TopAnalysis/test/TopUEAnalysis/UEAnalysisHandler.py:158-168 | the generated marginal gets exactly as many fills as there are regions with generated particles |
| Differential.GenMarginalFillsCount | TopAnalysis/test/TopUEAnalysis/UEAnalysisHandler.py:158-168 | each generated-marginal record occurs exactly as often as there are regions with generated particles that produce it |
| Differential.RowFillsLength | TopAnalysis/test/TopUEAnalysis/UEAnalysisHandler.py:171-182 | a row gets exactly as many fills as it has filled cells |
| Differential.RowFillsCount | TopAnalysis/test/TopUEAnalysis/UEAnalysisHandler.py:171-182 | each record of a row occurs exactly as often as there are filled cells of the row that produce it, so two cells with equal coordinates are two fills |
| Differential.ResponseFillsLength | TopAnalysis/test/TopUEAnalysis/UEAnalysisHandler.py:158-186 | the response matrix gets exactly as many fills as there are filled cells |
| Differential.ResponseFillsCount | TopAnalysis/test/TopUEAnalysis/UEAnalysisHandler.py:158-186 | each response record occurs exactly as often as there are filled cells that produce it |
| Differential.GenFillsLength | TopAnalysis/test/TopUEAnalysis/UEAnalysisHandler.py:158-186 | the generated loop makes its marginal fills plus its response fills, and nothing else |
| Differential.DiffFillsCount | TopAnalysis/test/TopUEAnalysis/UEAnalysisHandler.py:138-186 | a call makes one fill per region with reconstructed particles, one per region with generated particles and one per filled cell |
| Differential.CellCoordinates | TopAnalysis/test/TopUEAnalysis/UEAnalysisHandler.py:160-177 | in a response cell the side without particles has coordinate -1 |
| Differential.RecMarginalFillsToRec | TopAnalysis/test/TopUEAnalysis/UEAnalysisHandler.py:141-150 | every fill of the reconstructed pass goes to the reconstructed marginal |
| Differential.RecMarginalFillsToOther | TopAnalysis/test/TopUEAnalysis/UEAnalysisHandler.py:141-150 | no other histogram gets a fill of the reconstructed pass |
| Differential.RowFillsToResponse | TopAnalysis/test/TopUEAnalysis/UEAnalysisHandler.py:171-182 | every fill of a row goes to the response histogram |
| Differential.RowFillsToOther | TopAnalysis/test/TopUEAnalysis/UEAnalysisHandler.py:171-182 | no other histogram gets a fill of a row |
| Differential.GenRegionFillsToGen | TopAnalysis/test/TopUEAnalysis/UEAnalysisHandler.py:160-168 | of one pass of the generated loop, the generated marginal gets exactly the region's marginal fill |
| Differential.GenRegionFillsToResponse | TopAnalysis/test/TopUEAnalysis/UEAnalysisHandler.py:170-184 | of one pass of the generated loop, the response histogram gets exactly the row |
| Differential.GenRegionFillsToOther | TopAnalysis/test/TopUEAnalysis/UEAnalysisHandler.py:158-186 | one pass of the generated loop fills no third histogram |
| Differential.GenFillsToGen | TopAnalysis/test/TopUEAnalysis/UEAnalysisHandler.py:158-168 | the generated marginal gets its fills of the generated loop in region order |
| Differential.GenFillsToResponse | TopAnalysis/test/TopUEAnalysis/UEAnalysisHandler.py:158-186 | the response histogram gets the rows of the generated loop in order |
| Differential.GenFillsToOther | TopAnalysis/test/TopUEAnalysis/UEAnalysisHandler.py:158-186 | the generated loop fills no histogram besides these two |
| Differential.DiffFillsByHistogram | TopAnalysis/test/TopUEAnalysis/UEAnalysisHandler.py:116-186 | a whole call, histogram by histogram: the reconstructed marginal, the generated marginal and the response matrix each get their own fills, and no other histogram is touched |
| Differential.SkipOffsetBelowOffset | TopAnalysis/test/TopUEAnalysis/UEAnalysisHandler.py:138-151 | the offset the reconstructed-marginal pass has reached never exceeds the plain prefix sum, and equals it exactly when no earlier region with bins was skipped |
| Differential.RecMarginalMatchesResponse | TopAnalysis/test/TopUEAnalysis/UEAnalysisHandler.py:141-184 | for a region counted in both, the marginal's reconstructed bin is at most the response cell's, and equal exactly when the selection fails or no earlier region with bins was skipped |
| Differential.GenBinLocatesRegion | TopAnalysis/test/TopUEAnalysis/UEAnalysisHandler.py:160-164 | -1 without generated particles in the region or with a failed generated selection; otherwise an in-range bin lies in the region's block `[offset(g), offset(g+1))` inside the block of its slice, and unflattens, with the slice shift taken off, to its region and its own bin |
| Differential.CellRecBinLocatesRegion | TopAnalysis/test/TopUEAnalysis/UEAnalysisHandler.py:173-177 | the same for the reconstructed coordinate of a response cell, which is -1 without reconstructed particles in the cell or with a failed selection |
| UEAnalysis.UEAnalysisHandler.constructor | TopAnalysis/test/TopUEAnalysis/UEAnalysisHandler.py:62-66 | the handler starts with the given registries, no slicing registry and no fills |
| UEAnalysis.UEAnalysisHandler.FillInclusive | TopAnalysis/test/TopUEAnalysis/UEAnalysisHandler.py:71-111 | appends exactly `IncFills` of its arguments to the log, and every fill goes to a registered histogram |
| UEAnalysis.UEAnalysisHandler.IncFillSequence | TopAnalysis/test/TopUEAnalysis/UEAnalysisHandler.py:93-111 | once both bins are known, appends the five conditional fills in call order |
| UEAnalysis.UEAnalysisHandler.FillDifferential | TopAnalysis/test/TopUEAnalysis/UEAnalysisHandler.py:116-186 | appends exactly `DiffFills` of its arguments to the log, and every fill goes to a registered histogram |
| UEAnalysis.UEAnalysisHandler.TotalBins | TopAnalysis/test/TopUEAnalysis/UEAnalysisHandler.py:140 | the loop sums the bin counts of the three region axes |
| UEAnalysis.UEAnalysisHandler.FillRecMarginal | TopAnalysis/test/TopUEAnalysis/UEAnalysisHandler.py:138-151 | the reconstructed loop appends exactly the reconstructed-marginal fills, with its offset equal to the skip offset at every region |
| UEAnalysis.UEAnalysisHandler.FillGenerated | TopAnalysis/test/TopUEAnalysis/UEAnalysisHandler.py:155-186 | the generated loop appends exactly the generated-pass fills, with its offset equal to the prefix sum at every region |
| UEAnalysis.UEAnalysisHandler.FillGenRegion | TopAnalysis/test/TopUEAnalysis/UEAnalysisHandler.py:160-184 | one pass of the generated loop appends the region's marginal fill and then its row |
| UEAnalysis.UEAnalysisHandler.FillResponseRow | TopAnalysis/test/TopUEAnalysis/UEAnalysisHandler.py:170-184 | the inner loop appends exactly the filled cells of the row, with its offset equal to the prefix sum at every region |
| UEAnalysis.RegionFlatBin | TopAnalysis/test/TopUEAnalysis/UEAnalysisHandler.py:144-146 | offset plus zero-based bin plus slice shift times the total, or -1 when the selection fails |

## Left out

- ROOT's `TH1::Fill` and `TH2::Fill`, which map a coordinate to a bin and accumulate weights, are not modelled. The log records each call with its key, coordinates and weight.
- ROOT's `TAxis::FindBin` is modelled for an axis given by strictly increasing edges, with half-open bins and the upper edge in the overflow bin. Its floating-point edge arithmetic is not modelled.
- Loading the registries with `pickle` in the constructor is file I/O. The registries are constructor parameters.
- Access to the event through `getattr` with computed attribute names is reflection. The event is a datatype, and the per-observable attributes are maps keyed by the observable's name.
- Weights and observable values are `real`. Floating-point rounding is not modelled.
- The `SYSTS` table is static data that other code reads. These methods do not use it.
- A missing axis, histogram or event field outside the slice `try` raises an uncaught `KeyError`, `IndexError` or `AttributeError`. The model makes these preconditions (`IncReady`, `DiffReady`, `Registered`) instead of modelling the exception.
- A slice argument that does not unpack into a triple is modelled as no slice (`None`). The swallowed exception then leaves the slicing variable unbound, as in the code. A triple whose first element is not a string is not modelled.
- The regions are exactly three (the fixed `xrange(0,3)` loops). They are fixed by the constant `Regions`.
- `recValMtrx` is read and never used. The model reads it and does nothing with it.
- Variables.ObsVars: the lists filtered from the variable table are modelled as sets, because Python 2 dictionary iteration order is unspecified.
