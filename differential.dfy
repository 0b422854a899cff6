// Differential filling: an observable measured in three regions relative to
// a reference axis, each region with its own axis, laid end to end into one
// flat bin index; marginals at both levels and a 3 x 3 set of response cells.

module Differential {
  import opened Records
  import opened Binning
  import opened Slicing

  /** Regions per reference axis (toward, away, transverse). */
  const Regions: nat := 3

  ghost predicate HasRegionAxes(axes: map<AxisKey, Axis>, obs: string, a: nat, level: Level)
  {
    forall k :: 0 <= k < Regions ==> RegionAxis(obs, a, k, level) in axes
  }

  /** Every axis and event field a differential fill of obs against
      reference axis a looks up exists, with one slot per region. */
  ghost predicate DiffReady(axes: map<AxisKey, Axis>, obs: string, a: nat, ue: Event)
  {
    HasRegionAxes(axes, obs, a, Rec) && HasRegionAxes(axes, obs, a, Gen) &&
    a < |ue.recChmultIncWrtTo| && |ue.recChmultIncWrtTo[a]| == Regions &&
    a < |ue.recChmultWrtTo| && |ue.recChmultWrtTo[a]| == Regions &&
    (forall g :: 0 <= g < Regions ==> |ue.recChmultWrtTo[a][g]| == Regions) &&
    obs in ue.recIncWrtTo && a < |ue.recIncWrtTo[obs]| && |ue.recIncWrtTo[obs][a]| == Regions &&
    obs in ue.recWrtTo && a < |ue.recWrtTo[obs]| &&
    a < |ue.genChmultWrtTo| && |ue.genChmultWrtTo[a]| == Regions &&
    obs in ue.genWrtTo && a < |ue.genWrtTo[obs]| && |ue.genWrtTo[obs][a]| == Regions
  }

  /** What a differential call has computed before it fills: per region the
      bin count of its axis and the zero-based bin of its value, at both
      levels; the counts; the selections; the slice shifts; the three target
      histograms; the weight. */
  datatype DiffCtx = DiffCtx(
    recBins: seq<nat>, genBins: seq<nat>,
    recLocal: seq<int>, genLocal: seq<int>,
    recCts: seq<int>, recCtsMtrx: seq<seq<int>>, genCts: seq<int>,
    genPassSel: bool, passSel: bool, genShift: int, recShift: int,
    recKey: HistKey, genKey: HistKey, respKey: HistKey, w: real)
  {
    ghost predicate Valid()
    {
      |recBins| == Regions && |genBins| == Regions && |recLocal| == Regions && |genLocal| == Regions &&
      |recCts| == Regions && |genCts| == Regions && |recCtsMtrx| == Regions &&
      (forall g :: 0 <= g < Regions ==> |recCtsMtrx[g]| == Regions) &&
      recKey != genKey && recKey != respKey && genKey != respKey
    }
  }

  /** A context of the right shape. */
  type Ctx = c: DiffCtx | c.Valid()
    witness DiffCtx([0, 0, 0], [0, 0, 0], [0, 0, 0], [0, 0, 0], [0, 0, 0], [[0, 0, 0], [0, 0, 0], [0, 0, 0]],
                    [0, 0, 0], false, false, 0, 0, DiffMarginal("", 0, Rec, None), DiffMarginal("", 0, Gen, None),
                    DiffResponse("", 0, None), 0.0)

  /** The bin counts of the three region axes of one level. */
  function RegionBins(axes: map<AxisKey, Axis>, obs: string, a: nat, level: Level): (bins: seq<nat>)
    requires AxesValid(axes) && HasRegionAxes(axes, obs, a, level)
    ensures |bins| == Regions
    ensures forall k :: 0 <= k < Regions ==> bins[k] == axes[RegionAxis(obs, a, k, level)].NBins()
  {
    [axes[RegionAxis(obs, a, 0, level)].NBins(), axes[RegionAxis(obs, a, 1, level)].NBins(),
     axes[RegionAxis(obs, a, 2, level)].NBins()]
  }

  /** The zero-based bin of each region's value on that region's axis. */
  function RegionLocal(axes: map<AxisKey, Axis>, obs: string, a: nat, level: Level, vals: seq<real>): (local: seq<int>)
    requires AxesValid(axes) && HasRegionAxes(axes, obs, a, level) && |vals| == Regions
    ensures |local| == Regions
    ensures forall k :: 0 <= k < Regions ==>
              local[k] == GetBinForVariable(vals[k], axes[RegionAxis(obs, a, k, level)]) - 1
  {
    [GetBinForVariable(vals[0], axes[RegionAxis(obs, a, 0, level)]) - 1,
     GetBinForVariable(vals[1], axes[RegionAxis(obs, a, 1, level)]) - 1,
     GetBinForVariable(vals[2], axes[RegionAxis(obs, a, 2, level)]) - 1]
  }

  /** The slicing variable qualifies the keys only when it is truthy. */
  function DiffSliceKey(sliceVar: Option<string>): Option<string>
  {
    if Truthy(sliceVar) then sliceVar else None
  }

  function DiffContext(axes: map<AxisKey, Axis>, sliceAxes: Option<map<AxisKey, Axis>>, obs: string, a: nat,
                       ue: Event, weight: real, genPassSel: bool, passSel: bool, slice: Option<SliceSpec>): Ctx
    requires AxesValid(axes) && (sliceAxes.Some? ==> AxesValid(sliceAxes.value)) && DiffReady(axes, obs, a, ue)
  {
    var st := SliceShifts(sliceAxes, slice);
    var sv := DiffSliceKey(st.sliceVar);
    DiffCtx(RegionBins(axes, obs, a, Rec), RegionBins(axes, obs, a, Gen),
            RegionLocal(axes, obs, a, Rec, ue.recIncWrtTo[obs][a]), RegionLocal(axes, obs, a, Gen, ue.genWrtTo[obs][a]),
            ue.recChmultIncWrtTo[a], ue.recChmultWrtTo[a], ue.genChmultWrtTo[a],
            genPassSel, passSel, st.genShift, st.recShift,
            DiffMarginal(obs, a, Rec, sv), DiffMarginal(obs, a, Gen, sv), DiffResponse(obs, a, sv), weight)
  }

  // ---------------------------------------------------------------------
  // Reconstructed marginal

  /** The offset the reconstructed-marginal pass has reached at region k:
      the bin counts of the earlier regions that were not skipped. */
  function SkipOffset(bins: seq<nat>, cts: seq<int>, k: nat): nat
    requires k <= |bins| && k <= |cts|
  {
    if k == 0 then 0 else SkipOffset(bins, cts, k - 1) + (if cts[k - 1] != 0 then bins[k - 1] else 0)
  }

  /** A flat bin: zero-based bin local of a region whose axis starts at
      offset, moved into slice shift of a block of total bins, or -1 when
      the selection fails. */
  function FlatBin(pass: bool, offset: int, local: int, shift: int, total: int): int
  {
    if pass then offset + local + shift * total else -1
  }

  function RecMarginalBin(c: Ctx, k: nat): int
    requires k < Regions
  {
    FlatBin(c.passSel, SkipOffset(c.recBins, c.recCts, k), c.recLocal[k], c.recShift, Total(c.recBins))
  }

  /** The reconstructed-marginal fill of region k, made when it has
      reconstructed particles. */
  function RecMarginal(c: Ctx, k: nat): seq<Fill>
    requires k < Regions
  {
    When(c.recCts[k] != 0, Fill1(c.recKey, RecMarginalBin(c, k), c.w))
  }

  /** Reconstructed-marginal fills of regions 0 .. k-1: one per region with a
      non-zero reconstructed count. */
  function RecMarginalFills(c: Ctx, k: nat): seq<Fill>
    requires k <= Regions
  {
    if k == 0 then []
    else RecMarginalFills(c, k - 1) + RecMarginal(c, k - 1)
  }

  // ---------------------------------------------------------------------
  // Generated marginal and response cells

  /** Generated flat bin of region g: -1 without generated particles there or
      when the generated selection fails. */
  function GenBin(c: Ctx, g: nat): int
    requires g < Regions
  {
    if c.genCts[g] > 0 then FlatBin(c.genPassSel, Offset(c.genBins, g), c.genLocal[g], c.genShift, Total(c.genBins))
    else -1
  }

  /** Reconstructed flat bin of response cell (g, r): -1 without
      reconstructed particles in that cell or when the selection fails. */
  function CellRecBin(c: Ctx, g: nat, r: nat): int
    requires g < Regions && r < Regions
  {
    if c.recCtsMtrx[g][r] > 0 then FlatBin(c.passSel, Offset(c.recBins, r), c.recLocal[r], c.recShift, Total(c.recBins))
    else -1
  }

  predicate CellFilled(c: Ctx, g: nat, r: nat)
    requires g < Regions && r < Regions
  {
    c.genCts[g] > 0 || c.recCtsMtrx[g][r] > 0
  }

  function Cell(c: Ctx, g: nat, r: nat): Fill
    requires g < Regions && r < Regions
  {
    Fill2(c.respKey, GenBin(c, g), CellRecBin(c, g, r), c.w)
  }

  /** The generated-marginal fill of region g, made when it has generated
      particles. */
  function GenMarginal(c: Ctx, g: nat): seq<Fill>
    requires g < Regions
  {
    When(c.genCts[g] > 0, Fill1(c.genKey, GenBin(c, g), c.w))
  }

  /** Response fills of cells (g, 0) .. (g, r-1). */
  function RowFills(c: Ctx, g: nat, r: nat): seq<Fill>
    requires g < Regions && r <= Regions
  {
    if r == 0 then [] else RowFills(c, g, r - 1) + When(CellFilled(c, g, r - 1), Cell(c, g, r - 1))
  }

  /** Fills of one pass of the generated loop: the generated marginal of
      region g, then its row of response cells. */
  function GenRegionFills(c: Ctx, g: nat): seq<Fill>
    requires g < Regions
  {
    GenMarginal(c, g) + RowFills(c, g, Regions)
  }

  /** Fills of the generated pass for regions 0 .. g-1. */
  function GenFills(c: Ctx, g: nat): seq<Fill>
    requires g <= Regions
  {
    if g == 0 then [] else GenFills(c, g - 1) + GenRegionFills(c, g - 1)
  }

  /** The generated-marginal fills among GenFills(c, g), in order. */
  function GenMarginalFills(c: Ctx, g: nat): seq<Fill>
    requires g <= Regions
  {
    if g == 0 then []
    else GenMarginalFills(c, g - 1) + GenMarginal(c, g - 1)
  }

  /** The response fills among GenFills(c, g), row after row. */
  function ResponseFills(c: Ctx, g: nat): seq<Fill>
    requires g <= Regions
  {
    if g == 0 then [] else ResponseFills(c, g - 1) + RowFills(c, g - 1, Regions)
  }

  function DiffFillsOf(c: Ctx): seq<Fill>
  {
    RecMarginalFills(c, Regions) + GenFills(c, Regions)
  }

  /** The fills one differential call performs, in the order it performs
      them: nothing without either selection, otherwise at most three
      marginal fills per level and nine response cells. */
  function DiffFills(axes: map<AxisKey, Axis>, sliceAxes: Option<map<AxisKey, Axis>>, obs: string, a: nat,
                     ue: Event, weight: real, genPassSel: bool, passSel: bool, slice: Option<SliceSpec>): (r: seq<Fill>)
    requires AxesValid(axes) && (sliceAxes.Some? ==> AxesValid(sliceAxes.value))
    requires (!passSel && !genPassSel) || DiffReady(axes, obs, a, ue)
    ensures !passSel && !genPassSel ==> r == []
    ensures |r| <= 2 * Regions + Regions * Regions
  {
    if !passSel && !genPassSel then []
    else
      var c := DiffContext(axes, sliceAxes, obs, a, ue, weight, genPassSel, passSel, slice);
      DiffFillsOfBound(c);
      DiffFillsOf(c)
  }

  // ---------------------------------------------------------------------
  // The context against the registry and the event

  /** The region axes of one level exist, and their bin counts and the
      zero-based bins of vals on them are bins and local. */
  ghost predicate LevelLinked(axes: map<AxisKey, Axis>, obs: string, a: nat, level: Level, vals: seq<real>,
                              bins: seq<nat>, local: seq<int>)
  {
    AxesValid(axes) && HasRegionAxes(axes, obs, a, level) &&
    |vals| == Regions && |bins| == Regions && |local| == Regions &&
    forall k :: 0 <= k < Regions ==>
      axes[RegionAxis(obs, a, k, level)].NBins() == bins[k] &&
      GetBinForVariable(vals[k], axes[RegionAxis(obs, a, k, level)]) - 1 == local[k]
  }

  /** What the context of a differential call holds, field by field, in
      terms of the call's arguments. */
  lemma ContextLinked(axes: map<AxisKey, Axis>, sliceAxes: Option<map<AxisKey, Axis>>, obs: string, a: nat,
                      ue: Event, weight: real, genPassSel: bool, passSel: bool, slice: Option<SliceSpec>)
    requires AxesValid(axes) && (sliceAxes.Some? ==> AxesValid(sliceAxes.value)) && DiffReady(axes, obs, a, ue)
    ensures var c := DiffContext(axes, sliceAxes, obs, a, ue, weight, genPassSel, passSel, slice);
            var st := SliceShifts(sliceAxes, slice);
            var sv := st.sliceVar;
            && LevelLinked(axes, obs, a, Rec, ue.recIncWrtTo[obs][a], c.recBins, c.recLocal)
            && LevelLinked(axes, obs, a, Gen, ue.genWrtTo[obs][a], c.genBins, c.genLocal)
            && c.recBins == RegionBins(axes, obs, a, Rec) && c.genBins == RegionBins(axes, obs, a, Gen)
            && c.recCts == ue.recChmultIncWrtTo[a] && c.recCtsMtrx == ue.recChmultWrtTo[a]
            && c.genCts == ue.genChmultWrtTo[a]
            && c.genPassSel == genPassSel && c.passSel == passSel
            && c.genShift == st.genShift && c.recShift == st.recShift && c.w == weight
            && c.recKey == (if Truthy(sv) then DiffMarginal(obs, a, Rec, sv) else DiffMarginal(obs, a, Rec, None))
            && c.genKey == (if Truthy(sv) then DiffMarginal(obs, a, Gen, sv) else DiffMarginal(obs, a, Gen, None))
            && c.respKey == (if Truthy(sv) then DiffResponse(obs, a, sv) else DiffResponse(obs, a, None))
  {
  }

  // ---------------------------------------------------------------------
  // Properties

  /** The differential fill looks its slicing axes up in a registry that is
      never assigned, so both shifts stay 0; its histogram keys carry the
      slicing variable exactly when a slice with a non-empty name is given. */
  lemma DiffSliceUnshifted(axes: map<AxisKey, Axis>, obs: string, a: nat, ue: Event, weight: real,
                           genPassSel: bool, passSel: bool, slice: Option<SliceSpec>)
    requires AxesValid(axes) && DiffReady(axes, obs, a, ue)
    ensures var c := DiffContext(axes, None, obs, a, ue, weight, genPassSel, passSel, slice);
            var sv := if slice.Some? && slice.value.name != "" then Some(slice.value.name) else None;
            && c.genShift == 0 && c.recShift == 0
            && c.recKey == DiffMarginal(obs, a, Rec, sv) && c.genKey == DiffMarginal(obs, a, Gen, sv)
            && c.respKey == DiffResponse(obs, a, sv)
  {
  }

  /** The reconstructed marginal receives one fill per region with a
      non-zero reconstructed count, at that region's bin, and nothing else. */
  lemma {:induction false} RecMarginalFillsMembers(c: Ctx, k: nat)
    requires k <= Regions
    ensures |RecMarginalFills(c, k)| <= k
    ensures forall f :: f in RecMarginalFills(c, k) <==>
              exists i :: 0 <= i < k && c.recCts[i] != 0 && f == Fill1(c.recKey, RecMarginalBin(c, i), c.w)
  {
    if k > 0 {
      RecMarginalFillsMembers(c, k - 1);
    }
  }

  /** The generated marginal receives one fill per region with generated
      particles, at that region's bin, and nothing else. */
  lemma {:induction false} GenMarginalFillsMembers(c: Ctx, g: nat)
    requires g <= Regions
    ensures |GenMarginalFills(c, g)| <= g
    ensures forall f :: f in GenMarginalFills(c, g) <==>
              exists i :: 0 <= i < g && c.genCts[i] > 0 && f == Fill1(c.genKey, GenBin(c, i), c.w)
  {
    if g > 0 {
      GenMarginalFillsMembers(c, g - 1);
    }
  }

  /** Row g of the response matrix receives exactly the cells (g, r) with
      generated particles in region g or reconstructed particles in the cell. */
  lemma {:induction false} RowFillsMembers(c: Ctx, g: nat, r: nat)
    requires g < Regions && r <= Regions
    ensures |RowFills(c, g, r)| <= r
    ensures forall f :: f in RowFills(c, g, r) <==>
              exists j :: 0 <= j < r && CellFilled(c, g, j) && f == Cell(c, g, j)
  {
    if r > 0 {
      RowFillsMembers(c, g, r - 1);
    }
  }

  /** The whole response matrix: every filled cell, at most nine of them. */
  lemma {:induction false} ResponseFillsMembers(c: Ctx, g: nat)
    requires g <= Regions
    ensures |ResponseFills(c, g)| <= Regions * g
    ensures forall f :: f in ResponseFills(c, g) <==>
              exists i, j :: 0 <= i < g && 0 <= j < Regions && CellFilled(c, i, j) && f == Cell(c, i, j)
  {
    if g > 0 {
      ResponseFillsMembers(c, g - 1);
      RowFillsMembers(c, g - 1, Regions);
    }
  }

  // ---------------------------------------------------------------------
  // How often each fill record occurs

  /** The regions below k with reconstructed particles. */
  ghost function RecRegions(c: Ctx, k: nat): set<nat>
    requires k <= Regions
  {
    set i: nat | i < k && c.recCts[i] != 0
  }

  /** Region i has reconstructed particles and its reconstructed-marginal fill is f. */
  predicate RecProduces(c: Ctx, i: nat, f: Fill)
    requires i < Regions
  {
    c.recCts[i] != 0 && Fill1(c.recKey, RecMarginalBin(c, i), c.w) == f
  }

  /** The regions below k whose reconstructed-marginal fill is f. */
  ghost function RecRegionsFilling(c: Ctx, k: nat, f: Fill): set<nat>
    requires k <= Regions
  {
    set i: nat | i < k && RecProduces(c, i, f)
  }

  lemma RecRegionsStep(c: Ctx, k: nat)
    requires 0 < k <= Regions
    ensures |RecRegions(c, k)| == |RecRegions(c, k - 1)| + (if c.recCts[k - 1] != 0 then 1 else 0)
  {
    var prev := RecRegions(c, k - 1);
    assert k - 1 !in prev;
    assert RecRegions(c, k) == prev + (if c.recCts[k - 1] != 0 then {k - 1} else {});
  }

  lemma RecRegionsFillingStep(c: Ctx, k: nat, f: Fill)
    requires 0 < k <= Regions
    ensures |RecRegionsFilling(c, k, f)| == |RecRegionsFilling(c, k - 1, f)| + (if RecProduces(c, k - 1, f) then 1 else 0)
  {
    var prev := RecRegionsFilling(c, k - 1, f);
    assert k - 1 !in prev;
    assert RecRegionsFilling(c, k, f) == prev + (if RecProduces(c, k - 1, f) then {k - 1} else {});
  }

  lemma RecMarginalFillsStep(c: Ctx, k: nat, f: Fill)
    requires 0 < k <= Regions
    ensures |RecMarginalFills(c, k)| == |RecMarginalFills(c, k - 1)| + (if c.recCts[k - 1] != 0 then 1 else 0)
    ensures multiset(RecMarginalFills(c, k))[f] == multiset(RecMarginalFills(c, k - 1))[f] + (if RecProduces(c, k - 1, f) then 1 else 0)
  {
    assert RecMarginalFills(c, k) == RecMarginalFills(c, k - 1) + RecMarginal(c, k - 1);
    CountAppendWhen(RecMarginalFills(c, k - 1), c.recCts[k - 1] != 0, Fill1(c.recKey, RecMarginalBin(c, k - 1), c.w), f);
  }

  /** A reconstructed-marginal fill record occurs as often as there are
      regions with reconstructed particles that produce it. */
  lemma {:induction false} RecMarginalFillsCount(c: Ctx, k: nat, f: Fill)
    requires k <= Regions
    ensures multiset(RecMarginalFills(c, k))[f] == |RecRegionsFilling(c, k, f)|
  {
    if k > 0 {
      RecMarginalFillsCount(c, k - 1, f);
      RecRegionsFillingStep(c, k, f);
      RecMarginalFillsStep(c, k, f);
    }
  }

  /** The reconstructed marginal is filled once per region with
      reconstructed particles. */
  lemma {:induction false} RecMarginalFillsLength(c: Ctx, k: nat)
    requires k <= Regions
    ensures |RecMarginalFills(c, k)| == |RecRegions(c, k)|
  {
    if k > 0 {
      RecMarginalFillsLength(c, k - 1);
      RecRegionsStep(c, k);
      RecMarginalFillsStep(c, k, Fill1(c.recKey, 0, c.w));
    }
  }

  /** The regions below g with generated particles. */
  ghost function GenRegions(c: Ctx, g: nat): set<nat>
    requires g <= Regions
  {
    set i: nat | i < g && c.genCts[i] > 0
  }

  /** Region i has generated particles and its generated-marginal fill is f. */
  predicate GenProduces(c: Ctx, i: nat, f: Fill)
    requires i < Regions
  {
    c.genCts[i] > 0 && Fill1(c.genKey, GenBin(c, i), c.w) == f
  }

  /** The regions below g whose generated-marginal fill is f. */
  ghost function GenRegionsFilling(c: Ctx, g: nat, f: Fill): set<nat>
    requires g <= Regions
  {
    set i: nat | i < g && GenProduces(c, i, f)
  }

  lemma GenRegionsStep(c: Ctx, g: nat)
    requires 0 < g <= Regions
    ensures |GenRegions(c, g)| == |GenRegions(c, g - 1)| + (if c.genCts[g - 1] > 0 then 1 else 0)
  {
    var prev := GenRegions(c, g - 1);
    assert g - 1 !in prev;
    assert GenRegions(c, g) == prev + (if c.genCts[g - 1] > 0 then {g - 1} else {});
  }

  lemma GenRegionsFillingStep(c: Ctx, g: nat, f: Fill)
    requires 0 < g <= Regions
    ensures |GenRegionsFilling(c, g, f)| == |GenRegionsFilling(c, g - 1, f)| + (if GenProduces(c, g - 1, f) then 1 else 0)
  {
    var prev := GenRegionsFilling(c, g - 1, f);
    assert g - 1 !in prev;
    assert GenRegionsFilling(c, g, f) == prev + (if GenProduces(c, g - 1, f) then {g - 1} else {});
  }

  lemma GenMarginalFillsStep(c: Ctx, g: nat, f: Fill)
    requires 0 < g <= Regions
    ensures |GenMarginalFills(c, g)| == |GenMarginalFills(c, g - 1)| + (if c.genCts[g - 1] > 0 then 1 else 0)
    ensures multiset(GenMarginalFills(c, g))[f] == multiset(GenMarginalFills(c, g - 1))[f] + (if GenProduces(c, g - 1, f) then 1 else 0)
  {
    assert GenMarginalFills(c, g) == GenMarginalFills(c, g - 1) + GenMarginal(c, g - 1);
    CountAppendWhen(GenMarginalFills(c, g - 1), c.genCts[g - 1] > 0, Fill1(c.genKey, GenBin(c, g - 1), c.w), f);
  }

  /** A generated-marginal fill record occurs as often as there are regions
      with generated particles that produce it. */
  lemma {:induction false} GenMarginalFillsCount(c: Ctx, g: nat, f: Fill)
    requires g <= Regions
    ensures multiset(GenMarginalFills(c, g))[f] == |GenRegionsFilling(c, g, f)|
  {
    if g > 0 {
      GenMarginalFillsCount(c, g - 1, f);
      GenRegionsFillingStep(c, g, f);
      GenMarginalFillsStep(c, g, f);
    }
  }

  /** The generated marginal is filled once per region with generated
      particles. */
  lemma {:induction false} GenMarginalFillsLength(c: Ctx, g: nat)
    requires g <= Regions
    ensures |GenMarginalFills(c, g)| == |GenRegions(c, g)|
  {
    if g > 0 {
      GenMarginalFillsLength(c, g - 1);
      GenRegionsStep(c, g);
      GenMarginalFillsStep(c, g, Fill1(c.genKey, 0, c.w));
    }
  }

  /** The nine cells (g, r) of the response matrix. */
  const Grid: set<(nat, nat)> := {(0, 0), (0, 1), (0, 2), (1, 0), (1, 1), (1, 2), (2, 0), (2, 1), (2, 2)}

  /** The filled cells (g, j) of row g with j below r. */
  ghost function RowCells(c: Ctx, g: nat, r: nat): set<(nat, nat)>
    requires g < Regions && r <= Regions
  {
    set p | p in Grid && p.0 == g && p.1 < r && CellFilled(c, g, p.1)
  }

  /** Cell (g, j) is filled and its fill is f. */
  predicate CellProduces(c: Ctx, g: nat, j: nat, f: Fill)
    requires g < Regions && j < Regions
  {
    CellFilled(c, g, j) && Cell(c, g, j) == f
  }

  /** The filled cells (g, j) of row g with j below r whose fill is f. */
  ghost function RowCellsFilling(c: Ctx, g: nat, r: nat, f: Fill): set<(nat, nat)>
    requires g < Regions && r <= Regions
  {
    set p | p in Grid && p.0 == g && p.1 < r && CellProduces(c, g, p.1, f)
  }

  lemma RowCellsStep(c: Ctx, g: nat, r: nat)
    requires g < Regions && 0 < r <= Regions
    ensures |RowCells(c, g, r)| == |RowCells(c, g, r - 1)| + (if CellFilled(c, g, r - 1) then 1 else 0)
  {
    var prev := RowCells(c, g, r - 1);
    assert (g, r - 1) !in prev;
    assert RowCells(c, g, r) == prev + (if CellFilled(c, g, r - 1) then {(g, r - 1)} else {});
  }

  lemma RowCellsFillingStep(c: Ctx, g: nat, r: nat, f: Fill)
    requires g < Regions && 0 < r <= Regions
    ensures |RowCellsFilling(c, g, r, f)| == |RowCellsFilling(c, g, r - 1, f)| + (if CellProduces(c, g, r - 1, f) then 1 else 0)
  {
    var prev := RowCellsFilling(c, g, r - 1, f);
    assert (g, r - 1) !in prev;
    assert RowCellsFilling(c, g, r, f) == prev + (if CellProduces(c, g, r - 1, f) then {(g, r - 1)} else {});
  }

  lemma RowFillsStep(c: Ctx, g: nat, r: nat, f: Fill)
    requires g < Regions && 0 < r <= Regions
    ensures |RowFills(c, g, r)| == |RowFills(c, g, r - 1)| + (if CellFilled(c, g, r - 1) then 1 else 0)
    ensures multiset(RowFills(c, g, r))[f] == multiset(RowFills(c, g, r - 1))[f] + (if CellProduces(c, g, r - 1, f) then 1 else 0)
  {
    assert RowFills(c, g, r) == RowFills(c, g, r - 1) + When(CellFilled(c, g, r - 1), Cell(c, g, r - 1));
    CountAppendWhen(RowFills(c, g, r - 1), CellFilled(c, g, r - 1), Cell(c, g, r - 1), f);
  }

  /** A fill record of row g occurs as often as there are filled cells of
      the row that produce it. */
  lemma {:induction false} RowFillsCount(c: Ctx, g: nat, r: nat, f: Fill)
    requires g < Regions && r <= Regions
    ensures multiset(RowFills(c, g, r))[f] == |RowCellsFilling(c, g, r, f)|
  {
    if r > 0 {
      RowFillsCount(c, g, r - 1, f);
      RowCellsFillingStep(c, g, r, f);
      RowFillsStep(c, g, r, f);
    }
  }

  /** Row g of the response matrix is filled once per filled cell. */
  lemma {:induction false} RowFillsLength(c: Ctx, g: nat, r: nat)
    requires g < Regions && r <= Regions
    ensures |RowFills(c, g, r)| == |RowCells(c, g, r)|
  {
    if r > 0 {
      RowFillsLength(c, g, r - 1);
      RowCellsStep(c, g, r);
      RowFillsStep(c, g, r, Cell(c, g, r - 1));
    }
  }

  /** The filled cells (i, j) with i below g. */
  ghost function ResponseCells(c: Ctx, g: nat): set<(nat, nat)>
    requires g <= Regions
  {
    set p | p in Grid && p.0 < g && CellFilled(c, p.0, p.1)
  }

  /** The filled cells (i, j) with i below g whose fill is f. */
  ghost function ResponseCellsFilling(c: Ctx, g: nat, f: Fill): set<(nat, nat)>
    requires g <= Regions
  {
    set p | p in Grid && p.0 < g && CellProduces(c, p.0, p.1, f)
  }

  lemma ResponseCellsStep(c: Ctx, g: nat)
    requires 0 < g <= Regions
    ensures |ResponseCells(c, g)| == |ResponseCells(c, g - 1)| + |RowCells(c, g - 1, Regions)|
  {
    assert ResponseCells(c, g) == ResponseCells(c, g - 1) + RowCells(c, g - 1, Regions);
    assert ResponseCells(c, g - 1) * RowCells(c, g - 1, Regions) == {};
  }

  lemma ResponseCellsFillingStep(c: Ctx, g: nat, f: Fill)
    requires 0 < g <= Regions
    ensures |ResponseCellsFilling(c, g, f)| == |ResponseCellsFilling(c, g - 1, f)| + |RowCellsFilling(c, g - 1, Regions, f)|
  {
    assert ResponseCellsFilling(c, g, f) == ResponseCellsFilling(c, g - 1, f) + RowCellsFilling(c, g - 1, Regions, f);
    assert ResponseCellsFilling(c, g - 1, f) * RowCellsFilling(c, g - 1, Regions, f) == {};
  }

  lemma ResponseFillsStep(c: Ctx, g: nat, f: Fill)
    requires 0 < g <= Regions
    ensures |ResponseFills(c, g)| == |ResponseFills(c, g - 1)| + |RowFills(c, g - 1, Regions)|
    ensures multiset(ResponseFills(c, g))[f] == multiset(ResponseFills(c, g - 1))[f] + multiset(RowFills(c, g - 1, Regions))[f]
  {
    assert ResponseFills(c, g) == ResponseFills(c, g - 1) + RowFills(c, g - 1, Regions);
  }

  /** A response fill record occurs as often as there are filled cells that
      produce it: two filled cells with equal coordinates are two fills. */
  lemma {:induction false} ResponseFillsCount(c: Ctx, g: nat, f: Fill)
    requires g <= Regions
    ensures multiset(ResponseFills(c, g))[f] == |ResponseCellsFilling(c, g, f)|
  {
    if g > 0 {
      ResponseFillsCount(c, g - 1, f);
      RowFillsCount(c, g - 1, Regions, f);
      ResponseCellsFillingStep(c, g, f);
      ResponseFillsStep(c, g, f);
    }
  }

  /** The response matrix is filled once per filled cell. */
  lemma {:induction false} ResponseFillsLength(c: Ctx, g: nat)
    requires g <= Regions
    ensures |ResponseFills(c, g)| == |ResponseCells(c, g)|
  {
    if g > 0 {
      ResponseFillsLength(c, g - 1);
      RowFillsLength(c, g - 1, Regions);
      ResponseCellsStep(c, g);
      ResponseFillsStep(c, g, Fill1(c.respKey, 0, c.w));
    }
  }

  /** The generated pass is its marginal fills and its response cells. */
  lemma {:induction false} GenFillsLength(c: Ctx, g: nat)
    requires g <= Regions
    ensures |GenFills(c, g)| == |GenMarginalFills(c, g)| + |ResponseFills(c, g)|
  {
    if g > 0 {
      GenFillsLength(c, g - 1);
    }
  }

  /** A call fills once per region with reconstructed particles, once per
      region with generated particles and once per filled response cell. */
  lemma DiffFillsCount(c: Ctx)
    ensures |DiffFillsOf(c)| == |RecRegions(c, Regions)| + |GenRegions(c, Regions)| + |ResponseCells(c, Regions)|
  {
    RecMarginalFillsLength(c, Regions);
    GenMarginalFillsLength(c, Regions);
    ResponseFillsLength(c, Regions);
    GenFillsLength(c, Regions);
  }

  lemma DiffFillsOfBound(c: Ctx)
    ensures |DiffFillsOf(c)| <= 2 * Regions + Regions * Regions
  {
    RecMarginalFillsMembers(c, Regions);
    GenMarginalFillsMembers(c, Regions);
    ResponseFillsMembers(c, Regions);
    GenFillsLength(c, Regions);
  }

  /** A filled cell without generated particles (a fake) has generated
      coordinate -1; one without reconstructed particles (a miss) has
      reconstructed coordinate -1. */
  lemma CellCoordinates(c: Ctx, g: nat, r: nat)
    requires g < Regions && r < Regions && CellFilled(c, g, r)
    ensures c.genCts[g] <= 0 ==> Cell(c, g, r).x == -1 && c.recCtsMtrx[g][r] > 0
    ensures c.recCtsMtrx[g][r] <= 0 ==> Cell(c, g, r).y == -1 && c.genCts[g] > 0
  {
  }

  /** The induction step of RecMarginalFillsToRec. */
  lemma RecMarginalFillsToRecStep(c: Ctx, k: nat)
    requires 0 < k <= Regions
    requires FillsTo(RecMarginalFills(c, k - 1), c.recKey) == RecMarginalFills(c, k - 1)
    ensures FillsTo(RecMarginalFills(c, k), c.recKey) == RecMarginalFills(c, k)
  {
    var prev := RecMarginalFills(c, k - 1);
    var f := Fill1(c.recKey, RecMarginalBin(c, k - 1), c.w);
    assert RecMarginalFills(c, k) == prev + When(c.recCts[k - 1] != 0, f);
    FillsToAppendWhen(prev, c.recCts[k - 1] != 0, f, c.recKey);
  }

  /** Every fill of the first pass goes to the reconstructed-marginal
      histogram. */
  lemma {:induction false} RecMarginalFillsToRec(c: Ctx, k: nat)
    requires k <= Regions
    ensures FillsTo(RecMarginalFills(c, k), c.recKey) == RecMarginalFills(c, k)
  {
    if k > 0 {
      RecMarginalFillsToRec(c, k - 1);
      RecMarginalFillsToRecStep(c, k);
    }
  }

  /** The induction step of RecMarginalFillsToOther. */
  lemma RecMarginalFillsToOtherStep(c: Ctx, k: nat, key: HistKey)
    requires 0 < k <= Regions && key != c.recKey
    requires FillsTo(RecMarginalFills(c, k - 1), key) == []
    ensures FillsTo(RecMarginalFills(c, k), key) == []
  {
    var prev := RecMarginalFills(c, k - 1);
    var f := Fill1(c.recKey, RecMarginalBin(c, k - 1), c.w);
    assert RecMarginalFills(c, k) == prev + When(c.recCts[k - 1] != 0, f);
    FillsToAppendWhen(prev, c.recCts[k - 1] != 0, f, key);
  }

  /** No other histogram receives a fill of the first pass. */
  lemma {:induction false} RecMarginalFillsToOther(c: Ctx, k: nat, key: HistKey)
    requires k <= Regions && key != c.recKey
    ensures FillsTo(RecMarginalFills(c, k), key) == []
  {
    if k > 0 {
      RecMarginalFillsToOther(c, k - 1, key);
      RecMarginalFillsToOtherStep(c, k, key);
    }
  }

  /** The induction step of RowFillsToResponse. */
  lemma RowFillsToResponseStep(c: Ctx, g: nat, r: nat)
    requires g < Regions && 0 < r <= Regions
    requires FillsTo(RowFills(c, g, r - 1), c.respKey) == RowFills(c, g, r - 1)
    ensures FillsTo(RowFills(c, g, r), c.respKey) == RowFills(c, g, r)
  {
    var prev, cell := RowFills(c, g, r - 1), Cell(c, g, r - 1);
    assert RowFills(c, g, r) == prev + When(CellFilled(c, g, r - 1), cell);
    FillsToAppendWhen(prev, CellFilled(c, g, r - 1), cell, c.respKey);
  }

  /** Every fill of a row goes to the response histogram. */
  lemma {:induction false} RowFillsToResponse(c: Ctx, g: nat, r: nat)
    requires g < Regions && r <= Regions
    ensures FillsTo(RowFills(c, g, r), c.respKey) == RowFills(c, g, r)
  {
    if r > 0 {
      RowFillsToResponse(c, g, r - 1);
      RowFillsToResponseStep(c, g, r);
    }
  }

  /** The induction step of RowFillsToOther. */
  lemma RowFillsToOtherStep(c: Ctx, g: nat, r: nat, key: HistKey)
    requires g < Regions && 0 < r <= Regions && key != c.respKey
    requires FillsTo(RowFills(c, g, r - 1), key) == []
    ensures FillsTo(RowFills(c, g, r), key) == []
  {
    var prev, cell := RowFills(c, g, r - 1), Cell(c, g, r - 1);
    assert RowFills(c, g, r) == prev + When(CellFilled(c, g, r - 1), cell);
    FillsToAppendWhen(prev, CellFilled(c, g, r - 1), cell, key);
  }

  /** No other histogram receives a fill of a row. */
  lemma {:induction false} RowFillsToOther(c: Ctx, g: nat, r: nat, key: HistKey)
    requires g < Regions && r <= Regions && key != c.respKey
    ensures FillsTo(RowFills(c, g, r), key) == []
  {
    if r > 0 {
      RowFillsToOther(c, g, r - 1, key);
      RowFillsToOtherStep(c, g, r, key);
    }
  }

  /** Of one pass of the generated loop, the generated-marginal histogram
      gets the marginal fill of the region, ... */
  lemma GenRegionFillsToGen(c: Ctx, g: nat)
    requires g < Regions
    ensures FillsTo(GenRegionFills(c, g), c.genKey) == GenMarginal(c, g)
  {
    var f := Fill1(c.genKey, GenBin(c, g), c.w);
    var m, row := When(c.genCts[g] > 0, f), RowFills(c, g, Regions);
    FillsToAppend(m, row, c.genKey);
    FillsToWhen(c.genCts[g] > 0, f, c.genKey);
    RowFillsToOther(c, g, Regions, c.genKey);
    assert FillsTo(GenRegionFills(c, g), c.genKey) == m + [];
  }

  /** ... the response histogram gets the row, ... */
  lemma GenRegionFillsToResponse(c: Ctx, g: nat)
    requires g < Regions
    ensures FillsTo(GenRegionFills(c, g), c.respKey) == RowFills(c, g, Regions)
  {
    var f := Fill1(c.genKey, GenBin(c, g), c.w);
    var m, row := When(c.genCts[g] > 0, f), RowFills(c, g, Regions);
    FillsToAppend(m, row, c.respKey);
    FillsToWhen(c.genCts[g] > 0, f, c.respKey);
    RowFillsToResponse(c, g, Regions);
    assert FillsTo(GenRegionFills(c, g), c.respKey) == [] + row;
  }

  /** ... and no other histogram gets anything. */
  lemma GenRegionFillsToOther(c: Ctx, g: nat, key: HistKey)
    requires g < Regions && key != c.genKey && key != c.respKey
    ensures FillsTo(GenRegionFills(c, g), key) == []
  {
    var f := Fill1(c.genKey, GenBin(c, g), c.w);
    var m, row := When(c.genCts[g] > 0, f), RowFills(c, g, Regions);
    FillsToAppend(m, row, key);
    FillsToWhen(c.genCts[g] > 0, f, key);
    RowFillsToOther(c, g, Regions, key);
    assert FillsTo(GenRegionFills(c, g), key) == [] + [];
  }

  /** Filtering the generated pass one region further. */
  lemma GenFillsStep(c: Ctx, g: nat, key: HistKey)
    requires 0 < g <= Regions
    ensures FillsTo(GenFills(c, g), key) == FillsTo(GenFills(c, g - 1), key) + FillsTo(GenRegionFills(c, g - 1), key)
  {
    var prev, block := GenFills(c, g - 1), GenRegionFills(c, g - 1);
    assert GenFills(c, g) == prev + block;
    FillsToAppend(prev, block, key);
  }

  /** The induction step of GenFillsToGen. */
  lemma GenFillsToGenStep(c: Ctx, g: nat)
    requires 0 < g <= Regions
    requires FillsTo(GenFills(c, g - 1), c.genKey) == GenMarginalFills(c, g - 1)
    ensures FillsTo(GenFills(c, g), c.genKey) == GenMarginalFills(c, g)
  {
    var prev, m := GenMarginalFills(c, g - 1), GenMarginal(c, g - 1);
    assert GenMarginalFills(c, g) == prev + m;
    GenFillsStep(c, g, c.genKey);
    GenRegionFillsToGen(c, g - 1);
  }

  /** The generated-marginal histogram gets its part of the generated pass. */
  lemma {:induction false} GenFillsToGen(c: Ctx, g: nat)
    requires g <= Regions
    ensures FillsTo(GenFills(c, g), c.genKey) == GenMarginalFills(c, g)
  {
    if g > 0 {
      GenFillsToGen(c, g - 1);
      GenFillsToGenStep(c, g);
    }
  }

  /** The induction step of GenFillsToResponse. */
  lemma GenFillsToResponseStep(c: Ctx, g: nat)
    requires 0 < g <= Regions
    requires FillsTo(GenFills(c, g - 1), c.respKey) == ResponseFills(c, g - 1)
    ensures FillsTo(GenFills(c, g), c.respKey) == ResponseFills(c, g)
  {
    var prev, row := ResponseFills(c, g - 1), RowFills(c, g - 1, Regions);
    assert ResponseFills(c, g) == prev + row;
    GenFillsStep(c, g, c.respKey);
    GenRegionFillsToResponse(c, g - 1);
  }

  /** The response histogram gets the rows of the generated pass. */
  lemma {:induction false} GenFillsToResponse(c: Ctx, g: nat)
    requires g <= Regions
    ensures FillsTo(GenFills(c, g), c.respKey) == ResponseFills(c, g)
  {
    if g > 0 {
      GenFillsToResponse(c, g - 1);
      GenFillsToResponseStep(c, g);
    }
  }

  /** No other histogram is touched by the generated pass. */
  lemma {:induction false} GenFillsToOther(c: Ctx, g: nat, key: HistKey)
    requires g <= Regions && key != c.genKey && key != c.respKey
    ensures FillsTo(GenFills(c, g), key) == []
  {
    if g > 0 {
      GenFillsToOther(c, g - 1, key);
      GenFillsStep(c, g, key);
      GenRegionFillsToOther(c, g - 1, key);
    }
  }

  /** Histogram by histogram: the reconstructed marginal gets the first
      pass, the generated marginal and the response matrix their parts of
      the second, and no other histogram is touched. */
  lemma DiffFillsByHistogram(c: Ctx, key: HistKey)
    ensures FillsTo(DiffFillsOf(c), key) ==
            if key == c.recKey then RecMarginalFills(c, Regions)
            else if key == c.genKey then GenMarginalFills(c, Regions)
            else if key == c.respKey then ResponseFills(c, Regions)
            else []
  {
    FillsToAppend(RecMarginalFills(c, Regions), GenFills(c, Regions), key);
    if key == c.recKey {
      RecMarginalFillsToRec(c, Regions);
      GenFillsToOther(c, Regions, key);
    } else if key == c.genKey {
      RecMarginalFillsToOther(c, Regions, key);
      GenFillsToGen(c, Regions);
    } else if key == c.respKey {
      RecMarginalFillsToOther(c, Regions, key);
      GenFillsToResponse(c, Regions);
    } else {
      RecMarginalFillsToOther(c, Regions, key);
      GenFillsToOther(c, Regions, key);
    }
  }

  /** The reconstructed-marginal offset never runs ahead of the flat offset,
      and equals it exactly when no earlier region with bins was skipped. */
  lemma {:induction false} SkipOffsetBelowOffset(bins: seq<nat>, cts: seq<int>, k: nat)
    requires k <= |bins| && k <= |cts|
    ensures SkipOffset(bins, cts, k) <= Offset(bins, k)
    ensures SkipOffset(bins, cts, k) == Offset(bins, k) <==>
            forall i :: 0 <= i < k ==> cts[i] != 0 || bins[i] == 0
  {
    if k > 0 {
      SkipOffsetBelowOffset(bins, cts, k - 1);
    }
  }

  /** For a region counted in both, the reconstructed marginal and the
      response matrix agree on the reconstructed bin exactly when the
      selection fails or no earlier region with bins was skipped by the
      marginal pass; otherwise the marginal's bin lies lower by the skipped
      regions' bins. */
  lemma RecMarginalMatchesResponse(c: Ctx, g: nat, r: nat)
    requires g < Regions && r < Regions
    requires c.recCts[r] != 0 && c.recCtsMtrx[g][r] > 0
    ensures RecMarginalBin(c, r) <= CellRecBin(c, g, r)
    ensures RecMarginalBin(c, r) == CellRecBin(c, g, r) <==>
            !c.passSel || forall i :: 0 <= i < r ==> c.recCts[i] != 0 || c.recBins[i] == 0
  {
    SkipOffsetBelowOffset(c.recBins, c.recCts, r);
  }

  /** The generated bin of region g is -1 without generated particles there
      or when the generated selection fails.  A selected value inside its
      region's axis lands inside the block of its slice, in that region's
      block [offset(g), offset(g + 1)) of the flat index, and comes back, once
      the slice shift is taken off, as its region and its own bin. */
  lemma GenBinLocatesRegion(c: Ctx, g: nat)
    requires g < Regions
    ensures !(c.genCts[g] > 0 && c.genPassSel) ==> GenBin(c, g) == -1
    ensures c.genCts[g] > 0 && c.genPassSel && 0 <= c.genLocal[g] < c.genBins[g] ==>
              && c.genShift * Total(c.genBins) + Offset(c.genBins, g) <= GenBin(c, g)
              && GenBin(c, g) < c.genShift * Total(c.genBins) + Offset(c.genBins, g + 1)
              && Unflatten(c.genBins, GenBin(c, g) - c.genShift * Total(c.genBins)) == (g, c.genLocal[g])
  {
    if c.genCts[g] > 0 && c.genPassSel && 0 <= c.genLocal[g] < c.genBins[g] {
      UnflattenOffset(c.genBins, g, c.genLocal[g]);
    }
  }

  /** The same for the reconstructed coordinate of response cell (g, r),
      which is -1 without reconstructed particles in the cell. */
  lemma CellRecBinLocatesRegion(c: Ctx, g: nat, r: nat)
    requires g < Regions && r < Regions
    ensures !(c.recCtsMtrx[g][r] > 0 && c.passSel) ==> CellRecBin(c, g, r) == -1
    ensures c.recCtsMtrx[g][r] > 0 && c.passSel && 0 <= c.recLocal[r] < c.recBins[r] ==>
              && c.recShift * Total(c.recBins) + Offset(c.recBins, r) <= CellRecBin(c, g, r)
              && CellRecBin(c, g, r) < c.recShift * Total(c.recBins) + Offset(c.recBins, r + 1)
              && Unflatten(c.recBins, CellRecBin(c, g, r) - c.recShift * Total(c.recBins)) == (r, c.recLocal[r])
  {
    if c.recCtsMtrx[g][r] > 0 && c.passSel && 0 <= c.recLocal[r] < c.recBins[r] {
      UnflattenOffset(c.recBins, r, c.recLocal[r]);
    }
  }
}
