// The histogram filler object: an axis registry and a histogram registry
// fixed at construction, and the weighted fills it performs, kept in order.

module UEAnalysis {
  import opened Records
  import opened Binning
  import opened Slicing
  import opened Inclusive
  import opened Differential

  class UEAnalysisHandler {
    /** Axis registry, loaded once. */
    const axes: map<AxisKey, Axis>
    /** Keys of the histogram registry, loaded once. */
    const histos: set<HistKey>
    /** The slicing-axis registry that the differential fill consults.  The
        constructor never assigns it, so it stays None: every lookup in it
        fails. */
    const sliceAxes: Option<map<AxisKey, Axis>>
    /** Every Fill performed on a registered histogram, oldest first. */
    var fills: seq<Fill>

    ghost predicate Valid()
      reads this
    {
      AxesValid(axes) && sliceAxes == None && Registered(histos, fills)
    }

    /** The two registries come from the analysis configuration. */
    constructor (axes: map<AxisKey, Axis>, histos: set<HistKey>)
      requires AxesValid(axes)
      ensures Valid()
      ensures this.axes == axes && this.histos == histos && fills == []
    {
      this.axes := axes;
      this.histos := histos;
      this.sliceAxes := None;
      this.fills := [];
    }

    /** Inclusive fill of obs for variation ivar. */
    method FillInclusive(obs: string, ue: Event, slice: Option<SliceSpec>, ivar: nat)
      requires Valid()
      requires SelfSlice(obs, slice) || IncReady(axes, obs, ue, ivar)
      requires Registered(histos, IncFills(axes, obs, ue, slice, ivar))
      modifies this
      ensures Valid()
      ensures fills == old(fills) + IncFills(axes, obs, ue, slice, ivar)
    {
      var st := SliceShifts(Some(axes), slice);
      var sliceVar := st.sliceVar;
      if sliceVar == Some(obs) {
        return;
      }
      ghost var c := IncContext(axes, obs, ue, slice, ivar);
      assert c.sliceVar == sliceVar && c.ivar == ivar && c.obs == obs;

      var weight := ue.w[ivar];

      // generated level
      var genCts := ue.genChmult;
      var genVal := ue.genVals[obs];
      var genBin := GetBinForVariable(genVal, axes[VarAxis(obs, Gen)]) - 1;
      genBin := genBin + st.genShift * axes[VarAxis(obs, Gen)].NBins();
      if !ue.genPassSel {
        genBin := -1;
      }
      assert genBin == c.genBin;

      // reconstructed level
      var recCts := ue.recChmult[ivar];
      var recVal := ue.recVals[obs][ivar];
      var recBin := GetBinForVariable(recVal, axes[VarAxis(obs, Rec)]) - 1;
      recBin := recBin + st.recShift * axes[VarAxis(obs, Rec)].NBins();
      if !ue.recPassSel[ivar] {
        recBin := -1;
      }
      assert recBin == c.recBin;
      IncFillSequence(c, obs, sliceVar, ivar, genCts, recCts, ue.recPassSel[ivar], genBin, recBin, weight);
      assert fills == old(fills) + IncFillsOf(c);
      RegisteredAppend(histos, old(fills), IncFillsOf(c));
    }

    /** The fills of an inclusive call once both bins are known: generated
        marginal, reconstructed marginal, fakes, per-systematic, migration. */
    method IncFillSequence(ghost c: IncCtx, obs: string, sliceVar: Option<string>, ivar: nat, genCts: int,
                           recCts: int, recPass: bool, genBin: int, recBin: int, weight: real)
      requires c == IncCtx(obs, sliceVar, ivar, weight, genCts, recCts, recPass, genBin, recBin)
      modifies this
      ensures fills == old(fills) + IncFillsOf(c)
    {
      if ivar == 0 && genCts > 0 {
        fills := fills + [Fill1(IncKey(obs, sliceVar, Marginal(Gen)), genBin, weight)];
      }
      ghost var genPart := When(ivar == 0 && genCts > 0, Fill1(c.Key(Marginal(Gen)), c.genBin, c.w));
      assert fills == old(fills) + genPart;
      ghost var afterGen := fills;
      if recPass && recCts > 0 {
        if ivar == 0 {
          fills := fills + [Fill1(IncKey(obs, sliceVar, Marginal(Rec)), recBin, weight)];
          if genCts == 0 {
            fills := fills + [Fill1(IncKey(obs, sliceVar, Fakes), recBin, weight)];
          }
        }
        fills := fills + [Fill2(IncKey(obs, sliceVar, Syst), recBin, ivar, weight)];
      }
      ghost var recSel := recPass && recCts > 0;
      ghost var recPart := When(recSel && ivar == 0, Fill1(c.Key(Marginal(Rec)), c.recBin, c.w)) +
                           When(recSel && ivar == 0 && genCts == 0, Fill1(c.Key(Fakes), c.recBin, c.w)) +
                           When(recSel, Fill2(c.Key(Syst), c.recBin, ivar, c.w));
      assert fills == afterGen + recPart;
      ghost var afterRec := fills;
      if genCts > 0 {
        fills := fills + [Fill2(IncKey(obs, sliceVar, Migration(ivar)), genBin, recBin, weight)];
      }
      ghost var migPart := When(genCts > 0, Fill2(c.Key(Migration(c.ivar)), c.genBin, c.recBin, c.w));
      assert fills == afterRec + migPart;
      AppendAssoc(old(fills), genPart, recPart);
      AppendAssoc(old(fills), genPart + recPart, migPart);
      assert IncFillsOf(c) == genPart + recPart + migPart;
    }

    /** Differential fill of obs against reference axis a. */
    method FillDifferential(obs: string, a: nat, ue: Event, weight: real, genPassSel: bool, passSel: bool,
                            slice: Option<SliceSpec>)
      requires Valid()
      requires (!passSel && !genPassSel) || DiffReady(axes, obs, a, ue)
      requires Registered(histos, DiffFills(axes, sliceAxes, obs, a, ue, weight, genPassSel, passSel, slice))
      modifies this
      ensures Valid()
      ensures fills == old(fills) + DiffFills(axes, sliceAxes, obs, a, ue, weight, genPassSel, passSel, slice)
    {
      if !passSel && !genPassSel {
        return;
      }
      var st := SliceShifts(sliceAxes, slice);
      var sliceVar, genSliceShift, recSliceShift := st.sliceVar, st.genShift, st.recShift;

      var recCts := ue.recChmultIncWrtTo[a];
      var recCtsMtrx := ue.recChmultWrtTo[a];
      var recVal := ue.recIncWrtTo[obs][a];
      var recValMtrx := ue.recWrtTo[obs][a];
      var genCts := ue.genChmultWrtTo[a];
      var genVal := ue.genWrtTo[obs][a];

      var recKey := if Truthy(sliceVar) then DiffMarginal(obs, a, Rec, sliceVar) else DiffMarginal(obs, a, Rec, None);
      var genKey := if Truthy(sliceVar) then DiffMarginal(obs, a, Gen, sliceVar) else DiffMarginal(obs, a, Gen, None);
      var respKey := if Truthy(sliceVar) then DiffResponse(obs, a, sliceVar) else DiffResponse(obs, a, None);
      ghost var c := DiffContext(axes, sliceAxes, obs, a, ue, weight, genPassSel, passSel, slice);
      ContextLinked(axes, sliceAxes, obs, a, ue, weight, genPassSel, passSel, slice);

      // reconstructed level
      var totalBinsRec := TotalBins(obs, a, Rec);
      FillRecMarginal(c, obs, a, recVal, recCts, passSel, recSliceShift, totalBinsRec, recKey, weight);

      // generated level and response cells
      var totalBinsGen := TotalBins(obs, a, Gen);
      FillGenerated(c, obs, a, genVal, recVal, recCtsMtrx, genCts, genPassSel, passSel, genSliceShift,
                    recSliceShift, totalBinsGen, totalBinsRec, genKey, respKey, weight);
      AppendAssoc(old(fills), RecMarginalFills(c, Regions), GenFills(c, Regions));
      RegisteredAppend(histos, old(fills), DiffFillsOf(c));
    }

    /** Sum of the bin counts of the three region axes of one level. */
    method TotalBins(obs: string, a: nat, level: Level) returns (total: int)
      requires AxesValid(axes) && HasRegionAxes(axes, obs, a, level)
      ensures total == Total(RegionBins(axes, obs, a, level))
    {
      ghost var bins := RegionBins(axes, obs, a, level);
      total := 0;
      for idx := 0 to Regions
        invariant total == Offset(bins, idx)
      {
        total := total + axes[RegionAxis(obs, a, idx, level)].NBins();
      }
    }

    /** The reconstructed-marginal loop of a differential call. */
    method FillRecMarginal(ghost c: Ctx, obs: string, a: nat, recVal: seq<real>, recCts: seq<int>,
                           passSel: bool, recSliceShift: int, totalBinsRec: int, recKey: HistKey, weight: real)
      requires LevelLinked(axes, obs, a, Rec, recVal, c.recBins, c.recLocal)
      requires recCts == c.recCts && passSel == c.passSel && recSliceShift == c.recShift
      requires recKey == c.recKey && weight == c.w && totalBinsRec == Total(c.recBins)
      modifies this
      ensures fills == old(fills) + RecMarginalFills(c, Regions)
    {
      var recBinOffset := 0;
      for idxRec := 0 to Regions
        invariant recBinOffset == SkipOffset(c.recBins, c.recCts, idxRec)
        invariant fills == old(fills) + RecMarginalFills(c, idxRec)
      {
        if recCts[idxRec] == 0 {
          assert RecMarginalFills(c, idxRec + 1) == RecMarginalFills(c, idxRec) + [];
          continue;
        }
        var axis := axes[RegionAxis(obs, a, idxRec, Rec)];
        var recBin := RegionFlatBin(recBinOffset, recVal[idxRec], axis, recSliceShift, totalBinsRec, passSel);
        assert recBin == RecMarginalBin(c, idxRec);
        fills := fills + [Fill1(recKey, recBin, weight)];
        AppendAssoc(old(fills), RecMarginalFills(c, idxRec), [Fill1(recKey, recBin, weight)]);
        recBinOffset := recBinOffset + axis.NBins();
      }
    }

    /** The generated loop of a differential call: per generated region its
        marginal, then its row of response cells. */
    method FillGenerated(ghost c: Ctx, obs: string, a: nat, genVal: seq<real>, recVal: seq<real>,
                         recCtsMtrx: seq<seq<int>>, genCts: seq<int>, genPassSel: bool, passSel: bool,
                         genSliceShift: int, recSliceShift: int, totalBinsGen: int, totalBinsRec: int,
                         genKey: HistKey, respKey: HistKey, weight: real)
      requires LevelLinked(axes, obs, a, Gen, genVal, c.genBins, c.genLocal)
      requires LevelLinked(axes, obs, a, Rec, recVal, c.recBins, c.recLocal)
      requires recCtsMtrx == c.recCtsMtrx && genCts == c.genCts
      requires genPassSel == c.genPassSel && passSel == c.passSel
      requires genSliceShift == c.genShift && recSliceShift == c.recShift
      requires totalBinsGen == Total(c.genBins) && totalBinsRec == Total(c.recBins)
      requires genKey == c.genKey && respKey == c.respKey && weight == c.w
      modifies this
      ensures fills == old(fills) + GenFills(c, Regions)
    {
      var genBinOffset := 0;
      for idxGen := 0 to Regions
        invariant genBinOffset == Offset(c.genBins, idxGen)
        invariant fills == old(fills) + GenFills(c, idxGen)
      {
        FillGenRegion(c, obs, a, idxGen, genBinOffset, genVal, recVal, recCtsMtrx, genCts, genPassSel, passSel,
                      genSliceShift, recSliceShift, totalBinsGen, totalBinsRec, genKey, respKey, weight);
        AppendAssoc(old(fills), GenFills(c, idxGen), GenRegionFills(c, idxGen));
        genBinOffset := genBinOffset + axes[RegionAxis(obs, a, idxGen, Gen)].NBins();
      }
    }

    /** One pass of the generated loop: the generated marginal of region g,
        then the response cells of its row. */
    method FillGenRegion(ghost c: Ctx, obs: string, a: nat, g: nat, genBinOffset: int, genVal: seq<real>,
                         recVal: seq<real>, recCtsMtrx: seq<seq<int>>, genCts: seq<int>, genPassSel: bool,
                         passSel: bool, genSliceShift: int, recSliceShift: int, totalBinsGen: int,
                         totalBinsRec: int, genKey: HistKey, respKey: HistKey, weight: real)
      requires g < Regions && LevelLinked(axes, obs, a, Gen, genVal, c.genBins, c.genLocal)
      requires LevelLinked(axes, obs, a, Rec, recVal, c.recBins, c.recLocal)
      requires recCtsMtrx == c.recCtsMtrx && genCts == c.genCts
      requires genPassSel == c.genPassSel && passSel == c.passSel
      requires genSliceShift == c.genShift && recSliceShift == c.recShift
      requires totalBinsGen == Total(c.genBins) && totalBinsRec == Total(c.recBins)
      requires genKey == c.genKey && respKey == c.respKey && weight == c.w
      requires genBinOffset == Offset(c.genBins, g)
      modifies this
      ensures fills == old(fills) + GenRegionFills(c, g)
    {
      var genBin := -1;
      if genCts[g] > 0 {
        genBin := RegionFlatBin(genBinOffset, genVal[g], axes[RegionAxis(obs, a, g, Gen)], genSliceShift,
                                totalBinsGen, genPassSel);
        fills := fills + [Fill1(genKey, genBin, weight)];
      }
      assert genBin == GenBin(c, g);
      ghost var head := GenMarginal(c, g);
      assert fills == old(fills) + head;
      FillResponseRow(c, obs, a, g, genBin, recVal, recCtsMtrx, genCts, passSel, recSliceShift,
                      totalBinsRec, respKey, weight);
      AppendAssoc(old(fills), head, RowFills(c, g, Regions));
    }

    /** The inner loop of a differential call: the response cells of
        generated region g. */
    method FillResponseRow(ghost c: Ctx, obs: string, a: nat, g: nat, genBin: int, recVal: seq<real>,
                           recCtsMtrx: seq<seq<int>>, genCts: seq<int>, passSel: bool, recSliceShift: int,
                           totalBinsRec: int, respKey: HistKey, weight: real)
      requires g < Regions && LevelLinked(axes, obs, a, Rec, recVal, c.recBins, c.recLocal)
      requires recCtsMtrx == c.recCtsMtrx && genCts == c.genCts && passSel == c.passSel
      requires recSliceShift == c.recShift && respKey == c.respKey && weight == c.w
      requires totalBinsRec == Total(c.recBins) && genBin == GenBin(c, g)
      modifies this
      ensures fills == old(fills) + RowFills(c, g, Regions)
    {
      var recBinOffset := 0;
      for idxRec := 0 to Regions
        invariant recBinOffset == Offset(c.recBins, idxRec)
        invariant fills == old(fills) + RowFills(c, g, idxRec)
      {
        var axis := axes[RegionAxis(obs, a, idxRec, Rec)];
        var recBin := -1;
        if recCtsMtrx[g][idxRec] > 0 {
          recBin := RegionFlatBin(recBinOffset, recVal[idxRec], axis, recSliceShift, totalBinsRec, passSel);
        }
        assert recBin == CellRecBin(c, g, idxRec);
        if genCts[g] > 0 || recCtsMtrx[g][idxRec] > 0 {
          fills := fills + [Fill2(respKey, genBin, recBin, weight)];
          AppendAssoc(old(fills), RowFills(c, g, idxRec), [Cell(c, g, idxRec)]);
        } else {
          assert RowFills(c, g, idxRec + 1) == RowFills(c, g, idxRec) + [];
        }
        recBinOffset := recBinOffset + axis.NBins();
      }
    }
  }

  /** The flat bin of one region's value, as each loop of a differential
      call computes it. */
  method RegionFlatBin(offset: int, val: real, axis: Axis, shift: int, total: int, pass: bool) returns (bin: int)
    requires axis.Valid()
    ensures bin == FlatBin(pass, offset, GetBinForVariable(val, axis) - 1, shift, total)
  {
    bin := offset + GetBinForVariable(val, axis) - 1;
    bin := bin + shift * total;
    if !pass {
      bin := -1;
    }
  }
}
