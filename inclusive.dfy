// Inclusive filling: one generated and one reconstructed bin per event and
// variation, optionally shifted into the slice of a second variable, and the
// fills of the marginal, fakes, per-systematic and migration histograms.

module Inclusive {
  import opened Records
  import opened Binning
  import opened Slicing

  /** The slicing variable is the observable itself. */
  predicate SelfSlice(obs: string, slice: Option<SliceSpec>)
  {
    slice.Some? && slice.value.name == obs
  }

  /** Every axis and event field an inclusive fill of obs at variation ivar
      looks up exists (a missing one raises and is not caught). */
  ghost predicate IncReady(axes: map<AxisKey, Axis>, obs: string, ue: Event, ivar: nat)
  {
    VarAxis(obs, Gen) in axes && VarAxis(obs, Rec) in axes &&
    ivar < |ue.w| && obs in ue.genVals &&
    ivar < |ue.recChmult| && obs in ue.recVals && ivar < |ue.recVals[obs]| &&
    ivar < |ue.recPassSel|
  }

  /** Generated bin: the zero-based bin of gen_<obs>, moved into slice
      genShift, or -1 when the event fails the generated selection.  A
      selected value stays inside the block of its slice, whose bin
      genShift * n - 1 (the last bin of the previous slice) takes the values
      below the axis; a value exactly at the upper edge lands in the first
      bin of the next slice. */
  function IncGenBin(axes: map<AxisKey, Axis>, obs: string, ue: Event, genShift: int): (b: int)
    requires AxesValid(axes) && VarAxis(obs, Gen) in axes && obs in ue.genVals
    ensures !ue.genPassSel ==> b == -1
    ensures var axis := axes[VarAxis(obs, Gen)];
            var v := ue.genVals[obs];
            ue.genPassSel && v != axis.Xmax() ==>
              && genShift * axis.NBins() - 1 <= b < genShift * axis.NBins() + axis.NBins()
              && (b == genShift * axis.NBins() - 1 <==> v < axis.Xmin())
    ensures var axis := axes[VarAxis(obs, Gen)];
            ue.genPassSel && ue.genVals[obs] == axis.Xmax() ==> b == (genShift + 1) * axis.NBins()
  {
    var axis := axes[VarAxis(obs, Gen)];
    if !ue.genPassSel then -1
    else GetBinForVariable(ue.genVals[obs], axis) - 1 + genShift * axis.NBins()
  }

  /** Reconstructed bin of variation ivar, built in the same way. */
  function IncRecBin(axes: map<AxisKey, Axis>, obs: string, ue: Event, recShift: int, ivar: nat): (b: int)
    requires AxesValid(axes) && VarAxis(obs, Rec) in axes
    requires obs in ue.recVals && ivar < |ue.recVals[obs]| && ivar < |ue.recPassSel|
    ensures !ue.recPassSel[ivar] ==> b == -1
    ensures var axis := axes[VarAxis(obs, Rec)];
            var v := ue.recVals[obs][ivar];
            ue.recPassSel[ivar] && v != axis.Xmax() ==>
              && recShift * axis.NBins() - 1 <= b < recShift * axis.NBins() + axis.NBins()
              && (b == recShift * axis.NBins() - 1 <==> v < axis.Xmin())
    ensures var axis := axes[VarAxis(obs, Rec)];
            ue.recPassSel[ivar] && ue.recVals[obs][ivar] == axis.Xmax() ==> b == (recShift + 1) * axis.NBins()
  {
    var axis := axes[VarAxis(obs, Rec)];
    if !ue.recPassSel[ivar] then -1
    else GetBinForVariable(ue.recVals[obs][ivar], axis) - 1 + recShift * axis.NBins()
  }

  /** What an inclusive call has computed by the time it fills: the bound
      slicing variable, the variation, its weight, the particle counts, the
      reconstructed selection flag and the two bins. */
  datatype IncCtx = IncCtx(obs: string, sliceVar: Option<string>, ivar: nat, w: real,
                           genCts: int, recCts: int, recPass: bool, genBin: int, recBin: int)
  {
    function Key(kind: IncKind): HistKey
    {
      IncKey(obs, sliceVar, kind)
    }
  }

  function IncContext(axes: map<AxisKey, Axis>, obs: string, ue: Event, slice: Option<SliceSpec>, ivar: nat): IncCtx
    requires AxesValid(axes) && IncReady(axes, obs, ue, ivar)
  {
    var st := SliceShifts(Some(axes), slice);
    IncCtx(obs, st.sliceVar, ivar, ue.w[ivar], ue.genChmult, ue.recChmult[ivar], ue.recPassSel[ivar],
           IncGenBin(axes, obs, ue, st.genShift), IncRecBin(axes, obs, ue, st.recShift, ivar))
  }

  /** The fills of one call past the self-slicing check, in call order. */
  function IncFillsOf(c: IncCtx): seq<Fill>
  {
    var recSel := c.recPass && c.recCts > 0;
    When(c.ivar == 0 && c.genCts > 0, Fill1(c.Key(Marginal(Gen)), c.genBin, c.w)) +
    When(recSel && c.ivar == 0, Fill1(c.Key(Marginal(Rec)), c.recBin, c.w)) +
    When(recSel && c.ivar == 0 && c.genCts == 0, Fill1(c.Key(Fakes), c.recBin, c.w)) +
    When(recSel, Fill2(c.Key(Syst), c.recBin, c.ivar, c.w)) +
    When(c.genCts > 0, Fill2(c.Key(Migration(c.ivar)), c.genBin, c.recBin, c.w))
  }

  /** The fills one inclusive call performs, in the order it performs them.
      Asking to slice an observable by itself fills nothing; otherwise there
      are at most four fills, all with the weight of the variation. */
  function IncFills(axes: map<AxisKey, Axis>, obs: string, ue: Event, slice: Option<SliceSpec>, ivar: nat): (r: seq<Fill>)
    requires AxesValid(axes)
    requires SelfSlice(obs, slice) || IncReady(axes, obs, ue, ivar)
    ensures SelfSlice(obs, slice) ==> r == []
    ensures |r| <= 4
    ensures !SelfSlice(obs, slice) ==> forall i :: 0 <= i < |r| ==> r[i].w == ue.w[ivar]
  {
    if SliceShifts(Some(axes), slice).sliceVar == Some(obs) then []
    else
      var c := IncContext(axes, obs, ue, slice, ivar);
      IncFillsShape(c);
      IncFillsOf(c)
  }

  /** Every fill of a call carries the weight w[ivar] and goes to one of the
      five histograms of obs under the bound slicing variable; there are at
      most four of them. */
  lemma IncFillsShape(c: IncCtx)
    ensures var fills := IncFillsOf(c);
            && |fills| <= 4
            && forall i :: 0 <= i < |fills| ==>
                 fills[i].w == c.w &&
                 fills[i].key in {c.Key(Marginal(Gen)), c.Key(Marginal(Rec)), c.Key(Fakes), c.Key(Syst),
                                  c.Key(Migration(c.ivar))}
  {
  }

  /** Histogram by histogram: the generated marginal is filled only for the
      nominal variation with generated particles; the reconstructed marginal
      only for the nominal variation of a selected event with reconstructed
      particles, and fakes when in addition there are no generated particles;
      the per-systematic histogram gets (recBin, ivar) for every variation of
      a selected event with reconstructed particles; the migration histogram
      of the variation gets (genBin, recBin) exactly when there are generated
      particles, whatever the reconstructed selection. */
  lemma IncFillsByHistogram(c: IncCtx)
    ensures var fills := IncFillsOf(c);
            var recSel := c.recPass && c.recCts > 0;
            && FillsTo(fills, c.Key(Marginal(Gen))) ==
                 When(c.ivar == 0 && c.genCts > 0, Fill1(c.Key(Marginal(Gen)), c.genBin, c.w))
            && FillsTo(fills, c.Key(Marginal(Rec))) ==
                 When(c.ivar == 0 && recSel, Fill1(c.Key(Marginal(Rec)), c.recBin, c.w))
            && FillsTo(fills, c.Key(Fakes)) ==
                 When(c.ivar == 0 && recSel && c.genCts == 0, Fill1(c.Key(Fakes), c.recBin, c.w))
            && FillsTo(fills, c.Key(Syst)) ==
                 When(recSel, Fill2(c.Key(Syst), c.recBin, c.ivar, c.w))
            && FillsTo(fills, c.Key(Migration(c.ivar))) ==
                 When(c.genCts > 0, Fill2(c.Key(Migration(c.ivar)), c.genBin, c.recBin, c.w))
  {
    IncGenMarginalFills(c);
    IncRecMarginalFills(c);
    IncFakesFills(c);
    IncSystFills(c);
    IncMigrationFills(c);
  }

  lemma IncGenMarginalFills(c: IncCtx)
    ensures FillsTo(IncFillsOf(c), c.Key(Marginal(Gen))) ==
            When(c.ivar == 0 && c.genCts > 0, Fill1(c.Key(Marginal(Gen)), c.genBin, c.w))
  {
    IncFillsTo(c, c.Key(Marginal(Gen)));
  }

  lemma IncRecMarginalFills(c: IncCtx)
    ensures FillsTo(IncFillsOf(c), c.Key(Marginal(Rec))) ==
            When(c.ivar == 0 && c.recPass && c.recCts > 0, Fill1(c.Key(Marginal(Rec)), c.recBin, c.w))
  {
    IncFillsTo(c, c.Key(Marginal(Rec)));
  }

  lemma IncFakesFills(c: IncCtx)
    ensures FillsTo(IncFillsOf(c), c.Key(Fakes)) ==
            When(c.ivar == 0 && c.recPass && c.recCts > 0 && c.genCts == 0, Fill1(c.Key(Fakes), c.recBin, c.w))
  {
    IncFillsTo(c, c.Key(Fakes));
  }

  lemma IncSystFills(c: IncCtx)
    ensures FillsTo(IncFillsOf(c), c.Key(Syst)) ==
            When(c.recPass && c.recCts > 0, Fill2(c.Key(Syst), c.recBin, c.ivar, c.w))
  {
    IncFillsTo(c, c.Key(Syst));
  }

  lemma IncMigrationFills(c: IncCtx)
    ensures FillsTo(IncFillsOf(c), c.Key(Migration(c.ivar))) ==
            When(c.genCts > 0, Fill2(c.Key(Migration(c.ivar)), c.genBin, c.recBin, c.w))
  {
    IncFillsTo(c, c.Key(Migration(c.ivar)));
  }

  /** Filtering the fills of a call by one histogram keeps, of the five
      conditional fills, those aimed at it. */
  lemma IncFillsTo(c: IncCtx, key: HistKey)
    ensures var recSel := c.recPass && c.recCts > 0;
            var f0 := Fill1(c.Key(Marginal(Gen)), c.genBin, c.w);
            var f1 := Fill1(c.Key(Marginal(Rec)), c.recBin, c.w);
            var f2 := Fill1(c.Key(Fakes), c.recBin, c.w);
            var f3 := Fill2(c.Key(Syst), c.recBin, c.ivar, c.w);
            var f4 := Fill2(c.Key(Migration(c.ivar)), c.genBin, c.recBin, c.w);
            FillsTo(IncFillsOf(c), key) ==
              When(c.ivar == 0 && c.genCts > 0 && f0.key == key, f0) +
              When(recSel && c.ivar == 0 && f1.key == key, f1) +
              When(recSel && c.ivar == 0 && c.genCts == 0 && f2.key == key, f2) +
              When(recSel && f3.key == key, f3) +
              When(c.genCts > 0 && f4.key == key, f4)
  {
    var recSel := c.recPass && c.recCts > 0;
    var f0 := Fill1(c.Key(Marginal(Gen)), c.genBin, c.w);
    var f1 := Fill1(c.Key(Marginal(Rec)), c.recBin, c.w);
    var f2 := Fill1(c.Key(Fakes), c.recBin, c.w);
    var f3 := Fill2(c.Key(Syst), c.recBin, c.ivar, c.w);
    var f4 := Fill2(c.Key(Migration(c.ivar)), c.genBin, c.recBin, c.w);
    var g, r1, r2 := When(c.ivar == 0 && c.genCts > 0, f0), When(recSel && c.ivar == 0, f1),
                     When(recSel && c.ivar == 0 && c.genCts == 0, f2);
    var r3, m := When(recSel, f3), When(c.genCts > 0, f4);
    assert IncFillsOf(c) == g + r1 + r2 + r3 + m;
    FillsToWhen(c.ivar == 0 && c.genCts > 0, f0, key);
    FillsToAppendWhen(g, recSel && c.ivar == 0, f1, key);
    FillsToAppendWhen(g + r1, recSel && c.ivar == 0 && c.genCts == 0, f2, key);
    FillsToAppendWhen(g + r1 + r2, recSel, f3, key);
    FillsToAppendWhen(g + r1 + r2 + r3, c.genCts > 0, f4, key);
  }

  /** Failing the generated selection sends the generated coordinate to -1,
      and a selected event keeps its bin inside its slice: with the value
      inside the axis and a slice index s the bin is s * nbins + (zero-based
      bin), from which both come back. */
  lemma IncGenBinLocatesSlice(axes: map<AxisKey, Axis>, obs: string, ue: Event, shift: int)
    requires AxesValid(axes) && VarAxis(obs, Gen) in axes && obs in ue.genVals
    ensures !ue.genPassSel ==> IncGenBin(axes, obs, ue, shift) == -1
    ensures var axis := axes[VarAxis(obs, Gen)];
            var v := ue.genVals[obs];
            ue.genPassSel && axis.Xmin() <= v < axis.Xmax() ==>
              && IncGenBin(axes, obs, ue, shift) / axis.NBins() == shift
              && axis.Holds(IncGenBin(axes, obs, ue, shift) % axis.NBins() + 1, v)
  {
    var axis := axes[VarAxis(obs, Gen)];
    var v := ue.genVals[obs];
    if ue.genPassSel && axis.Xmin() <= v < axis.Xmax() {
      var b := GetBinForVariable(v, axis);
      assert axis.Holds(b, v);
      SliceRoundTrip(shift, axis.NBins(), b - 1);
    }
  }

  /** The same for the reconstructed bin of variation ivar. */
  lemma IncRecBinLocatesSlice(axes: map<AxisKey, Axis>, obs: string, ue: Event, shift: int, ivar: nat)
    requires AxesValid(axes) && VarAxis(obs, Rec) in axes
    requires obs in ue.recVals && ivar < |ue.recVals[obs]| && ivar < |ue.recPassSel|
    ensures !ue.recPassSel[ivar] ==> IncRecBin(axes, obs, ue, shift, ivar) == -1
    ensures var axis := axes[VarAxis(obs, Rec)];
            var v := ue.recVals[obs][ivar];
            ue.recPassSel[ivar] && axis.Xmin() <= v < axis.Xmax() ==>
              && IncRecBin(axes, obs, ue, shift, ivar) / axis.NBins() == shift
              && axis.Holds(IncRecBin(axes, obs, ue, shift, ivar) % axis.NBins() + 1, v)
  {
    var axis := axes[VarAxis(obs, Rec)];
    var v := ue.recVals[obs][ivar];
    if ue.recPassSel[ivar] && axis.Xmin() <= v < axis.Xmax() {
      var b := GetBinForVariable(v, axis);
      assert axis.Holds(b, v);
      SliceRoundTrip(shift, axis.NBins(), b - 1);
    }
  }

  /** An event that fails the reconstructed selection of variation ivar but
      has generated particles still enters the migration histogram of that
      variation, with -1 as its reconstructed coordinate, and enters no
      reconstructed-level histogram. */
  lemma IncFailedRecSelectionMigrates(axes: map<AxisKey, Axis>, obs: string, ue: Event, slice: Option<SliceSpec>, ivar: nat)
    requires AxesValid(axes) && !SelfSlice(obs, slice) && IncReady(axes, obs, ue, ivar)
    requires !ue.recPassSel[ivar] && ue.genChmult > 0
    ensures var c := IncContext(axes, obs, ue, slice, ivar);
            var fills := IncFills(axes, obs, ue, slice, ivar);
            && FillsTo(fills, c.Key(Migration(ivar))) == [Fill2(c.Key(Migration(ivar)), c.genBin, -1, ue.w[ivar])]
            && FillsTo(fills, c.Key(Marginal(Rec))) == []
            && FillsTo(fills, c.Key(Syst)) == []
  {
    IncFillsByHistogram(IncContext(axes, obs, ue, slice, ivar));
  }
}
