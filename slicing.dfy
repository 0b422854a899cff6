// The optional slicing variable: binding its name and turning its generated
// and reconstructed values into slice shifts, as both fill modes do inside a
// bare try/except that swallows every failure.

module Slicing {
  import opened Records
  import opened Binning

  ghost predicate AxesValid(axes: map<AxisKey, Axis>)
  {
    forall k :: k in axes ==> axes[k].Valid()
  }

  /** What the try block leaves behind: the bound slicing variable and the
      zero-based slice index at each level (0 where it was never assigned). */
  datatype SliceState = SliceState(sliceVar: Option<string>, genShift: int, recShift: int)

  /** The slice state computed against an axis registry.  The variable is
      bound as soon as the triple unpacks; the generated shift is assigned
      only if the (name, gen) axis exists, and the reconstructed shift only if
      both axes exist, since a failed lookup abandons the rest of the block.
      A registry of None stands for an attribute that was never assigned:
      looking it up fails before either shift is set. */
  function SliceShifts(registry: Option<map<AxisKey, Axis>>, spec: Option<SliceSpec>): (s: SliceState)
    requires registry.Some? ==> AxesValid(registry.value)
    ensures s.sliceVar == if spec.Some? then Some(spec.value.name) else None
    ensures spec.None? || registry.None? ==> s.genShift == 0 && s.recShift == 0
    ensures spec.Some? && registry.Some? && VarAxis(spec.value.name, Gen) !in registry.value ==>
              s.genShift == 0 && s.recShift == 0
    ensures spec.Some? && registry.Some? && VarAxis(spec.value.name, Gen) in registry.value ==>
              ShiftInRange(registry.value[VarAxis(spec.value.name, Gen)], spec.value.genVal, s.genShift)
    ensures spec.Some? && registry.Some? && VarAxis(spec.value.name, Gen) in registry.value &&
            VarAxis(spec.value.name, Rec) in registry.value ==>
              ShiftInRange(registry.value[VarAxis(spec.value.name, Rec)], spec.value.recVal, s.recShift)
    ensures spec.Some? && registry.Some? && VarAxis(spec.value.name, Rec) !in registry.value ==>
              s.recShift == 0
  {
    match spec
    case None => SliceState(None, 0, 0)
    case Some(sp) =>
      if registry.None? || VarAxis(sp.name, Gen) !in registry.value then
        SliceState(Some(sp.name), 0, 0)
      else
        var axes := registry.value;
        var g := GetBinForVariable(sp.genVal, axes[VarAxis(sp.name, Gen)]) - 1;
        if VarAxis(sp.name, Rec) !in axes then SliceState(Some(sp.name), g, 0)
        else SliceState(Some(sp.name), g, GetBinForVariable(sp.recVal, axes[VarAxis(sp.name, Rec)]) - 1)
  }

  /** A slice index taken from the slicing axis: -1 below its range, the
      zero-based bin holding the value inside it, and the last slice above it
      (or one past the last at exactly the upper edge). */
  ghost predicate ShiftInRange(axis: Axis, val: real, shift: int)
    requires axis.Valid()
  {
    (val < axis.Xmin() ==> shift == -1) &&
    (axis.Xmin() <= val < axis.Xmax() ==> axis.Holds(shift + 1, val)) &&
    (val > axis.Xmax() ==> shift == axis.NBins() - 1) &&
    (val == axis.Xmax() ==> shift == axis.NBins())
  }
}
