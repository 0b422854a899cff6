// The declarative variable table and the three name lists filtered from it.

module Variables {

  /** Title and flags of one variable: usable to slice the phase space,
      usable as an observable, usable as an event axis, is an angle. */
  datatype VarInfo = VarInfo(title: string, slice: bool, observable: bool, eventAxis: bool, angle: bool)

  const Vars: map<string, VarInfo> := map[
    "ptttbar"    := VarInfo("p_{T}(t#bar{t})",  true,  false, false, false),
    "phittbar"   := VarInfo("#phi(t#bar{t})",   true,  false, true,  true),
    "ptpos"      := VarInfo("p_{T}(l^{+})",     true,  false, false, false),
    "phipos"     := VarInfo("#phi(l^{+})",      true,  false, true,  true),
    "ptll"       := VarInfo("p_{T}(l,l)",       true,  false, false, false),
    "phill"      := VarInfo("#phi(ll)",         true,  false, true,  true),
    "nj"         := VarInfo("N(jets)",          true,  false, false, false),
    "chmult"     := VarInfo("N(ch)",            true,  true,  false, false),
    "chflux"     := VarInfo("#Sigma p_{T}(ch)", false, true,  false, false),
    "chavgpt"    := VarInfo("#bar{p}_{T}(ch)",  false, true,  false, false),
    "chfluxz"    := VarInfo("#Sigma p_{z}(ch)", false, true,  false, false),
    "chavgpz"    := VarInfo("#bar{p}_{z}(ch)",  false, true,  false, false),
    "sphericity" := VarInfo("Spericity",        false, true,  false, false),
    "aplanarity" := VarInfo("Aplanarity",       false, true,  false, false),
    "C"          := VarInfo("C",                false, true,  false, false),
    "D"          := VarInfo("D",                false, true,  false, false)
  ]

  /** OBSVARS, the names flagged as observables: the charged multiplicity,
      the four flux and mean momentum variables and the four event-shape
      variables. */
  function ObsVars(): (r: set<string>)
    ensures r == {"chmult", "chflux", "chavgpt", "chfluxz", "chavgpz", "sphericity", "aplanarity", "C", "D"}
  {
    set v | v in Vars && Vars[v].observable
  }

  /** EVAXES, the names flagged as event axes: the three azimuthal angles. */
  function EvAxes(): (r: set<string>)
    ensures r == {"phittbar", "phipos", "phill"}
  {
    set v | v in Vars && Vars[v].eventAxis
  }

  /** SLICEVARS, the names flagged as slicing variables: the kinematics of
      the top pair, the positive lepton and the dilepton, the jet count and
      the charged multiplicity. */
  function SliceVars(): (r: set<string>)
    ensures r == {"ptttbar", "phittbar", "ptpos", "phipos", "ptll", "phill", "nj", "chmult"}
  {
    set v | v in Vars && Vars[v].slice
  }

  /** Every event axis is an angle and may also slice the phase space. */
  lemma EvAxesAreSlicingAngles()
    ensures forall v :: v in EvAxes() ==> Vars[v].angle && v in SliceVars()
  {
  }

  /** chmult is the only variable that is both an observable and a slicing
      variable, so it is the only observable an inclusive fill can be asked
      to slice by itself. */
  lemma OnlyChmultSlicesItself()
    ensures ObsVars() * SliceVars() == {"chmult"}
  {
  }
}
