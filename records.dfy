// Value types shared by the underlying-event histogram filler: registry keys,
// the fills it performs, and the read-only event record it consumes.

module Records {

  datatype Option<T> = None | Some(value: T)

  /** Generated (particle) level or reconstructed (detector) level. */
  datatype Level = Gen | Rec

  /** Keys of the axis registry.  VarAxis is (name, isRec) in the source;
      RegionAxis is (obs, reference axis, region, isRec). */
  datatype AxisKey =
    | VarAxis(name: string, level: Level)
    | RegionAxis(obs: string, ref: nat, region: nat, level: Level)

  /** The fourth and fifth key components of an inclusive histogram:
      (None, isRec), ('fakes', True), ('syst', True) or (ivar, 'mig'). */
  datatype IncKind = Marginal(level: Level) | Fakes | Syst | Migration(ivar: nat)

  /** Keys of the histogram registry, one constructor per key shape. */
  datatype HistKey =
      /** (obs, sliceVar, 'inc', qualifier, flag) */
    | IncKey(obs: string, sliceVar: Option<string>, kind: IncKind)
      /** (obs, a, isRec) or (obs, a, isRec, sliceVar) */
    | DiffMarginal(obs: string, ref: nat, level: Level, sliceVar: Option<string>)
      /** (obs, a) or (obs, a, sliceVar) */
    | DiffResponse(obs: string, ref: nat, sliceVar: Option<string>)

  /** One call of Fill on a registered histogram: TH1::Fill(x, w) or TH2::Fill(x, y, w). */
  datatype Fill =
    | Fill1(key: HistKey, x: int, w: real)
    | Fill2(key: HistKey, x: int, y: int, w: real)

  /** The optional (sliceVar, genSliceVal, recSliceVal) triple. */
  datatype SliceSpec = SliceSpec(name: string, genVal: real, recVal: real)

  /** Python truthiness of the bound slice variable: None and '' are false. */
  predicate Truthy(s: Option<string>)
  {
    s.Some? && s.value != ""
  }

  /** The event record.  Sequences indexed by ivar are per systematic variation;
      the *WrtTo fields are indexed by the reference axis, then by region (and,
      for the count matrix, by generated region, then reconstructed region). */
  datatype Event = Event(
    w: seq<real>,                               // w[ivar]
    genPassSel: bool,                           // gen_passSel
    recPassSel: seq<bool>,                      // rec_passSel[ivar]
    genChmult: int,                             // gen_chmult
    recChmult: seq<int>,                        // rec_chmult[ivar]
    genVals: map<string, real>,                 // gen_<obs>
    recVals: map<string, seq<real>>,            // rec_<obs>[ivar]
    genChmultWrtTo: seq<seq<int>>,              // gen_chmult_wrtTo[a][region]
    recChmultIncWrtTo: seq<seq<int>>,           // rec_chmult_incWrtTo[a][region]
    recChmultWrtTo: seq<seq<seq<int>>>,         // rec_chmult_wrtTo[a][genRegion][recRegion]
    genWrtTo: map<string, seq<seq<real>>>,      // gen_<obs>_wrtTo[a][region]
    recIncWrtTo: map<string, seq<seq<real>>>,   // rec_<obs>_incWrtTo[a][region]
    recWrtTo: map<string, seq<seq<real>>>)      // rec_<obs>_wrtTo[a] (read, never used)

  /** Every fill goes to a histogram the registry holds. */
  predicate Registered(histos: set<HistKey>, fills: seq<Fill>)
  {
    forall i :: 0 <= i < |fills| ==> fills[i].key in histos
  }

  /** The fills of a log that went to one histogram, in log order. */
  function FillsTo(fills: seq<Fill>, key: HistKey): (r: seq<Fill>)
    ensures |r| <= |fills|
  {
    if fills == [] then []
    else (if fills[0].key == key then [fills[0]] else []) + FillsTo(fills[1..], key)
  }

  /** Filtering a log by histogram distributes over appending to it. */
  lemma {:induction false} FillsToAppend(a: seq<Fill>, b: seq<Fill>, key: HistKey)
    ensures FillsTo(a + b, key) == FillsTo(a, key) + FillsTo(b, key)
  {
    if a == [] {
      assert a + b == b;
    } else {
      var head := if a[0].key == key then [a[0]] else [];
      assert (a + b)[0] == a[0] && (a + b)[1..] == a[1..] + b;
      FillsToAppend(a[1..], b, key);
      calc {
        FillsTo(a + b, key);
        head + FillsTo(a[1..] + b, key);
        head + (FillsTo(a[1..], key) + FillsTo(b, key));
        (head + FillsTo(a[1..], key)) + FillsTo(b, key);
      }
    }
  }

  /** A log all of whose fills went to key filters to itself. */
  lemma {:induction false} FillsToAll(fills: seq<Fill>, key: HistKey)
    requires forall i :: 0 <= i < |fills| ==> fills[i].key == key
    ensures FillsTo(fills, key) == fills
  {
    if fills != [] {
      FillsToAll(fills[1..], key);
    }
  }

  /** A log none of whose fills went to key filters to nothing. */
  lemma {:induction false} FillsToNone(fills: seq<Fill>, key: HistKey)
    requires forall i :: 0 <= i < |fills| ==> fills[i].key != key
    ensures FillsTo(fills, key) == []
  {
    if fills != [] {
      FillsToNone(fills[1..], key);
    }
  }

  /** A fill that happens only under a condition. */
  function When(c: bool, f: Fill): (r: seq<Fill>)
  {
    if c then [f] else []
  }

  lemma FillsToWhen(c: bool, f: Fill, key: HistKey)
    ensures FillsTo(When(c, f), key) == When(c && f.key == key, f)
  {
  }

  /** Filtering a log extended by a conditional fill. */
  lemma FillsToAppendWhen(a: seq<Fill>, c: bool, f: Fill, key: HistKey)
    ensures FillsTo(a + When(c, f), key) == FillsTo(a, key) + When(c && f.key == key, f)
  {
    FillsToAppend(a, When(c, f), key);
    FillsToWhen(c, f, key);
  }

  /** A conditional fill adds one occurrence of its record to a log, or none. */
  lemma CountAppendWhen(a: seq<Fill>, c: bool, x: Fill, f: Fill)
    ensures multiset(a + When(c, x))[f] == multiset(a)[f] + (if c && x == f then 1 else 0)
  {
  }

  lemma AppendAssoc(a: seq<Fill>, b: seq<Fill>, c: seq<Fill>)
    ensures a + (b + c) == (a + b) + c
  {
  }

  lemma RegisteredAppend(histos: set<HistKey>, a: seq<Fill>, b: seq<Fill>)
    requires Registered(histos, a) && Registered(histos, b)
    ensures Registered(histos, a + b)
  {
    forall i | 0 <= i < |a + b|
      ensures (a + b)[i].key in histos
    {
      if i >= |a| {
        assert (a + b)[i] == b[i - |a|];
      }
    }
  }
}
