// Axes, bin lookup and the flattening of several axes (or slices) into one
// integer bin index.

module Binning {

  /** A histogram axis given by its bin edges: bin k (1-based) is the
      half-open interval [edges[k-1], edges[k]).  A uniform axis is the
      special case of equally spaced edges. */
  datatype Axis = Axis(edges: seq<real>) {

    ghost predicate Valid()
    {
      |edges| >= 2 && Increasing(edges)
    }

    function NBins(): nat
      requires Valid()
    {
      |edges| - 1
    }

    function Xmin(): real
      requires Valid()
    {
      edges[0]
    }

    function Xmax(): real
      requires Valid()
    {
      edges[|edges| - 1]
    }

    /** Bin k (1 <= k <= NBins()) holds x. */
    ghost predicate Holds(k: int, x: real)
      requires Valid()
    {
      1 <= k <= NBins() && edges[k - 1] <= x < edges[k]
    }
  }

  /** Strictly increasing, stated one neighbour at a time. */
  ghost predicate Increasing(s: seq<real>)
  {
    |s| < 2 || (s[0] < s[1] && Increasing(s[1..]))
  }

  /** Any two edges of an increasing sequence are in order. */
  lemma {:induction false} IncreasingOrdered(s: seq<real>, i: nat, j: nat)
    requires Increasing(s) && i < j < |s|
    ensures s[i] < s[j]
    decreases j
  {
    if i == 0 {
      if j > 1 {
        IncreasingOrdered(s[1..], 0, j - 1);
      }
    } else {
      IncreasingOrdered(s[1..], i - 1, j - 1);
    }
  }

  /** The range of an axis is not empty. */
  lemma RangeNonEmpty(axis: Axis)
    requires axis.Valid()
    ensures axis.Xmin() < axis.Xmax()
  {
    IncreasingOrdered(axis.edges, 0, |axis.edges| - 1);
  }

  /** First bin at or after k whose upper edge lies above x. */
  function LocateEdge(edges: seq<real>, x: real, k: nat): (b: nat)
    requires 1 <= k < |edges|
    requires edges[k - 1] <= x < edges[|edges| - 1]
    ensures k <= b < |edges|
    ensures edges[b - 1] <= x < edges[b]
    decreases |edges| - k
  {
    if x < edges[k] then k else LocateEdge(edges, x, k + 1)
  }

  /** The axis' own bin lookup: 0 below the range, NBins()+1 at or above
      the upper edge, otherwise the bin holding x. */
  function FindBin(axis: Axis, x: real): (b: nat)
    requires axis.Valid()
    ensures x < axis.Xmin() ==> b == 0
    ensures x >= axis.Xmax() ==> b == axis.NBins() + 1
    ensures axis.Xmin() <= x < axis.Xmax() ==> axis.Holds(b, x)
  {
    RangeNonEmpty(axis);
    if x < axis.edges[0] then 0
    else if x >= axis.edges[|axis.edges| - 1] then |axis.edges|
    else LocateEdge(axis.edges, x, 1)
  }

  /** At most one bin holds a value, so FindBin is the only answer in range. */
  lemma HoldsUnique(axis: Axis, x: real, k: int, m: int)
    requires axis.Valid()
    requires axis.Holds(k, x) && axis.Holds(m, x)
    ensures k == m
  {
    if k < m {
      IncreasingOrdered(axis.edges, k, m - 1);
    } else if m < k {
      IncreasingOrdered(axis.edges, m, k - 1);
    }
  }

  /** Overflow goes to the last bin, underflow to 0, the rest to FindBin. */
  function GetBinForVariable(val: real, axis: Axis): (b: nat)
    requires axis.Valid()
    ensures val > axis.Xmax() ==> b == axis.NBins()
    ensures val < axis.Xmin() ==> b == 0
    ensures axis.Xmin() <= val < axis.Xmax() ==> axis.Holds(b, val)
    ensures val == axis.Xmax() ==> b == axis.NBins() + 1
  {
    RangeNonEmpty(axis);
    if val > axis.Xmax() then axis.NBins()
    else if val < axis.Xmin() then 0
    else FindBin(axis, val)
  }

  /** The zero-based bin GetBinForVariable(val, axis) - 1 that the fills use
      lies in [-1, NBins()-1] for every value except the upper edge itself,
      and is -1 exactly for values below the range. */
  lemma ZeroBasedBinRange(val: real, axis: Axis)
    requires axis.Valid()
    requires val != axis.Xmax()
    ensures -1 <= GetBinForVariable(val, axis) - 1 < axis.NBins()
    ensures GetBinForVariable(val, axis) - 1 == -1 <==> val < axis.Xmin()
  {
    var b := GetBinForVariable(val, axis);
    if axis.Xmin() <= val < axis.Xmax() {
      assert axis.Holds(b, val);
    }
  }

  /** Offset(bins, k): the first flat index of the k-th of several axes laid
      end to end, i.e. the bin counts of the axes before it added up. */
  function Offset(bins: seq<nat>, k: nat): nat
    requires k <= |bins|
  {
    if k == 0 then 0 else Offset(bins, k - 1) + bins[k - 1]
  }

  function Total(bins: seq<nat>): nat
  {
    Offset(bins, |bins|)
  }

  /** Offsets are prefix sums, so they grow with k. */
  lemma {:induction false} OffsetMonotone(bins: seq<nat>, j: nat, k: nat)
    requires j <= k <= |bins|
    ensures Offset(bins, j) <= Offset(bins, k)
    decreases k - j
  {
    if j < k {
      OffsetMonotone(bins, j, k - 1);
    }
  }

  lemma {:induction false} OffsetCons(bins: seq<nat>, k: nat)
    requires 1 <= k <= |bins|
    ensures Offset(bins, k) == bins[0] + Offset(bins[1..], k - 1)
  {
    if k > 1 {
      OffsetCons(bins, k - 1);
    }
  }

  /** Inverse of the flattening: which axis a flat index falls into and the
      zero-based bin inside it. */
  function Unflatten(bins: seq<nat>, flat: int): (int, int)
    decreases |bins|
  {
    if |bins| == 0 || flat < bins[0] then (0, flat)
    else
      var (r, l) := Unflatten(bins[1..], flat - bins[0]);
      (r + 1, l)
  }

  /** Flattening is one-to-one: a bin l inside axis k comes back as (k, l). */
  lemma {:induction false} UnflattenOffset(bins: seq<nat>, k: nat, l: int)
    requires k < |bins| && 0 <= l < bins[k]
    ensures Unflatten(bins, Offset(bins, k) + l) == (k, l)
    decreases k
  {
    if k > 0 {
      OffsetCons(bins, k);
      UnflattenOffset(bins[1..], k - 1, l);
    }
  }

  /** The flat index of a bin inside axis k lies in [Offset(k), Offset(k+1)). */
  lemma FlatBinInBlock(bins: seq<nat>, k: nat, l: int)
    requires k < |bins| && 0 <= l < bins[k]
    ensures Offset(bins, k) <= Offset(bins, k) + l < Offset(bins, k + 1) <= Total(bins)
  {
    OffsetMonotone(bins, k + 1, |bins|);
  }

  /** The underflow index -1 of axis k > 0 is not outside the flattened
      histogram: it is the last bin of axis k - 1. */
  lemma UnderflowLandsInPreviousAxis(bins: seq<nat>, k: nat)
    requires 0 < k < |bins| && bins[k - 1] > 0
    ensures Unflatten(bins, Offset(bins, k) - 1) == (k - 1, bins[k - 1] - 1)
  {
    UnflattenOffset(bins, k - 1, bins[k - 1] - 1);
  }

  /** Symmetrically, the zero-based bin n of axis k, which a value exactly at
      its upper edge is given, is the first bin of axis k + 1. */
  lemma UpperEdgeLandsInNextAxis(bins: seq<nat>, k: nat)
    requires k + 1 < |bins| && bins[k + 1] > 0
    ensures Unflatten(bins, Offset(bins, k) + bins[k]) == (k + 1, 0)
  {
    UnflattenOffset(bins, k + 1, 0);
  }

  /** Slice flattening shift * n + local is one-to-one for 0 <= local < n. */
  lemma SliceRoundTrip(shift: int, n: nat, local: int)
    requires 0 <= local < n
    ensures (shift * n + local) / n == shift
    ensures (shift * n + local) % n == local
  {
    var f := shift * n + local;
    var q, r := f / n, f % n;
    assert (q - shift) * n == local - r;
    if q > shift {
      MulAtLeast(q - shift, n);
    } else if q < shift {
      MulAtLeast(shift - q, n);
    }
  }

  lemma MulAtLeast(a: int, n: nat)
    requires a >= 1
    ensures a * n >= n
  {
  }
}
