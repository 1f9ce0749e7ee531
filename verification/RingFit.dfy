/**
 The ring fit (`UpqDesign::fit` in `src/codec/upq.rs`), over the reals: alternating assignment, radii
 and allocation on a sorted sample, keeping the cheapest iterate.
 */
module RingFit {
  import opened Basics
  import opened RingChoice
  import opened RingCuts
  import opened PhaseAlloc

  /** The full turn enters as a parameter: nothing here depends on its value. */
  function TangentialCoeff(tau: real, phases: nat): real
    requires phases > 0
  {
    var step := tau / phases as real;
    step * step / 12.0
  }

  function Coeffs(tau: real, phases: seq<nat>): (c: seq<real>)
    requires forall i :: 0 <= i < |phases| ==> phases[i] > 0
    ensures |c| == |phases|
  {
    seq(|phases|, i requires 0 <= i < |phases| => TangentialCoeff(tau, phases[i]))
  }

  predicate SortedReals(s: seq<real>)
  {
    forall i, j :: 0 <= i <= j < |s| ==> s[i] <= s[j]
  }

  // ------------------------------------------------------------------ prefix sums and segments

  function PrefixSum(s: seq<real>, n: nat): real
    requires n <= |s|
  {
    if n == 0 then 0.0 else PrefixSum(s, n - 1) + s[n - 1]
  }

  function PrefixSquares(s: seq<real>, n: nat): real
    requires n <= |s|
  {
    if n == 0 then 0.0 else PrefixSquares(s, n - 1) + s[n - 1] * s[n - 1]
  }

  /** What the samples from `lo` to `hi` cost on one ring, one by one. */
  function SegmentCost(s: seq<real>, lo: nat, hi: nat, r: real, c: real): real
    requires lo <= hi <= |s|
  {
    if lo == hi then 0.0 else SegmentCost(s, lo, hi - 1, r, c) + Cost(s[hi - 1], r, c)
  }

  /** The closed form over a segment, from two prefix sums. */
  function SegmentFormula(n: real, sa: real, saa: real, r: real, c: real): real
  {
    saa - 2.0 * r * sa + n * r * r + r * c * sa
  }

  lemma CostExpands(a: real, r: real, c: real)
    ensures Cost(a, r, c) == a * a - 2.0 * r * a + r * r + r * c * a
  {
  }

  lemma FormulaStep(n: real, sa: real, saa: real, a: real, r: real, c: real)
    ensures SegmentFormula(n + 1.0, sa + a, saa + a * a, r, c) == SegmentFormula(n, sa, saa, r, c) + Cost(a, r, c)
  {
    CostExpands(a, r, c);
    assert r * (sa + a) == r * sa + r * a;
    assert (r * c) * (sa + a) == (r * c) * sa + (r * c) * a;
    assert (n + 1.0) * r * r == n * r * r + r * r;
  }

  /** Prefix sums give the exact cost of a segment. */
  lemma {:induction false} PrefixSumsSuffice(s: seq<real>, lo: nat, hi: nat, r: real, c: real)
    requires lo <= hi <= |s|
    ensures SegmentFormula((hi - lo) as real, PrefixSum(s, hi) - PrefixSum(s, lo),
            PrefixSquares(s, hi) - PrefixSquares(s, lo), r, c)
            == SegmentCost(s, lo, hi, r, c)
  {
    hide SegmentFormula, Cost;
    if lo < hi {
      PrefixSumsSuffice(s, lo, hi - 1, r, c);
      var a, sa, saa := s[hi - 1], PrefixSum(s, hi - 1) - PrefixSum(s, lo),
        PrefixSquares(s, hi - 1) - PrefixSquares(s, lo);
      FormulaStep((hi - 1 - lo) as real, sa, saa, a, r, c);
      assert (hi - lo) as real == (hi - 1 - lo) as real + 1.0;
      assert PrefixSum(s, hi) - PrefixSum(s, lo) == sa + a;
      assert PrefixSquares(s, hi) - PrefixSquares(s, lo) == saa + a * a;
    } else {
      NoSamples(r, c);
    }
  }

  lemma NoSamples(r: real, c: real)
    ensures SegmentFormula(0.0, 0.0, 0.0, r, c) == 0.0
  {
  }

  // ------------------------------------------------------------------ the assignment

  /** How many samples of a sorted sample are at or below a bound. */
  function CutPoint(s: seq<real>, b: Bound): (k: nat)
    requires SortedReals(s)
    ensures k <= |s|
    ensures forall j :: 0 <= j < |s| ==> (j < k <==> !Above(s[j], b))
  {
    CutFrom(s, b, 0)
  }

  function CutFrom(s: seq<real>, b: Bound, i: nat): (k: nat)
    requires SortedReals(s) && i <= |s| && forall j :: 0 <= j < i ==> !Above(s[j], b)
    ensures i <= k <= |s|
    ensures forall j :: 0 <= j < |s| ==> (j < k <==> !Above(s[j], b))
    decreases |s| - i
  {
    if i < |s| && !Above(s[i], b) then CutFrom(s, b, i + 1) else i
  }

  /** The samples assigned ring by ring, as positions where one ring's segment ends. */
  predicate IsCut(s: seq<real>, bounds: seq<Bound>, cut: seq<nat>)
  {
    && |cut| == |bounds| + 2 && cut[0] == 0 && cut[|cut| - 1] == |s|
    && (forall i, j :: 0 <= i <= j < |cut| ==> cut[i] <= cut[j])
    && (forall i, j :: 0 <= i < |cut| - 1 && cut[i] <= j < cut[i + 1] && j < |s| ==> RingOf(bounds, s[j]) == i)
  }

  /** Boundaries in order put exactly the samples of ring `i` between its cuts. */
  lemma CutsAssign(s: seq<real>, bounds: seq<Bound>, i: nat, j: nat)
    requires SortedReals(s) && Ordered(bounds) && i <= |bounds| && j < |s|
    requires i > 0 ==> Above(s[j], bounds[i - 1])
    requires i < |bounds| ==> !Above(s[j], bounds[i])
    ensures RingOf(bounds, s[j]) == i
  {
    forall t | 0 <= t < i ensures Above(s[j], bounds[t]) {
      assert !Less(bounds[i - 1], bounds[t]);
    }
    var k := RingOf(bounds, s[j]);
    hide RingOf;
    assert k >= i;
  }

  lemma CutPointsOrdered(s: seq<real>, b: Bound, b': Bound)
    requires SortedReals(s) && !Less(b', b)
    ensures CutPoint(s, b) <= CutPoint(s, b')
  {
    var k, k' := CutPoint(s, b), CutPoint(s, b');
    hide CutPoint;
    if k > 0 { assert !Above(s[k - 1], b'); }
  }

  /** The cuts; their repair loop never changes anything, because the boundaries are in order. */
  method Assign(s: seq<real>, bounds: seq<Bound>) returns (cut: seq<nat>)
    requires SortedReals(s) && Ordered(bounds)
    ensures IsCut(s, bounds, cut)
  {
    cut := [0];
    for i := 0 to |bounds|
      invariant |cut| == i + 1 && cut[0] == 0
      invariant forall j :: 1 <= j <= i ==> cut[j] == CutPoint(s, bounds[j - 1])
    {
      cut := cut + [CutPoint(s, bounds[i])];
    }
    cut := cut + [|s|];
    forall i, j | 0 <= i <= j < |cut| ensures cut[i] <= cut[j] {
      if 0 < i && j < |cut| - 1 {
        CutPointsOrdered(s, bounds[i - 1], bounds[j - 1]);
      }
    }
    ghost var unrepaired := cut;
    for i := 1 to |bounds| + 1
      invariant cut == unrepaired
    {
      var before, here := cut[i - 1], cut[i];
      cut := cut[i := if here < before then before else here];
    }
    forall i, j | 0 <= i < |cut| - 1 && cut[i] <= j < cut[i + 1] && j < |s| ensures RingOf(bounds, s[j]) == i {
      CutsAssign(s, bounds, i, j);
    }
  }

  // ------------------------------------------------------------------ one iterate

  /** The ring parameters one fit iteration assigns with. */
  datatype Iterate = Iterate(radii: seq<real>, phases: seq<nat>)

  predicate WellSized(it: Iterate, m: nat)
  {
    |it.radii| == m && |it.phases| == m && forall i :: 0 <= i < m ==> it.phases[i] > 0
  }

  function Bounds(tau: real, it: Iterate, m: nat): (b: seq<Bound>)
    requires m > 0 && WellSized(it, m)
    ensures |b| == m - 1
  {
    Cuts(it.radii, Coeffs(tau, it.phases), m - 1)
  }

  /** The cost of one sample on the ring it is assigned to. */
  function AssignedCost(tau: real, it: Iterate, m: nat, a: real): real
    requires m > 0 && WellSized(it, m)
  {
    var k := RingOf(Bounds(tau, it, m), a);
    Cost(a, it.radii[k], Coeffs(tau, it.phases)[k])
  }

  /** The first `n` samples, one by one. */
  function TotalCost(tau: real, it: Iterate, m: nat, s: seq<real>, n: nat): real
    requires m > 0 && WellSized(it, m) && n <= |s|
  {
    if n == 0 then 0.0 else TotalCost(tau, it, m, s, n - 1) + AssignedCost(tau, it, m, s[n - 1])
  }

  function MeanCost(tau: real, it: Iterate, m: nat, s: seq<real>): real
    requires m > 0 && WellSized(it, m) && s != []
  {
    TotalCost(tau, it, m, s, |s|) / |s| as real
  }

  lemma {:induction false} SegmentIsAssigned(tau: real, it: Iterate, m: nat, s: seq<real>, lo: nat, hi: nat, i: nat)
    requires m > 0 && WellSized(it, m) && lo <= hi <= |s| && i < m
    requires forall j :: lo <= j < hi ==> RingOf(Bounds(tau, it, m), s[j]) == i
    ensures TotalCost(tau, it, m, s, hi) == TotalCost(tau, it, m, s, lo)
            + SegmentCost(s, lo, hi, it.radii[i], Coeffs(tau, it.phases)[i])
  {
    if lo < hi {
      SegmentIsAssigned(tau, it, m, s, lo, hi - 1, i);
      assert AssignedCost(tau, it, m, s[hi - 1]) == Cost(s[hi - 1], it.radii[i], Coeffs(tau, it.phases)[i]);
      hide AssignedCost, Cost, Coeffs;
    }
  }

  /** The prefix-sum tables. */
  method Prefixes(s: seq<real>) returns (pa: seq<real>, paa: seq<real>)
    ensures TablesOf(s, pa, paa)
  {
    pa, paa := [0.0], [0.0];
    for i := 0 to |s|
      invariant |pa| == i + 1 && |paa| == i + 1
      invariant forall j :: 0 <= j <= i ==> pa[j] == PrefixSum(s, j) && paa[j] == PrefixSquares(s, j)
    {
      pa := pa + [pa[i] + s[i]];
      paa := paa + [paa[i] + s[i] * s[i]];
    }
  }

  /** Sums and counts of each ring's segment, as the radii update reads them. */
  datatype Stats = Stats(sums: seq<real>, counts: seq<nat>)

  function RingCount(cut: seq<nat>, i: nat): int
    requires i + 1 < |cut|
  {
    cut[i + 1] as int - cut[i] as int
  }

  function RingSum(s: seq<real>, cut: seq<nat>, i: nat): real
    requires i + 1 < |cut| && cut[i] <= |s| && cut[i + 1] <= |s|
  {
    PrefixSum(s, cut[i + 1]) - PrefixSum(s, cut[i])
  }

  predicate StatsOf(s: seq<real>, cut: seq<nat>, st: Stats, n: nat)
  {
    && |st.sums| == n && |st.counts| == n && n < |cut|
    && (forall i :: 0 <= i < |cut| ==> cut[i] <= |s|)
    && forall i :: 0 <= i < n ==> st.counts[i] == RingCount(cut, i) && st.sums[i] == RingSum(s, cut, i)
  }

  /** The prefix tables hold the prefix sums. */
  predicate TablesOf(s: seq<real>, pa: seq<real>, paa: seq<real>)
  {
    && |pa| == |s| + 1 && |paa| == |s| + 1
    && forall i :: 0 <= i <= |s| ==> pa[i] == PrefixSum(s, i) && paa[i] == PrefixSquares(s, i)
  }

  /** One ring's count, sum and cost, from two entries of each table. */
  method MeasureRing(s: seq<real>, pa: seq<real>, paa: seq<real>, cut: seq<nat>, i: nat, r: real, c: real)
    returns (count: nat, sum: real, cost: real)
    requires TablesOf(s, pa, paa) && i + 1 < |cut| && cut[i] <= cut[i + 1] <= |s|
    ensures count == RingCount(cut, i) && sum == RingSum(s, cut, i) && cost == SegmentCost(s, cut[i], cut[i + 1], r, c)
  {
    var lo, hi := cut[i], cut[i + 1];
    PrefixSumsSuffice(s, lo, hi, r, c);
    count, sum := hi - lo, pa[hi] - pa[lo];
    cost := SegmentFormula(count as real, sum, paa[hi] - paa[lo], r, c);
    hide SegmentFormula, SegmentCost;
  }

  /** Assignment, statistics and exact cost of one iterate, without looking at a sample twice. */
  method Measure(tau: real, s: seq<real>, pa: seq<real>, paa: seq<real>, it: Iterate, m: nat)
    returns (total: real, st: Stats, ghost cut: seq<nat>)
    requires m > 0 && WellSized(it, m) && SortedReals(s) && TablesOf(s, pa, paa)
    ensures total == TotalCost(tau, it, m, s, |s|)
    ensures IsCut(s, Bounds(tau, it, m), cut) && StatsOf(s, cut, st, m)
  {
    var coeffs := Coeffs(tau, it.phases);
    var bounds := RingCutBoundaries(it.radii, coeffs);
    CutsOrdered(it.radii, coeffs, m - 1);
    var cuts := Assign(s, bounds);
    cut := cuts;
    assert bounds == Bounds(tau, it, m);
    StatsStart(s, bounds, cuts);
    total, st := MeasureAll(tau, s, pa, paa, it, m, cuts);
  }

  method MeasureAll(tau: real, s: seq<real>, pa: seq<real>, paa: seq<real>, it: Iterate, m: nat,
      cut: seq<nat>) returns (total: real, st: Stats)
    requires m > 0 && WellSized(it, m) && TablesOf(s, pa, paa) && IsCut(s, Bounds(tau, it, m), cut)
    requires StatsOf(s, cut, Stats([], []), 0) && |cut| == m + 1 && cut[0] == 0 && cut[m] == |s|
    ensures total == TotalCost(tau, it, m, s, |s|) && StatsOf(s, cut, st, m)
  {
    var coeffs := Coeffs(tau, it.phases);
    assert |coeffs| == |it.radii| == m && TotalCost(tau, it, m, s, 0) == 0.0;
    assert forall i :: 0 <= i <= m ==> cut[i] <= |s|;
    total := 0.0;
    var sums, counts := [], [];
    hide *;
    for i := 0 to m
      invariant total == TotalCost(tau, it, m, s, cut[i])
      invariant StatsOf(s, cut, Stats(sums, counts), i)
    {
      SegmentTotal(tau, s, it, m, cut, i);
      var count, sum, cost := MeasureRing(s, pa, paa, cut, i, it.radii[i], coeffs[i]);
      StatsStep(s, cut, Stats(sums, counts), i, sum, count);
      total := total + cost;
      sums, counts := sums + [sum], counts + [count];
    }
    st := Stats(sums, counts);
  }

  lemma SegmentTotal(tau: real, s: seq<real>, it: Iterate, m: nat, cut: seq<nat>, i: nat)
    requires m > 0 && WellSized(it, m) && i < m && IsCut(s, Bounds(tau, it, m), cut)
    ensures |cut| == m + 1 && cut[i] <= cut[i + 1] <= |s|
    ensures TotalCost(tau, it, m, s, cut[i + 1]) ==
            TotalCost(tau, it, m, s, cut[i])
                + SegmentCost(s, cut[i], cut[i + 1], it.radii[i], Coeffs(tau, it.phases)[i])
  {
    assert cut[i + 1] <= cut[|cut| - 1];
    hide TotalCost, SegmentCost, Coeffs, RingOf;
    SegmentIsAssigned(tau, it, m, s, cut[i], cut[i + 1], i);
  }

  lemma StatsStart(s: seq<real>, bounds: seq<Bound>, cut: seq<nat>)
    requires IsCut(s, bounds, cut)
    ensures StatsOf(s, cut, Stats([], []), 0)
    ensures |cut| == |bounds| + 2 && cut[0] == 0 && cut[|bounds| + 1] == |s|
  {
    hide RingOf;
    assert forall i :: 0 <= i < |cut| ==> cut[i] <= cut[|cut| - 1];
  }

  lemma StatsStep(s: seq<real>, cut: seq<nat>, st: Stats, i: nat, sum: real, count: nat)
    requires StatsOf(s, cut, st, i) && i + 1 < |cut|
    requires cut[i] <= |s| && cut[i + 1] <= |s| && sum == RingSum(s, cut, i) && count == RingCount(cut, i)
    ensures StatsOf(s, cut, Stats(st.sums + [sum], st.counts + [count]), i + 1)
  {
    hide RingSum, RingCount;
  }

  // ------------------------------------------------------------------ the next iterate

  /** The last ring with the most samples. */
  function Densest(counts: seq<nat>): (k: nat)
    requires counts != []
    ensures k < |counts| && forall i :: 0 <= i < |counts| ==> counts[i] <= counts[k]
    ensures forall i :: k < i < |counts| ==> counts[i] < counts[k]
  {
    if |counts| == 1 then 0
    else
      var n := |counts| - 1;
      var k := Densest(counts[..n]);
      assert forall i :: 0 <= i < n ==> counts[..n][i] == counts[i];
      if counts[n] >= counts[k] then n else k
  }

  /** Radii after the first `n` are updated in place; an empty ring is respawned beside the densest. */
  function Moved(radii: seq<real>, coeffs: seq<real>, st: Stats, densest: nat, n: nat): (r: seq<real>)
    requires n <= |radii| == |coeffs| == |st.sums| == |st.counts| && densest < |radii|
    ensures |r| == |radii|
  {
    if n == 0 then radii
    else
      var before := Moved(radii, coeffs, st, densest, n - 1);
      var i := n - 1;
      before[i := if st.counts[i] > 0 then st.sums[i] / st.counts[i] as real * (1.0 - coeffs[i] / 2.0)
                  else before[densest] * (1.0 + 0.013 * (i as real + 1.0))]
  }

  /** Distinct positions, by radius, equal ones in their old order. */
  predicate StablySorted(radii: seq<real>, o: seq<nat>)
  {
    && (forall i :: 0 <= i < |o| ==> o[i] < |radii|)
    && forall i, j :: 0 <= i < j < |o| ==>
         radii[o[i]] < radii[o[j]] || (radii[o[i]] == radii[o[j]] && o[i] < o[j])
  }

  /** The positions of `radii` below `n`, each once. */
  function Order(radii: seq<real>, n: nat): (o: seq<nat>)
    requires n <= |radii|
    ensures |o| == n && StablySorted(radii, o) && (forall i :: 0 <= i < n ==> o[i] < n)
  {
    if n == 0 then []
    else
      var before := Order(radii, n - 1);
      InsertAt(radii, before, n - 1, |before|)
  }

  /** `before` with `x` put in after the last of its first `i` entries that is no larger. */
  function InsertAt(radii: seq<real>, before: seq<nat>, x: nat, i: nat): (o: seq<nat>)
    requires x < |radii| && i <= |before| && StablySorted(radii, before)
    requires forall j :: 0 <= j < |before| ==> before[j] < x
    requires forall j :: i <= j < |before| ==> radii[before[j]] > radii[x]
    ensures |o| == |before| + 1 && StablySorted(radii, o) && (forall j :: 0 <= j < |o| ==> o[j] <= x)
  {
    if i > 0 && radii[before[i - 1]] > radii[x] then InsertAt(radii, before, x, i - 1)
    else
      InsertedSorted(radii, before, x, i);
      before[..i] + [x] + before[i..]
  }

  /** `x`, the latest position, goes after all that are no larger and before all that are larger. */
  lemma InsertedSorted(radii: seq<real>, before: seq<nat>, x: nat, i: nat)
    requires x < |radii| && i <= |before| && StablySorted(radii, before)
    requires forall j :: 0 <= j < |before| ==> before[j] < x
    requires forall j :: i <= j < |before| ==> radii[before[j]] > radii[x]
    requires i > 0 ==> radii[before[i - 1]] <= radii[x]
    ensures StablySorted(radii, before[..i] + [x] + before[i..])
    ensures forall j :: 0 <= j <= |before| ==> (before[..i] + [x] + before[i..])[j] <= x
  {
    var o := before[..i] + [x] + before[i..];
    assert forall j :: 0 <= j < i ==> o[j] == before[j] && radii[before[j]] <= radii[x];
    assert o[i] == x && forall j :: i < j < |o| ==> o[j] == before[j - 1];
  }

  function Permuted<T>(s: seq<T>, order: seq<nat>): (r: seq<T>)
    requires forall i :: 0 <= i < |order| ==> order[i] < |s|
    ensures |r| == |order|
  {
    seq(|order|, i requires 0 <= i < |order| => s[order[i]])
  }

  lemma SortedInOrder(radii: seq<real>, o: seq<nat>)
    requires StablySorted(radii, o)
    ensures SortedReals(Permuted(radii, o))
  {
  }

  function Weights(tau: real, radii: seq<real>, st: Stats): (w: seq<real>)
    requires |radii| == |st.sums| == |st.counts|
    ensures |w| == |radii|
  {
    seq(|radii|, i requires 0 <= i < |radii| =>
      var mean := if st.counts[i] > 0 then st.sums[i] / st.counts[i] as real else 0.0;
      st.counts[i] as real * mean * radii[i] * (tau * tau) / 12.0)
  }

  /** The radii of the next iterate and the weights its phases are allocated by. */
  function Refined(tau: real, it: Iterate, m: nat, st: Stats): (r: (seq<real>, seq<real>))
    requires m > 0 && WellSized(it, m) && |st.sums| == m && |st.counts| == m
    ensures |r.0| == m && |r.1| == m && SortedReals(r.0)
  {
    var moved := Moved(it.radii, Coeffs(tau, it.phases), st, Densest(st.counts), m);
    var order := Order(moved, m);
    var radii := Permuted(moved, order);
    SortedInOrder(moved, order);
    (radii, Weights(tau, radii, Stats(Permuted(st.sums, order), Permuted(st.counts, order))))
  }

  /** One iterate follows from another: same update, and an allocation of the kind `AllocPow2` returns. */
  ghost predicate Follows(tau: real, s: seq<real>, m: nat, cells: nat, it: Iterate, next: Iterate)
    requires m > 0 && WellSized(it, m)
  {
    && WellSized(next, m)
    && exists cut, st ::
         && IsCut(s, Bounds(tau, it, m), cut) && StatsOf(s, cut, st, m)
         && next.radii == Refined(tau, it, m, st).0
         && Allocated(Refined(tau, it, m, st).1, next.phases, cells)
  }

  ghost predicate Allocated(weights: seq<real>, phases: seq<nat>, cells: nat)
  {
    && |phases| == |weights| && (forall i :: 0 <= i < |phases| ==> GoodCount(phases[i])) && Fair(weights, phases)
    && GreedyResult(weights, cells, phases)
    && (MIN_RING_PHASES * |weights| <= cells ==>
          Sum(phases) <= cells && forall i :: 0 <= i < |phases| ==> Sum(phases) + phases[i] > cells)
    && (MIN_RING_PHASES * |weights| > cells ==> forall i :: 0 <= i < |phases| ==> phases[i] == MIN_RING_PHASES)
  }

  predicate AllSized(its: seq<Iterate>, m: nat)
  {
    forall i :: 0 <= i < |its| ==> WellSized(its[i], m)
  }

  /** The iterates of a fit, in order. */
  ghost predicate IsFitRun(tau: real, s: seq<real>, m: nat, cells: nat, its: seq<Iterate>)
    requires m > 0
  {
    && AllSized(its, m)
    && forall k :: 0 <= k < |its| - 1 ==> StepAt(tau, s, m, cells, its, k)
  }

  ghost predicate StepAt(tau: real, s: seq<real>, m: nat, cells: nat, its: seq<Iterate>, k: nat)
    requires m > 0 && AllSized(its, m) && k + 1 < |its|
  {
    Follows(tau, s, m, cells, its[k], its[k + 1])
  }

  // ------------------------------------------------------------------ the whole fit

  const FIT_ITERS: nat := 30

  /** `k` is the first of the cheapest iterates. */
  predicate FirstCheapest(tau: real, s: seq<real>, m: nat, its: seq<Iterate>, k: nat)
    requires m > 0 && s != [] && AllSized(its, m)
  {
    && k < |its|
    && forall i :: 0 <= i < |its| ==>
         && MeanCost(tau, its[k], m, s) <= MeanCost(tau, its[i], m, s)
         && (i < k ==> MeanCost(tau, its[k], m, s) < MeanCost(tau, its[i], m, s))
  }

  datatype Design = Design(cells: nat, radii: seq<real>, phases: seq<nat>, bases: seq<nat>, boundaries: seq<Bound>,
      cost: real)

  /** First cell of each ring. */
  function Bases(phases: seq<nat>): (b: seq<nat>)
    ensures |b| == |phases|
  {
    seq(|phases|, i requires 0 <= i < |phases| => Sum(phases[..i]))
  }

  method RefineIterate(tau: real, cells: nat, it: Iterate, m: nat, st: Stats) returns (next: Iterate)
    requires m > 0 && WellSized(it, m) && |st.sums| == m && |st.counts| == m
    ensures next.radii == Refined(tau, it, m, st).0 && Allocated(Refined(tau, it, m, st).1, next.phases, cells)
    ensures WellSized(next, m)
  {
    var refined := Refined(tau, it, m, st);
    hide Refined, Fair;
    var phases := AllocPow2(refined.1, cells);
    next := Iterate(refined.0, phases);
  }

  lemma StartSized(initial: seq<real>, cells: nat)
    requires 0 < |initial| <= cells
    ensures WellSized(Iterate(initial, seq(|initial|, _ => cells / |initial|)), |initial|)
  {
    AtLeastOne(cells, |initial|);
  }

  lemma AtLeastOne(a: nat, b: nat)
    requires 0 < b <= a
    ensures a / b >= 1
  {
    assert a == b * (a / b) + a % b && a % b < b;
  }

  lemma RunStarts(tau: real, s: seq<real>, m: nat, cells: nat, it: Iterate)
    requires m > 0 && WellSized(it, m)
    ensures IsFitRun(tau, s, m, cells, [] + [it])
  {
    hide WellSized, Follows;
  }

  lemma RunStep(tau: real, s: seq<real>, m: nat, cells: nat, its: seq<Iterate>, it: Iterate, next: Iterate,
      cut: seq<nat>, st: Stats)
    requires m > 0 && WellSized(it, m) && WellSized(next, m) && IsFitRun(tau, s, m, cells, its + [it])
    requires IsCut(s, Bounds(tau, it, m), cut) && StatsOf(s, cut, st, m)
    requires next.radii == Refined(tau, it, m, st).0 && Allocated(Refined(tau, it, m, st).1, next.phases, cells)
    ensures AllSized(its, m) && AllSized(its + [it], m) && IsFitRun(tau, s, m, cells, its + [it] + [next])
  {
    assert Follows(tau, s, m, cells, it, next);
    hide *;
    RunSnoc(tau, s, m, cells, its, it, next);
  }

  lemma SizedSnoc(its: seq<Iterate>, it: Iterate, m: nat)
    ensures AllSized(its + [it], m) <==> AllSized(its, m) && WellSized(it, m)
  {
    hide WellSized;
    var all := its + [it];
    if AllSized(all, m) {
      assert WellSized(all[|its|], m);
      forall i | 0 <= i < |its| ensures WellSized(its[i], m) { assert WellSized(all[i], m); }
    }
  }

  lemma RunSnoc(tau: real, s: seq<real>, m: nat, cells: nat, its: seq<Iterate>, it: Iterate, next: Iterate)
    requires m > 0 && WellSized(it, m) && WellSized(next, m) && IsFitRun(tau, s, m, cells, its + [it])
    requires Follows(tau, s, m, cells, it, next)
    ensures AllSized(its, m) && AllSized(its + [it], m) && IsFitRun(tau, s, m, cells, its + [it] + [next])
  {
    SizedSnoc(its, it, m);
    SizedSnoc(its + [it], next, m);
    hide WellSized, Follows, AllSized;
    var before, after := its + [it], its + [it] + [next];
    forall k | 0 <= k < |after| - 1 ensures StepAt(tau, s, m, cells, after, k) {
      if k < |before| - 1 {
        assert StepAt(tau, s, m, cells, before, k);
        assert after[k] == before[k] && after[k + 1] == before[k + 1];
      } else {
        assert after[k] == it && after[k + 1] == next;
      }
    }
  }

  lemma RunPrefix(tau: real, s: seq<real>, m: nat, cells: nat, its: seq<Iterate>, it: Iterate)
    requires m > 0 && IsFitRun(tau, s, m, cells, its + [it])
    ensures AllSized(its, m) && IsFitRun(tau, s, m, cells, its)
  {
    hide WellSized, Follows;
    var all := its + [it];
    assert forall i :: 0 <= i < |its| ==> its[i] == all[i];
    forall k | 0 <= k < |its| - 1 ensures StepAt(tau, s, m, cells, its, k) { assert StepAt(tau, s, m, cells, all, k); }
  }

  lemma SizedHas(its: seq<Iterate>, m: nat, k: nat)
    requires AllSized(its, m) && k < |its|
    ensures WellSized(its[k], m)
  {
  }

  lemma StatsSized(s: seq<real>, cut: seq<nat>, st: Stats, m: nat)
    requires StatsOf(s, cut, st, m)
    ensures |st.sums| == m && |st.counts| == m
  {
  }

  lemma MeanOf(tau: real, it: Iterate, m: nat, s: seq<real>, total: real)
    requires m > 0 && WellSized(it, m) && s != [] && total == TotalCost(tau, it, m, s, |s|)
    ensures MeanCost(tau, it, m, s) == total / |s| as real
  {
  }

  /** Keeping the new iterate only when it is strictly cheaper keeps the first cheapest. */
  lemma CheapestStep(tau: real, s: seq<real>, m: nat, its: seq<Iterate>, best: nat, it: Iterate)
    requires m > 0 && s != [] && AllSized(its, m) && WellSized(it, m)
    requires its != [] ==> FirstCheapest(tau, s, m, its, best)
    ensures AllSized(its + [it], m)
    ensures its == [] || MeanCost(tau, it, m, s) < MeanCost(tau, its[best], m, s) ==>
            FirstCheapest(tau, s, m, its + [it], |its|)
    ensures its != [] && MeanCost(tau, it, m, s) >= MeanCost(tau, its[best], m, s) ==>
            FirstCheapest(tau, s, m, its + [it], best)
  {
    hide MeanCost, WellSized;
    var all := its + [it];
    assert forall i :: 0 <= i < |its| ==> all[i] == its[i];
  }

  /** `its` is what the iterations went through, `best` the one kept, and `r` what is made of it. */
  ghost predicate FitChooses(tau: real, s: seq<real>, initial: seq<real>, cells: nat, its: seq<Iterate>, best: nat,
      r: Result<Design>)
  {
    var m := |initial|;
    && 0 < m <= cells && s != []
    && |its| == FIT_ITERS && its[0] == Iterate(initial, seq(m, _ => cells / m))
    && IsFitRun(tau, s, m, cells, its) && FirstCheapest(tau, s, m, its, best)
    && r == if Sum(its[best].phases) > cells then Err(BadDesign)
            else Ok(DesignOf(tau, its[best], m, cells, s))
  }

  function DesignOf(tau: real, it: Iterate, m: nat, cells: nat, s: seq<real>): Design
    requires m > 0 && WellSized(it, m) && s != []
  {
    Design(cells, it.radii, it.phases, Bases(it.phases), Bounds(tau, it, m), MeanCost(tau, it, m, s))
  }

  /**
   The fit from initial radii: the design is the first cheapest of thirty iterates, its cost the mean
   over the samples of what each costs on its ring.
   */
  method Fit(tau: real, s: seq<real>, initial: seq<real>, cells: nat) returns (r: Result<Design>)
    requires SortedReals(s) && |initial| <= cells
    ensures s == [] || |initial| < 2 ==> r == Err(BadDesign)
    ensures s != [] && |initial| >= 2 ==> exists its, best: nat :: FitChooses(tau, s, initial, cells, its, best, r)
  {
    if s == [] || |initial| < 2 { return Err(BadDesign); }
    ghost var its: seq<Iterate>, best: nat := [], 0;
    var m := |initial|;
    var pa, paa := Prefixes(s);
    var it := Iterate(initial, seq(m, _ => cells / m));
    StartSized(initial, cells);
    var kept, cost := it, 0.0;
    hide IsFitRun, WellSized, MeanCost, TotalCost, Bounds, Refined, Allocated, StatsOf;
    RunStarts(tau, s, m, cells, it);
    for n := 0 to FIT_ITERS
      invariant |its| == n && WellSized(it, m) && IsFitRun(tau, s, m, cells, its + [it])
      invariant (its + [it])[0] == Iterate(initial, seq(m, _ => cells / m))
      invariant AllSized(its, m)
      invariant n > 0 ==> FirstCheapest(tau, s, m, its, best) && kept == its[best] && cost == MeanCost(tau, kept, m, s)
    {
      var total, st, cut := Measure(tau, s, pa, paa, it, m);
      var mean := total / |s| as real;
      MeanOf(tau, it, m, s, total);
      CheapestStep(tau, s, m, its, best, it);
      if n == 0 || mean < cost {
        kept, cost := it, mean;
        best := n;
      }
      StatsSized(s, cut, st, m);
      var next := RefineIterate(tau, cells, it, m, st);
      RunStep(tau, s, m, cells, its, it, next, cut, st);
      its := its + [it];
      it := next;
    }
    RunPrefix(tau, s, m, cells, its, it);
    SizedHas(its, m, best);
    r := if Sum(kept.phases) > cells then Err(BadDesign)
         else Ok(Design(cells, kept.radii, kept.phases, Bases(kept.phases), Bounds(tau, kept, m), cost));
    assert FitChooses(tau, s, initial, cells, its, best, r);
  }

  // ------------------------------------------------------------------ what the fit guarantees

  /** The assigned cost is the minimum over all rings, for every amplitude, exactly if the rings pass the check. */
  lemma AssignedIsCheapest(tau: real, it: Iterate, m: nat)
    requires m > 0 && WellSized(it, m) && AscendingRadii(it.radii)
    ensures (forall a: real, j: nat :: a >= 0.0 && j < m ==>
            AssignedCost(tau, it, m, a) <= Cost(a, it.radii[j], Coeffs(tau, it.phases)[j]))
            <==> Exact(it.radii, Coeffs(tau, it.phases))
  {
    var c := Coeffs(tau, it.phases);
    assert |it.radii| == |c| == m;
    CheapestIffExact(it.radii, c);
    hide *;
    forall a: real, j: nat | a >= 0.0 && j < m
      ensures AssignedCost(tau, it, m, a) <= Cost(a, it.radii[j], c[j]) <==> NoWorse(it.radii, c, a, j)
    {
      SameTest(tau, it, m, a, j);
    }
    TestsAll(it.radii, c);
  }

  lemma SameTest(tau: real, it: Iterate, m: nat, a: real, j: nat)
    requires m > 0 && WellSized(it, m) && j < m
    ensures AssignedCost(tau, it, m, a) <= Cost(a, it.radii[j], Coeffs(tau, it.phases)[j])
            <==> NoWorse(it.radii, Coeffs(tau, it.phases), a, j)
  {
    hide Cost, Cuts, RingOf, Coeffs;
  }

  lemma TestsAll(radii: seq<real>, coeffs: seq<real>)
    requires |radii| == |coeffs|
    ensures PicksCheapest(radii, coeffs) <==>
            forall a: real, j: nat :: a >= 0.0 && j < |radii| ==> NoWorse(radii, coeffs, a, j)
  {
    hide NoWorse;
  }

  lemma {:induction false} EvenSplitFits(m: nat, p: nat)
    ensures Sum(seq(m, _ => p)) == m * p
  {
    if m > 0 {
      EvenSplitFits(m - 1, p);
      assert seq(m, _ => p)[..m - 1] == seq(m - 1, _ => p);
    }
  }

  lemma QuotientFits(cells: nat, m: nat)
    requires m > 0
    ensures m * (cells / m) <= cells
  {
    assert cells == m * (cells / m) + cells % m;
  }

  /** With four cells or more per ring, no iterate can overflow, so the fit always returns a design. */
  lemma FitSucceeds(tau: real, s: seq<real>, m: nat, cells: nat, its: seq<Iterate>, k: nat)
    requires 0 < m && MIN_RING_PHASES * m <= cells && IsFitRun(tau, s, m, cells, its) && k < |its|
    requires its[0].phases == seq(m, _ => cells / m)
    ensures WellSized(its[k], m) && Sum(its[k].phases) <= cells
    ensures k > 0 ==> SortedReals(its[k].radii) && forall i :: 0 <= i < m ==> GoodCount(its[k].phases[i])
  {
    assert WellSized(its[k], m);
    if k == 0 {
      EvenSplitFits(m, cells / m);
      QuotientFits(cells, m);
    } else {
      assert WellSized(its[k - 1], m)
        && Follows(tau, s, m, cells, its[k - 1], its[k]) by { FollowsAt(tau, s, m, cells, its, k); }
      hide IsCut, StatsOf, Bounds;
    }
  }

  lemma FollowsAt(tau: real, s: seq<real>, m: nat, cells: nat, its: seq<Iterate>, k: nat)
    requires 0 < m && IsFitRun(tau, s, m, cells, its) && 0 < k < |its|
    ensures WellSized(its[k - 1], m) && Follows(tau, s, m, cells, its[k - 1], its[k])
  {
    hide Follows, WellSized;
    assert StepAt(tau, s, m, cells, its, k - 1);
  }
}
