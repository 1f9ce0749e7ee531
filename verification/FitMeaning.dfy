/**
 What one refinement of a ring fit achieves (`UpqDesign::fit` in `src/codec/upq.rs`), said of the costs
 of the samples: each ring moves to the radius that is cheapest for its samples, and the allocation
 weights are those samples' phase costs.
 */
module FitMeaning {
  import opened Basics
  import opened RingCuts
  import opened PhaseAlloc
  import opened RingFit
  import opened FitResults

  // ------------------------------------------------------------------ the tangential coefficient

  /** Twice the distance of the `n`-th of `m` midpoints from the centre, in parts. */
  function Offset(n: nat, m: nat): real
  {
    2.0 * n as real - 1.0 - m as real
  }

  function OffsetSquares(n: nat, m: nat): real
  {
    if n == 0 then 0.0 else OffsetSquares(n - 1, m) + Offset(n, m) * Offset(n, m)
  }

  lemma {:induction false} OffsetSum(n: nat, m: nat)
    ensures var k, w := n as real, m as real;
            3.0 * OffsetSquares(n, m) == 4.0 * (k * k * k) - k - 6.0 * (w * (k * k)) + 3.0 * (k * (w * w))
  {
    if n > 0 {
      OffsetSum(n - 1, m);
      hide OffsetSquares;
      OffsetStep((n - 1) as real, m as real);
      assert n as real == (n - 1) as real + 1.0;
      assert OffsetSquares(n, m) == OffsetSquares(n - 1, m) + Offset(n, m) * Offset(n, m) by { OffsetUnfolds(n, m); }
    }
  }

  lemma OffsetUnfolds(n: nat, m: nat)
    requires n > 0
    ensures OffsetSquares(n, m) == OffsetSquares(n - 1, m) + Offset(n, m) * Offset(n, m)
  {
  }

  lemma OffsetStep(j: real, w: real)
    ensures var k, x := j + 1.0, 2.0 * (j + 1.0) - 1.0 - w;
            4.0 * (k * k * k) - k - 6.0 * (w * (k * k)) + 3.0 * (k * (w * w)) ==
            4.0 * (j * j * j) - j - 6.0 * (w * (j * j)) + 3.0 * (j * (w * w)) + 3.0 * (x * x)
  {
  }

  /** Sum of the squares of the first `n` of `m` angles spread evenly, `part` apart, around zero. */
  function AngleSquares(part: real, n: nat, m: nat): real
  {
    if n == 0 then 0.0
    else
      var angle := part * (Offset(n, m) / 2.0);
      AngleSquares(part, n - 1, m) + angle * angle
  }

  lemma {:induction false} AnglesAreOffsets(part: real, n: nat, m: nat)
    ensures AngleSquares(part, n, m) == part * part * OffsetSquares(n, m) / 4.0
  {
    if n > 0 {
      AnglesAreOffsets(part, n - 1, m);
      AngleStep(part, Offset(n, m), OffsetSquares(n - 1, m));
    }
  }

  lemma AngleStep(part: real, x: real, sum: real)
    ensures part * part * sum / 4.0 + part * (x / 2.0) * (part * (x / 2.0)) == part * part * (sum + x * x) / 4.0
  {
  }

  /**
   The tangential coefficient of a ring is the mean square angle error within one of its phase steps:
   over `m` angles spread evenly over the step it is that exactly, up to a factor `1 - 1 / m^2`.
   */
  lemma CoeffIsMeanSquare(tau: real, p: nat, m: nat)
    requires p > 0 && m > 0
    ensures var step := tau / p as real;
            m as real * AngleSquares(step / m as real, m, m) == TangentialCoeff(tau, p) * (m as real * m as real - 1.0)
  {
    var step, w := tau / p as real, m as real;
    var part := step / w;
    OffsetSum(m, m);
    AnglesAreOffsets(part, m, m);
    assert part * w == step;
    assert TangentialCoeff(tau, p) == step * step / 12.0;
    hide *;
    FullStep(part, w, step, OffsetSquares(m, m));
  }

  lemma FullStep(part: real, w: real, step: real, sum: real)
    requires part * w == step
    requires 3.0 * sum == 4.0 * (w * w * w) - w - 6.0 * (w * (w * w)) + 3.0 * (w * (w * w))
    ensures w * (part * part * sum / 4.0) == step * step / 12.0 * (w * w - 1.0)
  {
    assert 3.0 * sum == w * (w * w - 1.0);
    Products(part, w, sum, w * w - 1.0);
  }

  lemma Products(part: real, w: real, sum: real, d: real)
    requires 3.0 * sum == w * d
    ensures w * (part * part * sum / 4.0) == part * w * (part * w) / 12.0 * d
  {
    var q := part * part;
    assert w * (q * sum / 4.0) == w * q * sum / 4.0;
    assert part * w * (part * w) == q * w * w;
    assert w * q * sum * 3.0 == w * q * (w * d);
  }

  // ------------------------------------------------------------------ the radius of a ring with samples

  /** `r` is the one radius at which the samples from `lo` to `hi` cost least. */
  ghost predicate Minimises(s: seq<real>, lo: nat, hi: nat, c: real, r: real)
  {
    lo < hi <= |s|
    && forall q :: SegmentCost(s, lo, hi, r, c) <= SegmentCost(s, lo, hi, q, c)
         && (q != r ==> SegmentCost(s, lo, hi, r, c) < SegmentCost(s, lo, hi, q, c))
  }

  /** The mean of `n` samples shrunk by half a coefficient. */
  function Shrunk(n: real, sa: real, c: real): real
    requires n > 0.0
  {
    sa / n * (1.0 - c / 2.0)
  }

  function Apartness(n: real, q: real, r: real): real
  {
    n * Squared(q - r)
  }

  function Squared(d: real): real
  {
    d * d
  }

  /** Completing the square: moving the radius by `q - r` costs `n (q - r)^2`. */
  lemma SquareCompleted(n: real, sa: real, saa: real, c: real, q: real)
    requires n > 0.0
    ensures SegmentFormula(n, sa, saa, q, c) ==
            SegmentFormula(n, sa, saa, Shrunk(n, sa, c), c) + Apartness(n, q, Shrunk(n, sa, c))
  {
    var r := Shrunk(n, sa, c);
    var mean, f := sa / n, 1.0 - c / 2.0;
    assert mean * n == sa;
    Expanded(n, sa, saa, c, q);
    Expanded(n, sa, saa, c, r);
    hide SegmentFormula;
    Apart(n, sa * f, q, r);
  }

  lemma Apart(n: real, v: real, q: real, r: real)
    requires v == n * r
    ensures n * (q * q) - 2.0 * (q * v) - (n * (r * r) - 2.0 * (r * v)) == n * ((q - r) * (q - r))
  {
    assert q * v == n * (q * r) && r * v == n * (r * r);
    assert (q - r) * (q - r) == q * q - 2.0 * (q * r) + r * r;
  }

  lemma Expanded(n: real, sa: real, saa: real, c: real, q: real)
    ensures SegmentFormula(n, sa, saa, q, c) == saa - 2.0 * (q * (sa * (1.0 - c / 2.0))) + n * (q * q)
  {
    var y := q * sa;
    assert 2.0 * q * sa == 2.0 * y && q * c * sa == y * c && n * q * q == n * (q * q);
    assert q * (sa * (1.0 - c / 2.0)) == y * (1.0 - c / 2.0);
  }

  lemma ApartPositive(n: real, q: real, r: real)
    requires n > 0.0
    ensures Apartness(n, q, r) >= 0.0 && (q != r ==> Apartness(n, q, r) > 0.0)
  {
    SquaredNonnegative(q - r);
    if q != r { SquaredPositive(q - r); }
    hide Squared;
    Positive(n, Squared(q - r));
  }

  lemma SquaredNonnegative(d: real)
    ensures Squared(d) >= 0.0
  {
  }

  lemma SquaredPositive(d: real)
    requires d != 0.0
    ensures Squared(d) > 0.0
  {
    if d > 0.0 { Product(d, d, Squared(d)); } else { Product(-d, -d, Squared(d)); }
  }

  lemma Positive(n: real, x: real)
    requires n > 0.0 && x >= 0.0
    ensures n * x >= 0.0 && (x > 0.0 ==> n * x > 0.0)
  {
    if x > 0.0 { Product(n, x, n * x); } else { assert n * 0.0 == 0.0; }
  }

  lemma Product(x: real, y: real, z: real)
    requires x > 0.0 && y > 0.0 && z == x * y
    ensures z > 0.0
  {
  }

  /** The mean of a ring's samples, shrunk by half its tangential coefficient, is its best radius. */
  lemma ShrunkMeanMinimises(s: seq<real>, lo: nat, hi: nat, c: real)
    requires lo < hi <= |s|
    ensures Minimises(s, lo, hi, c, Shrunk((hi - lo) as real, PrefixSum(s, hi) - PrefixSum(s, lo), c))
  {
    var n, sa, saa := (hi - lo) as real, PrefixSum(s, hi) - PrefixSum(s, lo),
      PrefixSquares(s, hi) - PrefixSquares(s, lo);
    var r := Shrunk(n, sa, c);
    hide Shrunk, Apartness, SegmentFormula, SegmentCost, PrefixSum, PrefixSquares;
    PrefixSumsSuffice(s, lo, hi, r, c);
    forall q ensures SegmentCost(s, lo, hi, r, c) <= SegmentCost(s, lo, hi, q, c)
                     && (q != r ==> SegmentCost(s, lo, hi, r, c) < SegmentCost(s, lo, hi, q, c))
    {
      PrefixSumsSuffice(s, lo, hi, q, c);
      SquareCompleted(n, sa, saa, c, q);
      ApartPositive(n, q, r);
    }
  }

  // ------------------------------------------------------------------ all rings

  lemma {:induction false} MovedLater(radii: seq<real>, coeffs: seq<real>, st: Stats, densest: nat, k: nat, n: nat)
    requires k <= n <= |radii| == |coeffs| == |st.sums| == |st.counts| && densest < |radii|
    ensures forall i :: 0 <= i < k ==>
            Moved(radii, coeffs, st, densest, n)[i] == Moved(radii, coeffs, st, densest, k)[i]
    ensures forall i :: n <= i < |radii| ==> Moved(radii, coeffs, st, densest, n)[i] == radii[i]
    decreases n
  {
    if n > 0 { MovedLater(radii, coeffs, st, densest, if k < n then k else n - 1, n - 1); }
  }

  /** A little beyond `b`, each ring at its own distance. */
  function Respawned(b: real, i: nat): real
  {
    b * (1.0 + 0.013 * (i as real + 1.0))
  }

  lemma MovedAt(radii: seq<real>, coeffs: seq<real>, st: Stats, densest: nat, i: nat)
    requires i < |radii| == |coeffs| == |st.sums| == |st.counts| && densest < |radii|
    ensures Moved(radii, coeffs, st, densest, i + 1)[i] ==
            if st.counts[i] > 0 then Shrunk(st.counts[i] as real, st.sums[i], coeffs[i])
            else Respawned(Moved(radii, coeffs, st, densest, i)[densest], i)
  {
  }

  /** A ring's samples are those between two cuts. */
  function Size(cut: seq<nat>, i: nat): int
    requires i + 1 < |cut|
  {
    cut[i + 1] as int - cut[i] as int
  }

  /** The last ring with the most samples. */
  predicate Fullest(cut: seq<nat>, m: nat, d: nat)
    requires |cut| == m + 1
  {
    d < m && (forall i :: 0 <= i < m ==> Size(cut, i) <= Size(cut, d))
    && forall i :: d < i < m ==> Size(cut, i) < Size(cut, d)
  }

  /** Where the respawn of ring `i` starts: the fullest ring, already moved if it comes before. */
  ghost predicate RespawnBase(tau: real, s: seq<real>, it: Iterate, m: nat, cut: seq<nat>, i: nat, b: real)
    requires m > 0 && WellSized(it, m) && |cut| == m + 1
  {
    exists d: nat :: Fullest(cut, m, d)
      && if d < i then Minimises(s, cut[d], cut[d + 1], TangentialCoeff(tau, it.phases[d]), b) else b == it.radii[d]
  }

  /** The new radius of ring `i`: the best one for its samples, or a little beyond the fullest ring. */
  ghost predicate NewRadius(tau: real, s: seq<real>, it: Iterate, m: nat, cut: seq<nat>, i: nat, r: real)
    requires m > 0 && WellSized(it, m) && |cut| == m + 1 && i < m
  {
    if cut[i] < cut[i + 1] then Minimises(s, cut[i], cut[i + 1], TangentialCoeff(tau, it.phases[i]), r)
    else exists b :: RespawnBase(tau, s, it, m, cut, i, b) && r == Respawned(b, i)
  }

  lemma {:induction false} SomeSamples(cut: seq<nat>, m: nat, d: nat)
    requires |cut| == m + 1 && m > 0 && cut[0] < cut[m] && Fullest(cut, m, d)
    ensures Size(cut, d) > 0
  {
    if Size(cut, d) <= 0 { NoneGrow(cut, m); }
  }

  lemma {:induction false} NoneGrow(cut: seq<nat>, k: nat)
    requires k < |cut| && forall i :: 0 <= i < k ==> Size(cut, i) <= 0
    ensures cut[k] <= cut[0]
  {
    if k > 0 {
      NoneGrow(cut, k - 1);
      assert Size(cut, k - 1) <= 0;
    }
  }

  /** A ring with samples moves to its best radius. */
  lemma MovedIsBest(tau: real, s: seq<real>, it: Iterate, m: nat, cut: seq<nat>, st: Stats, densest: nat, n: nat,
      i: nat)
    requires m > 0 && WellSized(it, m) && |cut| == m + 1 && StatsOf(s, cut, st, m) && densest < m && i < n <= m
    requires cut[i] < cut[i + 1]
    ensures Minimises(s, cut[i], cut[i + 1], TangentialCoeff(tau, it.phases[i]),
                      Moved(it.radii, Coeffs(tau, it.phases), st, densest, n)[i])
  {
    var c := Coeffs(tau, it.phases);
    MovedLater(it.radii, c, st, densest, i + 1, n);
    assert st.counts[i] == cut[i + 1] - cut[i] && st.sums[i] == PrefixSum(s, cut[i + 1]) - PrefixSum(s, cut[i]);
    assert c[i] == TangentialCoeff(tau, it.phases[i]);
    MovedAt(it.radii, c, st, densest, i);
    hide *;
    ShrunkMeanMinimises(s, cut[i], cut[i + 1], c[i]);
  }

  lemma MovedRespawns(tau: real, s: seq<real>, it: Iterate, m: nat, cut: seq<nat>, st: Stats, densest: nat, i: nat)
    requires m > 0 && WellSized(it, m) && |cut| == m + 1 && StatsOf(s, cut, st, m) && i < m
    requires Fullest(cut, m, densest) && cut[0] < cut[m] && cut[i] >= cut[i + 1]
    ensures var b := Moved(it.radii, Coeffs(tau, it.phases), st, densest, i)[densest];
            && RespawnBase(tau, s, it, m, cut, i, b)
            && Moved(it.radii, Coeffs(tau, it.phases), st, densest, m)[i] == Respawned(b, i)
  {
    var c := Coeffs(tau, it.phases);
    SomeSamples(cut, m, densest);
    MovedLater(it.radii, c, st, densest, i + 1, m);
    MovedLater(it.radii, c, st, densest, i, i);
    assert st.counts[i] == 0 && |st.sums| == |st.counts| == m && cut[densest] < cut[densest + 1];
    MovedAt(it.radii, c, st, densest, i);
    hide Moved, Minimises, TangentialCoeff, Coeffs, StatsOf, Fullest;
    if densest < i { MovedIsBest(tau, s, it, m, cut, st, densest, i, densest); }
  }

  lemma DensestIsFullest(s: seq<real>, cut: seq<nat>, st: Stats, m: nat)
    requires m > 0 && |cut| == m + 1 && StatsOf(s, cut, st, m)
    ensures Fullest(cut, m, Densest(st.counts))
  {
    forall i | 0 <= i < m ensures st.counts[i] == Size(cut, i) { assert st.counts[i] == RingCount(cut, i); }
    hide RingSum;
  }

  lemma MovedIsNew(tau: real, s: seq<real>, it: Iterate, m: nat, cut: seq<nat>, st: Stats, i: nat)
    requires m > 0 && WellSized(it, m) && |cut| == m + 1 && StatsOf(s, cut, st, m) && i < m && cut[0] < cut[m]
    ensures NewRadius(tau, s, it, m, cut, i, Moved(it.radii, Coeffs(tau, it.phases), st, Densest(st.counts), m)[i])
  {
    DensestIsFullest(s, cut, st, m);
    assert |st.counts| == m && |st.sums| == m;
    hide *;
    if cut[i] < cut[i + 1] {
      MovedIsBest(tau, s, it, m, cut, st, Densest(st.counts), m, i);
    } else {
      MovedRespawns(tau, s, it, m, cut, st, Densest(st.counts), i);
    }
    Renewed(tau, s, it, m, cut, i, Moved(it.radii, Coeffs(tau, it.phases), st, Densest(st.counts), m)[i],
        Moved(it.radii, Coeffs(tau, it.phases), st, Densest(st.counts), i)[Densest(st.counts)]);
  }

  lemma Renewed(tau: real, s: seq<real>, it: Iterate, m: nat, cut: seq<nat>, i: nat, r: real, b: real)
    requires m > 0 && WellSized(it, m) && |cut| == m + 1 && i < m
    requires cut[i] < cut[i + 1] ==> Minimises(s, cut[i], cut[i + 1], TangentialCoeff(tau, it.phases[i]), r)
    requires cut[i] >= cut[i + 1] ==>
               RespawnBase(tau, s, it, m, cut, i, b) && r == Respawned(b, i)
    ensures NewRadius(tau, s, it, m, cut, i, r)
  {
    hide Minimises, RespawnBase, TangentialCoeff;
  }

  // ------------------------------------------------------------------ the weights

  /** On `p` phases, rounding phases costs the samples from `lo` to `hi` exactly `w / p^2`. */
  ghost predicate PhaseWeight(tau: real, s: seq<real>, lo: nat, hi: nat, r: real, w: real)
    requires lo <= hi <= |s|
  {
    forall p: nat :: p > 0 ==>
      SegmentCost(s, lo, hi, r, TangentialCoeff(tau, p)) - SegmentCost(s, lo, hi, r, 0.0)
      == PerPhases(w, p)
  }

  function PerPhases(w: real, p: nat): real
    requires p > 0
  {
    w / (p as real * p as real)
  }

  /** The allocation weight of a ring of radius `r` whose samples sum to `sum`. */
  function WeightOf(tau: real, sum: real, r: real): real
  {
    sum * r * (tau * tau) / 12.0
  }

  function PhaseShare(r: real, c: real, sum: real): real
  {
    r * c * sum
  }

  lemma WeightPerPhase(tau: real, sum: real, r: real, p: nat)
    requires p > 0
    ensures PhaseShare(r, TangentialCoeff(tau, p), sum) == PerPhases(WeightOf(tau, sum, r), p)
  {
    var step, q := tau / p as real, p as real * p as real;
    assert step * p as real == tau;
    assert q > 0.0;
    Square(step, p as real);
    Stepped(sum, r, step * step, q);
    Cancelled(r * TangentialCoeff(tau, p) * sum, WeightOf(tau, sum, r), q);
  }

  lemma Square(x: real, y: real)
    ensures x * y * (x * y) == x * x * (y * y)
  {
  }

  lemma Stepped(sum: real, r: real, z: real, q: real)
    ensures r * (z / 12.0) * sum * q == sum * r * (z * q) / 12.0
  {
    var a := r * sum;
    var u := z / 12.0;
    assert u * 12.0 == z;
    assert r * u * sum * q == a * (u * q);
    assert sum * r * (z * q) == a * (u * q) * 12.0;
  }

  lemma Cancelled(x: real, y: real, q: real)
    requires q > 0.0 && x * q == y
    ensures x == y / q
  {
  }

  lemma PhasePart(s: seq<real>, lo: nat, hi: nat, r: real, c: real)
    requires lo <= hi <= |s|
    ensures SegmentCost(s, lo, hi, r, c) - SegmentCost(s, lo, hi, r, 0.0) ==
            PhaseShare(r, c, PrefixSum(s, hi) - PrefixSum(s, lo))
  {
    PrefixSumsSuffice(s, lo, hi, r, c);
    PrefixSumsSuffice(s, lo, hi, r, 0.0);
    assert r * 0.0 == 0.0;
    hide SegmentCost, PrefixSum, PrefixSquares;
  }

  lemma WeighsAt(tau: real, s: seq<real>, lo: nat, hi: nat, r: real, p: nat)
    requires lo <= hi <= |s| && p > 0
    ensures SegmentCost(s, lo, hi, r, TangentialCoeff(tau, p)) - SegmentCost(s, lo, hi, r, 0.0)
            == PerPhases(WeightOf(tau, PrefixSum(s, hi) - PrefixSum(s, lo), r), p)
  {
    PhasePart(s, lo, hi, r, TangentialCoeff(tau, p));
    WeightPerPhase(tau, PrefixSum(s, hi) - PrefixSum(s, lo), r, p);
    hide *;
  }

  lemma SumsWeigh(tau: real, s: seq<real>, lo: nat, hi: nat, r: real)
    requires lo <= hi <= |s|
    ensures PhaseWeight(tau, s, lo, hi, r, WeightOf(tau, PrefixSum(s, hi) - PrefixSum(s, lo), r))
  {
    var w := WeightOf(tau, PrefixSum(s, hi) - PrefixSum(s, lo), r);
    hide SegmentCost, PrefixSum, WeightOf, TangentialCoeff, PerPhases;
    forall p: nat | p > 0
      ensures SegmentCost(s, lo, hi, r, TangentialCoeff(tau, p)) - SegmentCost(s, lo, hi, r, 0.0) == PerPhases(w, p)
    {
      WeighsAt(tau, s, lo, hi, r, p);
    }
  }

  // ------------------------------------------------------------------ one refinement

  /**
   What one iteration makes of an iterate: `order` says which old ring each new ring was, every radius
   is a `NewRadius`, and the phases are the greedy allocation by the phase costs of the rings' samples.
   */
  ghost predicate Refines(tau: real, s: seq<real>, m: nat, cells: nat, it: Iterate, next: Iterate, cut: seq<nat>,
      order: seq<nat>, weights: seq<real>)
    requires m > 0 && WellSized(it, m)
  {
    && WellSized(next, m) && IsCut(s, Bounds(tau, it, m), cut) && |cut| == m + 1 && Positions(order, m)
    && SortedReals(next.radii) && |weights| == m && GreedyResult(weights, cells, next.phases)
    && forall j :: 0 <= j < m ==> RingRefined(tau, s, m, it, next, cut, order, weights, j)
  }

  ghost predicate IsRefinement(tau: real, s: seq<real>, m: nat, cells: nat, it: Iterate, next: Iterate)
    requires m > 0 && WellSized(it, m)
  {
    exists cut, order, weights :: Refines(tau, s, m, cells, it, next, cut, order, weights)
  }

  ghost predicate RingRefined(tau: real, s: seq<real>, m: nat, it: Iterate, next: Iterate, cut: seq<nat>,
      order: seq<nat>, weights: seq<real>, j: nat)
    requires m > 0 && WellSized(it, m) && WellSized(next, m) && |cut| == m + 1 && |order| == |weights| == m && j < m
  {
    && order[j] < m && cut[order[j]] <= cut[order[j] + 1] <= |s|
    && NewRadius(tau, s, it, m, cut, order[j], next.radii[j])
    && PhaseWeight(tau, s, cut[order[j]], cut[order[j] + 1], next.radii[j], weights[j])
  }

  lemma RefinedParts(tau: real, it: Iterate, m: nat, st: Stats)
    requires m > 0 && WellSized(it, m) && |st.sums| == m && |st.counts| == m
    ensures var moved := Moved(it.radii, Coeffs(tau, it.phases), st, Densest(st.counts), m);
            var order := Order(moved, m);
            var refined := Refined(tau, it, m, st);
            && |order| == m && (forall j :: 0 <= j < m ==> order[j] < m && refined.0[j] == moved[order[j]])
            && forall j :: 0 <= j < m ==>
                 refined.1[j] == RingWeight(tau, st.sums[order[j]], st.counts[order[j]], refined.0[j])
  {
    hide Moved, Coeffs, Densest, StablySorted;
  }

  function RingWeight(tau: real, sum: real, count: nat, r: real): real
  {
    var mean := if count > 0 then sum / count as real else 0.0;
    count as real * mean * r * (tau * tau) / 12.0
  }

  lemma RingWeightIs(tau: real, sum: real, count: nat, r: real)
    requires count == 0 ==> sum == 0.0
    ensures RingWeight(tau, sum, count, r) == WeightOf(tau, sum, r)
  {
    if count > 0 { assert count as real * (sum / count as real) == sum; }
  }

  lemma RingIsRefined(tau: real, s: seq<real>, m: nat, it: Iterate, next: Iterate, cut: seq<nat>, st: Stats,
      order: seq<nat>, weights: seq<real>, moved: seq<real>, j: nat)
    requires m > 0 && WellSized(it, m) && WellSized(next, m) && s != [] && j < m
    requires IsCut(s, Bounds(tau, it, m), cut) && |cut| == m + 1 && StatsOf(s, cut, st, m)
    requires moved == Moved(it.radii, Coeffs(tau, it.phases), st, Densest(st.counts), m)
    requires |order| == |weights| == m && order[j] < m && next.radii[j] == moved[order[j]]
    requires weights[j] == RingWeight(tau, st.sums[order[j]], st.counts[order[j]], next.radii[j])
    ensures RingRefined(tau, s, m, it, next, cut, order, weights, j)
  {
    var i := order[j];
    var lo, hi, r := cut[i], cut[i + 1], next.radii[j];
    assert lo <= hi <= |s| && cut[0] < cut[m];
    assert st.counts[i] == hi - lo && st.sums[i] == PrefixSum(s, hi) - PrefixSum(s, lo);
    hide *;
    MovedIsNew(tau, s, it, m, cut, st, i);
    SumsWeigh(tau, s, lo, hi, r);
    RingWeightIs(tau, st.sums[i], st.counts[i], r);
    RingByParts(tau, s, m, it, next, cut, order, weights, j);
  }

  lemma RingByParts(tau: real, s: seq<real>, m: nat, it: Iterate, next: Iterate, cut: seq<nat>,
      order: seq<nat>, weights: seq<real>, j: nat)
    requires m > 0 && WellSized(it, m) && WellSized(next, m) && |cut| == m + 1 && |order| == |weights| == m && j < m
    requires order[j] < m && cut[order[j]] <= cut[order[j] + 1] <= |s|
    requires NewRadius(tau, s, it, m, cut, order[j], next.radii[j])
    requires PhaseWeight(tau, s, cut[order[j]], cut[order[j] + 1], next.radii[j], weights[j])
    ensures RingRefined(tau, s, m, it, next, cut, order, weights, j)
  {
    hide NewRadius, PhaseWeight;
  }

  /** Every iteration moves every ring with samples to its best radius and allocates by their phase costs. */
  lemma FollowsRefines(tau: real, s: seq<real>, m: nat, cells: nat, it: Iterate, next: Iterate)
    requires m > 0 && s != [] && WellSized(it, m) && Follows(tau, s, m, cells, it, next)
    ensures IsRefinement(tau, s, m, cells, it, next)
  {
    var cut, st :| && IsCut(s, Bounds(tau, it, m), cut) && StatsOf(s, cut, st, m)
                   && next.radii == Refined(tau, it, m, st).0
                   && Allocated(Refined(tau, it, m, st).1, next.phases, cells);
    var moved := Moved(it.radii, Coeffs(tau, it.phases), st, Densest(st.counts), m);
    var order, weights := Order(moved, m), Refined(tau, it, m, st).1;
    assert |cut| == m + 1 && |st.sums| == |st.counts| == m && |weights| == m;
    assert GreedyResult(weights, cells, next.phases) && WellSized(next, m) && SortedReals(next.radii);
    hide *;
    OrderMembers(moved, m);
    RefinedParts(tau, it, m, st);
    forall j | 0 <= j < m ensures RingRefined(tau, s, m, it, next, cut, order, weights, j) {
      RingIsRefined(tau, s, m, it, next, cut, st, order, weights, moved, j);
    }
    RefinesByRing(tau, s, m, cells, it, next, cut, order, weights);
    SomeRefines(tau, s, m, cells, it, next, cut, order, weights);
  }

  lemma SomeRefines(tau: real, s: seq<real>, m: nat, cells: nat, it: Iterate, next: Iterate, cut: seq<nat>,
      order: seq<nat>, weights: seq<real>)
    requires m > 0 && WellSized(it, m) && Refines(tau, s, m, cells, it, next, cut, order, weights)
    ensures IsRefinement(tau, s, m, cells, it, next)
  {
    hide Refines;
  }

  lemma RefinesByRing(tau: real, s: seq<real>, m: nat, cells: nat, it: Iterate, next: Iterate, cut: seq<nat>,
      order: seq<nat>, weights: seq<real>)
    requires m > 0 && WellSized(it, m)
    requires WellSized(next, m) && IsCut(s, Bounds(tau, it, m), cut) && |cut| == m + 1 && Positions(order, m)
    requires SortedReals(next.radii) && |weights| == m && GreedyResult(weights, cells, next.phases)
    requires forall j :: 0 <= j < m ==> RingRefined(tau, s, m, it, next, cut, order, weights, j)
    ensures Refines(tau, s, m, cells, it, next, cut, order, weights)
  {
    hide RingRefined, IsCut, Positions, GreedyResult, SortedReals, Bounds;
  }

  /** Every iterate of a fit after the first is such a refinement of the one before. */
  lemma FitRefines(tau: real, s: seq<real>, initial: seq<real>, cells: nat, its: seq<Iterate>, best: nat,
      r: Result<Design>, k: nat)
    requires FitChooses(tau, s, initial, cells, its, best, r) && 0 < k < |its|
    ensures |initial| > 0 && WellSized(its[k - 1], |initial|)
    ensures IsRefinement(tau, s, |initial|, cells, its[k - 1], its[k])
  {
    var m := |initial|;
    hide Follows, MeanCost, FirstCheapest, IsRefinement, DesignOf;
    SizedHas(its, m, k - 1);
    FollowsAt(tau, s, m, cells, its, k);
    FollowsRefines(tau, s, m, cells, its[k - 1], its[k]);
  }
}
