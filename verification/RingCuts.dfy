/**
 Closed-form decision boundaries between the rings of a polar quantizer (`ring_cut_boundaries` in
 `src/codec/upq.rs`), over the reals.
 */
module RingCuts {

  /** What it costs to encode normalized amplitude `a` on a ring of radius `r`, tangential coefficient `c`. */
  function Cost(a: real, r: real, c: real): real
  {
    (a - r) * (a - r) + a * r * c
  }

  /** A decision boundary, possibly at infinity. */
  datatype Bound = Finite(at: real) | Infinite

  predicate Less(x: Bound, y: Bound)
  {
    x.Finite? && (y.Infinite? || x.at < y.at)
  }

  /** `a > b`, as the assignment compares. */
  predicate Above(a: real, b: Bound)
  {
    b.Finite? && a > b.at
  }

  const EPSILON := 0.000000000001

  function Denominator(r0: real, c0: real, r1: real, c1: real): real
  {
    2.0 * (r1 - r0) + r0 * c0 - r1 * c1
  }

  function RawCut(r0: real, c0: real, r1: real, c1: real): Bound
  {
    var den := Denominator(r0, c0, r1, c1);
    if den > EPSILON then Finite((r1 * r1 - r0 * r0) / den) else Infinite
  }

  function Max(x: Bound, y: Bound): Bound
  {
    if Less(x, y) then y else x
  }

  /** The first `n` boundaries; each is kept from falling below the one before, the first below 0. */
  function Cuts(radii: seq<real>, coeffs: seq<real>, n: nat): (b: seq<Bound>)
    requires |radii| == |coeffs| && n < |radii|
    ensures |b| == n
  {
    if n == 0 then []
    else
      var before := Cuts(radii, coeffs, n - 1);
      before + [Max(RawCut(radii[n - 1], coeffs[n - 1], radii[n], coeffs[n]), Previous(before))]
  }

  function Previous(b: seq<Bound>): Bound
  {
    if b == [] then Finite(0.0) else b[|b| - 1]
  }

  method RingCutBoundaries(radii: seq<real>, coeffs: seq<real>) returns (bounds: seq<Bound>)
    requires |radii| == |coeffs|
    ensures bounds == if radii == [] then [] else Cuts(radii, coeffs, |radii| - 1)
  {
    bounds := [];
    if radii == [] { return; }
    var prev := Finite(0.0);
    for i := 0 to |radii| - 1
      invariant bounds == Cuts(radii, coeffs, i) && prev == Previous(bounds)
    {
      hide RawCut;
      var b := RawCut(radii[i], coeffs[i], radii[i + 1], coeffs[i + 1]);
      if Less(b, prev) { b := prev; }
      bounds := bounds + [b];
      prev := b;
    }
  }

  // ------------------------------------------------------------------ the boundaries are in order

  predicate Ordered(b: seq<Bound>)
  {
    && (forall i :: 0 <= i < |b| ==> !Less(b[i], Finite(0.0)))
    && (forall i, j :: 0 <= i <= j < |b| ==> !Less(b[j], b[i]))
  }

  /** Whatever the radii and coefficients, the boundaries never decrease, so they split the amplitudes. */
  lemma {:induction false} CutsOrdered(radii: seq<real>, coeffs: seq<real>, n: nat)
    requires |radii| == |coeffs| && n < |radii|
    ensures Ordered(Cuts(radii, coeffs, n))
  {
    if n > 0 {
      CutsOrdered(radii, coeffs, n - 1);
      hide RawCut;
    }
  }

  // ------------------------------------------------------------------ each boundary is a crossover

  lemma CostGap(a: real, r0: real, c0: real, r1: real, c1: real)
    ensures Cost(a, r0, c0) - Cost(a, r1, c1) == a * Denominator(r0, c0, r1, c1) - (r1 * r1 - r0 * r0)
  {
  }

  lemma DivideBy(x: real, a: real, den: real)
    requires den > 0.0
    ensures a * den <= x <==> a <= x / den
  {
    var q := x / den;
    assert q * den == x;
    if a <= q { assert a * den <= q * den; } else { assert a * den > q * den; }
  }

  /** A finite boundary is exactly where the outer ring starts to win. */
  lemma RawCutIsCrossover(a: real, r0: real, c0: real, r1: real, c1: real)
    requires RawCut(r0, c0, r1, c1).Finite?
    ensures a <= RawCut(r0, c0, r1, c1).at <==> Cost(a, r0, c0) <= Cost(a, r1, c1)
  {
    CostGap(a, r0, c0, r1, c1);
    DivideBy(r1 * r1 - r0 * r0, a, Denominator(r0, c0, r1, c1));
  }

  /** With no positive denominator the inner ring never loses. */
  lemma NoCrossover(a: real, r0: real, c0: real, r1: real, c1: real)
    requires Denominator(r0, c0, r1, c1) <= 0.0 && 0.0 <= r0 <= r1 && a >= 0.0
    ensures Cost(a, r0, c0) <= Cost(a, r1, c1)
  {
    CostGap(a, r0, c0, r1, c1);
    Square(r0, r1);
    Sign(a, Denominator(r0, c0, r1, c1));
  }

  /** A boundary at infinity hides a crossover only beyond a million million times the gap of the squared radii. */
  lemma InfiniteIsFar(a: real, r0: real, c0: real, r1: real, c1: real)
    requires RawCut(r0, c0, r1, c1).Infinite? && 0.0 <= a <= 1_000_000_000_000.0 * (r1 * r1 - r0 * r0)
    ensures Cost(a, r0, c0) <= Cost(a, r1, c1)
  {
    var den, gap := Denominator(r0, c0, r1, c1), r1 * r1 - r0 * r0;
    CostGap(a, r0, c0, r1, c1);
    assert den <= EPSILON;
    AtMost(a, den, EPSILON);
  }

  lemma AtMost(a: real, d: real, e: real)
    requires a >= 0.0 && d <= e
    ensures a * d <= a * e
  {
  }

  lemma Square(x: real, y: real)
    requires 0.0 <= x <= y
    ensures x * x <= y * y
  {
  }

  lemma Sign(a: real, d: real)
    requires a >= 0.0 && d <= 0.0
    ensures a * d <= 0.0
  {
  }

  // ------------------------------------------------------------------ the chosen ring is best

  /** How many boundaries lie below `a`: the first boundary it is not above. */
  function RingOf(bounds: seq<Bound>, a: real): (k: nat)
    ensures k <= |bounds|
    ensures forall i :: 0 <= i < k ==> Above(a, bounds[i])
    ensures k < |bounds| ==> !Above(a, bounds[k])
  {
    RingFrom(bounds, a, 0)
  }

  function RingFrom(bounds: seq<Bound>, a: real, i: nat): (k: nat)
    requires i <= |bounds|
    requires forall j :: 0 <= j < i ==> Above(a, bounds[j])
    ensures i <= k <= |bounds|
    ensures forall j :: 0 <= j < k ==> Above(a, bounds[j])
    ensures k < |bounds| ==> !Above(a, bounds[k])
    decreases |bounds| - i
  {
    if i < |bounds| && Above(a, bounds[i]) then RingFrom(bounds, a, i + 1) else i
  }

  /** An amplitude at a boundary, or below it, stays inside; one beyond every finite boundary is outermost. */
  lemma RingIsBetween(bounds: seq<Bound>, a: real, k: nat)
    requires Ordered(bounds) && k <= |bounds|
    ensures RingOf(bounds, a) == k <==>
            && (k > 0 ==> bounds[k - 1].Finite? && a > bounds[k - 1].at)
            && (k < |bounds| ==> bounds[k].Infinite? || a <= bounds[k].at)
  {
    var r := RingOf(bounds, a);
    hide RingOf;
    if r < k { assert !Less(bounds[k - 1], bounds[r]); }
    if k < r { assert !Less(bounds[r - 1], bounds[k]); }
  }

  lemma {:induction false} CutAt(radii: seq<real>, coeffs: seq<real>, n: nat, i: nat)
    requires |radii| == |coeffs| && i < n < |radii|
    ensures Cuts(radii, coeffs, n)[i] ==
            Max(RawCut(radii[i], coeffs[i], radii[i + 1], coeffs[i + 1]), Previous(Cuts(radii, coeffs, n)[..i]))
    decreases n
  {
    if i == n - 1 {
      assert Cuts(radii, coeffs, n)[..i] == Cuts(radii, coeffs, n - 1);
    } else {
      CutAt(radii, coeffs, n - 1, i);
      assert Cuts(radii, coeffs, n)[..i] == Cuts(radii, coeffs, n - 1)[..i];
    }
  }

  /** Every boundary is the raw one: the clamp never fired. */
  predicate Unclamped(radii: seq<real>, coeffs: seq<real>)
    requires |radii| == |coeffs| && radii != []
  {
    forall i :: 0 <= i < |radii| - 1 ==>
      Cuts(radii, coeffs, |radii| - 1)[i] == RawCut(radii[i], coeffs[i], radii[i + 1], coeffs[i + 1])
  }

  predicate AscendingRadii(radii: seq<real>)
  {
    (forall i :: 0 <= i < |radii| ==> radii[i] >= 0.0) && forall i, j :: 0 <= i <= j < |radii| ==> radii[i] <= radii[j]
  }

  /** No denominator is in the sliver the code rounds to infinity. */
  predicate NoSliver(radii: seq<real>, coeffs: seq<real>)
    requires |radii| == |coeffs|
  {
    forall i :: 0 <= i < |radii| - 1 ==>
      var den := Denominator(radii[i], coeffs[i], radii[i + 1], coeffs[i + 1]); den > EPSILON || den <= 0.0
  }

  /** Neighbouring rings: below its boundary the inner one is no worse, above it the outer one. */
  lemma NeighbourCosts(radii: seq<real>, coeffs: seq<real>, a: real, i: nat)
    requires |radii| == |coeffs| && i + 1 < |radii| && a >= 0.0
    requires AscendingRadii(radii) && NoSliver(radii, coeffs)
    ensures var b := RawCut(radii[i], coeffs[i], radii[i + 1], coeffs[i + 1]);
            && (!Above(a, b) ==> Cost(a, radii[i], coeffs[i]) <= Cost(a, radii[i + 1], coeffs[i + 1]))
            && (Above(a, b) ==> Cost(a, radii[i + 1], coeffs[i + 1]) <= Cost(a, radii[i], coeffs[i]))
  {
    var b := RawCut(radii[i], coeffs[i], radii[i + 1], coeffs[i + 1]);
    if b.Finite? {
      RawCutIsCrossover(a, radii[i], coeffs[i], radii[i + 1], coeffs[i + 1]);
    } else {
      NoCrossover(a, radii[i], coeffs[i], radii[i + 1], coeffs[i + 1]);
    }
  }

  lemma {:induction false} CostsRise(radii: seq<real>, coeffs: seq<real>, a: real, k: nat, j: nat)
    requires |radii| == |coeffs| && k <= j < |radii|
    requires forall i :: k <= i < j ==> Cost(a, radii[i], coeffs[i]) <= Cost(a, radii[i + 1], coeffs[i + 1])
    ensures Cost(a, radii[k], coeffs[k]) <= Cost(a, radii[j], coeffs[j])
    decreases j - k
  {
    hide Cost;
    if k < j { CostsRise(radii, coeffs, a, k + 1, j); }
  }

  lemma {:induction false} CostsFall(radii: seq<real>, coeffs: seq<real>, a: real, j: nat, k: nat)
    requires |radii| == |coeffs| && j <= k < |radii|
    requires forall i :: j <= i < k ==> Cost(a, radii[i + 1], coeffs[i + 1]) <= Cost(a, radii[i], coeffs[i])
    ensures Cost(a, radii[k], coeffs[k]) <= Cost(a, radii[j], coeffs[j])
    decreases k - j
  {
    hide Cost;
    if j < k { CostsFall(radii, coeffs, a, j + 1, k); }
  }

  /** The boundaries replace a search: the ring they assign is a cheapest one over all rings. */
  lemma ChosenRingIsArgmin(radii: seq<real>, coeffs: seq<real>, a: real, j: nat)
    requires |radii| == |coeffs| && radii != [] && j < |radii| && a >= 0.0
    requires AscendingRadii(radii) && NoSliver(radii, coeffs) && Unclamped(radii, coeffs)
    ensures var k := RingOf(Cuts(radii, coeffs, |radii| - 1), a);
            k < |radii| && Cost(a, radii[k], coeffs[k]) <= Cost(a, radii[j], coeffs[j])
  {
    var bounds := Cuts(radii, coeffs, |radii| - 1);
    var k := RingOf(bounds, a);
    CutsOrdered(radii, coeffs, |radii| - 1);
    forall i | 0 <= i < |radii| - 1
      ensures i >= k ==> Cost(a, radii[i], coeffs[i]) <= Cost(a, radii[i + 1], coeffs[i + 1])
      ensures i < k ==> Cost(a, radii[i + 1], coeffs[i + 1]) <= Cost(a, radii[i], coeffs[i])
    {
      NeighbourCosts(radii, coeffs, a, i);
      assert i >= k ==> !Less(bounds[i], bounds[k]);
      hide Cuts, RawCut, Cost, RingOf;
    }
    hide Cuts, RawCut, Cost, RingOf;
    if k <= j { CostsRise(radii, coeffs, a, k, j); } else { CostsFall(radii, coeffs, a, j, k); }
  }
}
