/**
 Exactly when the closed-form boundaries replace a search over all rings (`src/codec/upq.rs`).  A
 boundary at infinity ends the rings that can be chosen; before it the boundaries have to come in
 order, and past it no ring may ever get cheaper than the last one reached.
 */
module RingChoice {
  import opened RingCuts

  function Raw(radii: seq<real>, coeffs: seq<real>, i: nat): Bound
    requires |radii| == |coeffs| && i + 1 < |radii|
  {
    RawCut(radii[i], coeffs[i], radii[i + 1], coeffs[i + 1])
  }

  /** The last ring reached from ring `i` outwards through finite boundaries. */
  function Reached(radii: seq<real>, coeffs: seq<real>, i: nat): (f: nat)
    requires |radii| == |coeffs| && i < |radii|
    ensures i <= f < |radii|
    ensures forall k :: i <= k < f ==> Raw(radii, coeffs, k).Finite?
    ensures f + 1 < |radii| ==> Raw(radii, coeffs, f).Infinite?
    decreases |radii| - i
  {
    if i + 1 < |radii| && Raw(radii, coeffs, i).Finite? then Reached(radii, coeffs, i + 1) else i
  }

  predicate InOrder(radii: seq<real>, coeffs: seq<real>, n: nat)
    requires |radii| == |coeffs| && n < |radii|
  {
    forall i :: 0 < i < n ==> !Less(Raw(radii, coeffs, i), Raw(radii, coeffs, i - 1))
  }

  /** Checked on the rings alone: finite boundaries in order, and nothing worth reaching past the last. */
  predicate Exact(radii: seq<real>, coeffs: seq<real>)
    requires |radii| == |coeffs| && radii != []
  {
    var f := Reached(radii, coeffs, 0);
    && InOrder(radii, coeffs, f)
    && forall j :: f < j < |radii| ==> Denominator(radii[f], coeffs[f], radii[j], coeffs[j]) <= 0.0
  }

  function Chosen(radii: seq<real>, coeffs: seq<real>, a: real): (k: nat)
    requires |radii| == |coeffs| && radii != []
    ensures k < |radii|
  {
    RingOf(Cuts(radii, coeffs, |radii| - 1), a)
  }

  predicate NoWorse(radii: seq<real>, coeffs: seq<real>, a: real, j: nat)
    requires |radii| == |coeffs| && j < |radii|
  {
    Cost(a, radii[Chosen(radii, coeffs, a)], coeffs[Chosen(radii, coeffs, a)]) <= Cost(a, radii[j], coeffs[j])
  }

  /** The assignment does what a search over all rings would do, for every amplitude. */
  ghost predicate PicksCheapest(radii: seq<real>, coeffs: seq<real>)
    requires |radii| == |coeffs|
  {
    forall a: real, j: nat :: a >= 0.0 && j < |radii| ==> NoWorse(radii, coeffs, a, j)
  }

  lemma Nonnegative(radii: seq<real>, coeffs: seq<real>, i: nat)
    requires |radii| == |coeffs| && i + 1 < |radii| && AscendingRadii(radii)
    ensures Raw(radii, coeffs, i).Finite? ==> Raw(radii, coeffs, i).at >= 0.0
  {
    var den := Denominator(radii[i], coeffs[i], radii[i + 1], coeffs[i + 1]);
    var x := radii[i + 1] * radii[i + 1] - radii[i] * radii[i];
    Square(radii[i], radii[i + 1]);
    if den > EPSILON {
      hide AscendingRadii;
      DivideBy(x, 0.0, den);
    }
  }

  /** While the raw boundaries come in order, the clamp leaves them alone. */
  lemma {:induction false} CutsAreRaw(radii: seq<real>, coeffs: seq<real>, n: nat, i: nat)
    requires |radii| == |coeffs| && radii != [] && i < n <= Reached(radii, coeffs, 0) && AscendingRadii(radii)
    requires InOrder(radii, coeffs, n)
    ensures Cuts(radii, coeffs, |radii| - 1)[i] == Raw(radii, coeffs, i)
  {
    var b := Cuts(radii, coeffs, |radii| - 1);
    hide AscendingRadii, RawCut, Cuts, Reached;
    CutAt(radii, coeffs, |radii| - 1, i);
    if i == 0 {
      assert b[..0] == [];
      Nonnegative(radii, coeffs, 0);
    } else {
      assert b[..i][i - 1] == b[i - 1];
      CutsAreRaw(radii, coeffs, n, i - 1);
    }
  }

  lemma LastReached(radii: seq<real>, coeffs: seq<real>)
    requires |radii| == |coeffs| && radii != []
    ensures var f := Reached(radii, coeffs, 0);
            f + 1 < |radii| ==> Cuts(radii, coeffs, |radii| - 1)[f].Infinite?
  {
    var f := Reached(radii, coeffs, 0);
    if f + 1 < |radii| {
      CutAt(radii, coeffs, |radii| - 1, f);
    }
  }

  /** A ring past an infinite boundary is never chosen. */
  lemma NeverPast(radii: seq<real>, coeffs: seq<real>, a: real)
    requires |radii| == |coeffs| && radii != []
    ensures Chosen(radii, coeffs, a) <= Reached(radii, coeffs, 0)
  {
    LastReached(radii, coeffs);
    hide Reached, Cuts;
  }

  lemma Steps(radii: seq<real>, coeffs: seq<real>, a: real, i: nat)
    requires |radii| == |coeffs| && radii != [] && i < Reached(radii, coeffs, 0)
    ensures a <= Raw(radii, coeffs, i).at <==> Cost(a, radii[i], coeffs[i]) <= Cost(a, radii[i + 1], coeffs[i + 1])
  {
    hide Cost, RawCut, Reached;
    assert Raw(radii, coeffs, i).Finite?;
    RawCutIsCrossover(a, radii[i], coeffs[i], radii[i + 1], coeffs[i + 1]);
  }

  lemma PastNeverCheaper(a: real, r0: real, c0: real, r1: real, c1: real)
    requires a >= 0.0 && 0.0 <= r0 <= r1 && Denominator(r0, c0, r1, c1) <= 0.0
    ensures Cost(a, r0, c0) <= Cost(a, r1, c1)
  {
    NoCrossover(a, r0, c0, r1, c1);
  }

  /** Among the rings reached, the chosen one costs least. */
  lemma BestReached(radii: seq<real>, coeffs: seq<real>, a: real, j: nat)
    requires |radii| == |coeffs| && radii != [] && a >= 0.0 && AscendingRadii(radii)
    requires j <= Reached(radii, coeffs, 0) && InOrder(radii, coeffs, Reached(radii, coeffs, 0))
    ensures NoWorse(radii, coeffs, a, j)
  {
    var f := Reached(radii, coeffs, 0);
    var bounds := Cuts(radii, coeffs, |radii| - 1);
    var k := Chosen(radii, coeffs, a);
    NeverPast(radii, coeffs, a);
    CutsOrdered(radii, coeffs, |radii| - 1);
    hide Cost, Cuts, RawCut, Raw, AscendingRadii, Reached, InOrder;
    forall i: nat | i < f
      ensures i >= k ==> Cost(a, radii[i], coeffs[i]) <= Cost(a, radii[i + 1], coeffs[i + 1])
      ensures i < k ==> Cost(a, radii[i + 1], coeffs[i + 1]) <= Cost(a, radii[i], coeffs[i])
    {
      CutsAreRaw(radii, coeffs, f, i);
      Steps(radii, coeffs, a, i);
      assert i >= k ==> !Less(bounds[i], bounds[k]);
    }
    hide RingOf;
    if k <= j { CostsRise(radii, coeffs, a, k, j); } else { CostsFall(radii, coeffs, a, j, k); }
  }

  lemma ExactPicksCheapest(radii: seq<real>, coeffs: seq<real>, a: real, j: nat)
    requires |radii| == |coeffs| && j < |radii| && a >= 0.0 && AscendingRadii(radii) && Exact(radii, coeffs)
    ensures NoWorse(radii, coeffs, a, j)
  {
    var f := Reached(radii, coeffs, 0);
    BestReached(radii, coeffs, a, if j < f then j else f);
    if j > f {
      PastNeverCheaper(a, radii[f], coeffs[f], radii[j], coeffs[j]);
    }
  }

  lemma Loses(radii: seq<real>, coeffs: seq<real>, a: real, m: nat, j: nat)
    requires |radii| == |coeffs| && m < |radii| && j < |radii|
    requires Cost(a, radii[m], coeffs[m]) <= Cost(a, radii[Chosen(radii, coeffs, a)], coeffs[Chosen(radii, coeffs, a)])
    requires Cost(a, radii[j], coeffs[j]) < Cost(a, radii[m], coeffs[m])
    ensures !NoWorse(radii, coeffs, a, j)
  {
    hide Cost, Chosen;
  }

  /** Just at a boundary, the rings up to it cost no less than the ring after it. */
  lemma DownTo(radii: seq<real>, coeffs: seq<real>, i: nat)
    requires |radii| == |coeffs| && radii != [] && AscendingRadii(radii)
    requires 0 < i < Reached(radii, coeffs, 0) && InOrder(radii, coeffs, i)
    ensures var a := Raw(radii, coeffs, i - 1).at;
            a >= 0.0 && Cost(a, radii[i], coeffs[i]) <=
                Cost(a, radii[Chosen(radii, coeffs, a)], coeffs[Chosen(radii, coeffs, a)])
  {
    var a := Raw(radii, coeffs, i - 1).at;
    var bounds := Cuts(radii, coeffs, |radii| - 1);
    Nonnegative(radii, coeffs, i - 1);
    CutsAreRaw(radii, coeffs, i, i - 1);
    CutsOrdered(radii, coeffs, |radii| - 1);
    var k := Chosen(radii, coeffs, a);
    hide Cost, Cuts, RawCut, Raw, AscendingRadii, Reached, InOrder;
    assert k <= i - 1;
    hide RingOf, Chosen;
    forall m: nat | k <= m < i
      ensures Cost(a, radii[m + 1], coeffs[m + 1]) <= Cost(a, radii[m], coeffs[m])
    {
      CutsAreRaw(radii, coeffs, i, m);
      assert !Less(bounds[i - 1], bounds[m]);
      TieOrBeyond(radii, coeffs, a, m);
    }
    CostsFall(radii, coeffs, a, k, i);
  }

  /** The first boundary out of order: just at the one before it, the ring after next is cheaper. */
  lemma DisorderMisses(radii: seq<real>, coeffs: seq<real>, i: nat)
    requires |radii| == |coeffs| && radii != [] && AscendingRadii(radii)
    requires 0 < i < Reached(radii, coeffs, 0) && InOrder(radii, coeffs, i)
    requires Less(Raw(radii, coeffs, i), Raw(radii, coeffs, i - 1))
    ensures var a := Raw(radii, coeffs, i - 1).at; a >= 0.0 && !NoWorse(radii, coeffs, a, i + 1)
  {
    var a := Raw(radii, coeffs, i - 1).at;
    DownTo(radii, coeffs, i);
    Steps(radii, coeffs, a, i);
    assert Raw(radii, coeffs, i).at < a;
    hide Cost, Raw, Chosen, AscendingRadii, Reached, InOrder, NoWorse;
    Loses(radii, coeffs, a, i, i + 1);
  }

  lemma TieOrBeyond(radii: seq<real>, coeffs: seq<real>, a: real, i: nat)
    requires |radii| == |coeffs| && radii != [] && i < Reached(radii, coeffs, 0) && Raw(radii, coeffs, i).at <= a
    ensures Cost(a, radii[i + 1], coeffs[i + 1]) <= Cost(a, radii[i], coeffs[i])
  {
    hide Cost, RawCut, Reached;
    AtOrAbove(a, radii[i], coeffs[i], radii[i + 1], coeffs[i + 1]);
  }

  lemma AtOrAbove(a: real, r0: real, c0: real, r1: real, c1: real)
    requires RawCut(r0, c0, r1, c1).Finite? && RawCut(r0, c0, r1, c1).at <= a
    ensures Cost(a, r1, c1) <= Cost(a, r0, c0)
  {
    CostGap(a, r0, c0, r1, c1);
    hide Cost, Denominator;
    ReachesProduct(r1 * r1 - r0 * r0, a, Denominator(r0, c0, r1, c1));
  }

  lemma ReachesProduct(x: real, a: real, den: real)
    requires den > 0.0 && x / den <= a
    ensures x <= a * den
  {
    assert (x / den) * den == x;
    assert (a - x / den) * den >= 0.0;
  }

  /** Past the last ring reached there is one that wins in the end. */
  lemma FarRingMisses(radii: seq<real>, coeffs: seq<real>, j: nat) returns (a: real)
    requires |radii| == |coeffs| && radii != [] && AscendingRadii(radii)
             && InOrder(radii, coeffs, Reached(radii, coeffs, 0))
    requires Reached(radii, coeffs, 0) < j < |radii|
    requires Denominator(radii[Reached(radii, coeffs, 0)], coeffs[Reached(radii, coeffs, 0)], radii[j], coeffs[j]) > 0.0
    ensures a >= 0.0 && !NoWorse(radii, coeffs, a, j)
  {
    var f := Reached(radii, coeffs, 0);
    var last := if f == 0 then 0.0 else Raw(radii, coeffs, f - 1).at;
    if f > 0 { Nonnegative(radii, coeffs, f - 1); }
    var r0, c0, r1, c1 := radii[f], coeffs[f], radii[j], coeffs[j];
    assert 0.0 <= r0 <= r1;
    hide *;
    a := FarOut(r0, c0, r1, c1, last);
    AllPassed(radii, coeffs, a);
    Loses(radii, coeffs, a, f, j);
  }

  lemma GapDecides(a: real, r0: real, c0: real, r1: real, c1: real)
    requires a * Denominator(r0, c0, r1, c1) > r1 * r1 - r0 * r0
    ensures Cost(a, r1, c1) < Cost(a, r0, c0)
  {
    CostGap(a, r0, c0, r1, c1);
  }

  lemma FarOut(r0: real, c0: real, r1: real, c1: real, last: real) returns (a: real)
    requires Denominator(r0, c0, r1, c1) > 0.0 && 0.0 <= r0 <= r1 && last >= 0.0
    ensures a > last && Cost(a, r1, c1) < Cost(a, r0, c0)
  {
    hide *;
    Square(r0, r1);
    a := LargeEnough(r1 * r1 - r0 * r0, Denominator(r0, c0, r1, c1), last);
    GapDecides(a, r0, c0, r1, c1);
  }

  lemma LargeEnough(x: real, den: real, last: real) returns (a: real)
    requires den > 0.0 && x >= 0.0 && last >= 0.0
    ensures a > last && a * den > x
  {
    a := last + x / den + 1.0;
    assert (x / den) * den == x;
    assert (last + 1.0) * den > 0.0;
    assert a * den == (last + 1.0) * den + (x / den) * den;
    DivideBy(x, 0.0, den);
  }

  lemma AllPassed(radii: seq<real>, coeffs: seq<real>, a: real)
    requires |radii| == |coeffs| && radii != [] && AscendingRadii(radii)
             && InOrder(radii, coeffs, Reached(radii, coeffs, 0))
    requires Reached(radii, coeffs, 0) > 0 ==> a > Raw(radii, coeffs, Reached(radii, coeffs, 0) - 1).at
    ensures Chosen(radii, coeffs, a) == Reached(radii, coeffs, 0)
  {
    var f := Reached(radii, coeffs, 0);
    var bounds := Cuts(radii, coeffs, |radii| - 1);
    var k := Chosen(radii, coeffs, a);
    NeverPast(radii, coeffs, a);
    CutsOrdered(radii, coeffs, |radii| - 1);
    hide Cuts, RawCut, Raw, AscendingRadii, Reached, InOrder;
    if k < f {
      CutsAreRaw(radii, coeffs, f, k);
      CutsAreRaw(radii, coeffs, f, f - 1);
    }
  }

  /** The first position out of order. */
  lemma {:induction false} FirstDisorder(radii: seq<real>, coeffs: seq<real>, n: nat) returns (i: nat)
    requires |radii| == |coeffs| && n < |radii| && !InOrder(radii, coeffs, n)
    ensures 0 < i < n && InOrder(radii, coeffs, i) && Less(Raw(radii, coeffs, i), Raw(radii, coeffs, i - 1))
  {
    if InOrder(radii, coeffs, n - 1) {
      i := n - 1;
    } else {
      i := FirstDisorder(radii, coeffs, n - 1);
    }
  }

  /**
   The boundaries replace the search if and only if the rings pass the check; in particular where no
   clamp fired and no denominator was rounded away.
   */
  lemma CheapestIffExact(radii: seq<real>, coeffs: seq<real>)
    requires |radii| == |coeffs| && radii != [] && AscendingRadii(radii)
    ensures PicksCheapest(radii, coeffs) <==> Exact(radii, coeffs)
    ensures NoSliver(radii, coeffs) && Unclamped(radii, coeffs) ==> PicksCheapest(radii, coeffs)
  {
    if NoSliver(radii, coeffs) && Unclamped(radii, coeffs) {
      forall a: real, j: nat | a >= 0.0 && j < |radii| ensures NoWorse(radii, coeffs, a, j) {
        ChosenRingIsArgmin(radii, coeffs, a, j);
      }
    }
    hide AscendingRadii, NoWorse, Denominator;
    var f := Reached(radii, coeffs, 0);
    if Exact(radii, coeffs) {
      forall a: real, j: nat | a >= 0.0 && j < |radii| ensures NoWorse(radii, coeffs, a, j) {
        ExactPicksCheapest(radii, coeffs, a, j);
      }
    } else if !InOrder(radii, coeffs, f) {
      var i := FirstDisorder(radii, coeffs, f);
      DisorderMisses(radii, coeffs, i);
    } else {
      var j: nat :| f < j < |radii| && Denominator(radii[f], coeffs[f], radii[j], coeffs[j]) > 0.0;
      var a := FarRingMisses(radii, coeffs, j);
    }
  }
}
