/** Greedy power-of-two budget allocation (`alloc_pow2` in `src/codec/upq.rs`), over the reals. */
module PhaseAlloc {
  import opened Basics

  /** Fewest phases a ring may have. */
  const MIN_RING_PHASES: nat := 4

  const WEIGHT_FLOOR := 0.000000000001

  function Clamped(w: real): real
  {
    if w < WEIGHT_FLOOR then WEIGHT_FLOOR else w
  }

  /** Marginal distortion reduction of doubling a ring. */
  function Gain(w: real, p: nat): real
    requires p > 0
  {
    0.75 * Clamped(w) / (p as real * p as real)
  }

  function Sum(s: seq<nat>): nat
  {
    if s == [] then 0 else Sum(s[..|s| - 1]) + s[|s| - 1]
  }

  ghost predicate PowerOfTwo(p: nat)
  {
    exists k: nat :: Pow2(k) == p
  }

  ghost predicate GoodCount(p: nat)
  {
    p >= MIN_RING_PHASES && PowerOfTwo(p)
  }

  /** Ring `i` comes before ring `j`: heavier, or as heavy and first. */
  predicate Heavier(weights: seq<real>, i: nat, j: nat)
    requires i < |weights| && j < |weights|
  {
    Clamped(weights[i]) > Clamped(weights[j]) || (Clamped(weights[i]) == Clamped(weights[j]) && i <= j)
  }

  /** Counts follow weights. */
  ghost predicate Fair(weights: seq<real>, phases: seq<nat>)
    requires |weights| == |phases|
  {
    forall i, j :: 0 <= i < |phases| && 0 <= j < |phases| && Heavier(weights, i, j) ==> phases[i] >= phases[j]
  }

  // ------------------------------------------------------------------ small facts

  lemma {:induction false} SumUpdate(s: seq<nat>, i: nat, v: nat)
    requires i < |s|
    ensures Sum(s[i := v]) + s[i] == Sum(s) + v
  {
    var n := |s| - 1;
    if i < n {
      SumUpdate(s[..n], i, v);
      assert s[i := v][..n] == s[..n][i := v];
    } else {
      assert s[i := v][..n] == s[..n];
    }
  }

  lemma {:induction false} SumStart(n: nat)
    ensures Sum(seq(n, _ => MIN_RING_PHASES)) == MIN_RING_PHASES * n
  {
    if n > 0 {
      SumStart(n - 1);
      assert seq(n, _ => MIN_RING_PHASES)[..n - 1] == seq(n - 1, _ => MIN_RING_PHASES);
    }
  }

  lemma DoubledIsPower(p: nat)
    requires PowerOfTwo(p)
    ensures PowerOfTwo(2 * p)
  {
    var k: nat :| Pow2(k) == p;
    assert Pow2(k + 1) == 2 * p;
  }

  lemma {:induction false} PowersApart(a: nat, b: nat)
    requires Pow2(a) < Pow2(b)
    ensures 2 * Pow2(a) <= Pow2(b)
  {
    if b <= a { PowMono(b, a); } else { PowMono(a + 1, b); }
  }

  lemma {:induction false} PowMono(a: nat, b: nat)
    requires a <= b
    ensures Pow2(a) <= Pow2(b)
    decreases b
  {
    if a < b { PowMono(a, b - 1); }
  }

  /** Two powers of two are equal or one is at least twice the other. */
  lemma TwiceOrEqual(p: nat, q: nat)
    requires PowerOfTwo(p) && PowerOfTwo(q) && p < q
    ensures 2 * p <= q
  {
    var a: nat :| Pow2(a) == p;
    var b: nat :| Pow2(b) == q;
    PowersApart(a, b);
  }

  lemma GainFollowsWeight(v: real, w: real, p: nat)
    requires p > 0
    ensures Clamped(v) >= Clamped(w) ==> Gain(v, p) >= Gain(w, p)
    ensures Clamped(v) > Clamped(w) ==> Gain(v, p) > Gain(w, p)
  {
    var q := p as real * p as real;
    assert q > 0.0;
    Divides(0.75 * Clamped(v), 0.75 * Clamped(w), q);
  }

  lemma Divides(x: real, y: real, q: real)
    requires q > 0.0
    ensures x >= y ==> x / q >= y / q
    ensures x > y ==> x / q > y / q
  {
    var a, b := x / q, y / q;
    assert a * q == x && b * q == y;
    if a < b { assert a * q < b * q; }
    if a == b { assert x == y; }
  }

  // ------------------------------------------------------------------ the allocator

  /** What rounding phases costs the samples of a ring of weight `w` and `p` phases. */
  function PhaseCost(w: real, p: nat): real
    requires p > 0
  {
    Clamped(w) / (p as real * p as real)
  }

  /** The gain of a doubling is exactly the phase cost it saves. */
  lemma GainIsSaved(w: real, p: nat)
    requires p > 0
    ensures Gain(w, p) == PhaseCost(w, p) - PhaseCost(w, 2 * p)
  {
    var c, q := Clamped(w), p as real * p as real;
    assert (2 * p) as real * (2 * p) as real == 4.0 * q;
    assert q > 0.0;
    Quarters(c, q);
  }

  /** Above a tiny floor a weight counts as it is. */
  lemma WeightCounts(w: real, p: nat)
    requires w >= 0.000000000001 && p > 0
    ensures PhaseCost(w, p) == w / (p as real * p as real)
  {
  }

  lemma Quarters(c: real, q: real)
    requires q > 0.0
    ensures 0.75 * c / q == c / q - c / (4.0 * q)
  {
    var x := c / q;
    assert x * q == c;
    assert x / 4.0 * (4.0 * q) == c;
  }

  /** Doubling ring `b` fits and saves most of all doublings that fit, the first of its equals. */
  ghost predicate SavesMost(weights: seq<real>, phases: seq<nat>, budget: nat, b: nat)
    requires |weights| == |phases|
  {
    && b < |phases| && 0 < phases[b] <= budget
    && forall i :: 0 <= i < |phases| && 0 < phases[i] <= budget ==>
         var saved, best := PhaseCost(weights[i], phases[i]) - PhaseCost(weights[i], 2 * phases[i]),
           PhaseCost(weights[b], phases[b]) - PhaseCost(weights[b], 2 * phases[b]);
         saved <= best && (i < b ==> saved < best)
  }

  lemma BestSavesMost(weights: seq<real>, phases: seq<nat>, budget: nat, b: nat)
    requires |weights| == |phases| && Best(weights, phases, budget, |phases|, b)
    ensures SavesMost(weights, phases, budget, b)
  {
    forall i | 0 <= i < |phases| && phases[i] > 0
      ensures Gain(weights[i], phases[i]) ==
              PhaseCost(weights[i], phases[i]) - PhaseCost(weights[i], 2 * phases[i])
    {
      GainIsSaved(weights[i], phases[i]);
    }
    hide Gain, PhaseCost;
  }

  /** The counts after some doublings of rings that start with the fewest phases. */
  function Doubled(m: nat, picks: seq<nat>): (p: seq<nat>)
    ensures |p| == m
  {
    if picks == [] then seq(m, _ => MIN_RING_PHASES)
    else
      var before, b := Doubled(m, picks[..|picks| - 1]), picks[|picks| - 1];
      if b < m then before[b := 2 * before[b]] else before
  }

  /** Every doubling was the one that saved most at the time. */
  ghost predicate GreedyPicks(weights: seq<real>, cells: nat, picks: seq<nat>)
  {
    forall k :: 0 <= k < |picks| ==> PickIsGreedy(weights, cells, picks, k)
  }

  ghost predicate PickIsGreedy(weights: seq<real>, cells: nat, picks: seq<nat>, k: nat)
    requires k < |picks|
  {
    var before := Doubled(|weights|, picks[..k]);
    Sum(before) <= cells && SavesMost(weights, before, cells - Sum(before), picks[k])
  }

  /** The counts greedy doubling ends with: it goes on while a doubling fits. */
  ghost predicate GreedyResult(weights: seq<real>, cells: nat, phases: seq<nat>)
  {
    && (exists picks :: GreedyPicks(weights, cells, picks) && phases == Doubled(|weights|, picks))
    && forall i :: 0 <= i < |phases| ==> Sum(phases) + phases[i] > cells
  }

  lemma DoubledNext(m: nat, picks: seq<nat>, b: nat)
    requires b < m
    ensures Doubled(m, picks + [b]) == Doubled(m, picks)[b := 2 * Doubled(m, picks)[b]]
  {
    assert (picks + [b])[..|picks|] == picks;
  }

  lemma PickedNext(weights: seq<real>, cells: nat, picks: seq<nat>, b: nat)
    requires GreedyPicks(weights, cells, picks)
    requires var before := Doubled(|weights|, picks);
             Sum(before) <= cells && SavesMost(weights, before, cells - Sum(before), b)
    ensures GreedyPicks(weights, cells, picks + [b])
  {
    var more := picks + [b];
    hide SavesMost, Doubled, Sum;
    assert more[..|picks|] == picks && more[|picks|] == b;
    assert PickIsGreedy(weights, cells, more, |picks|);
    forall k | 0 <= k < |picks| ensures PickIsGreedy(weights, cells, more, k) {
      assert more[..k] == picks[..k] && more[k] == picks[k];
      assert PickIsGreedy(weights, cells, picks, k);
    }
  }

  /** There is one greedy result: two runs of picks agree as far as both go. */
  lemma {:induction false} GreedyIsUnique(weights: seq<real>, cells: nat, a: seq<nat>, b: seq<nat>)
    requires GreedyPicks(weights, cells, a) && GreedyPicks(weights, cells, b) && |a| <= |b|
    ensures a == b[..|a|]
  {
    if a != [] {
      var n := |a| - 1;
      hide SavesMost, Doubled;
      forall k | 0 <= k < n ensures PickIsGreedy(weights, cells, a[..n], k) {
        assert PickIsGreedy(weights, cells, a, k);
        assert a[..n][..k] == a[..k];
      }
      GreedyIsUnique(weights, cells, a[..n], b);
      assert PickIsGreedy(weights, cells, a, n) && PickIsGreedy(weights, cells, b, n);
      var before := Doubled(|weights|, a[..n]);
      OnePick(weights, before, cells - Sum(before), a[n], b[n]);
      assert a == a[..n] + [a[n]] && b[..|a|] == b[..n] + [b[n]];
    }
  }

  /** So the allocation is determined by the weights and the budget. */
  lemma GreedyDetermines(weights: seq<real>, cells: nat, p: seq<nat>, q: seq<nat>)
    requires GreedyResult(weights, cells, p) && GreedyResult(weights, cells, q)
    ensures p == q
  {
    var a :| GreedyPicks(weights, cells, a) && p == Doubled(|weights|, a);
    var b :| GreedyPicks(weights, cells, b) && q == Doubled(|weights|, b);
    if |a| <= |b| { GreedyStops(weights, cells, a, b); } else { GreedyStops(weights, cells, b, a); }
  }

  lemma GreedyStops(weights: seq<real>, cells: nat, a: seq<nat>, b: seq<nat>)
    requires GreedyPicks(weights, cells, a) && GreedyPicks(weights, cells, b) && |a| <= |b|
    requires var p := Doubled(|weights|, a); forall i :: 0 <= i < |p| ==> Sum(p) + p[i] > cells
    ensures a == b
  {
    hide *;
    GreedyIsUnique(weights, cells, a, b);
    if |a| < |b| {
      PickFits(weights, cells, b, |a|);
    } else {
      assert b[..|a|] == b;
    }
  }

  lemma PickFits(weights: seq<real>, cells: nat, picks: seq<nat>, k: nat)
    requires GreedyPicks(weights, cells, picks) && k < |picks|
    ensures var p := Doubled(|weights|, picks[..k]);
            picks[k] < |p| && Sum(p) + p[picks[k]] <= cells
  {
    assert PickIsGreedy(weights, cells, picks, k);
    hide Doubled, PhaseCost, Sum;
  }

  lemma OnePick(weights: seq<real>, phases: seq<nat>, budget: nat, a: nat, b: nat)
    requires |weights| == |phases| && SavesMost(weights, phases, budget, a) && SavesMost(weights, phases, budget, b)
    ensures a == b
  {
    hide PhaseCost;
  }

  /** A ring the greedy step may pick: it fits, and no other that fits gains more, or as much and earlier. */
  ghost predicate Best(weights: seq<real>, phases: seq<nat>, budget: nat, n: nat, b: nat)
    requires |weights| == |phases| && n <= |phases|
  {
    && b < n && 0 < phases[b] <= budget
    && forall i :: 0 <= i < n && 0 < phases[i] <= budget ==>
         && Gain(weights[i], phases[i]) <= Gain(weights[b], phases[b])
         && (i < b ==> Gain(weights[i], phases[i]) < Gain(weights[b], phases[b]))
  }

  method FindBest(weights: seq<real>, phases: seq<nat>, budget: nat) returns (best: Option<nat>)
    requires |weights| == |phases| && forall i :: 0 <= i < |phases| ==> phases[i] > 0
    ensures best.Some? ==> Best(weights, phases, budget, |phases|, best.value)
    ensures best.None? ==> forall i :: 0 <= i < |phases| ==> phases[i] > budget
  {
    hide Gain;
    best := None;
    for i := 0 to |phases|
      invariant best.Some? ==> Best(weights, phases, budget, i, best.value)
      invariant best.None? ==> forall j :: 0 <= j < i ==> phases[j] > budget
    {
      if phases[i] <= budget
          && (best.None? || Gain(weights[i], phases[i]) > Gain(weights[best.value], phases[best.value])) {
        best := Some(i);
      }
    }
  }

  /** The counts stay fair: a heavier ring with as few phases would have been the better pick. */
  lemma DoublingIsFair(weights: seq<real>, phases: seq<nat>, budget: nat, b: nat)
    requires |weights| == |phases| && Fair(weights, phases) && Best(weights, phases, budget, |phases|, b)
    requires forall i :: 0 <= i < |phases| ==> GoodCount(phases[i])
    ensures Fair(weights, phases[b := 2 * phases[b]])
  {
    var after := phases[b := 2 * phases[b]];
    forall i, j | 0 <= i < |phases| && 0 <= j < |phases| && Heavier(weights, i, j) ensures after[i] >= after[j] {
      if j == b && i != b {
        assert phases[i] >= phases[b];
        if phases[i] == phases[b] {
          GainFollowsWeight(weights[i], weights[b], phases[b]);
        } else {
          TwiceOrEqual(phases[b], phases[i]);
        }
      }
    }
  }

  /**
   Within budget: every count a power of two, at least four; the total fits and nothing more does; and
   heavier rings get no fewer phases.  If even four each do not fit, every ring keeps four.
   */
  method AllocPow2(weights: seq<real>, cells: nat) returns (phases: seq<nat>)
    ensures |phases| == |weights| && forall i :: 0 <= i < |phases| ==> GoodCount(phases[i])
    ensures Fair(weights, phases)
    ensures MIN_RING_PHASES * |weights| <= cells ==>
              && Sum(phases) <= cells
              && forall i :: 0 <= i < |phases| ==> Sum(phases) + phases[i] > cells
    ensures MIN_RING_PHASES * |weights| > cells ==>
              Sum(phases) > cells && forall i :: 0 <= i < |phases| ==> phases[i] == MIN_RING_PHASES
    ensures GreedyResult(weights, cells, phases)
  {
    ghost var picks: seq<nat> := [];
    phases := seq(|weights|, _ => MIN_RING_PHASES);
    SumStart(|weights|);
    assert Pow2(2) == MIN_RING_PHASES;
    var fits := MIN_RING_PHASES * |weights| <= cells;
    while true
      invariant |phases| == |weights| && (forall i :: 0 <= i < |phases| ==> GoodCount(phases[i]))
                && Fair(weights, phases)
      invariant if fits then Sum(phases) <= cells
                else Sum(phases) > cells && forall i :: 0 <= i < |phases| ==> phases[i] == MIN_RING_PHASES
      invariant GreedyPicks(weights, cells, picks) && phases == Doubled(|weights|, picks)
      decreases cells - Sum(phases)
    {
      var used := Sum(phases);
      var budget := if used <= cells then cells - used else 0;
      if budget == 0 { return; }
      var best := FindBest(weights, phases, budget);
      if best.None? { return; }
      var b := best.value;
      DoublingIsFair(weights, phases, budget, b);
      DoubledIsPower(phases[b]);
      SumUpdate(phases, b, 2 * phases[b]);
      BestSavesMost(weights, phases, budget, b);
      PickedNext(weights, cells, picks, b);
      DoubledNext(|weights|, picks, b);
      picks := picks + [b];
      hide Fair, GoodCount, Best;
      phases := phases[b := 2 * phases[b]];
    }
  }
}
