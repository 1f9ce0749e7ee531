/**
 What a ring fit guarantees of the design it returns (`UpqDesign::fit` in `src/codec/upq.rs`): when its
 phase counts are powers of two, and that its radii ascend from zero.
 */
module FitResults {
  import opened Basics
  import opened RingCuts
  import opened PhaseAlloc
  import opened RingFit

  // ------------------------------------------------------------------ powers of two

  lemma ChosenIs(tau: real, s: seq<real>, initial: seq<real>, cells: nat, its: seq<Iterate>, best: nat,
      r: Result<Design>)
    requires FitChooses(tau, s, initial, cells, its, best, r)
    ensures s != [] && 0 < |initial| <= cells && best < |its| && WellSized(its[best], |initial|)
    ensures r == if Sum(its[best].phases) > cells then Err(BadDesign)
            else Ok(DesignOf(tau, its[best], |initial|, cells, s))
    ensures its[0].radii == initial && |its[0].phases| == |initial|
    ensures forall i :: 0 <= i < |initial| ==> its[0].phases[i] == cells / |initial|
  {
    SizedHas(its, |initial|, best);
    hide IsFitRun, WellSized, MeanCost, DesignOf;
  }

  /** From the second iterate on every phase count comes from the allocation. */
  lemma LaterPhases(tau: real, s: seq<real>, m: nat, cells: nat, its: seq<Iterate>, k: nat)
    requires 0 < m && IsFitRun(tau, s, m, cells, its) && 0 < k < |its|
    ensures |its[k].phases| == m && forall i :: 0 <= i < m ==> GoodCount(its[k].phases[i])
    ensures 4 * m <= cells ==> Sum(its[k].phases) <= cells
  {
    FollowsAt(tau, s, m, cells, its, k);
    hide IsCut, StatsOf, Bounds, Refined, GoodCount, IsFitRun, Fair;
  }

  /** The documented power-of-two phases hold exactly unless the kept iterate is a first, uneven split. */
  lemma PowersIff(tau: real, s: seq<real>, initial: seq<real>, cells: nat, its: seq<Iterate>, best: nat,
      r: Result<Design>)
    requires FitChooses(tau, s, initial, cells, its, best, r) && r.Ok?
    ensures |r.value.phases| == |initial| > 0
    ensures (forall i :: 0 <= i < |initial| ==> PowerOfTwo(r.value.phases[i])) <==>
            best > 0 || PowerOfTwo(cells / |initial|)
  {
    ChosenIs(tau, s, initial, cells, its, best, r);
    if best > 0 { LaterPhases(tau, s, |initial|, cells, its, best); }
    hide PowerOfTwo, FitChooses, IsFitRun;
    if best == 0 { assert r.value.phases[0] == cells / |initial|; }
  }

  /** A split into powers of two suffices, whatever the sample. */
  lemma PowersFromSplit(tau: real, s: seq<real>, initial: seq<real>, cells: nat, r: Result<Design>)
    requires (exists its, best: nat :: FitChooses(tau, s, initial, cells, its, best, r)) && r.Ok?
    requires |initial| > 0 && PowerOfTwo(cells / |initial|)
    ensures |r.value.phases| == |initial| && forall i :: 0 <= i < |initial| ==> PowerOfTwo(r.value.phases[i])
  {
    hide FitChooses, PowerOfTwo;
    var its, best: nat :| FitChooses(tau, s, initial, cells, its, best, r);
    PowersIff(tau, s, initial, cells, its, best, r);
  }

  // ------------------------------------------------------------------ a fit that keeps its first iterate

  /** With fifteen cells for three rings, the allocation can only give four phases to each. */
  lemma FourEach(p: seq<nat>)
    requires |p| == 3 && Sum(p) <= 15 && forall i :: 0 <= i < 3 ==> GoodCount(p[i])
    ensures p == [4, 4, 4]
  {
    assert Sum(p) == p[0] + p[1] + p[2] by {
      assert p[..2][..1] == p[..1] && p[..1][..0] == [] && Sum(p[..1]) == p[0] && Sum(p[..2]) == Sum(p[..1]) + p[1];
    }
    forall i | 0 <= i < 3 ensures p[i] == 4 {
      if p[i] > 4 { PowersBetween(p[i]); }
    }
  }

  lemma PowersBetween(p: nat)
    requires GoodCount(p) && p > 4
    ensures p >= 8
  {
    assert Pow2(2) == 4;
    assert PowerOfTwo(4);
    TwiceOrEqual(4, p);
  }

  /** What the one sample costs on the ring it defined. */
  function OwnCost(v: real, c: real): real
  {
    v * v * c
  }

  /** The best radius for one sample still leaves this cost. */
  lemma LeastCost(v: real, r: real, c: real, least: real)
    requires least == c - c * c / 4.0
    ensures Cost(v, r, c) >= OwnCost(v, least)
  {
    var d := r - v + v * c / 2.0;
    assert d * d >= 0.0;
    var x := v * c;
    assert d * d == r * r - 2.0 * r * v + v * v + r * x - v * x + x * x / 4.0;
    assert v * v * least == v * x - x * x / 4.0;
    assert Cost(v, r, c) == v * v - 2.0 * r * v + r * r + r * x;
  }

  /** Four phases cannot undercut five, for a full turn between 6 and 6.5. */
  lemma FiveBeatFour(tau: real) returns (least: real)
    requires 6.0 < tau < 6.5
    ensures least == TangentialCoeff(tau, 4) - TangentialCoeff(tau, 4) * TangentialCoeff(tau, 4) / 4.0
    ensures TangentialCoeff(tau, 5) < least
  {
    var t := tau * tau / 12.0;
    assert 3.0 < t < 4.0;
    var c4, c5 := TangentialCoeff(tau, 4), TangentialCoeff(tau, 5);
    assert c4 == t / 16.0 && c5 == t / 25.0;
    least := c4 - c4 * c4 / 4.0;
    assert c4 * c4 / 4.0 == t * t / 1024.0;
    assert t * t < 4.0 * t;
  }

  /** One sample: the mean cost is its cost on some ring. */
  lemma OneSample(tau: real, it: Iterate, m: nat, v: real) returns (k: nat)
    requires m > 0 && WellSized(it, m)
    ensures k < m && MeanCost(tau, it, m, [v]) == Cost(v, it.radii[k], TangentialCoeff(tau, it.phases[k]))
  {
    hide Cost, TangentialCoeff, RingOf;
    k := RingOf(Bounds(tau, it, m), v);
    assert TotalCost(tau, it, m, [v], 1) == TotalCost(tau, it, m, [v], 0) + AssignedCost(tau, it, m, v);
  }

  lemma OnRing(v: real, c: real)
    ensures Cost(v, v, c) == OwnCost(v, c)
  {
  }

  lemma Times(x: real, a: real, b: real)
    requires x > 0.0 && a < b
    ensures x * a < x * b
  {
  }

  /**
   A sample at one bin centre, where the initial radii all lie: every fit keeps its first iterate, and
   its five phases a ring are no power of two.
   */
  lemma FitKeepsFirst(tau: real, v: real, its: seq<Iterate>, best: nat, r: Result<Design>)
    requires 6.0 < tau < 6.5 && v > 0.0 && FitChooses(tau, [v], [v, v, v], 15, its, best, r)
    ensures best == 0 && r.Ok? && r.value.phases == [5, 5, 5] && !PowerOfTwo(5)
  {
    ChosenIs(tau, [v], [v, v, v], 15, its, best, r);
    SizedHas(its, 3, 0);
    hide FitChooses, WellSized, DesignOf, PowerOfTwo;
    if best > 0 {
      CheapestOf(tau, [v], [v, v, v], 15, its, best, r);
      LaterCost(tau, its, best, v);
      FirstCost(tau, its[0], v);
    }
    FiveIsNoPower();
    FirstDesign(tau, its[0], v);
  }

  lemma CheapestOf(tau: real, s: seq<real>, initial: seq<real>, cells: nat, its: seq<Iterate>, best: nat,
      r: Result<Design>)
    requires FitChooses(tau, s, initial, cells, its, best, r) && best > 0
    ensures s != [] && 0 < |initial| && best < |its| && WellSized(its[0], |initial|) && WellSized(its[best], |initial|)
    ensures IsFitRun(tau, s, |initial|, cells, its)
    ensures MeanCost(tau, its[best], |initial|, s) < MeanCost(tau, its[0], |initial|, s)
  {
    SizedHas(its, |initial|, 0);
    SizedHas(its, |initial|, best);
    hide MeanCost, IsFitRun, WellSized;
  }

  lemma FirstCost(tau: real, it: Iterate, v: real)
    requires WellSized(it, 3) && it.radii == [v, v, v] && forall i :: 0 <= i < 3 ==> it.phases[i] == 5
    ensures MeanCost(tau, it, 3, [v]) == OwnCost(v, TangentialCoeff(tau, 5))
  {
    var k := OneSample(tau, it, 3, v);
    hide MeanCost, TangentialCoeff, Cost, OwnCost;
    OnRing(v, TangentialCoeff(tau, 5));
  }

  lemma LaterCost(tau: real, its: seq<Iterate>, k: nat, v: real)
    requires 6.0 < tau < 6.5 && v > 0.0 && IsFitRun(tau, [v], 3, 15, its) && 0 < k < |its| && WellSized(its[k], 3)
    ensures MeanCost(tau, its[k], 3, [v]) > OwnCost(v, TangentialCoeff(tau, 5))
  {
    LaterPhases(tau, [v], 3, 15, its, k);
    hide IsFitRun, GoodCount;
    FourEach(its[k].phases);
    var ring := OneSample(tau, its[k], 3, v);
    hide *;
    assert its[k].phases[ring] == 4;
    OverFive(tau, v, its[k].radii[ring]);
  }

  lemma OverFive(tau: real, v: real, r: real)
    requires 6.0 < tau < 6.5 && v > 0.0
    ensures Cost(v, r, TangentialCoeff(tau, 4)) > OwnCost(v, TangentialCoeff(tau, 5))
  {
    hide *;
    var c4, c5 := TangentialCoeff(tau, 4), TangentialCoeff(tau, 5);
    var least := FiveBeatFour(tau);
    LeastCost(v, r, c4, least);
    Undercut(v, c5, least);
  }

  lemma Undercut(v: real, c: real, b: real)
    requires v > 0.0 && c < b
    ensures OwnCost(v, c) < OwnCost(v, b)
  {
    Times(v, c, b);
    Times(v, v * c, v * b);
    assert v * v * c == v * (v * c);
    assert v * v * b == v * (v * b);
  }

  lemma FirstDesign(tau: real, it: Iterate, v: real)
    requires WellSized(it, 3) && forall i :: 0 <= i < 3 ==> it.phases[i] == 5
    ensures it.phases == [5, 5, 5] && Sum(it.phases) == 15 && DesignOf(tau, it, 3, 15, [v]).phases == [5, 5, 5]
  {
    assert it.phases == [5, 5, 5];
    hide MeanCost, Bounds, Bases;
    var p: seq<nat> := [5, 5, 5];
    assert p[..2][..1] == p[..1] && p[..1][..0] == [] && Sum(p[..1]) == 5 && Sum(p[..2]) == Sum(p[..1]) + 5;
  }

  lemma FiveIsNoPower()
    ensures !PowerOfTwo(5)
  {
    forall k: nat ensures Pow2(k) != 5 {
      if k > 0 { assert Pow2(k) == 2 * Pow2(k - 1); }
    }
  }

  // ------------------------------------------------------------------ radii

  lemma {:induction false} PrefixGrows(s: seq<real>, lo: nat, hi: nat)
    requires lo <= hi <= |s| && forall i :: 0 <= i < |s| ==> s[i] >= 0.0
    ensures PrefixSum(s, lo) <= PrefixSum(s, hi)
    decreases hi
  {
    if lo < hi { PrefixGrows(s, lo, hi - 1); }
  }

  predicate Nonnegative(s: seq<real>)
  {
    forall i :: 0 <= i < |s| ==> s[i] >= 0.0
  }

  /** Quotients and products of what is not negative. */
  lemma MovedEntry(sum: real, count: nat, c: real)
    requires sum >= 0.0 && count > 0 && c <= 2.0
    ensures sum / count as real * (1.0 - c / 2.0) >= 0.0
  {
    var mean := sum / count as real;
    assert mean >= 0.0;
    assert mean * (1.0 - c / 2.0) >= 0.0;
  }

  lemma {:induction false} MovedNonnegative(radii: seq<real>, coeffs: seq<real>, st: Stats, densest: nat, n: nat)
    requires n <= |radii| == |coeffs| == |st.sums| == |st.counts| && densest < |radii|
    requires Nonnegative(radii) && Nonnegative(st.sums) && forall i :: 0 <= i < |coeffs| ==> coeffs[i] <= 2.0
    ensures Nonnegative(Moved(radii, coeffs, st, densest, n))
  {
    if n > 0 {
      MovedNonnegative(radii, coeffs, st, densest, n - 1);
      var i := n - 1;
      if st.counts[i] > 0 { MovedEntry(st.sums[i], st.counts[i], coeffs[i]); }
    }
  }

  /** With four phases or more a ring, the shrink factor of a radius is not negative. */
  lemma CoeffAtMostTwo(tau: real, p: nat)
    requires 0.0 <= tau <= 19.0 && p >= 4
    ensures TangentialCoeff(tau, p) <= 2.0
  {
    var step := tau / p as real;
    assert step * p as real == tau && p as real >= 4.0;
    StepAtMost(step, p as real);
  }

  lemma SignOf(x: real, p: real)
    requires p > 0.0 && x * p >= 0.0
    ensures x >= 0.0
  {
  }

  lemma StepAtMost(step: real, p: real)
    requires p >= 4.0 && 0.0 <= step * p <= 19.0
    ensures 0.0 <= step <= 4.75 && step * step / 12.0 <= 2.0
  {
    SignOf(step, p);
    assert (4.75 - step) * p == 4.75 * p - step * p;
    SignOf(4.75 - step, p);
    Square(step, 4.75);
  }

  lemma RefinedNonnegative(tau: real, s: seq<real>, it: Iterate, m: nat, cut: seq<nat>, st: Stats)
    requires m > 0 && WellSized(it, m) && IsCut(s, Bounds(tau, it, m), cut) && StatsOf(s, cut, st, m)
    requires 0.0 <= tau <= 19.0 && Nonnegative(s) && Nonnegative(it.radii) && forall i :: 0 <= i < m ==>
             it.phases[i] >= 4
    ensures |st.sums| == m && |st.counts| == m && Nonnegative(Refined(tau, it, m, st).0)
  {
    forall i | 0 <= i < m ensures st.sums[i] >= 0.0 { PrefixGrows(s, cut[i], cut[i + 1]); }
    forall i | 0 <= i < m ensures Coeffs(tau, it.phases)[i] <= 2.0 { CoeffAtMostTwo(tau, it.phases[i]); }
    hide PrefixSum, TangentialCoeff, IsCut, Bounds;
    MovedNonnegative(it.radii, Coeffs(tau, it.phases), st, Densest(st.counts), m);
    hide Moved, Weights, StatsOf, Densest, Coeffs;
  }

  /** No update makes a radius negative: each iterate's radii ascend from zero. */
  lemma {:induction false} RadiiAscend(tau: real, s: seq<real>, m: nat, cells: nat, its: seq<Iterate>, k: nat)
    requires 0 < m && 4 * m <= cells && IsFitRun(tau, s, m, cells, its) && k < |its|
    requires 0.0 <= tau <= 19.0 && Nonnegative(s) && AscendingRadii(its[0].radii)
    requires its[0].phases == seq(m, _ => cells / m)
    ensures WellSized(its[k], m) && AscendingRadii(its[k].radii) && forall i :: 0 <= i < m ==> its[k].phases[i] >= 4
    decreases k
  {
    SizedHas(its, m, k);
    hide WellSized, AscendingRadii, IsFitRun;
    if k == 0 {
      AtLeastFour(cells, m);
    } else {
      RadiiAscend(tau, s, m, cells, its, k - 1);
      FollowsAt(tau, s, m, cells, its, k);
      hide Follows;
      StepAscends(tau, s, m, cells, its[k - 1], its[k]);
    }
  }

  lemma AtLeastFour(cells: nat, m: nat)
    requires 0 < m && 4 * m <= cells
    ensures cells / m >= 4
  {
    var q := cells / m;
    assert cells == m * q + cells % m;
    if q < 4 { TimesThree(m, q); }
  }

  lemma TimesThree(m: nat, q: nat)
    requires q <= 3
    ensures m * q <= 3 * m
  {
  }

  /** So do those of the design a fit returns. */
  lemma FittedAscends(tau: real, s: seq<real>, initial: seq<real>, cells: nat, its: seq<Iterate>, best: nat,
      r: Result<Design>)
    requires FitChooses(tau, s, initial, cells, its, best, r) && r.Ok? && 4 * |initial| <= cells
    requires 0.0 <= tau <= 19.0 && Nonnegative(s) && AscendingRadii(initial)
    ensures AscendingRadii(r.value.radii)
  {
    ChosenIs(tau, s, initial, cells, its, best, r);
    hide WellSized, AscendingRadii, IsFitRun, MeanCost, Bounds, Bases, FirstCheapest;
    RadiiAscend(tau, s, |initial|, cells, its, best);
  }

  lemma StepAscends(tau: real, s: seq<real>, m: nat, cells: nat, it: Iterate, next: Iterate)
    requires 0 < m && WellSized(it, m) && Follows(tau, s, m, cells, it, next)
    requires 0.0 <= tau <= 19.0 && Nonnegative(s) && AscendingRadii(it.radii) && forall i :: 0 <= i < m ==>
             it.phases[i] >= 4
    ensures AscendingRadii(next.radii) && forall i :: 0 <= i < m ==> next.phases[i] >= 4
  {
    var cut, st :| && IsCut(s, Bounds(tau, it, m), cut) && StatsOf(s, cut, st, m)
                   && next.radii == Refined(tau, it, m, st).0
                   && Allocated(Refined(tau, it, m, st).1, next.phases, cells);
    RefinedNonnegative(tau, s, it, m, cut, st);
    hide IsCut, StatsOf, Refined, Bounds, PowerOfTwo, Fair;
  }

  /** The update moves and reorders radii; it adds and drops none. */
  lemma RefinedReorders(tau: real, it: Iterate, m: nat, st: Stats)
    requires m > 0 && WellSized(it, m) && |st.sums| == m && |st.counts| == m
    ensures var moved := Moved(it.radii, Coeffs(tau, it.phases), st, Densest(st.counts), m);
            multiset(Refined(tau, it, m, st).0) == multiset(moved)
  {
    hide Moved, Weights, Coeffs;
    var moved := Moved(it.radii, Coeffs(tau, it.phases), st, Densest(st.counts), m);
    OrderMembers(moved, m);
    SameMultiset(moved, Order(moved, m));
  }

  lemma {:induction false} InsertMembers(radii: seq<real>, before: seq<nat>, x: nat, i: nat)
    requires x < |radii| && i <= |before| && StablySorted(radii, before) && forall j :: 0 <= j < |before| ==>
             before[j] < x
    requires forall j :: i <= j < |before| ==> radii[before[j]] > radii[x]
    ensures multiset(InsertAt(radii, before, x, i)) == multiset(before) + multiset{x}
  {
    hide StablySorted;
    if i > 0 && radii[before[i - 1]] > radii[x] {
      InsertMembers(radii, before, x, i - 1);
    } else {
      assert before == before[..i] + before[i..];
    }
  }

  /** The order is a permutation of the positions. */
  lemma {:induction false} OrderMembers(radii: seq<real>, n: nat)
    requires n <= |radii|
    ensures Positions(Order(radii, n), n)
  {
    hide *;
    if n == 0 {
      NoPositions(radii);
    } else {
      var last: nat, before := n - 1, Order(radii, n - 1);
      OrderMembers(radii, last);
      OrderStep(radii, n);
      InsertMembers(radii, before, last, last);
      DistinctPositions(radii, Order(radii, n));
      OneMorePosition(before, Order(radii, n), last);
    }
  }

  lemma NoPositions(radii: seq<real>)
    ensures Positions(Order(radii, 0), 0)
  {
  }

  lemma OrderStep(radii: seq<real>, n: nat)
    requires 0 < n <= |radii|
    ensures Order(radii, n) == InsertAt(radii, Order(radii, n - 1), n - 1, n - 1)
  {
    hide InsertAt;
  }

  lemma OneMorePosition(before: seq<nat>, o: seq<nat>, last: nat)
    requires Positions(before, last) && |o| == last + 1 && multiset(o) == multiset(before) + multiset{last}
    requires forall i, j :: 0 <= i < j < |o| ==> o[i] != o[j]
    ensures Positions(o, last + 1)
  {
    forall x: nat ensures x in o <==> x < last + 1 {
      assert x in o <==> x in multiset(o);
      assert x in before <==> x in multiset(before);
    }
  }

  lemma DistinctPositions(radii: seq<real>, o: seq<nat>)
    requires StablySorted(radii, o)
    ensures forall i, j :: 0 <= i < j < |o| ==> o[i] != o[j]
  {
  }

  ghost predicate Positions(o: seq<nat>, n: nat)
  {
    |o| == n && (forall x: nat :: x in o <==> x < n) && forall i, j :: 0 <= i < j < n ==> o[i] != o[j]
  }

  lemma WithoutLast(o: seq<nat>, n: nat, p: nat)
    requires Positions(o, n + 1) && p < |o| && o[p] == n
    ensures Positions(o[..p] + o[p + 1..], n)
  {
    var o' := o[..p] + o[p + 1..];
    forall x: nat ensures x in o' <==> x < n {
      if x < n {
        assert x in o;
        var q: nat :| q < |o| && o[q] == x;
        assert o'[if q < p then q else q - 1] == x;
      }
      if x in o' {
        var q: nat :| q < |o'| && o'[q] == x;
        assert o[if q < p then q else q + 1] == x && o[if q < p then q else q + 1] in o;
      }
    }
  }

  /** Reading a list at each of its positions once gives its elements as often as it has them. */
  lemma {:induction false} SameMultiset(s: seq<real>, o: seq<nat>)
    requires Positions(o, |s|)
    ensures (forall i :: 0 <= i < |o| ==> o[i] < |s|) && multiset(Permuted(s, o)) == multiset(s)
    decreases |s|
  {
    assert forall i :: 0 <= i < |o| ==> o[i] in o;
    if s == [] {
      assert Permuted(s, o) == [];
    } else {
      var n := |s| - 1;
      assert n in o;
      var p: nat :| p < |o| && o[p] == n;
      var o' := o[..p] + o[p + 1..];
      WithoutLast(o, n, p);
      SameMultiset(s[..n], o');
      var t := Permuted(s, o);
      assert Permuted(s[..n], o') == t[..p] + t[p + 1..] by { hide Positions; }
      hide *;
      assert t[p] == s[n] by { TakenAt(s, o, p); }
      Regrouped(t, p, s[n]);
      assert s == s[..n] + [s[n]];
    }
  }

  lemma TakenAt(s: seq<real>, o: seq<nat>, p: nat)
    requires (forall i :: 0 <= i < |o| ==> o[i] < |s|) && p < |o|
    ensures Permuted(s, o)[p] == s[o[p]]
  {
  }

  lemma Regrouped(t: seq<real>, p: nat, x: real)
    requires p < |t| && t[p] == x
    ensures multiset(t) == multiset(t[..p] + t[p + 1..]) + multiset{x}
  {
    assert t == t[..p] + [x] + t[p + 1..];
  }

  // ------------------------------------------------------------------ a ring set the clamp misjudges

  const CLAMPED_RADII := [1.0, 2.0, 2.05]
  const CLAMPED_PHASES: seq<nat> := [64, 4, 64]

  /** The first boundary lies beyond 1.8 and the second before 0.5. */
  lemma ClampedCuts(c64: real, c4: real)
    requires 0.0 < c64 < 0.001 && 0.18 < c4 < 0.23
    ensures var first, second := RawCut(1.0, c64, 2.0, c4), RawCut(2.0, c4, 2.05, c64);
            first.Finite? && first.at > 1.8 && second.Finite? && second.at < 0.5
  {
    var d0, d1 := Denominator(1.0, c64, 2.0, c4), Denominator(2.0, c4, 2.05, c64);
    assert 1.5 < d0 < 1.65 && d1 > 0.45;
    assert 1.8 * d0 < 3.0 && 0.5 * d1 > 2.05 * 2.05 - 4.0;
    QuotientAbove(3.0, d0, 1.8);
    QuotientBelow(2.05 * 2.05 - 4.0, d1, 0.5);
  }

  lemma QuotientAbove(x: real, d: real, q: real)
    requires d > 0.0 && q * d < x
    ensures x / d > q
  {
    DivideBy(x, q, d);
    assert (x / d) * d == x;
  }

  lemma QuotientBelow(x: real, d: real, q: real)
    requires d > 0.0 && q * d > x
    ensures x / d < q
  {
    DivideBy(x, q, d);
  }

  /** Rings of 64, 4 and 64 phases, for a full turn between 6 and 6.5: the clamp hides the cheapest ring at 1.8. */
  lemma ClampCanMiss(tau: real)
    requires 6.0 < tau < 6.5
    ensures var coeffs := Coeffs(tau, CLAMPED_PHASES);
            && AscendingRadii(CLAMPED_RADII) && |coeffs| == 3 && !Unclamped(CLAMPED_RADII, coeffs)
            && RingOf(Cuts(CLAMPED_RADII, coeffs, 2), 1.8) == 0
            && Cost(1.8, CLAMPED_RADII[2], coeffs[2]) < Cost(1.8, CLAMPED_RADII[0], coeffs[0])
  {
    var coeffs := Coeffs(tau, CLAMPED_PHASES);
    var t := tau * tau / 12.0;
    assert 3.0 < t < 3.6;
    var c64, c4 := coeffs[0], coeffs[1];
    assert c64 == t / 4096.0 && c4 == t / 16.0 && coeffs[2] == c64;
    hide Coeffs, TangentialCoeff;
    ClampedCuts(c64, c4);
    ClampedChoice(coeffs, c64, c4);
  }

  lemma ClampedChoice(coeffs: seq<real>, c64: real, c4: real)
    requires coeffs == [c64, c4, c64] && 0.0 < c64 < 0.001
    requires var first, second := RawCut(1.0, c64, 2.0, c4), RawCut(2.0, c4, 2.05, c64);
             first.Finite? && first.at > 1.8 && second.Finite? && second.at < 0.5
    ensures !Unclamped(CLAMPED_RADII, coeffs) && RingOf(Cuts(CLAMPED_RADII, coeffs, 2), 1.8) == 0
    ensures Cost(1.8, 2.05, c64) < Cost(1.8, 1.0, c64)
  {
    hide RawCut;
    CutAt(CLAMPED_RADII, coeffs, 2, 0);
    CutAt(CLAMPED_RADII, coeffs, 2, 1);
    var b := Cuts(CLAMPED_RADII, coeffs, 2);
    assert b[..1] == [b[0]];
  }
}
