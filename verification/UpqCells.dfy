/**
 Cells of the polar quantizer (`src/codec/upq.rs`): the layout of (ring, phase) pairs, encoding,
 decode tables, and the fixed 11-bit wire format.  Angles and amplitudes are reals.
 */
module UpqCells {
  import opened Basics
  import opened Bits
  import opened BitStream
  import RingChoice
  import opened RingCuts
  import opened PhaseAlloc
  import FitResults
  import RingFit

  // ------------------------------------------------------------------ the layout

  /** The cell of a phase on a ring. */
  function CellOf(phases: seq<nat>, ring: nat, m: nat): nat
    requires ring < |phases|
  {
    Sum(phases[..ring]) + m
  }

  lemma {:induction false} SumPrefix(phases: seq<nat>, i: nat, j: nat)
    requires i <= j <= |phases|
    ensures Sum(phases[..i]) <= Sum(phases[..j])
    ensures i < j ==> Sum(phases[..i]) + phases[i] <= Sum(phases[..j])
    decreases j
  {
    if i < j {
      assert phases[..j][..j - 1] == phases[..j - 1];
      if i < j - 1 { SumPrefix(phases, i, j - 1); }
    }
  }

  /** Every pair has its own cell, below the sum of the phases. */
  lemma CellsDistinct(phases: seq<nat>, r: nat, m: nat, q: nat, n: nat)
    requires r < |phases| && m < phases[r] && q < |phases| && n < phases[q]
    ensures CellOf(phases, r, m) < Sum(phases)
    ensures CellOf(phases, r, m) == CellOf(phases, q, n) <==> r == q && m == n
  {
    assert phases[..|phases|] == phases;
    SumPrefix(phases, r, |phases|);
    if r < q { SumPrefix(phases, r, q); } else if q < r { SumPrefix(phases, q, r); }
  }

  /** And every cell below the sum is the cell of a pair. */
  function Locate(phases: seq<nat>, cell: nat): (rm: (nat, nat))
    requires cell < Sum(phases)
    ensures rm.0 < |phases| && rm.1 < phases[rm.0] && CellOf(phases, rm.0, rm.1) == cell
  {
    var n := |phases| - 1;
    if cell >= Sum(phases[..n]) then (n, cell - Sum(phases[..n]))
    else
      var rm := Locate(phases[..n], cell);
      assert phases[..n][..rm.0] == phases[..rm.0];
      rm
  }

  // ------------------------------------------------------------------ encoding a pair

  /** The phase index of an angle on a ring of `p` phases. */
  function PhaseIndex(tau: real, p: nat, theta: real): (m: nat)
    requires p > 0 && tau > 0.0
    ensures m < p
  {
    Round(theta * (p as real / tau)) % p
  }

  /** The decoded angle is within half a step of the encoded one, up to whole turns. */
  lemma PhaseIsNear(tau: real, p: nat, theta: real) returns (turns: int)
    requires p > 0 && tau > 0.0
    ensures var step := tau / p as real;
            var error := theta - PhaseIndex(tau, p, theta) as real * step - turns as real * tau;
            -step / 2.0 <= error <= step / 2.0
  {
    var x := theta * (p as real / tau);
    var k := Round(x);
    RoundIsNear(x);
    var m := k % p;
    turns := k / p;
    assert k == p * turns + m;
    StepScales(tau, p as real, theta, x);
    Reals(k, p, turns, m);
    hide Round, PhaseIndex;
    NearCore(theta, x, k as real, p as real, turns as real, m as real, tau / p as real, tau);
    assert PhaseIndex(tau, p, theta) == m by { IndexIs(tau, p, theta); }
  }

  lemma IndexIs(tau: real, p: nat, theta: real)
    requires p > 0 && tau > 0.0
    ensures PhaseIndex(tau, p, theta) == Round(theta * (p as real / tau)) % p
  {
  }

  lemma Reals(k: int, p: int, t: int, m: int)
    requires k == p * t + m
    ensures k as real == p as real * t as real + m as real
  {
  }

  lemma NearCore(theta: real, x: real, k: real, p: real, t: real, m: real, step: real, tau: real)
    requires x * step == theta && p * step == tau && k == p * t + m && -0.5 <= x - k <= 0.5 && step > 0.0
    ensures var error := theta - m * step - t * tau; -step / 2.0 <= error <= step / 2.0
  {
    Expand(x, p, t, m, step, tau);
    Scaled(x - k, step);
  }

  lemma StepScales(tau: real, p: real, theta: real, x: real)
    requires p > 0.0 && tau > 0.0 && x == theta * (p / tau)
    ensures tau / p > 0.0 && x * (tau / p) == theta && p * (tau / p) == tau
  {
    var q, s := p / tau, tau / p;
    assert q * tau == p && s * p == tau;
    assert q * s == 1.0 by { Cancel(q, s, p, tau); }
    assert x * s == theta * (q * s);
  }

  lemma Cancel(q: real, s: real, p: real, tau: real)
    requires q * tau == p && s * p == tau && p > 0.0
    ensures q * s == 1.0
  {
    assert (q * s) * p == q * tau;
    assert (q * s - 1.0) * p == 0.0;
  }

  lemma Expand(x: real, p: real, t: real, m: real, step: real, tau: real)
    requires p * step == tau
    ensures x * step - m * step - t * tau == (x - (p * t + m)) * step
  {
    assert t * tau == (p * t) * step;
  }

  lemma Scaled(d: real, step: real)
    requires -0.5 <= d <= 0.5 && step > 0.0
    ensures -step / 2.0 <= d * step <= step / 2.0
  {
  }

  /** A fitted or restored design as the codec uses it. */
  predicate ValidDesign(d: RingFit.Design)
  {
    && |d.phases| > 0 && |d.radii| == |d.phases| && |d.boundaries| + 1 == |d.phases|
    && d.bases == RingFit.Bases(d.phases)
    && (forall i :: 0 <= i < |d.phases| ==> d.phases[i] > 0)
    && Sum(d.phases) <= d.cells <= Pow2(11)
  }

  function EncodePair(tau: real, d: RingFit.Design, a: real, theta: real): nat
    requires tau > 0.0 && ValidDesign(d)
  {
    var ring := RingOf(d.boundaries, a);
    d.bases[ring] + PhaseIndex(tau, d.phases[ring], theta)
  }

  /** A code names the ring the boundaries choose and the nearest phase on it, and nothing else. */
  lemma EncodedCell(tau: real, d: RingFit.Design, a: real, theta: real)
    requires tau > 0.0 && ValidDesign(d)
    ensures var ring := RingOf(d.boundaries, a);
            && ring < |d.phases|
            && EncodePair(tau, d, a, theta) < Sum(d.phases) <= d.cells
            && Locate(d.phases, EncodePair(tau, d, a, theta)) == (ring, PhaseIndex(tau, d.phases[ring], theta))
  {
    var ring := RingOf(d.boundaries, a);
    var m := PhaseIndex(tau, d.phases[ring], theta);
    var cell := EncodePair(tau, d, a, theta);
    assert cell == CellOf(d.phases, ring, m);
    CellsDistinct(d.phases, ring, m, ring, m);
    var rm := Locate(d.phases, cell);
    CellsDistinct(d.phases, ring, m, rm.0, rm.1);
    hide Locate, PhaseIndex, RingOf, EncodePair;
  }

  // ------------------------------------------------------------------ decode tables

  /** Every fitted design satisfies what the encoder, the tables and the packing rely on. */
  lemma FittedIsValid(tau: real, s: seq<real>, initial: seq<real>, cells: nat, its: seq<RingFit.Iterate>, best: nat,
      r: Result<RingFit.Design>)
    requires RingFit.FitChooses(tau, s, initial, cells, its, best, r) && r.Ok?
    requires |initial| >= 2 && cells <= Pow2(WIRE_BITS)
    ensures ValidDesign(r.value) && OwnBoundaries(tau, r.value)
  {
    RingFit.SizedHas(its, |initial|, best);
    hide RingFit.IsFitRun, RingFit.FirstCheapest, RingFit.MeanCost, Cuts, RingFit.Bases, Sum, Pow2;
    hide RingFit.AllSized;
  }

  /** The check on radii and phases under which assignment is a search. */
  predicate PassesCheck(tau: real, d: RingFit.Design)
  {
    ValidDesign(d) && RingChoice.Exact(d.radii, RingFit.Coeffs(tau, d.phases))
  }

  function CodeRing(tau: real, d: RingFit.Design, a: real, theta: real): nat
    requires tau > 0.0 && ValidDesign(d) && EncodePair(tau, d, a, theta) < Sum(d.phases)
  {
    Locate(d.phases, EncodePair(tau, d, a, theta)).0
  }

  /** The ring named by the code of an amplitude and angle costs no more than ring `j`. */
  predicate CodeNoWorse(tau: real, d: RingFit.Design, a: real, theta: real, j: nat)
    requires tau > 0.0 && ValidDesign(d) && j < |d.phases|
  {
    && EncodePair(tau, d, a, theta) < Sum(d.phases) && CodeRing(tau, d, a, theta) < |d.phases|
    && var ring := CodeRing(tau, d, a, theta);
       Cost(a, d.radii[ring], RingFit.TangentialCoeff(tau, d.phases[ring])) <=
       Cost(a, d.radii[j], RingFit.TangentialCoeff(tau, d.phases[j]))
  }

  /** Every code names a ring that no other ring beats. */
  ghost predicate CodesCheapest(tau: real, d: RingFit.Design)
    requires tau > 0.0 && ValidDesign(d)
  {
    forall a: real, theta: real, j: nat :: a >= 0.0 && j < |d.phases| ==> CodeNoWorse(tau, d, a, theta, j)
  }

  /** A design whose boundaries are the closed-form ones. */
  predicate OwnBoundaries(tau: real, d: RingFit.Design)
    requires ValidDesign(d)
  {
    d.boundaries == Cuts(d.radii, RingFit.Coeffs(tau, d.phases), |d.radii| - 1)
  }

  lemma CodeIsChoice(tau: real, d: RingFit.Design, a: real, theta: real, j: nat)
    requires tau > 0.0 && ValidDesign(d) && OwnBoundaries(tau, d) && j < |d.phases|
    ensures CodeNoWorse(tau, d, a, theta, j) <==> RingChoice.NoWorse(d.radii, RingFit.Coeffs(tau, d.phases), a, j)
  {
    EncodedCell(tau, d, a, theta);
    hide Cost, EncodePair, Locate, PhaseIndex, RingFit.TangentialCoeff, Cuts, RingOf, Sum;
  }

  /** Closed-form boundaries make every code as good as a search would exactly if the rings pass the check. */
  lemma CodesCheapestIff(tau: real, d: RingFit.Design)
    requires tau > 0.0 && ValidDesign(d) && OwnBoundaries(tau, d) && AscendingRadii(d.radii)
    ensures CodesCheapest(tau, d) <==> PassesCheck(tau, d)
  {
    var c := RingFit.Coeffs(tau, d.phases);
    assert |c| == |d.radii| == |d.phases| > 0;
    hide *;
    RingChoice.CheapestIffExact(d.radii, c);
    RingFit.TestsAll(d.radii, c);
    forall a: real, theta: real, j: nat | a >= 0.0 && j < |d.phases|
      ensures CodeNoWorse(tau, d, a, theta, j) <==> RingChoice.NoWorse(d.radii, c, a, j)
    {
      CodeIsChoice(tau, d, a, theta, j);
    }
    CodesAll(tau, d);
    if CodesCheapest(tau, d) {
      forall a: real, j: nat | a >= 0.0 && j < |d.phases| ensures RingChoice.NoWorse(d.radii, c, a, j) {
        assert CodeNoWorse(tau, d, a, 0.0, j);
      }
    }
  }

  lemma CodesAll(tau: real, d: RingFit.Design)
    requires tau > 0.0 && ValidDesign(d)
    ensures CodesCheapest(tau, d) <==>
            forall a: real, theta: real, j: nat :: a >= 0.0 && j < |d.phases| ==> CodeNoWorse(tau, d, a, theta, j)
    ensures PassesCheck(tau, d) <==> RingChoice.Exact(d.radii, RingFit.Coeffs(tau, d.phases))
  {
    hide CodeNoWorse, ValidDesign, RingChoice.Exact;
  }

  /**
   Fit and encoder together, for samples and initial radii from zero up: every code made with the fitted
   design names a ring no other ring beats, exactly if the design's own radii and phases pass the check.
   */
  lemma FittedCodesCheapestIff(tau: real, s: seq<real>, initial: seq<real>, cells: nat, its: seq<RingFit.Iterate>,
      best: nat,
                               r: Result<RingFit.Design>)
    requires RingFit.FitChooses(tau, s, initial, cells, its, best, r) && r.Ok?
    requires |initial| >= 2 && 4 * |initial| <= cells <= Pow2(WIRE_BITS) && 0.0 < tau <= 19.0
    requires FitResults.Nonnegative(s) && AscendingRadii(initial)
    ensures ValidDesign(r.value) && AscendingRadii(r.value.radii)
    ensures CodesCheapest(tau, r.value) <==> PassesCheck(tau, r.value)
  {
    FittedIsValid(tau, s, initial, cells, its, best, r);
    FitResults.FittedAscends(tau, s, initial, cells, its, best, r);
    hide *;
    CodesCheapestIff(tau, r.value);
  }

  datatype Entry = Entry(re: real, im: real, sign: nat)

  const NO_ENTRY := Entry(0.0, 0.0, 0)

  function EntryFor(tau: real, cos: real -> real, sin: real -> real, r: real, p: nat, m: nat): Entry
    requires p > 0
  {
    var theta := m as real * (tau / p as real);
    var re, im := r * cos(theta), r * sin(theta);
    Entry(re, im, Or(if re >= 0.0 then 1 else 0, Shl(if im >= 0.0 then 1 else 0, 1)))
  }

  /** The entry a cell of the layout must hold. */
  function EntryOf(tau: real, cos: real -> real, sin: real -> real, d: RingFit.Design, cell: nat): Entry
    requires ValidDesign(d) && cell < Sum(d.phases)
  {
    var rm := Locate(d.phases, cell);
    EntryFor(tau, cos, sin, d.radii[rm.0], d.phases[rm.0], rm.1)
  }

  ghost predicate TableBelow(tau: real, cos: real -> real, sin: real -> real, d: RingFit.Design, table: seq<Entry>,
      writes: seq<nat>, n: nat)
    requires ValidDesign(d)
  {
    && |table| == d.cells && |writes| == d.cells && n <= Sum(d.phases)
    && (forall c :: 0 <= c < n ==> table[c] == EntryOf(tau, cos, sin, d, c) && writes[c] == 1)
    && forall c :: n <= c < d.cells ==> table[c] == NO_ENTRY && writes[c] == 0
  }

  lemma NextCell(d: RingFit.Design, ring: nat, m: nat)
    requires ValidDesign(d) && ring < |d.phases| && m < d.phases[ring]
    ensures d.bases[ring] + m == CellOf(d.phases, ring, m) == Sum(d.phases[..ring]) + m < Sum(d.phases) <= d.cells
    ensures Locate(d.phases, CellOf(d.phases, ring, m)) == (ring, m)
    ensures Sum(d.phases[..ring + 1]) == Sum(d.phases[..ring]) + d.phases[ring]
  {
    CellsDistinct(d.phases, ring, m, ring, m);
    var rm := Locate(d.phases, CellOf(d.phases, ring, m));
    CellsDistinct(d.phases, ring, m, rm.0, rm.1);
    assert d.phases[..ring + 1][..ring] == d.phases[..ring];
    hide Locate;
  }

  lemma TableStep(tau: real, cos: real -> real, sin: real -> real, d: RingFit.Design, table: seq<Entry>,
      writes: seq<nat>, n: nat)
    requires ValidDesign(d) && TableBelow(tau, cos, sin, d, table, writes, n) && n < Sum(d.phases)
    ensures n < |table| && n < |writes| && writes[n] == 0
    ensures TableBelow(tau, cos, sin, d, table[n := EntryOf(tau, cos, sin, d, n)], writes[n := 1], n + 1)
  {
    assert Sum(d.phases) <= d.cells;
    hide EntryOf, ValidDesign, Sum;
  }

  /** One ring's cells. */
  method FillRing(tau: real, cos: real -> real, sin: real -> real, d: RingFit.Design, ring: nat, table: seq<Entry>,
      ghost writes: seq<nat>)
    returns (table': seq<Entry>, ghost writes': seq<nat>)
    requires ValidDesign(d) && ring < |d.phases| && TableBelow(tau, cos, sin, d, table, writes, Sum(d.phases[..ring]))
    ensures TableBelow(tau, cos, sin, d, table', writes', Sum(d.phases[..ring + 1]))
  {
    table', writes' := table, writes;
    NextCell(d, ring, 0);
    assert ring < |d.radii| && ring < |d.bases| && d.phases[ring] > 0;
    hide *;
    for m := 0 to d.phases[ring]
      invariant TableBelow(tau, cos, sin, d, table', writes', Sum(d.phases[..ring]) + m)
    {
      NextCell(d, ring, m);
      EntryIs(tau, cos, sin, d, ring, m);
      var cell := d.bases[ring] + m;
      TableStep(tau, cos, sin, d, table', writes', cell);
      table' := table'[cell := EntryFor(tau, cos, sin, d.radii[ring], d.phases[ring], m)];
      writes' := writes'[cell := writes'[cell] + 1];
    }
  }

  lemma EntryIs(tau: real, cos: real -> real, sin: real -> real, d: RingFit.Design, ring: nat, m: nat)
    requires ValidDesign(d) && ring < |d.phases| && m < d.phases[ring]
    ensures CellOf(d.phases, ring, m) < Sum(d.phases)
    ensures EntryOf(tau, cos, sin, d, CellOf(d.phases, ring, m)) ==
            EntryFor(tau, cos, sin, d.radii[ring], d.phases[ring], m)
  {
    NextCell(d, ring, m);
    hide Locate, EntryFor, Sum;
  }

  /** Fills the decode table: each cell below the sum of the phases once, no other cell ever. */
  method BuildTables(tau: real, cos: real -> real, sin: real -> real, d: RingFit.Design) returns (table: seq<Entry>,
      ghost writes: seq<nat>)
    requires ValidDesign(d)
    ensures |table| == d.cells
    ensures forall c :: 0 <= c < d.cells ==> table[c] == if c < Sum(d.phases) then EntryOf(tau, cos, sin, d, c)
            else NO_ENTRY
    ensures |writes| == d.cells && forall c :: 0 <= c < d.cells ==> writes[c] == if c < Sum(d.phases) then 1 else 0
  {
    table := seq(d.cells, _ => NO_ENTRY);
    writes := seq(d.cells, _ => 0);
    assert d.phases[..0] == [] && Sum([]) == 0;
    assert TableBelow(tau, cos, sin, d, table, writes, 0);
    assert d.phases[..|d.phases|] == d.phases;
    hide *;
    for ring := 0 to |d.phases|
      invariant TableBelow(tau, cos, sin, d, table, writes, Sum(d.phases[..ring]))
    {
      table, writes := FillRing(tau, cos, sin, d, ring, table, writes);
    }
    TableDone(tau, cos, sin, d, table, writes);
  }

  lemma TableDone(tau: real, cos: real -> real, sin: real -> real, d: RingFit.Design, table: seq<Entry>,
      writes: seq<nat>)
    requires ValidDesign(d) && TableBelow(tau, cos, sin, d, table, writes, Sum(d.phases))
    ensures |table| == |writes| == d.cells
    ensures forall c :: 0 <= c < d.cells ==> table[c] == if c < Sum(d.phases) then EntryOf(tau, cos, sin, d, c)
            else NO_ENTRY
    ensures forall c :: 0 <= c < d.cells ==> writes[c] == if c < Sum(d.phases) then 1 else 0
  {
    hide EntryOf, ValidDesign, Sum;
  }

  lemma SignBits(re: bool, im: bool)
    ensures Or(if re then 1 else 0, Shl(if im then 1 else 0, 1)) == (if re then 1 else 0) + if im then 2 else 0
  {
    assert Pow2(1) == 2 && Pow2(0) == 1;
    assert Or(0, 0) == 0 && Or(0, 1) == 1 && Or(1, 0) == 1;
  }

  /** The entry is the point at that angle on a ring of radius `r`, with a sketch of its signs. */
  predicate PointOf(e: Entry, cos: real -> real, sin: real -> real, r: real, angle: real)
  {
    && e.re == r * cos(angle) && e.im == r * sin(angle)
    && e.sign == (if e.re >= 0.0 then 1 else 0) + if e.im >= 0.0 then 2 else 0
  }

  predicate WithinHalfStep(tau: real, p: nat, theta: real, angle: real, turns: int)
    requires p > 0
  {
    var step, error := tau / p as real, theta - angle - turns as real * tau;
    -step / 2.0 <= error <= step / 2.0
  }

  function Angle(tau: real, p: nat, m: nat): real
    requires p > 0
  {
    m as real * (tau / p as real)
  }

  lemma EntryParts(tau: real, cos: real -> real, sin: real -> real, r: real, p: nat, m: nat)
    requires p > 0
    ensures PointOf(EntryFor(tau, cos, sin, r, p, m), cos, sin, r, Angle(tau, p, m))
  {
    var angle := m as real * (tau / p as real);
    SignBits(r * cos(angle) >= 0.0, r * sin(angle) >= 0.0);
    hide Or, Shl;
  }

  lemma AngleNear(tau: real, p: nat, theta: real) returns (turns: int)
    requires p > 0 && tau > 0.0
    ensures WithinHalfStep(tau, p, theta, Angle(tau, p, PhaseIndex(tau, p, theta)), turns)
  {
    turns := PhaseIsNear(tau, p, theta);
    hide PhaseIndex;
  }

  /**
   Decoding a code gives the point of the chosen ring at an angle within half a phase step of the one
   encoded, up to whole turns, and a sketch of the signs of its two coordinates.
   */
  lemma EncodedDecodes(tau: real, cos: real -> real, sin: real -> real, d: RingFit.Design, a: real, theta: real)
    returns (angle: real, turns: int)
    requires tau > 0.0 && ValidDesign(d)
    ensures var ring := RingOf(d.boundaries, a);
            && ring < |d.phases| && ring < |d.radii| && d.phases[ring] > 0
               && EncodePair(tau, d, a, theta) < Sum(d.phases)
            && PointOf(EntryOf(tau, cos, sin, d, EncodePair(tau, d, a, theta)), cos, sin, d.radii[ring], angle)
            && WithinHalfStep(tau, d.phases[ring], theta, angle, turns)
  {
    EncodedCell(tau, d, a, theta);
    var ring := RingOf(d.boundaries, a);
    assert ring < |d.radii| && d.phases[ring] > 0;
    hide *;
    var p := d.phases[ring];
    turns := AngleNear(tau, p, theta);
    var m := PhaseIndex(tau, p, theta);
    angle := Angle(tau, p, m);
    EntryParts(tau, cos, sin, d.radii[ring], p, m);
    LocatedEntry(tau, cos, sin, d, EncodePair(tau, d, a, theta), ring, m);
  }

  lemma LocatedEntry(tau: real, cos: real -> real, sin: real -> real, d: RingFit.Design, cell: nat, ring: nat, m: nat)
    requires ValidDesign(d) && cell < Sum(d.phases) && Locate(d.phases, cell) == (ring, m)
    ensures ring < |d.radii| && ring < |d.phases| && d.phases[ring] > 0
    ensures EntryOf(tau, cos, sin, d, cell) == EntryFor(tau, cos, sin, d.radii[ring], d.phases[ring], m)
  {
    hide Locate, EntryFor;
  }

  // ------------------------------------------------------------------ 11-bit fields

  const WIRE_BITS: nat := 11

  function Packed11Len(n: nat): nat
  {
    PackedBytes(n, WIRE_BITS)
  }

  /** Room for a four-byte load at every field, rounded up to 16 bytes. */
  function Packed11Stride(n: nat): nat
  {
    AlignUp(Packed11Len(n) + 4, 16)
  }

  function FieldByte(k: nat): nat { k * WIRE_BITS / 8 }

  function FieldOffset(k: nat): nat { k * WIRE_BITS % 8 }

  /** Every load stays in the row. */
  lemma LoadsInRow(n: nat, k: nat)
    requires k < n
    ensures FieldByte(k) + 4 <= Packed11Stride(n)
    ensures FieldByte(k) + 1 < Packed11Len(n) && (FieldOffset(k) > 5 ==> FieldByte(k) + 2 < Packed11Len(n))
  {
  }

  function Extract11(packed: Bytes, k: nat): nat
    requires FieldByte(k) + 4 <= |packed|
  {
    Low(Shr(LeNat(packed[FieldByte(k)..FieldByte(k) + 4]), FieldOffset(k)), WIRE_BITS)
  }

  /** A four-byte load reads exactly the field a sequential reader finds, whatever surrounds it. */
  lemma ExtractIsField(packed: Bytes, k: nat)
    requires FieldByte(k) + 4 <= |packed|
    ensures Extract11(packed, k) == Field(LeNat(packed), WIRE_BITS, k)
  {
    var byte, off := FieldByte(k), FieldOffset(k);
    PlaceOf(k);
    hide FieldByte, FieldOffset, LeNat, Low, Shr;
    WindowOf(packed, byte, 4);
    FieldInWindow(LeNat(packed), 8 * byte, 32, off, WIRE_BITS);
  }

  lemma ShlParts(c: nat, off: nat)
    requires off < 8 && c < Pow2(WIRE_BITS)
    ensures var v := Shl(c, off);
            && Low(v, 8) == Low(c, 8 - off) * Pow2(off)
            && v == Low(v, 8) + 256 * Low(Shr(v, 8), 8) + 65_536 * Low(Shr(v, 16), 8)
            && (off <= 5 ==> Low(Shr(v, 16), 8) == 0)
  {
    var v := Shl(c, off);
    DivUniqueShr(v, off, c, 0);
    LowSplit(v, off, 8 - off);
    Pow2Add(11, off);
    Pow2Eight();
    Pow2Add(8, 8);
    Pow2Add(16, 8);
    RemainderBound(c, Pow2(11), 0, Pow2(off));
    PowBelow(11 + off, 24);
    Split(v, 8);
    Split(Shr(v, 8), 8);
    ShrShr(v, 8, 8);
    Split(Shr(v, 16), 8);
    ShrShr(v, 16, 8);
    SmallLow(v, 24);
    if off <= 5 {
      PowBelow(11 + off, 16);
      SmallLow(v, 16);
      SmallLow(0, 8);
    }
  }

  /** Above the bits already written, the buffer is clear. */
  lemma FreeBytes(out: Bytes, byte: nat, off: nat)
    requires byte < |out| && off < 8 && LeNat(out) < Pow2(8 * byte + off)
    ensures out[byte] < Pow2(off)
    ensures forall j :: byte < j < |out| ==> out[j] == 0
  {
    ByteAt(out, byte);
    Pow2Add(8 * byte, off);
    Split(LeNat(out), 8 * byte);
    QuotientBound(Shr(LeNat(out), 8 * byte), Pow2(8 * byte), Low(LeNat(out), 8 * byte), Pow2(off));
    Split(Shr(LeNat(out), 8 * byte), 8);
    LowNoMore(Shr(LeNat(out), 8 * byte), 8);
    forall j | byte < j < |out| ensures out[j] == 0 {
      ByteAt(out, j);
      PowBelow(8 * byte + off, 8 * j);
      SmallLow(LeNat(out), 8 * j);
      SmallLow(0, 8);
    }
  }

  lemma QuotientBound(q: nat, d: nat, r: nat, bound: nat)
    requires q * d + r < d * bound
    ensures q < bound
  {
    MulMono(bound, q, d);
  }

  lemma MulMono(a: nat, b: nat, d: nat)
    ensures a <= b ==> a * d <= b * d
  {
  }

  lemma LowNoMore(n: nat, k: nat)
    ensures Low(n, k) <= n
  {
    Split(n, k);
    assert Shr(n, k) * Pow2(k) >= 0;
  }

  /** The field's first byte is shared with the field before, its others are free. */
  lemma FirstByte(out: Bytes, k: nat, c: nat)
    requires FieldByte(k) < |out| && c < Pow2(WIRE_BITS) && LeNat(out) < Pow2(k * WIRE_BITS)
    ensures var byte, lo := FieldByte(k), Low(Shl(c, FieldOffset(k)), 8);
            Or(out[byte], lo) == out[byte] + lo < 256
    ensures forall j :: FieldByte(k) < j < |out| ==> out[j] == 0
  {
    var byte, off := FieldByte(k), FieldOffset(k);
    assert 8 * byte + off == k * WIRE_BITS && off < 8;
    FreeBytes(out, byte, off);
    ShlParts(c, off);
    Split(c, 8 - off);
    Pow2Add(off, 8 - off);
    Pow2Eight();
    OrDisjoint(out[byte], Low(c, 8 - off), off);
    RemainderBound(Low(c, 8 - off), Pow2(8 - off), out[byte], Pow2(off));
    hide Low, Shl, Pow2, Or;
  }

  lemma OtherByte(x: nat)
    ensures Low(x, 8) < 256 && Or(0, Low(x, 8)) == Low(x, 8)
  {
    Pow2Eight();
    OrZero(Low(x, 8));
  }

  lemma PlaceValues(byte: nat)
    ensures Pow2(8 * (byte + 1)) == 256 * Pow2(8 * byte) && Pow2(8 * (byte + 2)) == 65_536 * Pow2(8 * byte)
  {
    Pow2Add(8, 8 * byte);
    Pow2Add(16, 8 * byte);
    Pow2Eight();
    Pow2Add(8, 8);
  }

  /** `out` with three bytes raised, the last two from zero. */
  function Raised(out: Bytes, byte: nat, lo: nat, mid: Byte, hi: Byte): (r: Bytes)
    requires byte + 1 < |out| && out[byte] + lo < 256 && (hi != 0 ==> byte + 2 < |out|)
  {
    var two := out[byte := (out[byte] + lo) as Byte][byte + 1 := mid];
    if byte + 2 < |out| then two[byte + 2 := hi] else two
  }

  lemma RaisedValue(out: Bytes, byte: nat, lo: nat, mid: Byte, hi: Byte)
    requires byte + 1 < |out| && out[byte] + lo < 256 && out[byte + 1] == 0
    requires if byte + 2 < |out| then out[byte + 2] == 0 else hi == 0
    ensures var p := Pow2(8 * byte);
            LeNat(Raised(out, byte, lo, mid, hi)) == LeNat(out) + lo * p + mid * (256 * p) + hi * (65_536 * p)
  {
    PlaceValues(byte);
    var one := out[byte := (out[byte] + lo) as Byte];
    var two := one[byte + 1 := mid];
    LeNatUpdate(out, byte, (out[byte] + lo) as Byte);
    LeNatUpdate(one, byte + 1, mid);
    if byte + 2 < |out| { LeNatUpdate(two, byte + 2, hi); }
    hide LeNat, Pow2;
  }

  /** Adding a field's parts to bytes at its place adds the field at its place. */
  lemma FieldAdded(out: Bytes, k: nat, c: nat, lo: nat, mid: Byte, hi: Byte)
    requires c < Pow2(WIRE_BITS) && FieldByte(k) + 1 < |out| && out[FieldByte(k)] + lo < 256
             && out[FieldByte(k) + 1] == 0
    requires if FieldByte(k) + 2 < |out| then out[FieldByte(k) + 2] == 0 else hi == 0
    requires var v := Shl(c, FieldOffset(k)); lo == Low(v, 8) && mid == Low(Shr(v, 8), 8) && hi == Low(Shr(v, 16), 8)
    ensures LeNat(Raised(out, FieldByte(k), lo, mid, hi)) == LeNat(out) + c * Pow2(k * WIRE_BITS)
  {
    hide *;
    var byte, off := FieldByte(k), FieldOffset(k);
    PlaceOf(k);
    ShlParts(c, off);
    ShlIs(c, off);
    Pow2Add(off, 8 * byte);
    RaisedValue(out, byte, lo, mid, hi);
    Reassemble(lo, mid, hi, Shl(c, off), c, Pow2(off), Pow2(8 * byte));
  }

  lemma PlaceOf(k: nat)
    ensures FieldOffset(k) + 8 * FieldByte(k) == k * WIRE_BITS && FieldOffset(k) < 8
  {
  }

  lemma ShlIs(c: nat, off: nat)
    ensures Shl(c, off) == c * Pow2(off)
  {
  }

  lemma Reassemble(lo: nat, mid: nat, hi: nat, v: nat, c: nat, q: nat, p: nat)
    requires v == lo + 256 * mid + 65_536 * hi && v == c * q
    ensures lo * p + mid * (256 * p) + hi * (65_536 * p) == c * (q * p)
  {
    assert c * (q * p) == (c * q) * p;
    assert (lo + 256 * mid + 65_536 * hi) * p == lo * p + mid * (256 * p) + hi * (65_536 * p);
  }

  /** A field that ends in its second byte has nothing for a third. */
  lemma NoThirdByte(c: nat, off: nat)
    requires off <= 5 && c < Pow2(WIRE_BITS)
    ensures Low(Shr(Shl(c, off), 16), 8) == 0
  {
    ShlParts(c, off);
  }

  /** Ors one field into the two or three bytes it touches. */
  method OrField(out: array<Byte>, k: nat, c: nat)
    requires FieldByte(k) + 1 < out.Length && (FieldOffset(k) > 5 ==> FieldByte(k) + 2 < out.Length)
    requires c < Pow2(WIRE_BITS) && LeNat(out[..]) < Pow2(k * WIRE_BITS)
    modifies out
    ensures LeNat(out[..]) == LeNat(old(out[..])) + c * Pow2(k * WIRE_BITS)
  {
    var byte, off := FieldByte(k), FieldOffset(k);
    var v := Shl(c, off);
    ghost var before := out[..];
    FirstByte(before, k, c);
    OtherByte(Shr(v, 8));
    OtherByte(Shr(v, 16));
    if off <= 5 { NoThirdByte(c, off); }
    ghost var lo, mid, hi := Low(v, 8), Low(Shr(v, 8), 8) as Byte, Low(Shr(v, 16), 8) as Byte;
    FieldAdded(before, k, c, lo, mid, hi);
    hide Low, Shr, Shl, LeNat, Pow2, Or, FieldByte, FieldOffset;
    out[byte] := Or(out[byte], Low(v, 8)) as Byte;
    out[byte + 1] := Or(out[byte + 1], Low(Shr(v, 8), 8)) as Byte;
    if off > 5 {
      out[byte + 2] := Or(out[byte + 2], Low(Shr(v, 16), 8)) as Byte;
    }
    assert out[..] == Raised(before, byte, lo, mid, hi);
  }

  /** Packs one code per pair; exactly what the generic packer writes at width 11. */
  method Pack11(codes: seq<nat>, out: array<Byte>)
    requires out.Length == Packed11Len(|codes|) && forall k :: 0 <= k < |codes| ==> codes[k] < Pow2(WIRE_BITS)
    modifies out
    ensures LeNat(out[..]) == StreamNat(codes, WIRE_BITS)
  {
    for j := 0 to out.Length
      invariant forall l :: 0 <= l < j ==> out[l] == 0
    {
      out[j] := 0;
    }
    assert out[..] == seq(out.Length, _ => 0 as Byte);
    LeNatZeros(out.Length);
    assert codes[..0] == [];
    hide LeNat, Packed11Len, Pow2, Low;
    for k := 0 to |codes|
      invariant LeNat(out[..]) == StreamNat(codes[..k], WIRE_BITS)
    {
      LoadsInRow(|codes|, k);
      StreamBound(codes[..k], WIRE_BITS);
      SmallLow(codes[k], WIRE_BITS);
      OrField(out, k, codes[k]);
      assert codes[..k + 1][..k] == codes[..k];
    }
    assert codes[..|codes|] == codes;
  }

  /** Both packers write the same bytes. */
  lemma SameAsGeneric(codes: seq<nat>, a: Bytes, b: Bytes)
    requires |a| == |b| && LeNat(a) == StreamNat(codes, WIRE_BITS) && LeNat(b) == StreamNat(codes, WIRE_BITS)
    ensures a == b
  {
    SameBytes(a, b);
  }

  // ------------------------------------------------------------------ rows

  function CellAt(cells: nat, row: Bytes, k: nat): Result<nat>
    requires FieldByte(k) + 4 <= |row|
  {
    if Extract11(row, k) < cells then Ok(Extract11(row, k)) else Err(Integrity)
  }

  /** Reading a code back: the sequential field, or a refusal of a value that names no cell. */
  lemma CellVerdict(cells: nat, row: Bytes, k: nat)
    requires FieldByte(k) + 4 <= |row|
    ensures CellAt(cells, row, k).Ok? <==> Field(LeNat(row), WIRE_BITS, k) < cells
    ensures CellAt(cells, row, k).Ok? ==> CellAt(cells, row, k).value == Field(LeNat(row), WIRE_BITS, k)
    ensures CellAt(cells, row, k).Err? ==> CellAt(cells, row, k).error == Integrity
  {
    ExtractIsField(row, k);
    hide Extract11, Field, LeNat, FieldByte;
  }

  /**
   Packed fields take the fewest bytes that hold them, and a row the least multiple of 16 with room
   for the last load.
   */
  lemma RowIsLeast(n: nat)
    ensures 8 * Packed11Len(n) - 8 < 11 * n <= 8 * Packed11Len(n)
    ensures Packed11Stride(n) % 16 == 0 && Packed11Len(n) + 4 <= Packed11Stride(n) < Packed11Len(n) + 20
  {
    AlignedLeast(11 * n, 8);
    AlignedLeast(Packed11Len(n) + 4, 16);
    hide DivCeil;
  }

  /** A stored row: the packed codes, padded with zeros to the stride. */
  method EncodeRow(tau: real, d: RingFit.Design, pairs: seq<(real, real)>) returns (row: seq<Byte>)
    requires tau > 0.0 && ValidDesign(d)
    ensures |row| == Packed11Stride(|pairs|)
    ensures forall k :: 0 <= k < |pairs| ==>
              FieldByte(k) + 4 <= |row| && CellAt(d.cells, row, k) == Ok(EncodePair(tau, d, pairs[k].0, pairs[k].1))
  {
    var codes: seq<nat> := seq(|pairs|, k requires 0 <= k < |pairs| => EncodePair(tau, d, pairs[k].0, pairs[k].1));
    forall k | 0 <= k < |pairs| ensures codes[k] < d.cells <= Pow2(WIRE_BITS) {
      EncodedCell(tau, d, pairs[k].0, pairs[k].1);
    }
    var packed := new Byte[Packed11Len(|pairs|)];
    hide EncodePair, Packed11Len;
    Pack11(codes, packed);
    StrideRoom(|pairs|);
    row := packed[..] + seq(Packed11Stride(|pairs|) - packed.Length, _ => 0 as Byte);
    assert row[..packed.Length] == packed[..];
    ZeroTail(row, packed.Length);
    forall k | 0 <= k < |pairs| ensures FieldByte(k) + 4 <= |row| && CellAt(d.cells, row, k) == Ok(codes[k]) {
      LoadsInRow(|pairs|, k);
      ExtractIsField(row, k);
      FieldOfStream(codes, WIRE_BITS, k);
      SmallLow(codes[k], WIRE_BITS);
    }
  }

  lemma StrideRoom(n: nat)
    ensures Packed11Len(n) <= Packed11Stride(n)
  {
  }

  // ------------------------------------------------------------------ block size

  const MAX_BLOCK: nat := 1024

  lemma {:induction false} HigherPower(dim: nat, b: nat, k: nat)
    requires b > 0 && dim % (2 * b) != 0 && exists j: nat :: Pow2(j) == b
    requires Pow2(k) > b
    ensures dim % Pow2(k) != 0
  {
    var j: nat :| Pow2(j) == b;
    if k <= j { PowBelow(k, j); }
    Pow2Add(j + 1, k - (j + 1));
    var c := Pow2(k - (j + 1));
    Multiple(dim, 2 * b, c);
  }

  lemma Multiple(dim: nat, a: nat, c: nat)
    requires a > 0 && c > 0 && dim % a != 0
    ensures dim % (a * c) != 0
  {
    if dim % (a * c) == 0 {
      var q := dim / (a * c);
      assert dim == (a * c) * q + dim % (a * c);
      assert dim == a * (c * q);
      QuotientIsNat(dim, a * c);
      DivUnique(dim, a, c * q, 0);
    }
  }

  /** The largest power of two, up to 1024, that divides the dimension. */
  method DefaultBlockSizeFor(dim: nat) returns (block: nat)
    ensures 1 <= block <= MAX_BLOCK && dim % block == 0 && exists k: nat :: Pow2(k) == block
    ensures forall k: nat :: Pow2(k) <= MAX_BLOCK && dim % Pow2(k) == 0 ==> Pow2(k) <= block
  {
    block := 1;
    ghost var j: nat := 0;
    while block * 2 <= MAX_BLOCK && dim % (block * 2) == 0
      invariant 1 <= block <= MAX_BLOCK && dim % block == 0 && Pow2(j) == block
      decreases MAX_BLOCK - block
    {
      assert Pow2(j + 1) == 2 * block;
      block, j := block * 2, j + 1;
    }
    forall k: nat | Pow2(k) <= MAX_BLOCK && dim % Pow2(k) == 0 ensures Pow2(k) <= block {
      if Pow2(k) > block {
        if block * 2 <= MAX_BLOCK { HigherPower(dim, block, k); } else { PowersApart(j, k); }
        assert false;
      }
    }
  }
}
