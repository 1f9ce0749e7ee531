/**
 The integer dot kernel over packed amplitude and phase streams (`src/codec/qam_sliding.rs`): whole
 groups of eight pairs read through 64-bit windows, and a tail for the rest.
 */
module DotKernel {
  import opened Basics
  import opened Bits
  import opened BitStream

  const AMP_BITS: nat := 5
  const PHASE_BITS: nat := 6
  const N_AMP: nat := 32
  const N_PHASE: nat := 64

  datatype Engine = Engine(numPairs: nat, amp: seq<int>, cos: seq<int>, sin: seq<int>)

  // ------------------------------------------------------------------ the tables

  function Clamp(x: int, lo: int, hi: int): int
  {
    if x < lo then lo else if x > hi then hi else x
  }

  /** `x` in units of `1 / factor`, cut to a range. */
  function Quantized(x: real, factor: real, lo: int, hi: int): (q: int)
    requires lo <= hi
    ensures lo <= q <= hi
  {
    Clamp(Round(x * factor), lo, hi)
  }

  predicate InRange(s: seq<int>, n: nat, lo: int, hi: int)
  {
    |s| == n && forall i :: 0 <= i < n ==> lo <= s[i] <= hi
  }

  predicate ValidEngine(e: Engine)
  {
    InRange(e.amp, N_AMP, 0, 127) && InRange(e.cos, N_PHASE, -63, 63) && InRange(e.sin, N_PHASE, -63, 63)
  }

  function Max(levels: seq<real>): real
  {
    if levels == [] then 0.0
    else
      var m := Max(levels[..|levels| - 1]);
      if levels[|levels| - 1] > m then levels[|levels| - 1] else m
  }

  /** What one unit of the amplitude table stands for: the largest level is 127 of them. */
  function AmpStep(levels: seq<real>): (step: real)
    ensures step > 0.0
  {
    (if Max(levels) < 0.000000000001 then 0.000000000001 else Max(levels)) / 127.0
  }

  /** A table of bytes for `source`, in units of `1 / factor`. */
  function Table(source: seq<real>, factor: real, lo: int, hi: int): (t: seq<int>)
    requires lo <= hi
    ensures |t| == |source| && InRange(t, |source|, lo, hi)
  {
    if source == [] then []
    else Table(source[..|source| - 1], factor, lo, hi) + [Quantized(source[|source| - 1], factor, lo, hi)]
  }

  lemma {:induction false} TableAt(source: seq<real>, factor: real, lo: int, hi: int, i: nat)
    requires lo <= hi && i < |source|
    ensures Table(source, factor, lo, hi)[i] == Quantized(source[i], factor, lo, hi)
  {
    hide Quantized, InRange;
    if i < |source| - 1 {
      TableAt(source[..|source| - 1], factor, lo, hi, i);
    } else {
      assert source[i] == source[|source| - 1];
    }
  }

  /** Quantizes a codec's tables; only five amplitude and six phase bits are supported. */
  method FromCodec(ampBits: nat, phaseBits: nat, numPairs: nat, levels: seq<real>, cosLut: seq<real>, sinLut: seq<real>)
    returns (r: Result<Engine>)
    requires ampBits == AMP_BITS ==> |levels| == N_AMP
    requires phaseBits == PHASE_BITS ==> |cosLut| == N_PHASE && |sinLut| == N_PHASE
    ensures r.Ok? <==> ampBits == AMP_BITS && phaseBits == PHASE_BITS
    ensures r.Ok? ==>
              && ValidEngine(r.value) && r.value.numPairs == numPairs
              && r.value.amp == Table(levels, 1.0 / AmpStep(levels), 0, 127)
              && r.value.cos == Table(cosLut, 63.0, -63, 63) && r.value.sin == Table(sinLut, 63.0, -63, 63)
  {
    hide Table, AmpStep;
    if ampBits != AMP_BITS || phaseBits != PHASE_BITS { return Err(Unsupported); }
    var inv := 1.0 / AmpStep(levels);
    r := Ok(Engine(numPairs, Table(levels, inv, 0, 127), Table(cosLut, 63.0, -63, 63), Table(sinLut, 63.0, -63, 63)));
  }

  lemma {:induction false} MaxIsLargest(levels: seq<real>, i: nat)
    requires i < |levels|
    ensures levels[i] <= Max(levels)
  {
    if i < |levels| - 1 {
      MaxIsLargest(levels[..|levels| - 1], i);
    }
  }

  /** The clamp fires at most half a unit from the end of a range that holds the value. */
  lemma QuantizedNear(x: real, factor: real, lo: int, hi: int)
    requires lo <= hi && lo as real <= x * factor <= hi as real
    ensures -0.5 <= x * factor - Quantized(x, factor, lo, hi) as real <= 0.5
  {
    RoundIsNear(x * factor);
  }

  lemma Unscaled(x: real, q: real, step: real)
    requires step > 0.0 && -0.5 <= x * (1.0 / step) - q <= 0.5
    ensures -step / 2.0 <= x - q * step <= step / 2.0
  {
    var inv := 1.0 / step;
    assert inv * step == 1.0;
    assert x * inv * step == x by { Regrouped(x, inv, step); }
    Stretched(x * inv - q, step);
    assert (x * inv - q) * step == x * inv * step - q * step;
  }

  lemma Regrouped(x: real, a: real, b: real)
    requires a * b == 1.0
    ensures x * a * b == x
  {
    assert x * a * b == x * (a * b);
  }

  lemma Stretched(d: real, step: real)
    requires step > 0.0 && -0.5 <= d <= 0.5
    ensures -step / 2.0 <= d * step <= step / 2.0
  {
    assert (d + 0.5) * step >= 0.0 && (0.5 - d) * step >= 0.0;
  }

  lemma WithinTable(x: real, step: real)
    requires step > 0.0 && 0.0 <= x <= 127.0 * step
    ensures 0.0 <= x * (1.0 / step) <= 127.0
  {
    var inv := 1.0 / step;
    assert inv > 0.0 && inv * step == 1.0;
    assert x * inv >= 0.0;
    assert (127.0 * step - x) * inv >= 0.0;
    assert (127.0 * step - x) * inv == 127.0 * (inv * step) - x * inv;
  }

  lemma AmpFits(levels: seq<real>, i: nat)
    requires i < |levels|
    ensures levels[i] <= 127.0 * AmpStep(levels)
  {
    MaxIsLargest(levels, i);
    hide Max;
  }

  /** No level is cut off: every amplitude is kept to half a unit. */
  lemma LevelsKept(levels: seq<real>, i: nat)
    requires i < |levels| && levels[i] >= 0.0
    ensures var step := AmpStep(levels);
            -step / 2.0 <= levels[i] - Table(levels, 1.0 / step, 0, 127)[i] as real * step <= step / 2.0
  {
    hide *;
    var step := AmpStep(levels);
    AmpFits(levels, i);
    WithinTable(levels[i], step);
    QuantizedNear(levels[i], 1.0 / step, 0, 127);
    TableAt(levels, 1.0 / step, 0, 127, i);
    Unscaled(levels[i], Quantized(levels[i], 1.0 / step, 0, 127) as real, step);
  }

  /** Cosines and sines are kept to half a sixty-third. */
  lemma AnglesKept(lut: seq<real>, i: nat)
    requires i < |lut| && -1.0 <= lut[i] <= 1.0
    ensures -0.5 <= lut[i] * 63.0 - Table(lut, 63.0, -63, 63)[i] as real <= 0.5
  {
    hide *;
    TableAt(lut, 63.0, -63, 63, i);
    QuantizedNear(lut[i], 63.0, -63, 63);
  }

  // ------------------------------------------------------------------ one pair

  /** Rounding right shift by seven, then a saturating cut to eight bits. */
  function Narrow(x: int): int
  {
    Clamp((x + 64) / 128, -128, 127)
  }

  predicate ValidQuery(e: Engine, q: seq<int>)
  {
    |q| == 2 * e.numPairs && forall i :: 0 <= i < |q| ==> -127 <= q[i] <= 127
  }

  predicate ValidStreams(e: Engine, amps: Bytes, phases: Bytes)
  {
    |amps| == PaddedStreamBytes(e.numPairs, AMP_BITS) && |phases| == PaddedStreamBytes(e.numPairs, PHASE_BITS)
  }

  /** What one pair adds, given its two table indices. */
  function Term(e: Engine, qr: int, qi: int, ai: nat, pi: nat): int
    requires ValidEngine(e) && ai < N_AMP && pi < N_PHASE
  {
    Narrow(qr * e.cos[pi] + qi * e.sin[pi]) * e.amp[ai]
  }

  lemma ProductBound(x: int, y: int, a: int, b: int)
    requires -a <= x <= a && -b <= y <= b
    ensures -(a * b) <= x * y <= a * b
  {
    if x >= 0 {
      MulRange(x, y, a, b);
    } else {
      MulRange(-x, y, a, b);
      assert x * y == -((-x) * y);
    }
  }

  lemma MulRange(x: int, y: int, a: int, b: int)
    requires 0 <= x <= a && -b <= y <= b
    ensures -(a * b) <= x * y <= a * b
  {
    assert x * b <= a * b;
    assert x * y <= x * b && x * y >= -(x * b);
  }

  /** The saturation never fires: the shifted sum stays within 125. */
  lemma NeverSaturates(e: Engine, qr: int, qi: int, pi: nat)
    requires ValidEngine(e) && pi < N_PHASE && -127 <= qr <= 127 && -127 <= qi <= 127
    ensures var x := qr * e.cos[pi] + qi * e.sin[pi];
            Narrow(x) == (x + 64) / 128 && -125 <= Narrow(x) <= 125
  {
    ProductBound(qr, e.cos[pi], 127, 63);
    ProductBound(qi, e.sin[pi], 127, 63);
  }

  lemma TermBound(e: Engine, qr: int, qi: int, ai: nat, pi: nat)
    requires ValidEngine(e) && ai < N_AMP && pi < N_PHASE && -127 <= qr <= 127 && -127 <= qi <= 127
    ensures -(125 * 127) <= Term(e, qr, qi, ai, pi) <= 125 * 127
  {
    NeverSaturates(e, qr, qi, pi);
    ProductBound(Narrow(qr * e.cos[pi] + qi * e.sin[pi]), e.amp[ai], 125, 127);
    hide Narrow;
  }

  // ------------------------------------------------------------------ the plain sum

  lemma FieldBound(n: nat, bits: nat, i: nat)
    ensures Field(n, bits, i) < Pow2(bits)
  {
    Split(Shr(n, i * bits), bits);
  }

  lemma IndexBounds(n: nat, i: nat)
    ensures Field(n, AMP_BITS, i) < N_AMP && Field(n, PHASE_BITS, i) < N_PHASE
  {
    FieldBound(n, AMP_BITS, i);
    FieldBound(n, PHASE_BITS, i);
    assert Pow2(3) == 8 && Pow2(5) == 4 * Pow2(3) && Pow2(6) == 2 * Pow2(5);
  }

  /** Pair `k`, with its indices as sequential unpacking reads them. */
  function PairTerm(e: Engine, q: seq<int>, amps: Bytes, phases: Bytes, k: nat): int
    requires ValidEngine(e) && ValidQuery(e, q) && k < e.numPairs
  {
    IndexBounds(LeNat(amps), k);
    IndexBounds(LeNat(phases), k);
    Term(e, q[2 * k], q[2 * k + 1], Field(LeNat(amps), AMP_BITS, k), Field(LeNat(phases), PHASE_BITS, k))
  }

  /** The sum over the pairs from `lo` to `hi`. */
  function SumPairs(e: Engine, q: seq<int>, amps: Bytes, phases: Bytes, lo: nat, hi: nat): int
    requires ValidEngine(e) && ValidQuery(e, q) && lo <= hi <= e.numPairs
  {
    if lo == hi then 0 else SumPairs(e, q, amps, phases, lo, hi - 1) + PairTerm(e, q, amps, phases, hi - 1)
  }

  lemma {:induction false} SumSplits(e: Engine, q: seq<int>, amps: Bytes, phases: Bytes, lo: nat, mid: nat, hi: nat)
    requires ValidEngine(e) && ValidQuery(e, q) && lo <= mid <= hi <= e.numPairs
    ensures SumPairs(e, q, amps, phases, lo, hi) == SumPairs(e, q, amps, phases, lo, mid)
            + SumPairs(e, q, amps, phases, mid, hi)
  {
    hide PairTerm, ValidEngine, ValidQuery;
    if mid < hi { SumSplits(e, q, amps, phases, lo, mid, hi - 1); }
  }

  lemma PairBound(e: Engine, q: seq<int>, amps: Bytes, phases: Bytes, k: nat)
    requires ValidEngine(e) && ValidQuery(e, q) && k < e.numPairs
    ensures -(125 * 127) <= PairTerm(e, q, amps, phases, k) <= 125 * 127
  {
    IndexBounds(LeNat(amps), k);
    IndexBounds(LeNat(phases), k);
    TermBound(e, q[2 * k], q[2 * k + 1], Field(LeNat(amps), AMP_BITS, k), Field(LeNat(phases), PHASE_BITS, k));
    hide Term, Field, LeNat;
  }

  lemma {:induction false} SumBound(e: Engine, q: seq<int>, amps: Bytes, phases: Bytes, n: nat)
    requires ValidEngine(e) && ValidQuery(e, q) && n <= e.numPairs
    ensures -(125 * 127 * n) <= SumPairs(e, q, amps, phases, 0, n) <= 125 * 127 * n
  {
    hide PairTerm, ValidEngine, ValidQuery;
    if n > 0 {
      SumBound(e, q, amps, phases, n - 1);
      PairBound(e, q, amps, phases, n - 1);
    }
  }

  // ------------------------------------------------------------------ windows

  /** Eight bytes from `off`, zeros past the end of the stream. */
  function Window(stream: Bytes, off: nat): (w: Bytes)
    requires off <= |stream|
    ensures |w| == 8
  {
    var avail := if |stream| - off < 8 then |stream| - off else 8;
    stream[off..off + avail] + seq(8 - avail, _ => 0 as Byte)
  }

  lemma WindowIsLow(stream: Bytes, off: nat)
    requires off <= |stream|
    ensures LeNat(Window(stream, off)) == Low(Shr(LeNat(stream), 8 * off), 64)
  {
    if |stream| - off < 8 { ShortWindow(stream, off); } else { FullWindow(stream, off); }
  }

  lemma FullWindow(stream: Bytes, off: nat)
    requires off + 8 <= |stream|
    ensures LeNat(Window(stream, off)) == Low(Shr(LeNat(stream), 8 * off), 64)
  {
    assert Window(stream, off) == stream[off..off + 8];
    hide *;
    WindowOf(stream, off, 8);
  }

  lemma WindowParts(stream: Bytes, off: nat)
    requires off <= |stream| < off + 8
    ensures Window(stream, off)[..|stream| - off] == stream[off..]
    ensures forall j :: |stream| - off <= j < 8 ==> Window(stream, off)[j] == 0
  {
  }

  lemma ShortWindow(stream: Bytes, off: nat)
    requires off <= |stream| < off + 8
    ensures LeNat(Window(stream, off)) == Low(Shr(LeNat(stream), 8 * off), 64)
  {
    WindowParts(stream, off);
    hide *;
    var rest := stream[off..];
    ZeroTail(Window(stream, off), |rest|);
    ByteAt(stream, off);
    LeNatBound(rest);
    PowBelow(8 * |rest|, 64);
    SmallLow(LeNat(rest), 64);
  }

  /** A field read through a window is the field of the whole stream. */
  lemma WindowField(stream: Bytes, bits: nat, off: nat, at: nat, place: nat)
    requires off <= |stream| && at + bits <= 64 && 8 * off + at == place
    ensures Low(Shr(LeNat(Window(stream, off)), at), bits) == Low(Shr(LeNat(stream), place), bits)
  {
    hide *;
    WindowIsLow(stream, off);
    FieldInWindow(LeNat(stream), 8 * off, 64, at, bits);
  }

  /** The two indices of pair `8 g + i`, through the windows of its group. */
  lemma GroupFields(amps: Bytes, phases: Bytes, g: nat, i: nat)
    requires i < 8 && g * AMP_BITS <= |amps| && g * PHASE_BITS <= |phases|
    ensures Low(Shr(LeNat(Window(amps, g * AMP_BITS)), i * AMP_BITS), AMP_BITS) ==
            Field(LeNat(amps), AMP_BITS, 8 * g + i)
    ensures Low(Shr(LeNat(Window(phases, g * PHASE_BITS)), i * PHASE_BITS), PHASE_BITS) ==
            Field(LeNat(phases), PHASE_BITS, 8 * g + i)
  {
    hide Low, Shr, LeNat, Window;
    WindowField(amps, AMP_BITS, g * AMP_BITS, i * AMP_BITS, (8 * g + i) * AMP_BITS);
    WindowField(phases, PHASE_BITS, g * PHASE_BITS, i * PHASE_BITS, (8 * g + i) * PHASE_BITS);
  }

  // ------------------------------------------------------------------ the kernel

  lemma GroupInStreams(e: Engine, amps: Bytes, phases: Bytes, g: nat)
    requires ValidStreams(e, amps, phases) && 8 * g <= e.numPairs
    ensures g * AMP_BITS <= |amps| && g * PHASE_BITS <= |phases|
  {
    PaddingKeeps(e.numPairs, AMP_BITS);
    PaddingKeeps(e.numPairs, PHASE_BITS);
  }

  /** The first `count` pairs of group `g`, from one window of each stream. */
  method SumGroup(e: Engine, amps: Bytes, phases: Bytes, q: seq<int>, g: nat, count: nat) returns (acc: int)
    requires ValidEngine(e) && ValidQuery(e, q) && ValidStreams(e, amps, phases) && count <= 8
             && 8 * g + count <= e.numPairs
    ensures acc == SumPairs(e, q, amps, phases, 8 * g, 8 * g + count)
  {
    GroupInStreams(e, amps, phases, g);
    var aChunk, pChunk := LeNat(Window(amps, g * AMP_BITS)), LeNat(Window(phases, g * PHASE_BITS));
    acc := 0;
    for i := 0 to count
      invariant acc == SumPairs(e, q, amps, phases, 8 * g, 8 * g + i)
    {
      GroupFields(amps, phases, g, i);
      IndexBounds(LeNat(amps), 8 * g + i);
      IndexBounds(LeNat(phases), 8 * g + i);
      hide LeNat, Field, Low, Shr, Window, Narrow, ValidStreams, PaddedStreamBytes;
      var ai, pi := Low(Shr(aChunk, i * AMP_BITS), AMP_BITS), Low(Shr(pChunk, i * PHASE_BITS), PHASE_BITS);
      acc := acc + Term(e, q[g * 16 + i * 2], q[g * 16 + i * 2 + 1], ai, pi);
      hide Term;
    }
  }

  /** All whole groups. */
  method RawDotIntFull(e: Engine, amps: Bytes, phases: Bytes, q: seq<int>) returns (acc: int)
    requires ValidEngine(e) && ValidQuery(e, q) && ValidStreams(e, amps, phases)
    ensures acc == SumPairs(e, q, amps, phases, 0, e.numPairs / 8 * 8)
  {
    acc := 0;
    hide SumPairs, ValidEngine, ValidQuery, ValidStreams;
    NoPairs(e, q, amps, phases);
    for g := 0 to e.numPairs / 8
      invariant acc == SumPairs(e, q, amps, phases, 0, 8 * g)
    {
      var group := SumGroup(e, amps, phases, q, g, 8);
      SumSplits(e, q, amps, phases, 0, 8 * g, 8 * g + 8);
      acc := acc + group;
    }
  }

  lemma NoPairs(e: Engine, q: seq<int>, amps: Bytes, phases: Bytes)
    requires ValidEngine(e) && ValidQuery(e, q)
    ensures SumPairs(e, q, amps, phases, 0, 0) == 0
  {
  }

  /** The pairs after the last whole group. */
  method RawDotIntTail(e: Engine, amps: Bytes, phases: Bytes, q: seq<int>, group: nat) returns (acc: int)
    requires ValidEngine(e) && ValidQuery(e, q) && ValidStreams(e, amps, phases) && group == e.numPairs / 8
    ensures acc == SumPairs(e, q, amps, phases, 8 * group, e.numPairs)
  {
    hide SumPairs, ValidEngine, ValidQuery, ValidStreams;
    acc := SumGroup(e, amps, phases, q, group, e.numPairs - group * 8);
  }

  /** Groups and tail together are the plain sum over all pairs, for every number of pairs. */
  method RawDotInt(e: Engine, amps: Bytes, phases: Bytes, q: seq<int>) returns (acc: int)
    requires ValidEngine(e) && ValidQuery(e, q) && ValidStreams(e, amps, phases)
    ensures acc == SumPairs(e, q, amps, phases, 0, e.numPairs)
    ensures -(125 * 127 * e.numPairs) <= acc <= 125 * 127 * e.numPairs
  {
    hide *;
    SumBound(e, q, amps, phases, e.numPairs);
    NoPairs(e, q, amps, phases);
    var full := 0;
    if e.numPairs >= 8 {
      full := RawDotIntFull(e, amps, phases, q);
    }
    assert full == SumPairs(e, q, amps, phases, 0, e.numPairs / 8 * 8);
    if e.numPairs % 8 == 0 {
      return full;
    }
    var tail := RawDotIntTail(e, amps, phases, q, e.numPairs / 8);
    SumSplits(e, q, amps, phases, 0, e.numPairs / 8 * 8, e.numPairs);
    acc := full + tail;
  }

  /** On streams the generic packer wrote, the kernel sums over the indices that were packed. */
  lemma TermsOfPacked(e: Engine, q: seq<int>, amps: Bytes, phases: Bytes, ampIdx: seq<nat>, phaseIdx: seq<nat>, k: nat)
    requires ValidEngine(e) && ValidQuery(e, q) && k < e.numPairs == |ampIdx| == |phaseIdx|
    requires LeNat(amps) == StreamNat(ampIdx, AMP_BITS) && LeNat(phases) == StreamNat(phaseIdx, PHASE_BITS)
    requires ampIdx[k] < N_AMP && phaseIdx[k] < N_PHASE
    ensures PairTerm(e, q, amps, phases, k) == Term(e, q[2 * k], q[2 * k + 1], ampIdx[k], phaseIdx[k])
  {
    FieldOfStream(ampIdx, AMP_BITS, k);
    FieldOfStream(phaseIdx, PHASE_BITS, k);
    assert Pow2(3) == 8 && Pow2(5) == 4 * Pow2(3) && Pow2(6) == 2 * Pow2(5);
    SmallLow(ampIdx[k], AMP_BITS);
    SmallLow(phaseIdx[k], PHASE_BITS);
    IndexBounds(LeNat(amps), k);
    IndexBounds(LeNat(phases), k);
    hide Term, Field, LeNat, Low;
  }
}
