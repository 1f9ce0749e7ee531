/**
 What the integer dot kernel's sum means (`src/codec/qam_sliding.rs`): scaled back, it is the inner
 product of the query with the decoded vector, up to an error linear in the number of pairs.
 */
module DotScore {
  import opened Basics
  import opened BitStream
  import opened DotKernel

  // ------------------------------------------------------------------ bounds on products

  function Times(x: real, y: real): real
  {
    x * y
  }

  predicate Close(x: real, a: real)
  {
    -a <= x <= a
  }

  lemma NonnegativeProduct(x: real, y: real)
    requires x >= 0.0 && y >= 0.0
    ensures x * y >= 0.0
  {
  }

  lemma CloseProduct(x: real, a: real, y: real, b: real)
    requires Close(x, a) && Close(y, b)
    ensures Close(x * y, a * b)
  {
    NonnegativeProduct(a - x, b + y);
    NonnegativeProduct(a + x, b - y);
    NonnegativeProduct(a - x, b - y);
    NonnegativeProduct(a + x, b + y);
    assert (a - x) * (b + y) + (a + x) * (b - y) == 2.0 * (a * b) - 2.0 * (x * y);
    assert (a - x) * (b - y) + (a + x) * (b + y) == 2.0 * (a * b) + 2.0 * (x * y);
  }

  lemma CloseSum(x: real, a: real, y: real, b: real)
    requires Close(x, a) && Close(y, b)
    ensures Close(x + y, a + b)
  {
  }

  lemma CloseDifference(x: real, y: real, a: real)
    requires Close(x, a) && Close(y, a)
    ensures Close(x - y, 2.0 * a)
  {
  }

  // ------------------------------------------------------------------ the query

  function Magnitude(x: real): real
  {
    if x < 0.0 then -x else x
  }

  /** The largest magnitude, or zero. */
  function MaxMagnitude(q: seq<real>): (m: real)
    ensures m >= 0.0 && forall i :: 0 <= i < |q| ==> Magnitude(q[i]) <= m
    ensures m == 0.0 || exists i :: 0 <= i < |q| && Magnitude(q[i]) == m
  {
    if q == [] then 0.0
    else
      var n := |q| - 1;
      var before := MaxMagnitude(q[..n]);
      assert forall i :: 0 <= i < n ==> q[..n][i] == q[i];
      if Magnitude(q[n]) > before then Magnitude(q[n]) else before
  }

  const TINY := 0.000000000000000000000000000001

  /** Integers for a query, in units of `unit`. */
  predicate Quantizes(q: seq<real>, ints: seq<int>, unit: real)
  {
    |ints| == |q| && forall i :: 0 <= i < |q| ==> UnitClose(q[i], ints[i], unit)
  }

  /** `n` units stand for `x`, to half a unit. */
  predicate UnitClose(x: real, n: int, unit: real)
  {
    -127 <= n <= 127 && Close(Rest(x, n, unit), unit / 2.0)
  }

  function Rest(x: real, n: int, unit: real): real
  {
    x - unit * n as real
  }

  predicate PairScales(rotated: seq<real>, sigma: seq<real>, fused: seq<real>)
  {
    |rotated| == 2 * |sigma| == |fused|
    && forall k :: 0 <= k < |sigma| ==>
         fused[2 * k] == Fused(rotated[2 * k], sigma[k]) && fused[2 * k + 1] == Fused(rotated[2 * k + 1], sigma[k])
  }

  /** Scales the rotated query pair by pair and finds the largest magnitude on the way. */
  method FuseQuery(rotated: seq<real>, sigma: seq<real>) returns (fused: seq<real>, maxAbs: real)
    requires |rotated| == 2 * |sigma|
    ensures PairScales(rotated, sigma, fused) && maxAbs == MaxMagnitude(fused)
  {
    fused, maxAbs := [], 0.0;
    for k := 0 to |sigma|
      invariant |fused| == 2 * k
      invariant forall j :: 0 <= j < k ==>
                  fused[2 * j] == Fused(rotated[2 * j], sigma[j])
                      && fused[2 * j + 1] == Fused(rotated[2 * j + 1], sigma[j])
      invariant maxAbs == MaxMagnitude(fused)
    {
      hide Fused, MaxMagnitude;
      var re, im := Fused(rotated[2 * k], sigma[k]), Fused(rotated[2 * k + 1], sigma[k]);
      MaxOfMore(fused, re, im);
      maxAbs := Larger(Larger(maxAbs, Magnitude(re)), Magnitude(im));
      fused := fused + [re, im];
    }
  }

  /**
   The query as the kernel takes it: scaled pair by pair, then cut to integers of which the largest is
   127, with the factor that takes a kernel sum back.
   */
  method PrepareQuery(rotated: seq<real>, sigma: seq<real>, step: real)
    returns (ints: seq<int>, unit: real, scale: real, fused: seq<real>)
    requires |rotated| == 2 * |sigma|
    ensures PairScales(rotated, sigma, fused) && Quantizes(fused, ints, unit) && unit > 0.0
    ensures forall i :: 0 <= i < |fused| ==> Close(fused[i], 127.0 * unit)
    ensures 127.0 * unit == MaxMagnitude(fused) || (unit == TINY && MaxMagnitude(fused) <= 127.0 * TINY)
    ensures scale == BackScale(unit, step)
  {
    var maxAbs;
    fused, maxAbs := FuseQuery(rotated, sigma);
    hide BackScale, PairScales;
    unit := Larger(maxAbs / 127.0, TINY);
    assert forall i :: 0 <= i < |fused| ==> Close(fused[i], 127.0 * unit);
    hide *;
    var inv := 1.0 / unit;
    ints := [];
    for i := 0 to |fused|
      invariant |ints| == i
      invariant forall j :: 0 <= j < i ==> UnitClose(fused[j], ints[j], unit)
    {
      UnitNear(fused[i], unit);
      ints := ints + [Quantized(fused[i], inv, -127, 127)];
    }
    scale := BackScale(unit, step);
    assert Quantizes(fused, ints, unit) by { QuantizedAll(fused, ints, unit); }
  }

  lemma QuantizedAll(q: seq<real>, ints: seq<int>, unit: real)
    requires |ints| == |q| && forall j :: 0 <= j < |q| ==> UnitClose(q[j], ints[j], unit)
    ensures Quantizes(q, ints, unit)
  {
    hide UnitClose;
  }

  /** What one unit of a kernel sum is worth. */
  function BackScale(unit: real, step: real): real
  {
    unit * (1.0 / 63.0) * step * 128.0
  }

  function Fused(x: real, sigma: real): real
  {
    x * sigma
  }

  function Larger(x: real, y: real): real
  {
    if x < y then y else x
  }

  lemma MaxOfMore(q: seq<real>, x: real, y: real)
    ensures MaxMagnitude(q + [x, y]) == Larger(Larger(MaxMagnitude(q), Magnitude(x)), Magnitude(y))
  {
    var all := q + [x, y];
    assert all[..|q| + 1] == q + [x] && (q + [x])[..|q|] == q;
  }

  lemma UnitNear(x: real, unit: real)
    requires unit > 0.0 && Close(x, 127.0 * unit)
    ensures UnitClose(x, Quantized(x, 1.0 / unit, -127, 127), unit)
  {
    var inv := 1.0 / unit;
    assert inv * unit == 1.0 && inv > 0.0;
    NonnegativeProduct(127.0 * unit - x, inv);
    NonnegativeProduct(127.0 * unit + x, inv);
    assert 127.0 * unit * inv == 127.0;
    assert -127.0 <= x * inv <= 127.0;
    QuantizedNear(x, inv, -127, 127);
    Unscaled(x, Quantized(x, inv, -127, 127) as real, unit);
    assert unit * Quantized(x, inv, -127, 127) as real == Quantized(x, inv, -127, 127) as real * unit;
    hide Quantized;
  }

  // ------------------------------------------------------------------ one pair

  /** The engine quantizes these tables. */
  predicate EngineOf(e: Engine, levels: seq<real>, cosLut: seq<real>, sinLut: seq<real>)
  {
    && ValidEngine(e) && |levels| == N_AMP && |cosLut| == N_PHASE && |sinLut| == N_PHASE
    && e.amp == Table(levels, 1.0 / AmpStep(levels), 0, 127)
    && e.cos == Table(cosLut, 63.0, -63, 63) && e.sin == Table(sinLut, 63.0, -63, 63)
    && (forall i :: 0 <= i < N_AMP ==> levels[i] >= 0.0)
    && forall i :: 0 <= i < N_PHASE ==> Close(cosLut[i], 1.0) && Close(sinLut[i], 1.0)
  }

  /** A query pair's inner product with a direction. */
  function Along(re: real, im: real, cosine: real, sine: real): real
  {
    re * cosine + im * sine
  }

  lemma NarrowedNear(n: int, qr: int, qi: int, c: int, s: int)
    requires n == (qr * c + qi * s + 64) / 128
    ensures Close(128.0 * n as real - Along(qr as real, qi as real, c as real, s as real), 64.0)
  {
    var x := qr * c + qi * s;
    assert -64 <= 128 * n - x <= 64;
    CastProduct(qr, c);
    CastProduct(qi, s);
  }

  lemma CastProduct(x: int, y: int)
    ensures x as real * y as real == (x * y) as real
  {
  }

  /** Directions that are close give inner products that are. */
  lemma AlongNear(re: real, im: real, c: real, s: real, cosine: real, sine: real)
    requires Close(re, 127.0) && Close(im, 127.0) && Close(63.0 * cosine - c, 0.5) && Close(63.0 * sine - s, 0.5)
    ensures Close(Along(re, im, c, s) - 63.0 * Along(re, im, cosine, sine), 127.0)
  {
    CloseProduct(re, 127.0, 63.0 * cosine - c, 0.5);
    CloseProduct(im, 127.0, 63.0 * sine - s, 0.5);
    Distribute(re, cosine, c);
    Distribute(im, sine, s);
  }

  lemma Distribute(x: real, y: real, z: real)
    ensures x * (63.0 * y - z) == 63.0 * (x * y) - x * z
  {
  }

  /** The narrowed sum of a pair is its inner product with the phase, in units of 128 sixty-thirds. */
  lemma NarrowedIsInner(e: Engine, levels: seq<real>, cosLut: seq<real>, sinLut: seq<real>, qr: int, qi: int, ai: nat,
      pi: nat) returns (n: int)
    requires EngineOf(e, levels, cosLut, sinLut) && ai < N_AMP && pi < N_PHASE
    requires -127 <= qr <= 127 && -127 <= qi <= 127
    ensures |e.amp| == N_AMP && Term(e, qr, qi, ai, pi) == n * e.amp[ai]
    ensures Close(128.0 * n as real - 63.0 * Along(qr as real, qi as real, cosLut[pi], sinLut[pi]), 191.0)
  {
    n := Narrow(qr * e.cos[pi] + qi * e.sin[pi]);
    NeverSaturates(e, qr, qi, pi);
    TablesNear(e, levels, cosLut, sinLut, pi);
    TermIs(e, qr, qi, ai, pi);
    var c, s := e.cos[pi], e.sin[pi];
    hide *;
    NarrowedNear(n, qr, qi, c, s);
    AsReal(qr);
    AsReal(qi);
    AlongNear(qr as real, qi as real, c as real, s as real, cosLut[pi], sinLut[pi]);
    CloseSum(128.0 * n as real - Along(qr as real, qi as real, c as real, s as real), 64.0,
        Along(qr as real, qi as real, c as real, s as real)
            - 63.0 * Along(qr as real, qi as real, cosLut[pi], sinLut[pi]), 127.0);
  }

  lemma AsReal(x: int)
    requires -127 <= x <= 127
    ensures Close(x as real, 127.0)
  {
  }

  lemma TablesNear(e: Engine, levels: seq<real>, cosLut: seq<real>, sinLut: seq<real>, pi: nat)
    requires EngineOf(e, levels, cosLut, sinLut) && pi < N_PHASE
    ensures |e.cos| == |e.sin| == N_PHASE
    ensures Close(63.0 * cosLut[pi] - e.cos[pi] as real, 0.5) && Close(63.0 * sinLut[pi] - e.sin[pi] as real, 0.5)
  {
    assert -1.0 <= cosLut[pi] <= 1.0 && -1.0 <= sinLut[pi] <= 1.0;
    AnglesKept(cosLut, pi);
    AnglesKept(sinLut, pi);
    hide Table;
  }

  lemma TermIs(e: Engine, qr: int, qi: int, ai: nat, pi: nat)
    requires ValidEngine(e) && ai < N_AMP && pi < N_PHASE
    ensures |e.amp| == N_AMP && |e.cos| == N_PHASE && |e.sin| == N_PHASE
    ensures Term(e, qr, qi, ai, pi) == Narrow(qr * e.cos[pi] + qi * e.sin[pi]) * e.amp[ai]
  {
  }

  /** Replacing both coordinates by whole units moves the inner product by at most one unit. */
  lemma AlongUnits(re: real, im: real, qr: int, qi: int, unit: real, cosine: real, sine: real)
    requires UnitClose(re, qr, unit) && UnitClose(im, qi, unit) && Close(cosine, 1.0) && Close(sine, 1.0)
    ensures Close(Along(re, im, cosine, sine) - Times(unit, Along(qr as real, qi as real, cosine, sine)), unit)
  {
    hide Along, Close, Rest, Times;
    OffBy(Rest(re, qr, unit), Rest(im, qi, unit), unit, cosine, sine);
    Regrouped(re, im, qr, qi, unit, cosine, sine);
  }

  lemma OffBy(x: real, y: real, unit: real, cosine: real, sine: real)
    requires Close(x, unit / 2.0) && Close(y, unit / 2.0) && Close(cosine, 1.0) && Close(sine, 1.0)
    ensures Close(x * cosine + y * sine, unit)
  {
    CloseProduct(x, unit / 2.0, cosine, 1.0);
    CloseProduct(y, unit / 2.0, sine, 1.0);
  }

  lemma Regrouped(re: real, im: real, qr: int, qi: int, unit: real, cosine: real, sine: real)
    ensures Along(re, im, cosine, sine) - Times(unit, Along(qr as real, qi as real, cosine, sine)) ==
            Rest(re, qr, unit) * cosine + Rest(im, qi, unit) * sine
  {
    var x, y := qr as real, qi as real;
    assert unit * (x * cosine + y * sine) == unit * x * cosine + unit * y * sine;
    assert (re - unit * x) * cosine == re * cosine - unit * x * cosine;
    assert (im - unit * y) * sine == im * sine - unit * y * sine;
  }

  lemma AlongBound(re: real, im: real, a: real, cosine: real, sine: real)
    requires Close(re, a) && Close(im, a) && Close(cosine, 1.0) && Close(sine, 1.0)
    ensures Close(Along(re, im, cosine, sine), 2.0 * a)
  {
    CloseProduct(re, a, cosine, 1.0);
    CloseProduct(im, a, sine, 1.0);
  }

  /** What one pair of the kernel's sum is worth. */
  function Worth(unit: real, step: real, term: int): real
  {
    BackScale(unit, step) * term as real
  }

  function Slack(unit: real, step: real): real
  {
    40_259.0 / 63.0 * (unit * step)
  }

  lemma PairNear(n: int, amp: int, level: real, step: real, unit: real, y: real, x: real)
    requires Close(128.0 * n as real - 63.0 * y, 191.0) && Close(x - Times(unit, y), unit) && Close(x, 254.0 * unit)
    requires 0 <= amp <= 127 && Close(level - Times(amp as real, step), step / 2.0) && unit > 0.0 && step > 0.0
    ensures Close(Worth(unit, step, n * amp) - Times(level, x), Slack(unit, step))
  {
    var z := amp as real * step;
    LevelBound(amp as real, step, unit);
    CastProduct(n, amp);
    Parts(n as real, amp as real, level, step, unit, y, x, z);
    WorthIs(unit, step, n * amp);
    SlackIs(unit, step);
    assert Times(unit, y) == unit * y && Times(amp as real, step) == z && Times(level, x) == level * x;
    hide *;
    PairBound(128.0 * n as real - 63.0 * y, unit * z, x - unit * y, z, level - z, x, unit, step,
        Worth(unit, step, n * amp) - level * x, Slack(unit, step));
  }

  /** The three errors of a pair: narrowing, the query's units, the level's. */
  lemma PairBound(e: real, w: real, d: real, z: real, g: real, x: real, unit: real, step: real, total: real,
      slack: real)
    requires Close(e, 191.0) && Close(w, 127.0 * (unit * step)) && Close(d, unit) && Close(z, 127.0 * step)
    requires Close(g, step / 2.0) && Close(x, 254.0 * unit)
    requires 63.0 * total == e * w - 63.0 * (d * z) - 63.0 * (g * x) && 63.0 * slack == 40_259.0 * (unit * step)
    ensures Close(total, slack)
  {
    hide Close;
    CloseProduct(e, 191.0, w, 127.0 * (unit * step));
    CloseProduct(d, unit, z, 127.0 * step);
    CloseProduct(g, step / 2.0, x, 254.0 * unit);
    Scales(unit, step);
    Together(e * w, d * z, g * x, total, unit * step, slack);
  }

  lemma LevelBound(amp: real, step: real, unit: real)
    requires 0.0 <= amp <= 127.0 && step > 0.0 && unit > 0.0
    ensures Close(amp * step, 127.0 * step) && Close(unit * (amp * step), 127.0 * (unit * step))
  {
    var z := amp * step;
    NonnegativeProduct(amp, step);
    NonnegativeProduct(127.0 - amp, step);
    NonnegativeProduct(unit, z);
    NonnegativeProduct(unit, 127.0 * step - z);
    assert unit * (127.0 * step - z) == 127.0 * (unit * step) - unit * z;
  }

  lemma Scales(unit: real, step: real)
    ensures unit * (127.0 * step) == 127.0 * (unit * step) && step / 2.0 * (254.0 * unit) == 127.0 * (unit * step)
  {
  }

  lemma Together(first: real, second: real, third: real, d: real, us: real, slack: real)
    requires Close(first, 191.0 * (127.0 * us)) && Close(second, 127.0 * us) && Close(third, 127.0 * us)
    requires 63.0 * d == first - 63.0 * second - 63.0 * third && 63.0 * slack == 40_259.0 * us
    ensures Close(d, slack)
  {
  }

  lemma SlackIs(unit: real, step: real)
    ensures 63.0 * Slack(unit, step) == 40_259.0 * (unit * step)
  {
  }

  lemma WorthIs(unit: real, step: real, term: int)
    ensures 63.0 * Worth(unit, step, term) == 128.0 * (unit * step) * term as real
  {
    var b := BackScale(unit, step);
    assert 63.0 * b == 128.0 * (unit * step);
    assert 63.0 * (b * term as real) == 63.0 * b * term as real;
  }

  lemma Parts(n: real, amp: real, level: real, step: real, unit: real, y: real, x: real, z: real)
    requires z == amp * step
    ensures 128.0 * (unit * step) * (n * amp) - 63.0 * (level * x) ==
            (128.0 * n - 63.0 * y) * (unit * z) - 63.0 * ((x - unit * y) * z) - 63.0 * ((level - z) * x)
  {
    var w := unit * z;
    assert 128.0 * (unit * step) * (n * amp) == 128.0 * n * w;
    assert (x - unit * y) * z == x * z - y * w;
    assert (level - z) * x == level * x - x * z;
    assert (128.0 * n - 63.0 * y) * w == 128.0 * n * w - 63.0 * (y * w);
  }

  // ------------------------------------------------------------------ the whole sum

  /** What a row's packed streams stand for: coordinates of pair `k`, before the pair's own scale. */
  datatype Tables = Tables(levels: seq<real>, cosLut: seq<real>, sinLut: seq<real>)

  predicate Fits(t: Tables)
  {
    |t.levels| == N_AMP && |t.cosLut| == N_PHASE && |t.sinLut| == N_PHASE
  }

  /** The part of an inner product that two coordinates make. */
  function Coordinates(re: real, im: real, x: real, y: real): real
  {
    re * x + im * y
  }

  function DecodedRe(t: Tables, sigma: real, ai: nat, pi: nat): real
    requires Fits(t) && ai < N_AMP && pi < N_PHASE
  {
    sigma * t.levels[ai] * t.cosLut[pi]
  }

  function DecodedIm(t: Tables, sigma: real, ai: nat, pi: nat): real
    requires Fits(t) && ai < N_AMP && pi < N_PHASE
  {
    sigma * t.levels[ai] * t.sinLut[pi]
  }

  /** The inner product of the first `n` pairs of a rotated query with the decoded row. */
  function DecodedInner(t: Tables, sigma: seq<real>, rotated: seq<real>, amps: Bytes, phases: Bytes, n: nat): real
    requires Fits(t) && |rotated| == 2 * |sigma| && n <= |sigma|
  {
    if n == 0 then 0.0
    else
      DecodedInner(t, sigma, rotated, amps, phases, n - 1) + DecodedPair(t, sigma, rotated, amps, phases, n - 1)
  }

  function DecodedPair(t: Tables, sigma: seq<real>, rotated: seq<real>, amps: Bytes, phases: Bytes, k: nat): real
    requires Fits(t) && |rotated| == 2 * |sigma| && k < |sigma|
  {
    IndexBounds(LeNat(amps), k);
    IndexBounds(LeNat(phases), k);
    var ai, pi := Field(LeNat(amps), AMP_BITS, k), Field(LeNat(phases), PHASE_BITS, k);
    Coordinates(rotated[2 * k], rotated[2 * k + 1], DecodedRe(t, sigma[k], ai, pi), DecodedIm(t, sigma[k], ai, pi))
  }

  lemma FusedInner(level: real, sigma: real, re: real, im: real, cosine: real, sine: real)
    ensures Times(level, Along(Fused(re, sigma), Fused(im, sigma), cosine, sine)) ==
            Coordinates(re, im, sigma * level * cosine, sigma * level * sine)
  {
    var u := sigma * level;
    assert level * (re * sigma * cosine) == re * (u * cosine);
    assert level * (im * sigma * sine) == im * (u * sine);
  }

  /** Everything about one row and one prepared query. */
  predicate Scored(e: Engine, t: Tables, sigma: seq<real>, rotated: seq<real>, fused: seq<real>, q: seq<int>,
      unit: real)
  {
    && Fits(t) && EngineOf(e, t.levels, t.cosLut, t.sinLut) && |sigma| == e.numPairs
    && PairScales(rotated, sigma, fused) && Quantizes(fused, q, unit) && unit > 0.0
    && forall i :: 0 <= i < |fused| ==> Close(fused[i], 127.0 * unit)
  }

  lemma ScoredQuery(e: Engine, t: Tables, sigma: seq<real>, rotated: seq<real>, fused: seq<real>, q: seq<int>,
      unit: real)
    requires Scored(e, t, sigma, rotated, fused, q, unit)
    ensures ValidEngine(e) && ValidQuery(e, q)
  {
    assert forall i :: 0 <= i < |q| ==> UnitClose(fused[i], q[i], unit);
    hide Close, Rest, Fused;
  }

  lemma LevelNear(e: Engine, t: Tables, ai: nat)
    requires Fits(t) && EngineOf(e, t.levels, t.cosLut, t.sinLut) && ai < N_AMP
    ensures |e.amp| == N_AMP && 0 <= e.amp[ai] <= 127
    ensures Close(t.levels[ai] - Times(e.amp[ai] as real, AmpStep(t.levels)), AmpStep(t.levels) / 2.0)
  {
    LevelsKept(t.levels, ai);
    assert e.amp[ai] == Table(t.levels, 1.0 / AmpStep(t.levels), 0, 127)[ai];
    hide Table, AmpStep;
  }

  /** The amplitude unit: the largest level is 127 of them. */
  lemma LargestLevel(levels: seq<real>, i: nat)
    requires i < |levels| && levels[i] >= 0.000000000001 && forall j :: 0 <= j < |levels| ==> levels[j] <= levels[i]
    ensures 127.0 * AmpStep(levels) == levels[i] && Table(levels, 1.0 / AmpStep(levels), 0, 127)[i] == 127
  {
    MaxIsOne(levels);
    MaxIsLargest(levels, i);
    var step := AmpStep(levels);
    assert 127.0 * step == levels[i];
    TableAt(levels, 1.0 / step, 0, 127, i);
    hide Table, AmpStep, Max;
    var inv := 1.0 / step;
    assert inv * step == 1.0;
    assert levels[i] * inv == 127.0;
  }

  lemma {:induction false} MaxIsOne(levels: seq<real>)
    ensures Max(levels) == 0.0 || exists i :: 0 <= i < |levels| && levels[i] == Max(levels)
  {
    if levels != [] {
      var n := |levels| - 1;
      MaxIsOne(levels[..n]);
      if Max(levels[..n]) != 0.0 {
        var i :| 0 <= i < n && levels[..n][i] == Max(levels[..n]);
        assert levels[i] == Max(levels[..n]);
      }
    }
  }

  lemma TermNear(e: Engine, t: Tables, qr: int, qi: int, ai: nat, pi: nat, re: real, im: real, unit: real)
    requires Fits(t) && EngineOf(e, t.levels, t.cosLut, t.sinLut) && ai < N_AMP && pi < N_PHASE && unit > 0.0
    requires UnitClose(re, qr, unit) && UnitClose(im, qi, unit) && Close(re, 127.0 * unit) && Close(im, 127.0 * unit)
    ensures Close(Worth(unit, AmpStep(t.levels), Term(e, qr, qi, ai, pi))
                  - Times(t.levels[ai], Along(re, im, t.cosLut[pi], t.sinLut[pi])), Slack(unit, AmpStep(t.levels)))
  {
    var cosine, sine := t.cosLut[pi], t.sinLut[pi];
    assert Close(cosine, 1.0) && Close(sine, 1.0);
    assert -127 <= qr <= 127 && -127 <= qi <= 127;
    hide *;
    var n := NarrowedIsInner(e, t.levels, t.cosLut, t.sinLut, qr, qi, ai, pi);
    LevelNear(e, t, ai);
    AlongUnits(re, im, qr, qi, unit, cosine, sine);
    AlongBound(re, im, 127.0 * unit, cosine, sine);
    PairNear(n, e.amp[ai], t.levels[ai], AmpStep(t.levels), unit, Along(qr as real, qi as real, cosine, sine),
        Along(re, im, cosine, sine));
  }

  lemma CoordinateFacts(e: Engine, t: Tables, sigma: seq<real>, rotated: seq<real>, fused: seq<real>, q: seq<int>,
      unit: real, k: nat)
    requires Scored(e, t, sigma, rotated, fused, q, unit) && k < e.numPairs
    ensures Fits(t) && EngineOf(e, t.levels, t.cosLut, t.sinLut) && unit > 0.0
    ensures |rotated| == |fused| == |q| == 2 * |sigma| && |sigma| == e.numPairs
    ensures UnitClose(fused[2 * k], q[2 * k], unit) && UnitClose(fused[2 * k + 1], q[2 * k + 1], unit)
    ensures Close(fused[2 * k], 127.0 * unit) && Close(fused[2 * k + 1], 127.0 * unit)
    ensures fused[2 * k] == Fused(rotated[2 * k], sigma[k]) && fused[2 * k + 1] == Fused(rotated[2 * k + 1], sigma[k])
  {
    hide EngineOf, UnitClose, Close, Fused;
  }

  lemma PairScore(e: Engine, t: Tables, sigma: seq<real>, rotated: seq<real>, fused: seq<real>, q: seq<int>,
      unit: real, amps: Bytes, phases: Bytes, k: nat)
    requires Scored(e, t, sigma, rotated, fused, q, unit) && ValidEngine(e) && ValidQuery(e, q) && k < e.numPairs
    requires |rotated| == 2 * |sigma|
    ensures Close(Worth(unit, AmpStep(t.levels), PairTerm(e, q, amps, phases, k))
                  - DecodedPair(t, sigma, rotated, amps, phases, k), Slack(unit, AmpStep(t.levels)))
  {
    IndexBounds(LeNat(amps), k);
    IndexBounds(LeNat(phases), k);
    var ai, pi := Field(LeNat(amps), AMP_BITS, k), Field(LeNat(phases), PHASE_BITS, k);
    CoordinateFacts(e, t, sigma, rotated, fused, q, unit, k);
    assert PairTerm(e, q, amps, phases, k) == Term(e, q[2 * k], q[2 * k + 1], ai, pi);
    hide *;
    DecodedPairIs(t, sigma, rotated, amps, phases, k, ai, pi);
    TermNear(e, t, q[2 * k], q[2 * k + 1], ai, pi, fused[2 * k], fused[2 * k + 1], unit);
  }

  lemma DecodedPairIs(t: Tables, sigma: seq<real>, rotated: seq<real>, amps: Bytes, phases: Bytes, k: nat, ai: nat,
      pi: nat)
    requires Fits(t) && |rotated| == 2 * |sigma| && k < |sigma| && ai < N_AMP && pi < N_PHASE
    requires ai == Field(LeNat(amps), AMP_BITS, k) && pi == Field(LeNat(phases), PHASE_BITS, k)
    ensures DecodedPair(t, sigma, rotated, amps, phases, k) ==
            Times(t.levels[ai], Along(Fused(rotated[2 * k], sigma[k]), Fused(rotated[2 * k + 1], sigma[k]),
                                      t.cosLut[pi], t.sinLut[pi]))
  {
    FusedInner(t.levels[ai], sigma[k], rotated[2 * k], rotated[2 * k + 1], t.cosLut[pi], t.sinLut[pi]);
    hide Field, LeNat, Coordinates, Times, Along, Fused;
  }

  /**
   The kernel's sum, scaled back, is the inner product of the rotated query with the decoded row, up to
   one slack a pair: about 640 query units times amplitude units.
   */
  lemma {:induction false} ScoreIsNear(e: Engine, t: Tables, sigma: seq<real>, rotated: seq<real>, fused: seq<real>,
      q: seq<int>, unit: real, amps: Bytes, phases: Bytes, n: nat)
    requires Scored(e, t, sigma, rotated, fused, q, unit) && ValidEngine(e) && ValidQuery(e, q) && n <= e.numPairs
    requires |rotated| == 2 * |sigma| && |sigma| == e.numPairs
    ensures SumNear(BackScale(unit, AmpStep(t.levels)), SumPairs(e, q, amps, phases, 0, n),
                    DecodedInner(t, sigma, rotated, amps, phases, n), n, Slack(unit, AmpStep(t.levels)))
  {
    assert Fits(t);
    hide *;
    var step := AmpStep(t.levels);
    var scale, slack := BackScale(unit, step), Slack(unit, step);
    if n == 0 {
      NothingSummed(e, t, sigma, rotated, q, amps, phases, scale, slack);
    } else {
      ScoreIsNear(e, t, sigma, rotated, fused, q, unit, amps, phases, n - 1);
      PairScore(e, t, sigma, rotated, fused, q, unit, amps, phases, n - 1);
      OnePairMore(e, t, sigma, rotated, q, amps, phases, n);
      WorthScales(unit, step, PairTerm(e, q, amps, phases, n - 1));
      Accumulate(scale, SumPairs(e, q, amps, phases, 0, n - 1), PairTerm(e, q, amps, phases, n - 1),
          DecodedInner(t, sigma, rotated, amps, phases, n - 1), DecodedPair(t, sigma, rotated, amps, phases, n - 1),
          n, slack);
    }
  }

  /** A kernel sum, scaled, against an inner product of `n` pairs. */
  predicate SumNear(scale: real, sum: int, inner: real, n: nat, slack: real)
  {
    Close(scale * sum as real - inner, n as real * slack)
  }

  lemma WorthScales(unit: real, step: real, term: int)
    ensures Worth(unit, step, term) == Times(BackScale(unit, step), term as real)
  {
  }

  lemma NothingSummed(e: Engine, t: Tables, sigma: seq<real>, rotated: seq<real>, q: seq<int>, amps: Bytes,
      phases: Bytes, scale: real, slack: real)
    requires ValidEngine(e) && ValidQuery(e, q) && Fits(t) && |rotated| == 2 * |sigma|
    ensures SumNear(scale, SumPairs(e, q, amps, phases, 0, 0), DecodedInner(t, sigma, rotated, amps, phases, 0), 0,
                    slack)
  {
    hide ValidEngine, ValidQuery, Fits;
    assert SumPairs(e, q, amps, phases, 0, 0) == 0 && scale * 0.0 == 0.0;
  }

  lemma OnePairMore(e: Engine, t: Tables, sigma: seq<real>, rotated: seq<real>, q: seq<int>, amps: Bytes,
      phases: Bytes, n: nat)
    requires ValidEngine(e) && ValidQuery(e, q) && Fits(t) && |rotated| == 2 * |sigma| && |sigma| == e.numPairs
    requires 0 < n <= e.numPairs
    ensures SumPairs(e, q, amps, phases, 0, n) ==
            SumPairs(e, q, amps, phases, 0, n - 1) + PairTerm(e, q, amps, phases, n - 1)
    ensures DecodedInner(t, sigma, rotated, amps, phases, n) ==
            DecodedInner(t, sigma, rotated, amps, phases, n - 1)
                + DecodedPair(t, sigma, rotated, amps, phases, n - 1)
  {
    hide ValidEngine, ValidQuery, Fits, PairTerm, DecodedPair;
  }

  lemma Accumulate(scale: real, sum: int, term: int, inner: real, pair: real, n: nat, slack: real)
    requires n > 0 && SumNear(scale, sum, inner, n - 1, slack) && Close(Times(scale, term as real) - pair, slack)
    ensures SumNear(scale, sum + term, inner + pair, n, slack)
  {
    assert scale * (sum + term) as real == scale * sum as real + scale * term as real;
    assert n as real == (n - 1) as real + 1.0;
    assert n as real * slack == (n - 1) as real * slack + slack;
  }
}
