/**
 The block-Hadamard rotation (`block_hadamard_forward` and `block_hadamard_inverse` in
 `src/codec/qam_lloyd_max.rs`, the scalar loops in `src/codec/qam_lloyd_max/simd.rs`, `fwht_rows` and
 `rotate` in `bench/python/codec_study.py`), over the reals.
 */
module Hadamard {
  import opened Basics
  import opened Bits

  // ------------------------------------------------------------------ vectors

  function Add(a: seq<real>, b: seq<real>): (r: seq<real>)
    requires |a| == |b|
    ensures |r| == |a|
  {
    seq(|a|, i requires 0 <= i < |a| => a[i] + b[i])
  }

  function Sub(a: seq<real>, b: seq<real>): (r: seq<real>)
    requires |a| == |b|
    ensures |r| == |a|
  {
    seq(|a|, i requires 0 <= i < |a| => a[i] - b[i])
  }

  function Scale(c: real, a: seq<real>): (r: seq<real>)
    ensures |r| == |a|
  {
    seq(|a|, i requires 0 <= i < |a| => c * a[i])
  }

  function Mul(a: seq<real>, b: seq<real>): (r: seq<real>)
    requires |a| == |b|
    ensures |r| == |a|
  {
    seq(|a|, i requires 0 <= i < |a| => a[i] * b[i])
  }

  function SumSquares(s: seq<real>): real
  {
    if s == [] then 0.0 else SumSquares(s[..|s| - 1]) + s[|s| - 1] * s[|s| - 1]
  }

  predicate IsPow2(n: nat)
  {
    n == 1 || (n >= 2 && n % 2 == 0 && IsPow2(n / 2))
  }

  // ------------------------------------------------------------------ the transform

  function Combine(l: seq<real>, r: seq<real>): (c: seq<real>)
    requires |l| == |r|
    ensures |c| == 2 * |l|
  {
    Add(l, r) + Sub(l, r)
  }

  /** The Walsh-Hadamard transform in natural order, unnormalized. */
  function Wht(s: seq<real>): (r: seq<real>)
    requires IsPow2(|s|)
    ensures |r| == |s|
    decreases |s|
  {
    if |s| == 1 then s
    else
      var m := |s| / 2;
      Combine(Wht(s[..m]), Wht(s[m..]))
  }

  lemma WhtUnfolds(s: seq<real>)
    requires IsPow2(|s|) && |s| > 1
    ensures |s| == 2 * (|s| / 2) && IsPow2(|s| / 2)
    ensures Wht(s) == Combine(Wht(s[..|s| / 2]), Wht(s[|s| / 2..]))
  {
  }

  lemma AddSlice(a: seq<real>, b: seq<real>, m: nat)
    requires |a| == |b| && m <= |a|
    ensures Add(a, b)[..m] == Add(a[..m], b[..m]) && Add(a, b)[m..] == Add(a[m..], b[m..])
    ensures Sub(a, b)[..m] == Sub(a[..m], b[..m]) && Sub(a, b)[m..] == Sub(a[m..], b[m..])
  {
    assert forall i :: 0 <= i < |a| - m ==> Add(a, b)[m..][i] == Add(a[m..], b[m..])[i];
    assert forall i :: 0 <= i < |a| - m ==> Sub(a, b)[m..][i] == Sub(a[m..], b[m..])[i];
  }

  lemma ScaleSlice(c: real, a: seq<real>, m: nat)
    requires m <= |a|
    ensures Scale(c, a)[..m] == Scale(c, a[..m]) && Scale(c, a)[m..] == Scale(c, a[m..])
  {
    forall i | 0 <= i < |a| - m ensures Scale(c, a)[m..][i] == Scale(c, a[m..])[i] {
      assert Scale(c, a)[m..][i] == Scale(c, a)[m + i] && a[m..][i] == a[m + i];
    }
    forall i | 0 <= i < m ensures Scale(c, a)[..m][i] == Scale(c, a[..m])[i] {
      assert a[..m][i] == a[i];
    }
  }

  lemma AddSwaps(l: seq<real>, r: seq<real>, x: seq<real>, y: seq<real>)
    requires |l| == |r| == |x| == |y|
    ensures Add(Add(l, x), Add(r, y)) == Add(Add(l, r), Add(x, y))
    ensures Sub(Add(l, x), Add(r, y)) == Add(Sub(l, r), Sub(x, y))
    ensures Add(Sub(l, x), Sub(r, y)) == Sub(Add(l, r), Add(x, y))
    ensures Sub(Sub(l, x), Sub(r, y)) == Sub(Sub(l, r), Sub(x, y))
  {
  }

  lemma AddConcat(a: seq<real>, b: seq<real>, x: seq<real>, y: seq<real>)
    requires |a| == |x| && |b| == |y|
    ensures Add(a, x) + Add(b, y) == Add(a + b, x + y) && Sub(a, x) + Sub(b, y) == Sub(a + b, x + y)
  {
    assert forall i :: 0 <= i < |a| + |b| ==> (Add(a, x) + Add(b, y))[i] == Add(a + b, x + y)[i];
    assert forall i :: 0 <= i < |a| + |b| ==> (Sub(a, x) + Sub(b, y))[i] == Sub(a + b, x + y)[i];
  }

  lemma CombineLinear(l: seq<real>, r: seq<real>, x: seq<real>, y: seq<real>)
    requires |l| == |r| == |x| == |y|
    ensures Combine(Add(l, x), Add(r, y)) == Add(Combine(l, r), Combine(x, y))
    ensures Combine(Sub(l, x), Sub(r, y)) == Sub(Combine(l, r), Combine(x, y))
  {
    AddSwaps(l, r, x, y);
    hide Add, Sub;
    AddConcat(Add(l, r), Sub(l, r), Add(x, y), Sub(x, y));
  }

  lemma {:induction false} WhtAdd(a: seq<real>, b: seq<real>)
    requires |a| == |b| && IsPow2(|a|)
    ensures Wht(Add(a, b)) == Add(Wht(a), Wht(b))
    decreases |a|
  {
    hide *;
    if |a| <= 1 {
      PowPositive(|a|);
      SingleIsSame(a);
      SingleIsSame(b);
      SingleIsSame(Add(a, b));
    } else {
      var m := |a| / 2;
      WhtUnfolds(a);
      WhtUnfolds(b);
      WhtAdd(a[..m], b[..m]);
      WhtAdd(a[m..], b[m..]);
      WhtUnfolds(Add(a, b));
      AddSlice(a, b, m);
      CombineLinear(Wht(a[..m]), Wht(a[m..]), Wht(b[..m]), Wht(b[m..]));
    }
  }

  lemma {:induction false} WhtSub(a: seq<real>, b: seq<real>)
    requires |a| == |b| && IsPow2(|a|)
    ensures Wht(Sub(a, b)) == Sub(Wht(a), Wht(b))
    decreases |a|
  {
    hide *;
    if |a| <= 1 {
      PowPositive(|a|);
      SingleIsSame(a);
      SingleIsSame(b);
      SingleIsSame(Sub(a, b));
    } else {
      var m := |a| / 2;
      WhtUnfolds(a);
      WhtUnfolds(b);
      WhtSub(a[..m], b[..m]);
      WhtSub(a[m..], b[m..]);
      WhtUnfolds(Sub(a, b));
      AddSlice(a, b, m);
      CombineLinear(Wht(a[..m]), Wht(a[m..]), Wht(b[..m]), Wht(b[m..]));
    }
  }

  lemma ScaleAdds(c: real, l: seq<real>, r: seq<real>)
    requires |l| == |r|
    ensures Add(Scale(c, l), Scale(c, r)) == Scale(c, Add(l, r)) && Sub(Scale(c, l), Scale(c, r)) == Scale(c, Sub(l, r))
  {
    forall i | 0 <= i < |l|
      ensures Add(Scale(c, l), Scale(c, r))[i] == Scale(c, Add(l, r))[i]
              && Sub(Scale(c, l), Scale(c, r))[i] == Scale(c, Sub(l, r))[i]
    {
      Distributes(c, l[i], r[i]);
    }
  }

  lemma Distributes(c: real, x: real, y: real)
    ensures c * x + c * y == c * (x + y) && c * x - c * y == c * (x - y)
  {
  }

  lemma ScaleConcat(c: real, a: seq<real>, b: seq<real>)
    ensures Scale(c, a) + Scale(c, b) == Scale(c, a + b)
  {
    forall i | 0 <= i < |a| + |b| ensures (Scale(c, a) + Scale(c, b))[i] == Scale(c, a + b)[i] {
      if i < |a| { assert (a + b)[i] == a[i]; } else { assert (a + b)[i] == b[i - |a|]; }
    }
  }

  lemma {:induction false} WhtScale(c: real, a: seq<real>)
    requires IsPow2(|a|)
    ensures Wht(Scale(c, a)) == Scale(c, Wht(a))
    decreases |a|
  {
    if |a| > 1 {
      hide *;
      var m := |a| / 2;
      WhtUnfolds(a);
      WhtUnfolds(Scale(c, a));
      WhtScale(c, a[..m]);
      WhtScale(c, a[m..]);
      ScaleSlice(c, a, m);
      CombineScale(c, Wht(a[..m]), Wht(a[m..]));
    }
  }

  lemma CombineScale(c: real, l: seq<real>, r: seq<real>)
    requires |l| == |r|
    ensures Combine(Scale(c, l), Scale(c, r)) == Scale(c, Combine(l, r))
  {
    ScaleAdds(c, l, r);
    hide Add, Sub, Scale;
    ScaleConcat(c, Add(l, r), Sub(l, r));
  }

  lemma SumAndDifference(l: seq<real>, r: seq<real>)
    requires |l| == |r|
    ensures Add(Add(l, r), Sub(l, r)) == Scale(2.0, l) && Sub(Add(l, r), Sub(l, r)) == Scale(2.0, r)
  {
  }

  lemma ScaleScale(c: real, d: real, s: seq<real>)
    ensures Scale(c, Scale(d, s)) == Scale(c * d, s)
  {
    forall i | 0 <= i < |s| ensures Scale(c, Scale(d, s))[i] == Scale(c * d, s)[i] {
      Associates(c, d, s[i]);
    }
  }

  lemma Associates(c: real, d: real, x: real)
    ensures c * (d * x) == (c * d) * x
  {
  }

  lemma ScaleOne(s: seq<real>)
    ensures Scale(1.0, s) == s
  {
  }

  lemma SumThenDifference(l: seq<real>, r: seq<real>)
    requires |l| == |r| && IsPow2(|l|)
    ensures Combine(Wht(Add(l, r)), Wht(Sub(l, r))) == Scale(2.0, Wht(l) + Wht(r))
  {
    WhtAdd(l, r);
    WhtSub(l, r);
    SumAndDifference(Wht(l), Wht(r));
    hide Wht, Add, Sub, Scale;
    ScaleConcat(2.0, Wht(l), Wht(r));
  }

  lemma CombineHalves(l: seq<real>, r: seq<real>)
    requires |l| == |r|
    ensures Combine(l, r)[..|l|] == Add(l, r) && Combine(l, r)[|l|..] == Sub(l, r)
  {
  }

  lemma SingleIsSame(s: seq<real>)
    requires |s| == 1
    ensures IsPow2(1) && Wht(s) == s
  {
  }

  /** Applied twice, the transform multiplies by the length. */
  lemma {:induction false} WhtTwice(s: seq<real>)
    requires IsPow2(|s|)
    ensures Wht(Wht(s)) == Scale(|s| as real, s)
    decreases |s|
  {
    hide *;
    if |s| <= 1 {
      PowPositive(|s|);
      SingleIsSame(s);
      ScaleOne(s);
    } else {
      var m := |s| / 2;
      WhtUnfolds(s);
      var l, r := Wht(s[..m]), Wht(s[m..]);
      WhtTwice(s[..m]);
      WhtTwice(s[m..]);
      WhtUnfolds(Wht(s));
      CombineHalves(l, r);
      SumThenDifference(l, r);
      ScaleConcat(m as real, s[..m], s[m..]);
      assert s[..m] + s[m..] == s;
      ScaleScale(2.0, m as real, s);
    }
  }

  lemma PowPositive(n: nat)
    requires IsPow2(n)
    ensures n >= 1 && IsPow2(1)
  {
  }

  lemma {:induction false} SumSquaresConcat(a: seq<real>, b: seq<real>)
    ensures SumSquares(a + b) == SumSquares(a) + SumSquares(b)
  {
    if b == [] {
      assert a + b == a;
    } else {
      SumSquaresConcat(a, b[..|b| - 1]);
      assert (a + b)[..|a + b| - 1] == a + b[..|b| - 1];
    }
  }

  lemma Squares(x: real, y: real)
    ensures (x + y) * (x + y) + (x - y) * (x - y) == 2.0 * (x * x + y * y)
  {
  }

  lemma {:induction false} Parallelogram(l: seq<real>, r: seq<real>)
    requires |l| == |r|
    ensures SumSquares(Add(l, r)) + SumSquares(Sub(l, r)) == 2.0 * (SumSquares(l) + SumSquares(r))
  {
    if l != [] {
      var n := |l| - 1;
      Parallelogram(l[..n], r[..n]);
      AddSlice(l, r, n);
      Squares(l[n], r[n]);
      assert Add(l, r)[n] == l[n] + r[n] && Sub(l, r)[n] == l[n] - r[n];
      hide Add, Sub;
    }
  }

  /** The transform scales the sum of squares by the length. */
  lemma {:induction false} WhtSquares(s: seq<real>)
    requires IsPow2(|s|)
    ensures SumSquares(Wht(s)) == |s| as real * SumSquares(s)
    decreases |s|
  {
    hide *;
    if |s| <= 1 {
      PowPositive(|s|);
      SingleIsSame(s);
    } else {
      var m := |s| / 2;
      WhtUnfolds(s);
      var l, r := Wht(s[..m]), Wht(s[m..]);
      WhtSquares(s[..m]);
      WhtSquares(s[m..]);
      CombineSquares(l, r);
      SumSquaresConcat(s[..m], s[m..]);
      assert s[..m] + s[m..] == s && |s| as real == 2.0 * m as real;
      Doubled(m as real, SumSquares(s[..m]), SumSquares(s[m..]));
    }
  }

  lemma Doubled(m: real, p: real, q: real)
    ensures 2.0 * (m * p + m * q) == (2.0 * m) * (p + q)
  {
  }

  lemma CombineSquares(l: seq<real>, r: seq<real>)
    requires |l| == |r|
    ensures SumSquares(Combine(l, r)) == 2.0 * (SumSquares(l) + SumSquares(r))
  {
    SumSquaresConcat(Add(l, r), Sub(l, r));
    Parallelogram(l, r);
    hide SumSquares, Add, Sub;
  }

  // ------------------------------------------------------------------ positions at block boundaries

  /** `i` is a whole number of steps of `h`. */
  predicate Mult(i: nat, h: nat)
    requires h > 0
  {
    i == 0 || (i >= h && Mult(i - h, h))
  }

  lemma {:induction false} MultAdd(a: nat, b: nat, h: nat)
    requires h > 0 && Mult(a, h) && Mult(b, h)
    ensures Mult(a + b, h)
    decreases b
  {
    if b > 0 { MultAdd(a, b - h, h); }
  }

  lemma {:induction false} MultHalf(i: nat, h: nat)
    requires h > 0 && Mult(i, 2 * h)
    ensures Mult(i, h)
  {
    if i > 0 { MultHalf(i - 2 * h, h); }
  }

  lemma {:induction false} MultGap(i: nat, n: nat, h: nat)
    requires h > 0 && Mult(i, h) && Mult(n, h) && i < n
    ensures i + h <= n
    decreases n
  {
    if i < n - h { MultGap(i, n - h, h); }
    if n - h < i { MultGap(n - h, i, h); }
  }

  lemma {:induction false} PowersDivide(n: nat, h: nat)
    requires IsPow2(n) && IsPow2(h) && h <= n
    ensures Mult(n, h)
    decreases n
  {
    if h == n {
    } else {
      SmallerPower(n, h);
      PowersDivide(n / 2, h);
      MultAdd(n / 2, n / 2, h);
    }
  }

  lemma {:induction false} SmallerPower(n: nat, h: nat)
    requires IsPow2(n) && IsPow2(h) && h < n
    ensures 2 * h <= n && n % 2 == 0 && IsPow2(n / 2) && h <= n / 2
    decreases n
  {
    if h > 1 { SmallerPower(n / 2, h / 2); }
  }

  lemma {:induction false} RemainderMult(n: nat, h: nat)
    requires h > 0 && n % h == 0
    ensures Mult(n, h)
    decreases n
  {
    if n > 0 {
      var q := n / h;
      assert n == h * q + n % h;
      OneLess(n, h, q);
      RemainderMult(n - h, h);
    }
  }

  lemma OneLess(n: nat, h: nat, q: int)
    requires h > 0 && n > 0 && n == h * q
    ensures n >= h && (n - h) % h == 0
  {
    if q <= 0 { NotPositive(h, q); }
    TimesMono(h, 1, q);
    assert n - h == (q - 1) * h;
    DivUnique(n - h, h, q - 1, 0);
  }

  lemma NotPositive(h: nat, q: int)
    requires q <= 0
    ensures h * q <= 0
  {
  }

  lemma TimesMono(h: nat, p: int, q: int)
    requires p <= q
    ensures h * p <= h * q
  {
  }

  // ------------------------------------------------------------------ the butterfly loops

  /** Every block of `h` up to position `i` transformed. */
  function BlockWise(s: seq<real>, h: nat, i: nat): (r: seq<real>)
    requires IsPow2(h) && Mult(i, h) && i <= |s|
    ensures |r| == i
    decreases i
  {
    if i == 0 then [] else BlockWise(s, h, i - h) + Wht(s[i - h..i])
  }

  /** One stage up to position `i`: each pair of neighbouring blocks of `h` combined. */
  function Stage(s: seq<real>, h: nat, i: nat): (r: seq<real>)
    requires h > 0 && Mult(i, 2 * h) && i <= |s|
    ensures |r| == i
    decreases i
  {
    if i == 0 then [] else Stage(s, h, i - 2 * h) + Combine(s[i - 2 * h..i - h], s[i - h..i])
  }

  lemma {:induction false} BlockWiseSlice(s: seq<real>, h: nat, i: nat, n: nat)
    requires IsPow2(h) && Mult(i, h) && Mult(n, h) && h <= i <= n <= |s|
    ensures BlockWise(s, h, n)[..i] == BlockWise(s, h, i) && BlockWise(s, h, n)[i - h..i] == Wht(s[i - h..i])
    decreases n
  {
    if i < n {
      MultGap(i, n, h);
      BlockWiseSlice(s, h, i, n - h);
    }
  }

  /** A stage over blocks of `h` gives blocks of twice the size. */
  lemma StageUnfolds(s: seq<real>, h: nat, i: nat)
    requires h > 0 && Mult(i, 2 * h) && 0 < i <= |s|
    ensures 2 * h <= i && Mult(i - 2 * h, 2 * h)
    ensures Stage(s, h, i) == Stage(s, h, i - 2 * h) + Combine(s[i - 2 * h..i - h], s[i - h..i])
  {
  }

  lemma BlockUnfolds(s: seq<real>, h: nat, i: nat)
    requires IsPow2(h) && Mult(i, h) && 0 < i <= |s|
    ensures h <= i && Mult(i - h, h) && BlockWise(s, h, i) == BlockWise(s, h, i - h) + Wht(s[i - h..i])
  {
  }

  lemma {:induction false} StageDoubles(s: seq<real>, h: nat, i: nat, n: nat)
    requires IsPow2(h) && IsPow2(2 * h) && Mult(i, 2 * h) && Mult(n, h) && i <= n <= |s|
    ensures Stage(BlockWise(s, h, n), h, i) == BlockWise(s, 2 * h, i)
    decreases i
  {
    hide *;
    PowPositive(h);
    if i > 0 {
      var b := BlockWise(s, h, n);
      StageUnfolds(b, h, i);
      BlockUnfolds(s, 2 * h, i);
      StageDoubles(s, h, i - 2 * h, n);
      MultHalf(i, h);
      BlockUnfolds(s, h, i);
      BlockWiseSlice(s, h, i - h, n);
      BlockWiseSlice(s, h, i, n);
      PairTransforms(s, h, i);
    }
  }

  lemma PairTransforms(s: seq<real>, h: nat, i: nat)
    requires IsPow2(h) && IsPow2(2 * h) && 2 * h <= i <= |s|
    ensures Wht(s[i - 2 * h..i]) == Combine(Wht(s[i - 2 * h..i - h]), Wht(s[i - h..i]))
  {
    hide *;
    PowPositive(h);
    var t := s[i - 2 * h..i];
    assert t[..h] == s[i - 2 * h..i - h] && t[h..] == s[i - h..i];
    assert |t| == 2 * h && |t| / 2 == h;
    WhtUnfolds(t);
  }

  /** Where the innermost loop stands: pairs before `j` combined, the rest as they were. */
  ghost predicate Halfway(before: seq<real>, now: seq<real>, p: nat, h: nat, j: nat)
    requires p + 2 * h <= |before|
  {
    && |now| == |before| && p <= j <= p + h
    && (forall k :: p <= k < j ==> now[k] == before[k] + before[k + h] && now[k + h] == before[k] - before[k + h])
    && (forall k :: 0 <= k < p ==> now[k] == before[k])
    && (forall k :: j <= k < p + h ==> now[k] == before[k])
    && (forall k :: j + h <= k < |before| ==> now[k] == before[k])
  }

  lemma PairDone(before: seq<real>, now: seq<real>, p: nat, h: nat)
    requires p + 2 * h <= |before| && Halfway(before, now, p, h, p + h)
    ensures now[p..p + 2 * h] == Combine(before[p..p + h], before[p + h..p + 2 * h])
    ensures now[..p] == before[..p] && now[p + 2 * h..] == before[p + 2 * h..]
  {
    var c := Combine(before[p..p + h], before[p + h..p + 2 * h]);
    forall i | 0 <= i < 2 * h ensures now[p..p + 2 * h][i] == c[i] {
      if i < h {
        assert now[p + i] == before[p + i] + before[p + i + h];
      } else {
        var k := p + i - h;
        assert now[k + h] == before[k] - before[k + h];
      }
    }
  }

  lemma HalfwayStep(before: seq<real>, now: seq<real>, p: nat, h: nat, j: nat)
    requires p + 2 * h <= |before| && Halfway(before, now, p, h, j) && j < p + h
    ensures j < j + h < |now| == |before|
    ensures Halfway(before, Crossed(now, j, j + h), p, h, j + 1)
  {
  }

  /** The innermost loop: one pair of blocks, in place. */
  method Butterfly(a: array<real>, p: nat, h: nat)
    requires p + 2 * h <= a.Length
    modifies a
    ensures |old(a[..])| == a.Length
    ensures a[..][p..p + 2 * h] == Combine(old(a[..])[p..p + h], old(a[..])[p + h..p + 2 * h])
    ensures a[..][..p] == old(a[..])[..p] && a[..][p + 2 * h..] == old(a[..])[p + 2 * h..]
  {
    ghost var before := a[..];
    CombinePairs(a, p, h);
    PairDone(before, a[..], p, h);
    hide *;
  }

  method CombinePairs(a: array<real>, p: nat, h: nat)
    requires p + 2 * h <= a.Length
    modifies a
    ensures Halfway(old(a[..]), a[..], p, h, p + h)
  {
    ghost var before := a[..];
    HalfwayStart(before, p, h);
    hide *;
    ghost var now := before;
    for j := p to p + h
      invariant a[..] == now && |now| == |before| && Halfway(before, now, p, h, j)
    {
      HalfwayStep(before, now, p, h, j);
      now := Crossed(now, j, j + h);
      Cross(a, j, j + h);
    }
  }

  /** Sum and difference in place of two entries. */
  method Cross(a: array<real>, j: nat, k: nat)
    requires j < k < a.Length
    modifies a
    ensures a[..] == Crossed(old(a[..]), j, k)
  {
    var x, y := a[j], a[k];
    a[j], a[k] := x + y, x - y;
  }

  function Crossed(s: seq<real>, j: nat, k: nat): seq<real>
    requires j < k < |s|
  {
    s[j := s[j] + s[k]][k := s[j] - s[k]]
  }

  lemma HalfwayStart(before: seq<real>, p: nat, h: nat)
    requires p + 2 * h <= |before|
    ensures Halfway(before, before, p, h, p)
  {
  }

  /** An array with the stretch at `lo` replaced. */
  function Spliced(all: seq<real>, lo: nat, part: seq<real>): (r: seq<real>)
    requires lo + |part| <= |all|
    ensures |r| == |all|
  {
    all[..lo] + part + all[lo + |part|..]
  }

  /** One more pair of a stage. */
  lemma SplicedStep(all: seq<real>, now: seq<real>, after: seq<real>, lo: nat, s: seq<real>, done: seq<real>,
      pair: seq<real>)
    requires lo + |s| <= |all| && |done| + |pair| <= |s| && s == all[lo..lo + |s|]
    requires now == Spliced(all, lo, done) && |after| == |now|
    requires after[lo + |done|..lo + |done| + |pair|] == pair
    requires after[..lo + |done|] == now[..lo + |done|] && after[lo + |done| + |pair|..] == now[lo + |done| + |pair|..]
    ensures after == Spliced(all, lo, done + pair)
  {
    var d, e := lo + |done|, lo + |done| + |pair|;
    assert after == after[..d] + after[d..e] + after[e..];
    assert now[..d] == all[..lo] + done;
    assert now[e..] == all[e..];
    assert (all[..lo] + done) + pair == all[..lo] + (done + pair);
  }

  /** What the next pair of blocks holds before it is combined. */
  lemma NextPair(all: seq<real>, now: seq<real>, lo: nat, s: seq<real>, done: seq<real>, h: nat)
    requires lo + |s| <= |all| && |done| + 2 * h <= |s| && s == all[lo..lo + |s|] && now == Spliced(all, lo, done)
    ensures var i := |done|;
            now[lo + i..lo + i + h] == s[i..i + h] && now[lo + i + h..lo + i + 2 * h] == s[i + h..i + 2 * h]
  {
    var i := |done|;
    var l, r := now[lo + i..lo + i + h], now[lo + i + h..lo + i + 2 * h];
    var x, y := s[i..i + h], s[i + h..i + 2 * h];
    forall k | 0 <= k < h ensures l[k] == x[k] && r[k] == y[k] {
      assert now[lo + i + k] == all[lo + i + k] && now[lo + i + h + k] == all[lo + i + h + k];
    }
  }

  /** One stage over the block of `n` values at `lo`, in place. */
  method RunStage(a: array<real>, lo: nat, n: nat, h: nat)
    requires h > 0 && Mult(n, 2 * h) && lo + n <= a.Length
    modifies a
    ensures |old(a[..])| == a.Length
    ensures a[..] == Spliced(old(a[..]), lo, Stage(old(a[..])[lo..lo + n], h, n))
  {
    hide *;
    ghost var all := a[..];
    ghost var s := all[lo..lo + n];
    var i := 0;
    StageStarts(s, h);
    NothingDone(all, lo);
    while i < n
      invariant 0 <= i <= n && Mult(i, 2 * h)
      invariant a[..] == Spliced(all, lo, Stage(s, h, i))
    {
      MultGap(i, n, 2 * h);
      ghost var now := a[..];
      StageMore(s, h, i);
      NextPair(all, now, lo, s, Stage(s, h, i), h);
      Butterfly(a, lo + i, h);
      SplicedStep(all, now, a[..], lo, s, Stage(s, h, i), Combine(s[i..i + h], s[i + h..i + 2 * h]));
      i := i + 2 * h;
    }
  }

  lemma StageStarts(s: seq<real>, h: nat)
    requires h > 0
    ensures Mult(0, 2 * h) && Stage(s, h, 0) == []
  {
  }

  lemma NothingDone(all: seq<real>, lo: nat)
    requires lo <= |all|
    ensures Spliced(all, lo, []) == all
  {
  }

  lemma StageMore(s: seq<real>, h: nat, i: nat)
    requires h > 0 && Mult(i, 2 * h) && i + 2 * h <= |s|
    ensures Mult(i + 2 * h, 2 * h)
    ensures Stage(s, h, i + 2 * h) == Stage(s, h, i) + Combine(s[i..i + h], s[i + h..i + 2 * h])
  {
    var k: nat := i + 2 * h;
    assert k - 2 * h == i && k - h == i + h && Mult(k, 2 * h);
    hide Combine, Mult;
  }

  lemma SplicedSlice(all: seq<real>, lo: nat, part: seq<real>)
    requires lo + |part| <= |all|
    ensures Spliced(all, lo, part)[lo..lo + |part|] == part
  {
  }

  lemma SplicedTwice(all: seq<real>, lo: nat, p: seq<real>, q: seq<real>)
    requires lo + |p| <= |all| && |p| == |q|
    ensures Spliced(Spliced(all, lo, p), lo, q) == Spliced(all, lo, q)
  {
  }

  lemma SplicedSame(all: seq<real>, lo: nat, n: nat)
    requires lo + n <= |all|
    ensures Spliced(all, lo, all[lo..lo + n]) == all
  {
  }

  /** The butterfly loop over one block: h = 1, 2, 4, ... up to the block size. */
  method Fwht(a: array<real>, lo: nat, n: nat)
    requires IsPow2(n) && lo + n <= a.Length
    modifies a
    ensures |old(a[..])| == a.Length
    ensures a[..] == Spliced(old(a[..]), lo, Wht(old(a[..])[lo..lo + n]))
  {
    hide *;
    ghost var all := a[..];
    ghost var s := all[lo..lo + n];
    var h := 1;
    PowPositive(n);
    OnesDivide(n);
    SingleBlocks(s, n);
    SplicedSame(all, lo, n);
    assert s[..n] == s;
    while h < n
      invariant 1 <= h <= n && IsPow2(h) && Mult(n, h)
      invariant a[..] == Spliced(all, lo, BlockWise(s, h, n))
    {
      SmallerPower(n, h);
      DoublePower(h);
      PowersDivide(n, 2 * h);
      StageDoubles(s, h, n, n);
      SplicedSlice(all, lo, BlockWise(s, h, n));
      SplicedTwice(all, lo, BlockWise(s, h, n), BlockWise(s, 2 * h, n));
      RunStage(a, lo, n, h);
      h := h * 2;
    }
    WholeBlock(s, n);
  }

  lemma DoublePower(h: nat)
    requires IsPow2(h)
    ensures IsPow2(2 * h)
  {
  }

  lemma {:induction false} OnesDivide(n: nat)
    ensures Mult(n, 1)
  {
    if n > 0 { OnesDivide(n - 1); }
  }

  lemma {:induction false} SingleBlocks(s: seq<real>, i: nat)
    requires i <= |s|
    ensures Mult(i, 1) && BlockWise(s, 1, i) == s[..i]
    decreases i
  {
    if i > 0 { SingleBlocks(s, i - 1); }
  }

  lemma WholeBlock(s: seq<real>, n: nat)
    requires IsPow2(n) && |s| == n && Mult(n, n)
    ensures BlockWise(s, n, n) == Wht(s)
  {
    assert s[0..n] == s;
    assert BlockWise(s, n, 0) == [];
  }

  // ------------------------------------------------------------------ the rotation

  /** Each block of `n` up to position `i`, transformed and normalized. */
  function Normalized(s: seq<real>, n: nat, scale: real, i: nat): (r: seq<real>)
    requires IsPow2(n) && Mult(i, n) && i <= |s|
    ensures |r| == i
    decreases i
  {
    if i == 0 then [] else Normalized(s, n, scale, i - n) + Scale(scale, Wht(s[i - n..i]))
  }

  function Forward(s: seq<real>, signs: seq<real>, n: nat, scale: real): (r: seq<real>)
    requires |s| == |signs| && IsPow2(n) && Mult(|s|, n)
    ensures |r| == |s|
  {
    Normalized(Mul(s, signs), n, scale, |s|)
  }

  function Inverse(s: seq<real>, signs: seq<real>, n: nat, scale: real): (r: seq<real>)
    requires |s| == |signs| && IsPow2(n) && Mult(|s|, n)
    ensures |r| == |s|
  {
    Mul(Normalized(s, n, scale, |s|), signs)
  }

  /** The normalization: one over the square root of the block size. */
  predicate Unit(scale: real, n: nat)
  {
    scale * scale * n as real == 1.0
  }

  predicate SignMask(signs: seq<real>)
  {
    forall i :: 0 <= i < |signs| ==> signs[i] == 1.0 || signs[i] == -1.0
  }

  lemma NormalizedUnfolds(s: seq<real>, n: nat, scale: real, i: nat)
    requires IsPow2(n) && Mult(i, n) && 0 < i <= |s|
    ensures n <= i && Mult(i - n, n)
    ensures Normalized(s, n, scale, i) == Normalized(s, n, scale, i - n) + Scale(scale, Wht(s[i - n..i]))
  {
  }

  lemma {:induction false} NormalizedPrefix(s: seq<real>, n: nat, scale: real, i: nat)
    requires IsPow2(n) && Mult(i, n) && i <= |s|
    ensures Normalized(s, n, scale, i) == Normalized(s[..i], n, scale, i)
    decreases i
  {
    hide *;
    PowPositive(n);
    if i > 0 {
      NormalizedUnfolds(s, n, scale, i);
      NormalizedUnfolds(s[..i], n, scale, i);
      NormalizedPrefix(s, n, scale, i - n);
      NormalizedPrefix(s[..i], n, scale, i - n);
      assert s[..i][..i - n] == s[..i - n] && s[..i][i - n..i] == s[i - n..i];
    } else {
      NoBlocks(s, n, scale);
      NoBlocks(s[..0], n, scale);
    }
  }

  /** One normalized block twice is that block. */
  lemma BlockTwice(s: seq<real>, scale: real)
    requires IsPow2(|s|) && Unit(scale, |s|)
    ensures Scale(scale, Wht(Scale(scale, Wht(s)))) == s
  {
    hide *;
    WhtScale(scale, Wht(s));
    WhtTwice(s);
    ScaleNorm(scale, |s|, s);
  }

  lemma ScaleNorm(scale: real, n: nat, s: seq<real>)
    requires Unit(scale, n)
    ensures Scale(scale, Scale(scale, Scale(n as real, s))) == s
  {
    UnitProduct(scale, n);
    hide Scale, Unit;
    var m := n as real;
    var q := scale * m;
    ScaleUnit(scale, m, q, scale * q, s);
  }

  lemma ScaleScaleTo(c: real, d: real, e: real, s: seq<real>)
    requires e == c * d
    ensures Scale(c, Scale(d, s)) == Scale(e, s)
  {
    ScaleScale(c, d, s);
  }

  lemma ScaleUnit(c: real, n: real, q: real, u: real, s: seq<real>)
    requires q == c * n && u == c * q && u == 1.0
    ensures Scale(c, Scale(c, Scale(n, s))) == s
  {
    ScaleScaleTo(c, n, q, s);
    ScaleScaleTo(c, q, u, s);
    ScaleOne(s);
    hide Scale;
  }

  lemma UnitProduct(scale: real, n: nat)
    requires Unit(scale, n)
    ensures scale * (scale * n as real) == 1.0 && scale * scale * n as real == 1.0
  {
  }

  lemma TwoBlocks(p: seq<real>, q: seq<real>, n: nat, scale: real)
    requires IsPow2(n) && Mult(|p|, n) && |q| == n && Mult(|p| + n, n)
    ensures Normalized(p + q, n, scale, |p| + n) == Normalized(p, n, scale, |p|) + Scale(scale, Wht(q))
  {
    hide *;
    PowPositive(n);
    NormalizedUnfolds(p + q, n, scale, |p| + n);
    NormalizedPrefix(p + q, n, scale, |p|);
    assert (p + q)[..|p|] == p && (p + q)[|p|..|p| + n] == q;
  }

  /** For every number of blocks, the normalized transform is its own inverse. */
  lemma {:induction false} NormalizedTwice(s: seq<real>, n: nat, scale: real, i: nat)
    requires IsPow2(n) && Mult(i, n) && i <= |s| && Unit(scale, n)
    ensures Normalized(Normalized(s, n, scale, i), n, scale, i) == s[..i]
    decreases i
  {
    hide *;
    PowPositive(n);
    if i == 0 {
      NoBlocks(s, n, scale);
      NoBlocks([], n, scale);
    } else {
      NormalizedUnfolds(s, n, scale, i);
      NormalizedTwice(s, n, scale, i - n);
      var p, q := Normalized(s, n, scale, i - n), Scale(scale, Wht(s[i - n..i]));
      TwoBlocks(p, q, n, scale);
      BlockTwice(s[i - n..i], scale);
      assert s[..i] == s[..i - n] + s[i - n..i];
    }
  }

  lemma MaskTwice(s: seq<real>, signs: seq<real>)
    requires |s| == |signs| && SignMask(signs)
    ensures Mul(Mul(s, signs), signs) == s
  {
    forall i | 0 <= i < |s| ensures Mul(Mul(s, signs), signs)[i] == s[i] {
      if signs[i] == 1.0 { } else { assert signs[i] == -1.0; }
    }
  }

  /** The inverse rotation undoes the rotation and the rotation the inverse, exactly. */
  lemma RotationRoundTrip(s: seq<real>, signs: seq<real>, n: nat, scale: real)
    requires |s| == |signs| && IsPow2(n) && Mult(|s|, n) && Unit(scale, n) && SignMask(signs)
    ensures Inverse(Forward(s, signs, n, scale), signs, n, scale) == s
    ensures Forward(Inverse(s, signs, n, scale), signs, n, scale) == s
  {
    NormalizedTwice(Mul(s, signs), n, scale, |s|);
    NormalizedTwice(s, n, scale, |s|);
    MaskTwice(s, signs);
    MaskTwice(Normalized(s, n, scale, |s|), signs);
    assert Mul(s, signs)[..|s|] == Mul(s, signs) && s[..|s|] == s;
    hide Normalized, Mul, IsPow2, Mult, SignMask, Unit;
  }

  lemma {:induction false} MaskKeepsSquares(s: seq<real>, signs: seq<real>)
    requires |s| == |signs| && SignMask(signs)
    ensures SumSquares(Mul(s, signs)) == SumSquares(s)
  {
    if s != [] {
      var n := |s| - 1;
      MaskKeepsSquares(s[..n], signs[..n]);
      assert Mul(s, signs)[..n] == Mul(s[..n], signs[..n]);
      assert Mul(s, signs)[n] == s[n] || Mul(s, signs)[n] == -s[n];
    }
  }

  lemma SquaresUnfold(s: seq<real>)
    requires s != []
    ensures SumSquares(s) == SumSquares(s[..|s| - 1]) + s[|s| - 1] * s[|s| - 1]
  {
  }

  lemma ScaledEntry(c: real, s: seq<real>, i: nat)
    requires i < |s|
    ensures Scale(c, s)[i] == c * s[i]
  {
  }

  lemma NoSquares(c: real)
    ensures SumSquares([]) == 0.0 && Scale(c, []) == []
  {
  }

  lemma {:induction false} ScaledSquares(c: real, s: seq<real>)
    ensures SumSquares(Scale(c, s)) == c * c * SumSquares(s)
  {
    hide *;
    if s == [] {
      NoSquares(c);
    } else {
      var n := |s| - 1;
      ScaledSquares(c, s[..n]);
      SquaresUnfold(s);
      SquaresUnfold(Scale(c, s));
      ScaleSlice(c, s, n);
      ScaledEntry(c, s, n);
      ScaledSquare(c, s[n], Scale(c, s)[n], SumSquares(s[..n]));
    }
  }

  lemma ScaledSquare(c: real, x: real, y: real, rest: real)
    requires y == c * x
    ensures c * c * rest + y * y == c * c * (rest + x * x)
  {
    assert y * y == c * c * (x * x);
  }

  lemma BlockKeepsSquares(s: seq<real>, scale: real)
    requires IsPow2(|s|) && Unit(scale, |s|)
    ensures SumSquares(Scale(scale, Wht(s))) == SumSquares(s)
  {
    hide *;
    var n, x := |s| as real, SumSquares(s);
    ScaledSquares(scale, Wht(s));
    WhtSquares(s);
    UnitProduct(scale, |s|);
    Cancelled(scale * scale, n, x, SumSquares(Wht(s)), SumSquares(Scale(scale, Wht(s))));
  }

  lemma Cancelled(q: real, n: real, x: real, y: real, z: real)
    requires q * n == 1.0 && y == n * x && z == q * y
    ensures z == x
  {
    assert q * (n * x) == q * n * x;
  }

  lemma {:induction false} NormalizedKeepsSquares(s: seq<real>, n: nat, scale: real, i: nat)
    requires IsPow2(n) && Mult(i, n) && i <= |s| && Unit(scale, n)
    ensures SumSquares(Normalized(s, n, scale, i)) == SumSquares(s[..i])
    decreases i
  {
    hide *;
    PowPositive(n);
    if i == 0 {
      NoBlocks(s, n, scale);
      assert s[..0] == [];
    } else {
      NormalizedUnfolds(s, n, scale, i);
      NormalizedKeepsSquares(s, n, scale, i - n);
      BlockKeepsSquares(s[i - n..i], scale);
      SumSquaresConcat(Normalized(s, n, scale, i - n), Scale(scale, Wht(s[i - n..i])));
      SumSquaresConcat(s[..i - n], s[i - n..i]);
      assert s[..i] == s[..i - n] + s[i - n..i];
    }
  }

  /** The rotation keeps lengths: rotated vectors have the norm they started with. */
  lemma RotationKeepsNorm(s: seq<real>, signs: seq<real>, n: nat, scale: real)
    requires |s| == |signs| && IsPow2(n) && Mult(|s|, n) && Unit(scale, n) && SignMask(signs)
    ensures SumSquares(Forward(s, signs, n, scale)) == SumSquares(s)
  {
    NormalizedKeepsSquares(Mul(s, signs), n, scale, |s|);
    MaskKeepsSquares(s, signs);
    assert Mul(s, signs)[..|s|] == Mul(s, signs);
    hide Normalized, Mul, IsPow2, Mult, SumSquares;
  }

  // ------------------------------------------------------------------ in place

  method MulInPlace(a: array<real>, signs: seq<real>)
    requires a.Length == |signs|
    modifies a
    ensures |old(a[..])| == a.Length && a[..] == Mul(old(a[..]), signs)
  {
    ghost var s := a[..];
    for i := 0 to a.Length
      invariant forall k :: 0 <= k < i ==> a[k] == s[k] * signs[k]
      invariant forall k :: i <= k < a.Length ==> a[k] == s[k]
    {
      a[i] := a[i] * signs[i];
    }
    forall i | 0 <= i < a.Length ensures a[i] == Mul(s, signs)[i] {
    }
  }

  /** Scales one block. */
  method ScaleInPlace(a: array<real>, lo: nat, n: nat, scale: real)
    requires lo + n <= a.Length
    modifies a
    ensures |old(a[..])| == a.Length
    ensures a[..] == Spliced(old(a[..]), lo, Scale(scale, old(a[..])[lo..lo + n]))
  {
    ghost var s := a[..];
    for i := lo to lo + n
      invariant forall k :: lo <= k < i ==> a[k] == scale * s[k]
      invariant forall k :: 0 <= k < a.Length && !(lo <= k < i) ==> a[k] == s[k]
    {
      a[i] := a[i] * scale;
    }
    ScaledBlock(s, a[..], lo, n, scale);
  }

  lemma ScaledBlock(s: seq<real>, t: seq<real>, lo: nat, n: nat, scale: real)
    requires lo + n <= |s| == |t|
    requires forall k :: lo <= k < lo + n ==> t[k] == scale * s[k]
    requires forall k :: 0 <= k < |s| && !(lo <= k < lo + n) ==> t[k] == s[k]
    ensures t == Spliced(s, lo, Scale(scale, s[lo..lo + n]))
  {
    forall k | 0 <= k < |s| ensures t[k] == Spliced(s, lo, Scale(scale, s[lo..lo + n]))[k] {
      if lo <= k < lo + n { assert s[lo..lo + n][k - lo] == s[k]; }
    }
  }

  /** Every block of the array, transformed and normalized in place. */
  method FwhtNormalized(a: array<real>, n: nat, scale: real)
    requires IsPow2(n) && Mult(a.Length, n)
    modifies a
    ensures |old(a[..])| == a.Length && a[..] == Normalized(old(a[..]), n, scale, a.Length)
  {
    hide *;
    ghost var s := a[..];
    var lo := 0;
    NoBlocks(s, n, scale);
    NothingDone(s, 0);
    while lo < a.Length
      invariant 0 <= lo <= a.Length && Mult(lo, n)
      invariant a[..] == Spliced(s, 0, Normalized(s, n, scale, lo))
    {
      PowPositive(n);
      MultGap(lo, a.Length, n);
      NextBlock(s, n, scale, lo);
      ghost var now := a[..];
      Fwht(a, lo, n);
      ghost var transformed := a[..];
      SplicedSlice(now, lo, Wht(now[lo..lo + n]));
      ScaleInPlace(a, lo, n, scale);
      SplicedTwice(now, lo, Wht(now[lo..lo + n]), Scale(scale, Wht(now[lo..lo + n])));
      SplicedNext(s, now, Normalized(s, n, scale, lo), Scale(scale, Wht(s[lo..lo + n])), n);
      lo := lo + n;
    }
    SplicedAll(s, Normalized(s, n, scale, a.Length));
  }

  lemma NoBlocks(s: seq<real>, n: nat, scale: real)
    requires IsPow2(n)
    ensures n > 0 && Mult(0, n) && Normalized(s, n, scale, 0) == []
  {
  }

  lemma NextBlock(s: seq<real>, n: nat, scale: real, lo: nat)
    requires IsPow2(n) && Mult(lo, n) && lo + n <= |s|
    ensures Mult(lo + n, n) && Normalized(s, n, scale, lo + n) ==
            Normalized(s, n, scale, lo) + Scale(scale, Wht(s[lo..lo + n]))
  {
    hide Wht, Scale;
  }

  lemma SplicedNext(s: seq<real>, now: seq<real>, done: seq<real>, block: seq<real>, n: nat)
    requires |done| + n <= |s| && |block| == n && now == Spliced(s, 0, done)
    ensures now[|done|..|done| + n] == s[|done|..|done| + n]
    ensures Spliced(now, |done|, block) == Spliced(s, 0, done + block)
  {
  }

  lemma SplicedAll(s: seq<real>, part: seq<real>)
    requires |part| == |s|
    ensures Spliced(s, 0, part) == part
  {
  }

  /** What the wrappers check, in their order. */
  function RotationError(len: nat, signs: nat, n: nat): Option<Error>
  {
    if len != signs then Some(LengthMismatch)
    else if n == 0 || !IsPow2(n) then Some(BadBlockSize)
    else if len % n != 0 then Some(LengthMismatch)
    else None
  }

  /** `block_hadamard_forward`: sign mask, then the transform of every block. */
  method BlockHadamardForward(a: array<real>, signs: seq<real>, n: nat, scale: real) returns (r: Result<()>)
    modifies a
    ensures |old(a[..])| == a.Length
    ensures RotationError(a.Length, |signs|, n).Some? ==>
              r == Err(RotationError(a.Length, |signs|, n).value) && a[..] == old(a[..])
    ensures RotationError(a.Length, |signs|, n).None? ==>
              && IsPow2(n) && |signs| == a.Length && Mult(a.Length, n)
              && r == Ok(()) && a[..] == Forward(old(a[..]), signs, n, scale)
  {
    if a.Length != |signs| { return Err(LengthMismatch); }
    if n == 0 || !IsPow2(n) { return Err(BadBlockSize); }
    if a.Length % n != 0 { return Err(LengthMismatch); }
    RemainderMult(a.Length, n);
    MulInPlace(a, signs);
    FwhtNormalized(a, n, scale);
    r := Ok(());
  }

  /** `block_hadamard_inverse`: the transform of every block, then the sign mask. */
  method BlockHadamardInverse(a: array<real>, signs: seq<real>, n: nat, scale: real) returns (r: Result<()>)
    modifies a
    ensures |old(a[..])| == a.Length
    ensures RotationError(a.Length, |signs|, n).Some? ==>
              r == Err(RotationError(a.Length, |signs|, n).value) && a[..] == old(a[..])
    ensures RotationError(a.Length, |signs|, n).None? ==>
              && IsPow2(n) && |signs| == a.Length && Mult(a.Length, n)
              && r == Ok(()) && a[..] == Inverse(old(a[..]), signs, n, scale)
  {
    if a.Length != |signs| { return Err(LengthMismatch); }
    if n == 0 || !IsPow2(n) { return Err(BadBlockSize); }
    if a.Length % n != 0 { return Err(LengthMismatch); }
    RemainderMult(a.Length, n);
    FwhtNormalized(a, n, scale);
    MulInPlace(a, signs);
    r := Ok(());
  }
}
