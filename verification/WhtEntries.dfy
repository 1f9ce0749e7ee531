/**
 The entries of the transform that the butterflies compute: row `i` adds up the coordinates with a
 minus sign wherever `i` and the coordinate's place have an odd number of one bits in common.
 */
module WhtEntries {
  import opened Hadamard

  /** An odd number of common one bits. */
  predicate OddCommon(i: nat, j: nat)
  {
    i != 0 && j != 0 && ((i % 2 == 1 && j % 2 == 1) != OddCommon(i / 2, j / 2))
  }

  function Signed(i: nat, j: nat, x: real): real
  {
    if OddCommon(i, j) then -x else x
  }

  /** The first `n` coordinates of `s`, placed from `off` on, with the signs of row `i`. */
  function RowSum(s: seq<real>, i: nat, off: nat, n: nat): real
    requires n <= |s|
  {
    if n == 0 then 0.0 else RowSum(s, i, off, n - 1) + Signed(i, off + n - 1, s[n - 1])
  }

  /** The top bit counts only where both have it. */
  lemma {:induction false} TopBit(m: nat, i: nat, j: nat)
    requires IsPow2(m) && i < m && j < m
    ensures OddCommon(i + m, j) == OddCommon(i, j) && OddCommon(i, j + m) == OddCommon(i, j)
    ensures OddCommon(i + m, j + m) == !OddCommon(i, j)
    decreases m
  {
    if m > 1 {
      var h := m / 2;
      assert m == 2 * h && IsPow2(h);
      assert (i + m) / 2 == i / 2 + h && (i + m) % 2 == i % 2 && (j + m) / 2 == j / 2 + h && (j + m) % 2 == j % 2;
      TopBit(h, i / 2, j / 2);
      NoCommon(i);
      NoCommon(j);
      hide IsPow2;
    } else {
      assert OddCommon(1, 1);
    }
  }

  lemma NoCommon(i: nat)
    ensures !OddCommon(i, 0) && !OddCommon(0, i)
  {
  }

  lemma {:induction false} RowSplits(s: seq<real>, i: nat, off: nat, m: nat, n: nat)
    requires m + n <= |s|
    ensures RowSum(s, i, off, m + n) == RowSum(s[..m], i, off, m) + RowSum(s[m..], i, off + m, n)
  {
    if n > 0 {
      RowSplits(s, i, off, m, n - 1);
      assert s[m..][n - 1] == s[m + n - 1];
    } else {
      RowPrefix(s, i, off, m);
    }
  }

  lemma {:induction false} RowPrefix(s: seq<real>, i: nat, off: nat, m: nat)
    requires m <= |s|
    ensures RowSum(s, i, off, m) == RowSum(s[..m], i, off, m)
  {
    RowSame(s, s[..m], i, off, m);
  }

  lemma {:induction false} RowSame(s: seq<real>, t: seq<real>, i: nat, off: nat, n: nat)
    requires n <= |s| && n <= |t| && forall k :: 0 <= k < n ==> s[k] == t[k]
    ensures RowSum(s, i, off, n) == RowSum(t, i, off, n)
  {
    if n > 0 { RowSame(s, t, i, off, n - 1); }
  }

  /** Moving half a block up flips every sign of a row of the lower half, and none of the upper. */
  lemma {:induction false} RowShifts(s: seq<real>, i: nat, m: nat, n: nat)
    requires IsPow2(m) && i < m && n <= m && n <= |s|
    ensures RowSum(s, i + m, 0, n) == RowSum(s, i, 0, n) && RowSum(s, i, m, n) == RowSum(s, i, 0, n)
    ensures RowSum(s, i + m, m, n) == -RowSum(s, i, 0, n)
  {
    if n > 0 {
      RowShifts(s, i, m, n - 1);
      TopBit(m, i, n - 1);
      hide OddCommon, IsPow2;
    }
  }

  /** Every entry of the transform is its signed sum. */
  lemma {:induction false} WhtEntry(s: seq<real>, i: nat)
    requires IsPow2(|s|) && i < |s|
    ensures Wht(s)[i] == RowSum(s, i, 0, |s|)
    decreases |s|
  {
    hide *;
    if |s| <= 1 {
      SingleIsSame(s);
      SingleRow(s);
    } else {
      WhtUnfolds(s);
      var m := |s| / 2;
      var l, r, k := s[..m], s[m..], if i < m then i else i - m;
      WhtEntry(l, k);
      WhtEntry(r, k);
      RowSplits(s, i, 0, m, m);
      RowShifts(l, k, m, m);
      RowShifts(r, k, m, m);
      CombineEntry(Wht(l), Wht(r), k);
    }
  }

  lemma SingleRow(s: seq<real>)
    requires |s| == 1
    ensures RowSum(s, 0, 0, 1) == s[0]
  {
    NoCommon(0);
    assert RowSum(s, 0, 0, 0) == 0.0;
  }

  lemma CombineEntry(l: seq<real>, r: seq<real>, k: nat)
    requires |l| == |r| && k < |l|
    ensures Combine(l, r)[k] == l[k] + r[k] && Combine(l, r)[|l| + k] == l[k] - r[k]
  {
  }

  // ------------------------------------------------------------------ the rotation, entry by entry

  /** Multiples of `n` are `n` apart. */
  lemma {:induction false} MultiplesApart(a: nat, b: nat, n: nat)
    requires n > 0 && Mult(a, n) && Mult(b, n) && a < b
    ensures a + n <= b
    decreases b
  {
    if a >= n { MultiplesApart(a - n, b - n, n); }
  }

  /** Entry `i` of the block at `at`: row `i` of that block, scaled. */
  lemma {:induction false} NormalizedEntry(s: seq<real>, n: nat, scale: real, end: nat, at: nat, i: nat)
    requires IsPow2(n) && Mult(end, n) && Mult(at, n) && at + n <= end <= |s| && i < n
    ensures Normalized(s, n, scale, end)[at + i] == scale * RowSum(s[at..at + n], i, 0, n)
    decreases end
  {
    hide *;
    PowPositive(n);
    NormalizedUnfolds(s, n, scale, end);
    if at < end - n {
      MultiplesApart(at, end - n, n);
      NormalizedEntry(s, n, scale, end - n, at, i);
    } else {
      WhtEntry(s[at..at + n], i);
      ScaledEntry(scale, Wht(s[at..at + n]), i);
    }
  }

  /** Every coordinate of the rotation: the masked block's signed sum by one row, scaled. */
  lemma ForwardEntry(s: seq<real>, signs: seq<real>, n: nat, scale: real, at: nat, i: nat)
    requires |s| == |signs| && IsPow2(n) && Mult(|s|, n) && Mult(at, n) && at + n <= |s| && i < n
    ensures Forward(s, signs, n, scale)[at + i] == scale * RowSum(Mul(s, signs)[at..at + n], i, 0, n)
  {
    hide *;
    ForwardIs(s, signs, n, scale);
    NormalizedEntry(Mul(s, signs), n, scale, |s|, at, i);
  }

  lemma ForwardIs(s: seq<real>, signs: seq<real>, n: nat, scale: real)
    requires |s| == |signs| && IsPow2(n) && Mult(|s|, n)
    ensures Forward(s, signs, n, scale) == Normalized(Mul(s, signs), n, scale, |s|)
  {
  }
}
