/** Machine-word operations on natural numbers: shifts, masks, bitwise or, little-endian bytes. */
module Bits {
  import opened Basics

  /** `x << k`, `x >> k`, and `x & (2^k - 1)`. */
  function Shl(x: nat, k: nat): nat { x * Pow2(k) }

  function Shr(x: nat, k: nat): nat
  {
    QuotientIsNat(x, Pow2(k));
    x / Pow2(k)
  }

  lemma QuotientIsNat(x: nat, d: nat)
    requires d > 0
    ensures x / d >= 0
  {
    assert x == d * (x / d) + x % d;
  }

  function Low(x: nat, k: nat): nat { x % Pow2(k) }

  /** Bitwise or. */
  function Or(x: nat, y: nat): nat
  {
    if x == 0 && y == 0 then 0 else 2 * Or(x / 2, y / 2) + (if x % 2 == 1 || y % 2 == 1 then 1 else 0)
  }

  // ------------------------------------------------------------------ division by powers of two

  lemma MulLess(a: nat, b: nat, d: nat)
    requires a < b
    ensures a * d + d <= b * d
  {
    assert b * d == (a + 1) * d + (b - a - 1) * d;
  }

  /** A quotient and a remainder below the divisor are the quotient and the remainder. */
  lemma DivUnique(n: nat, d: nat, q: nat, r: nat)
    requires d > 0 && n == q * d + r && r < d
    ensures n / d == q && n % d == r
  {
    var p, t := n / d, n % d;
    assert n == d * p + t && t < d;
    assert n == p * d + t;
    if p < q { MulLess(p, q, d); } else if q < p { MulLess(q, p, d); }
  }

  lemma Split(n: nat, k: nat)
    ensures n == Shr(n, k) * Pow2(k) + Low(n, k) && Low(n, k) < Pow2(k)
  {
    var d := Pow2(k);
    assert n == d * (n / d) + n % d;
  }

  lemma ShrShr(n: nat, a: nat, b: nat)
    ensures Shr(Shr(n, a), b) == Shr(n, a + b)
  {
    Split(n, a);
    Split(Shr(n, a), b);
    Pow2Add(a, b);
    var q, r, t := Shr(Shr(n, a), b), Low(n, a), Low(Shr(n, a), b);
    hide Shr, Low, Pow2;
    Regroup(q, Pow2(b), t, Pow2(a), r);
    RemainderBound(t, Pow2(b), r, Pow2(a));
    assert Shr(n, a + b) == q by { DivUniqueShr(n, a + b, q, t * Pow2(a) + r); }
  }

  lemma DivUniqueShr(n: nat, k: nat, q: nat, r: nat)
    requires n == q * Pow2(k) + r && r < Pow2(k)
    ensures Shr(n, k) == q && Low(n, k) == r
  {
    DivUnique(n, Pow2(k), q, r);
  }

  lemma Regroup(q: nat, b: nat, t: nat, a: nat, r: nat)
    ensures (q * b + t) * a + r == q * (a * b) + (t * a + r)
  {
    assert (q * b + t) * a == (q * b) * a + t * a;
    assert (q * b) * a == q * (a * b);
  }

  lemma RemainderBound(t: nat, b: nat, r: nat, a: nat)
    requires t < b && r < a
    ensures t * a + r < a * b
  {
    MulLess(t, b, a);
  }

  /** The low `a + b` bits are the low `a` bits and the next `b`. */
  lemma LowSplit(n: nat, a: nat, b: nat)
    ensures Low(n, a + b) == Low(n, a) + Low(Shr(n, a), b) * Pow2(a)
  {
    Split(n, a);
    Split(Shr(n, a), b);
    Pow2Add(a, b);
    var q, r, t := Shr(Shr(n, a), b), Low(n, a), Low(Shr(n, a), b);
    hide Shr, Low, Pow2;
    Regroup(q, Pow2(b), t, Pow2(a), r);
    RemainderBound(t, Pow2(b), r, Pow2(a));
    DivUniqueShr(n, a + b, q, t * Pow2(a) + r);
  }

  lemma ShrOfLow(n: nat, a: nat, b: nat)
    ensures Shr(Low(n, a + b), a) == Low(Shr(n, a), b)
  {
    LowSplit(n, a, b);
    Split(n, a);
    DivUniqueShr(Low(n, a + b), a, Low(Shr(n, a), b), Low(n, a));
  }

  lemma LowOfLow(n: nat, a: nat, b: nat)
    ensures Low(Low(n, a + b), a) == Low(n, a)
  {
    LowSplit(n, a, b);
    Split(n, a);
    DivUniqueShr(Low(n, a + b), a, Low(Shr(n, a), b), Low(n, a));
  }

  /** A field inside a window reads the same as in the whole. */
  lemma FieldInWindow(n: nat, start: nat, width: nat, off: nat, bits: nat)
    requires off + bits <= width
    ensures Low(Shr(Low(Shr(n, start), width), off), bits) == Low(Shr(n, start + off), bits)
  {
    var m := Shr(n, start);
    ShrOfLow(m, off, width - off);
    LowOfLow(Shr(m, off), bits, width - off - bits);
    ShrShr(n, start, off);
    assert off + (width - off) == width && bits + (width - off - bits) == width - off;
  }

  lemma SmallLow(n: nat, k: nat)
    requires n < Pow2(k)
    ensures Low(n, k) == n && Shr(n, k) == 0
  {
    DivUniqueShr(n, k, 0, n);
  }

  // ------------------------------------------------------------------ disjoint or is addition

  lemma {:induction false} OrZero(x: nat)
    ensures Or(x, 0) == x && Or(0, x) == x
  {
    if x > 0 { OrZero(x / 2); }
  }

  /** Or-ing a value shifted past the bits already there adds it. */
  lemma {:induction false} OrDisjoint(x: nat, v: nat, k: nat)
    requires x < Pow2(k)
    ensures Or(x, v * Pow2(k)) == x + v * Pow2(k)
  {
    if k == 0 {
      OrZero(v);
    } else {
      var y := v * Pow2(k - 1);
      assert v * Pow2(k) == 2 * y;
      assert x / 2 < Pow2(k - 1);
      OrDisjoint(x / 2, v, k - 1);
      assert (2 * y) / 2 == y && (2 * y) % 2 == 0;
    }
  }

  // ------------------------------------------------------------------ bytes

  lemma {:induction false} LeNatConcat(a: Bytes, b: Bytes)
    ensures LeNat(a + b) == LeNat(a) + LeNat(b) * Pow2(8 * |a|)
  {
    if a == [] {
      assert a + b == b;
    } else {
      LeNatConcat(a[1..], b);
      assert (a + b)[1..] == a[1..] + b;
      Pow2Add(8, 8 * |a[1..]|);
      Pow2Eight();
      var p := Pow2(8 * |a[1..]|);
      assert 8 * |a| == 8 + 8 * |a[1..]|;
      assert 256 * (LeNat(b) * p) == LeNat(b) * (256 * p);
    }
  }

  lemma {:induction false} LeNatZeros(n: nat)
    ensures LeNat(seq(n, _ => 0)) == 0
  {
    if n > 0 {
      LeNatZeros(n - 1);
      assert seq(n, _ => 0 as Byte)[1..] == seq(n - 1, _ => 0 as Byte);
    }
  }

  /** Byte `i` of a little-endian number, and what follows it. */
  lemma ByteAt(b: Bytes, i: nat)
    requires i <= |b|
    ensures Shr(LeNat(b), 8 * i) == LeNat(b[i..])
    ensures Low(LeNat(b), 8 * i) == LeNat(b[..i])
    ensures i < |b| ==> Low(Shr(LeNat(b), 8 * i), 8) == b[i]
  {
    assert b == b[..i] + b[i..];
    LeNatConcat(b[..i], b[i..]);
    LeNatBound(b[..i]);
    DivUniqueShr(LeNat(b), 8 * i, LeNat(b[i..]), LeNat(b[..i]));
    if i < |b| {
      Pow2Eight();
      DivUniqueShr(LeNat(b[i..]), 8, LeNat(b[i..][1..]), b[i]);
    }
  }

  /** The number read from `len` bytes at `at` is that window of the whole. */
  lemma WindowOf(b: Bytes, at: nat, len: nat)
    requires at + len <= |b|
    ensures LeNat(b[at..at + len]) == Low(Shr(LeNat(b), 8 * at), 8 * len)
  {
    ByteAt(b, at);
    ByteAt(b[at..], len);
    assert b[at..][..len] == b[at..at + len];
  }

  /** Equally long byte strings with the same value are the same. */
  lemma SameBytes(a: Bytes, b: Bytes)
    requires |a| == |b| && LeNat(a) == LeNat(b)
    ensures a == b
  {
    LeBytesOfLeNat(a);
    LeBytesOfLeNat(b);
  }

  /** Writing one byte adds the difference at its place. */
  lemma LeNatUpdate(b: Bytes, i: nat, x: Byte)
    requires i < |b|
    ensures LeNat(b[i := x]) == LeNat(b) + (x - b[i]) * Pow2(8 * i)
  {
    var p := Pow2(8 * i);
    assert b == b[..i] + b[i..] && b[i := x] == b[..i] + b[i := x][i..];
    LeNatConcat(b[..i], b[i..]);
    LeNatConcat(b[..i], b[i := x][i..]);
    assert b[i := x][i..][1..] == b[i..][1..];
    var y := LeNat(b[i..][1..]);
    assert LeNat(b[i..]) == b[i] + 256 * y && LeNat(b[i := x][i..]) == x + 256 * y;
    Redistribute(x, b[i], 256 * y, p);
  }

  lemma Redistribute(x: int, was: int, rest: int, p: int)
    ensures (x + rest) * p == (was + rest) * p + (x - was) * p
  {
  }
}
