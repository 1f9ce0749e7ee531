/** Shared vocabulary: optional values, results, bytes and little-endian numbers. */
module Basics {

  datatype Option<+T> = None | Some(value: T)

  /** One constructor per error the modelled code can return. */
  datatype Error =
    | UnknownCollection
    | CollectionExists
    | NoShape
    | UnknownField
    | DimensionMismatch
    | KindMismatch
    | SpaceNotRegistered
    | ParentNotFound
    | NotYetCommitted
    | UnknownFrame
    | FrameNotActive
    | UnknownVector
    | UnknownSpace
    | TimeOrder
    | FsyncFailed
    | NotTimePartition
    | SchemaMismatch
    | BadSchemaDoc
    | ReservedName
    | BadDimension
    | BadDesign
    | Integrity
    | Unsupported
    | LengthMismatch
    | BadBlockSize

  datatype Result<+T> = Ok(value: T) | Err(error: Error)

  type Byte = x: int | 0 <= x < 256

  type Bytes = seq<Byte>

  /** The number whose little-endian bytes are `b`. */
  function LeNat(b: Bytes): (n: nat)
  {
    if b == [] then 0 else b[0] + 256 * LeNat(b[1..])
  }

  /** The `len` low little-endian bytes of `n`. */
  function LeBytes(n: nat, len: nat): (b: Bytes)
    ensures |b| == len
  {
    if len == 0 then [] else [n % 256] + LeBytes(n / 256, len - 1)
  }

  function Pow2(n: nat): (p: nat)
    ensures p > 0
  {
    if n == 0 then 1 else 2 * Pow2(n - 1)
  }

  lemma {:induction false} LeBytesOfLeNat(b: Bytes)
    ensures LeBytes(LeNat(b), |b|) == b
  {
    if b != [] {
      LowByteFirst(b);
      LeBytesOfLeNat(b[1..]);
      hide LeNat;
    }
  }

  lemma LowByteFirst(b: Bytes)
    requires b != []
    ensures LeNat(b) % 256 == b[0] && LeNat(b) / 256 == LeNat(b[1..])
  {
    Digit256(b[0], LeNat(b[1..]));
  }

  lemma Digit256(low: nat, high: nat)
    requires low < 256
    ensures (low + 256 * high) % 256 == low && (low + 256 * high) / 256 == high
  {
  }

  lemma {:induction false} LeNatBound(b: Bytes)
    ensures LeNat(b) < Pow2(8 * |b|)
  {
    if b != [] {
      LeNatBound(b[1..]);
      Pow2Add(8, 8 * |b[1..]|);
      Pow2Eight();
    }
  }

  lemma {:induction false} LeNatOfLeBytes(n: nat, len: nat)
    requires n < Pow2(8 * len)
    ensures LeNat(LeBytes(n, len)) == n
  {
    if len > 0 {
      Pow2Add(8, 8 * (len - 1));
      Pow2Eight();
      LeNatOfLeBytes(n / 256, len - 1);
    }
  }

  lemma Pow2Eight()
    ensures Pow2(8) == 256
  {
    assert Pow2(4) == 16;
    assert Pow2(8) == 16 * Pow2(4) by { Pow2Add(4, 4); }
  }

  lemma {:induction false} Pow2Add(a: nat, b: nat)
    ensures Pow2(a + b) == Pow2(a) * Pow2(b)
  {
    if a > 0 {
      Pow2Add(a - 1, b);
    }
  }

  /** Rounding to the nearest integer, halves away from zero. */
  function Round(x: real): int
  {
    if x >= 0.0 then (x + 0.5).Floor else -(-x + 0.5).Floor
  }

  lemma RoundIsNear(x: real)
    ensures -0.5 <= x - Round(x) as real <= 0.5
  {
  }
}
