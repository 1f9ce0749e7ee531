/** LSB-first packing of fixed-width fields (`pack_bits` and `unpack_bits` in `src/codec/qam_lloyd_max.rs`). */
module BitStream {
  import opened Basics
  import opened Bits

  /** One cache line. */
  const STREAM_ALIGN: nat := 64

  function DivCeil(n: nat, d: nat): nat
    requires d > 0
  {
    QuotientIsNat(n + d - 1, d);
    (n + d - 1) / d
  }

  function AlignUp(n: nat, align: nat): nat
    requires align > 0
  {
    DivCeil(n, align) * align
  }

  /** Aligning up gives the least multiple that is large enough. */
  lemma AlignedLeast(n: nat, align: nat)
    requires align > 0
    ensures AlignUp(n, align) == DivCeil(n, align) * align && n <= AlignUp(n, align) < n + align
    ensures AlignUp(n, align) % align == 0
  {
    var q := (n + align - 1) / align;
    assert n + align - 1 == align * q + (n + align - 1) % align;
    MultipleOf(q, align);
  }

  lemma MultipleOf(q: nat, d: nat)
    requires d > 0
    ensures q * d % d == 0
  {
    DivUnique(q * d, d, q, 0);
  }

  function PackedBytes(count: nat, bits: nat): nat
  {
    DivCeil(count * bits, 8)
  }

  function PaddedStreamBytes(count: nat, bits: nat): nat
  {
    AlignUp(PackedBytes(count, bits), STREAM_ALIGN)
  }

  lemma PaddingKeeps(count: nat, bits: nat)
    ensures 8 * PackedBytes(count, bits) >= count * bits && PaddedStreamBytes(count, bits) >= PackedBytes(count, bits)
  {
  }

  // ------------------------------------------------------------------ the stream as one number

  /** A padded stream is the least multiple of 64 bytes with room for its fields. */
  lemma PaddingIsLeast(count: nat, bits: nat)
    ensures 8 * PackedBytes(count, bits) - 8 < count * bits <= 8 * PackedBytes(count, bits)
    ensures PaddedStreamBytes(count, bits) % 64 == 0
    ensures PackedBytes(count, bits) <= PaddedStreamBytes(count, bits) < PackedBytes(count, bits) + 64
  {
    AlignedLeast(count * bits, 8);
    AlignedLeast(PackedBytes(count, bits), STREAM_ALIGN);
    hide DivCeil;
  }

  /** The fields side by side, the first in the lowest bits; each value cut to the width. */
  function StreamNat(values: seq<nat>, bits: nat): nat
  {
    if values == [] then 0
    else
      var n := |values| - 1;
      StreamNat(values[..n], bits) + Low(values[n], bits) * Pow2(n * bits)
  }

  /** Field `i` of a number. */
  function Field(n: nat, bits: nat, i: nat): nat
  {
    Low(Shr(n, i * bits), bits)
  }

  lemma MulNat(a: nat, b: nat)
    ensures a * b >= 0
  {
  }

  lemma OneMore(n: nat, bits: nat)
    ensures (n + 1) * bits == n * bits + bits
  {
  }

  lemma {:induction false} StreamBound(values: seq<nat>, bits: nat)
    ensures StreamNat(values, bits) < Pow2(|values| * bits)
  {
    if values != [] {
      var n := |values| - 1;
      StreamBound(values[..n], bits);
      Split(values[n], bits);
      Pow2Add(n * bits, bits);
      OneMore(n, bits);
      hide Low, Pow2;
      RemainderBound(Low(values[n], bits), Pow2(bits), StreamNat(values[..n], bits), Pow2(n * bits));
    }
  }

  /** Reading field `i` back gives value `i`, cut to the width. */
  lemma {:induction false} FieldOfStream(values: seq<nat>, bits: nat, i: nat)
    requires i < |values|
    ensures Field(StreamNat(values, bits), bits, i) == Low(values[i], bits)
  {
    var n := |values| - 1;
    var low, s := StreamNat(values[..n], bits), StreamNat(values, bits);
    StreamBound(values[..n], bits);
    DivUniqueShr(s, n * bits, Low(values[n], bits), low);
    if i == n {
      Split(values[n], bits);
      SmallLow(Low(values[n], bits), bits);
    } else {
      FieldOfStream(values[..n], bits, i);
      assert i * bits + bits <= n * bits by { MulLess(i, n, bits); }
      FieldInWindow(s, 0, n * bits, i * bits, bits);
      ShrNone(s);
    }
  }

  lemma ShrNone(n: nat)
    ensures Shr(n, 0) == n
  {
  }

  // ------------------------------------------------------------------ packing

  /** `acc as u8`. */
  function LowByte(acc: nat): (b: Byte)
    ensures b == Low(acc, 8)
  {
    Pow2Eight();
    Low(acc, 8)
  }

  /** Moving one byte out of the accumulator keeps the number. */
  lemma DrainStep(written: Bytes, acc: nat, accBits: nat)
    requires accBits >= 8 && acc < Pow2(accBits)
    ensures Shr(acc, 8) < Pow2(accBits - 8)
    ensures LeNat(written + [LowByte(acc)]) + Shr(acc, 8) * Pow2(8 * (|written| + 1)) ==
            LeNat(written) + acc * Pow2(8 * |written|)
  {
    Pow2Eight();
    Split(acc, 8);
    Pow2Add(8, accBits - 8);
    var p, hi, lo := Pow2(8 * |written|), Shr(acc, 8), LowByte(acc);
    Pow2Add(8 * |written|, 8);
    LeNatConcat(written, [lo]);
    assert LeNat([lo]) == lo;
    hide LeNat, Shr, Low, Pow2, LowByte;
    assert Pow2(8 * (|written| + 1)) == p * 256;
    Drained(acc, hi, lo, p);
    ShiftedBound(hi, lo, Pow2(accBits - 8));
  }

  lemma Drained(acc: nat, hi: nat, lo: nat, p: nat)
    requires acc == hi * 256 + lo
    ensures lo * p + hi * (p * 256) == acc * p
  {
    assert acc * p == (hi * 256) * p + lo * p;
  }

  lemma ShiftedBound(hi: nat, lo: nat, q: nat)
    requires hi * 256 + lo < 256 * q
    ensures hi < q
  {
  }

  /** Adding a field above the bits held. */
  lemma PushStep(acc: nat, accBits: nat, v: nat, bits: nat)
    requires acc < Pow2(accBits)
    ensures var r := Or(acc, Shl(Low(v, bits), accBits));
            r == acc + Low(v, bits) * Pow2(accBits) && r < Pow2(accBits + bits)
  {
    OrDisjoint(acc, Low(v, bits), accBits);
    Split(v, bits);
    Pow2Add(accBits, bits);
    RemainderBound(Low(v, bits), Pow2(bits), acc, Pow2(accBits));
  }

  lemma PushedTotal(total: nat, acc: nat, lo: nat, v: nat, accBits: nat, written: nat)
    requires lo + acc * Pow2(8 * written) == total
    ensures lo + (acc + v * Pow2(accBits)) * Pow2(8 * written) == total + v * Pow2(accBits + 8 * written)
  {
    Pow2Add(accBits, 8 * written);
    var p, q := Pow2(accBits), Pow2(8 * written);
    assert (acc + v * p) * q == acc * q + (v * p) * q;
    assert (v * p) * q == v * (p * q);
  }

  lemma PowBelow(a: nat, b: nat)
    requires a <= b
    ensures Pow2(a) <= Pow2(b)
  {
    Pow2Add(a, b - a);
    assert Pow2(b) == Pow2(a) * Pow2(b - a);
    MulAtLeast(Pow2(a), Pow2(b - a));
  }

  lemma MulAtLeast(a: nat, b: nat)
    requires b > 0
    ensures a * b >= a
  {
  }

  /** What is packed so far: whole bytes in the buffer, the rest in the accumulator, zeros beyond. */
  ghost predicate Packed(out: seq<Byte>, idx: nat, acc: nat, accBits: nat, total: nat, totalBits: nat)
  {
    && idx <= |out| && 8 * idx + accBits == totalBits && acc < Pow2(accBits)
    && LeNat(out[..idx]) + acc * Pow2(8 * idx) == total
    && forall j :: idx <= j < |out| ==> out[j] == 0
  }

  lemma PackedDrain(out: seq<Byte>, idx: nat, acc: nat, accBits: nat, total: nat, totalBits: nat)
    requires Packed(out, idx, acc, accBits, total, totalBits) && accBits >= 8 && idx < |out|
    ensures Packed(out[idx := LowByte(acc)], idx + 1, Shr(acc, 8), accBits - 8, total, totalBits)
  {
    DrainStep(out[..idx], acc, accBits);
    assert out[idx := LowByte(acc)][..idx + 1] == out[..idx] + [LowByte(acc)];
    hide LeNat, Shr, Low, Pow2;
  }

  lemma PackedPush(out: seq<Byte>, idx: nat, acc: nat, accBits: nat, values: seq<nat>, i: nat, bits: nat)
    requires i < |values| && Packed(out, idx, acc, accBits, StreamNat(values[..i], bits), i * bits)
    ensures var r := Or(acc, Shl(Low(values[i], bits), accBits));
            Packed(out, idx, r, accBits + bits, StreamNat(values[..i + 1], bits), (i + 1) * bits)
  {
    PushStep(acc, accBits, values[i], bits);
    PushedTotal(StreamNat(values[..i], bits), acc, LeNat(out[..idx]), Low(values[i], bits), accBits, idx);
    assert values[..i + 1][..i] == values[..i];
    assert (i + 1) * bits == i * bits + bits && accBits + 8 * idx == i * bits;
    hide LeNat, Shr, Low, Pow2, Or, Shl;
  }

  /** The whole buffer, once the last partial byte is written. */
  lemma PackedEnd(out: seq<Byte>, idx: nat, acc: nat, accBits: nat, total: nat, totalBits: nat)
    requires Packed(out, idx, acc, accBits, total, totalBits) && accBits < 8 && (accBits > 0 ==> idx < |out|)
    ensures accBits == 0 ==> LeNat(out) == total
    ensures (accBits > 0 ==> LeNat(out[idx := LowByte(acc)]) == total)
  {
    Pow2Eight();
    PowBelow(accBits, 8);
    SmallLow(acc, 8);
    ZeroTail(out, idx);
    if accBits > 0 {
      var after := out[idx := acc];
      ZeroTail(after, idx + 1);
      assert after[..idx + 1] == out[..idx] + [acc];
      LeNatConcat(out[..idx], [acc]);
      assert LeNat([acc]) == acc;
    }
  }

  lemma ZeroTail(out: seq<Byte>, idx: nat)
    requires idx <= |out| && forall j :: idx <= j < |out| ==> out[j] == 0
    ensures LeNat(out) == LeNat(out[..idx])
  {
    var zeros := seq(|out| - idx, _ => 0 as Byte);
    assert out == out[..idx] + zeros;
    LeNatConcat(out[..idx], zeros);
    LeNatZeros(|out| - idx);
  }

  /** Bytes past the last field stay zero. */
  lemma ZeroBeyond(out: seq<Byte>, values: seq<nat>, bits: nat, j: nat)
    requires LeNat(out) == StreamNat(values, bits) && PackedBytes(|values|, bits) <= j < |out|
    ensures out[j] == 0
  {
    StreamBound(values, bits);
    PaddingKeeps(|values|, bits);
    PowBelow(|values| * bits, 8 * j);
    SmallLow(LeNat(out), 8 * j);
    ByteAt(out, j);
    SmallLow(0, 8);
  }

  /** Moves whole bytes from the accumulator, which holds at most 39 bits, to the buffer. */
  method Drain(out: array<Byte>, idx: nat, acc: nat, accBits: nat, ghost total: nat, ghost totalBits: nat)
    returns (idx': nat, acc': nat, accBits': nat)
    requires Packed(out[..], idx, acc, accBits, total, totalBits) && accBits <= 39 && acc < Pow2(39)
             && totalBits <= 8 * out.Length
    modifies out
    ensures accBits' < 8 && Packed(out[..], idx', acc', accBits', total, totalBits)
  {
    idx', acc', accBits' := idx, acc, accBits;
    while accBits' >= 8
      invariant accBits' <= 39 && Packed(out[..], idx', acc', accBits', total, totalBits)
    {
      assert 8 * idx' + accBits' == totalBits;
      hide Packed, LeNat, Shr, Low, LowByte;
      ghost var before := out[..];
      PackedDrain(before, idx', acc', accBits', total, totalBits);
      out[idx'] := LowByte(acc');
      assert out[..] == before[idx' := LowByte(acc')];
      idx', acc', accBits' := idx' + 1, Shr(acc', 8), accBits' - 8;
    }
  }

  /**
   Packs every value, cut to the width, into a cleared buffer.  The accumulator is a 64-bit word; it
   never holds more than 39 bits.
   */
  method PackBits(values: seq<nat>, bits: nat, out: array<Byte>)
    requires 1 <= bits <= 32 && PackedBytes(|values|, bits) <= out.Length
    modifies out
    ensures LeNat(out[..]) == StreamNat(values, bits)
    ensures forall j :: PackedBytes(|values|, bits) <= j < out.Length ==> out[j] == 0
  {
    for j := 0 to out.Length
      invariant forall l :: 0 <= l < j ==> out[l] == 0
    {
      out[j] := 0;
    }
    PaddingKeeps(|values|, bits);
    var acc: nat, accBits: nat, idx: nat := 0, 0, 0;
    assert out[..][..0] == [] && values[..0] == [];
    assert Packed(out[..], 0, 0, 0, StreamNat(values[..0], bits), 0 * bits);
    hide Packed, StreamNat, PackedBytes, LeNat, Or, Shl, Shr, Low, LowByte;
    for i := 0 to |values|
      invariant i * bits >= 0 && accBits < 8
      invariant Packed(out[..], idx, acc, accBits, StreamNat(values[..i], bits), i * bits)
    {
      MulNat(i + 1, bits);
      PackedPush(out[..], idx, acc, accBits, values, i, bits);
      acc := Or(acc, Shl(Low(values[i], bits), accBits));
      accBits := accBits + bits;
      StillNarrow(out[..], idx, acc, accBits, StreamNat(values[..i + 1], bits), (i + 1) * bits);
      FieldsFit(i + 1, |values|, bits, out.Length);
      idx, acc, accBits := Drain(out, idx, acc, accBits, StreamNat(values[..i + 1], bits), (i + 1) * bits);
    }
    assert values[..|values|] == values;
    MulNat(|values|, bits);
    PackLast(out, idx, acc, accBits, values, bits);
  }

  lemma StillNarrow(out: seq<Byte>, idx: nat, acc: nat, accBits: nat, total: nat, totalBits: nat)
    requires Packed(out, idx, acc, accBits, total, totalBits) && accBits <= 39
    ensures acc < Pow2(39)
  {
    PowBelow(accBits, 39);
  }

  lemma FieldsFit(i: nat, n: nat, bits: nat, length: nat)
    requires i <= n && n * bits <= 8 * length
    ensures i * bits <= 8 * length
  {
    assert i * bits <= n * bits;
  }

  /** The partial byte left at the end. */
  method PackLast(out: array<Byte>, idx: nat, acc: nat, accBits: nat, ghost values: seq<nat>, ghost bits: nat)
    requires Packed(out[..], idx, acc, accBits, StreamNat(values, bits), |values| * bits) && accBits < 8
    requires PackedBytes(|values|, bits) <= out.Length
    modifies out
    ensures LeNat(out[..]) == StreamNat(values, bits)
    ensures forall j :: PackedBytes(|values|, bits) <= j < out.Length ==> out[j] == 0
  {
    PaddingKeeps(|values|, bits);
    assert 8 * idx + accBits == |values| * bits;
    PackedEnd(out[..], idx, acc, accBits, StreamNat(values, bits), |values| * bits);
    hide Packed, LeNat, LowByte;
    if accBits > 0 {
      ghost var before := out[..];
      out[idx] := LowByte(acc);
      assert out[..] == before[idx := LowByte(acc)];
    }
    forall j | PackedBytes(|values|, bits) <= j < out.Length ensures out[j] == 0 {
      ZeroBeyond(out[..], values, bits, j);
    }
  }

  // ------------------------------------------------------------------ unpacking

  /** Loading the next byte extends the window held by eight bits. */
  lemma LoadStep(bytes: Bytes, m: nat, start: nat, idx: nat, acc: nat, accBits: nat)
    requires idx < |bytes| && m == Shr(LeNat(bytes), start) && 8 * idx == start + accBits && acc == Low(m, accBits)
    ensures Or(acc, Shl(bytes[idx], accBits)) == Low(m, accBits + 8)
  {
    ByteAt(bytes, idx);
    ShrShr(LeNat(bytes), start, accBits);
    LowSplit(m, accBits, 8);
    Split(m, accBits);
    OrDisjoint(acc, bytes[idx], accBits);
  }

  /** Taking a field leaves the window of the next one. */
  lemma TakeStep(n: nat, start: nat, accBits: nat, bits: nat)
    requires bits <= accBits
    ensures var acc := Low(Shr(n, start), accBits);
            Low(acc, bits) == Low(Shr(n, start), bits) && Shr(acc, bits) == Low(Shr(n, start + bits), accBits - bits)
  {
    var m := Shr(n, start);
    LowOfLow(m, bits, accBits - bits);
    ShrOfLow(m, bits, accBits - bits);
    ShrShr(n, start, bits);
  }

  /** Loads bytes until a whole field is held. */
  method Load(bytes: Bytes, bits: nat, start: nat, idx: nat, acc: nat, accBits: nat) returns (idx': nat, acc': nat,
      accBits': nat)
    requires 1 <= bits <= 32 && start + bits <= 8 * |bytes|
    requires 8 * idx == start + accBits && accBits < 8 && acc == Low(Shr(LeNat(bytes), start), accBits)
    ensures bits <= accBits' < bits + 8 && 8 * idx' == start + accBits'
            && acc' == Low(Shr(LeNat(bytes), start), accBits')
  {
    idx', acc', accBits' := idx, acc, accBits;
    while accBits' < bits
      invariant accBits' < bits + 8 && 8 * idx' == start + accBits' && acc' == Low(Shr(LeNat(bytes), start), accBits')
    {
      hide LeNat, Low, Shr, Or, Shl;
      LoadStep(bytes, Shr(LeNat(bytes), start), start, idx', acc', accBits');
      acc' := Or(acc', Shl(bytes[idx'], accBits'));
      idx', accBits' := idx' + 1, accBits' + 8;
    }
  }

  /** Reads `count` fields; each is the window of the stream at its place. */
  method UnpackBits(bytes: Bytes, bits: nat, count: nat) returns (out: seq<nat>)
    requires 1 <= bits <= 32 && PackedBytes(count, bits) <= |bytes|
    ensures |out| == count && forall i :: 0 <= i < count ==> out[i] == Field(LeNat(bytes), bits, i)
  {
    PaddingKeeps(count, bits);
    var acc: nat, accBits: nat, idx: nat := 0, 0, 0;
    out := [];
    LowNone(Shr(LeNat(bytes), 0));
    hide LeNat, Low, Shr, PackedBytes;
    assert 0 * bits == 0;
    for i := 0 to count
      invariant |out| == i && forall j :: 0 <= j < i ==> out[j] == Field(LeNat(bytes), bits, j)
      invariant accBits < 8 && 8 * idx == i * bits + accBits && acc == Low(Shr(LeNat(bytes), i * bits), accBits)
    {
      MulNat(i, bits);
      FieldsFit(i + 1, count, bits, |bytes|);
      OneMore(i, bits);
      idx, acc, accBits := Load(bytes, bits, i * bits, idx, acc, accBits);
      TakeStep(LeNat(bytes), i * bits, accBits, bits);
      out := out + [Low(acc, bits)];
      acc, accBits := Shr(acc, bits), accBits - bits;
    }
  }

  lemma LowNone(n: nat)
    ensures Low(n, 0) == 0
  {
  }

  /** What is packed is read back, cut to the width: for every width, count and value list. */
  lemma UnpackOfPack(values: seq<nat>, bits: nat, packed: Bytes, out: seq<nat>)
    requires LeNat(packed) == StreamNat(values, bits)
    requires |out| == |values| && forall i :: 0 <= i < |values| ==> out[i] == Field(LeNat(packed), bits, i)
    ensures forall i :: 0 <= i < |values| ==> out[i] == Low(values[i], bits)
    ensures (forall i :: 0 <= i < |values| ==> values[i] < Pow2(bits)) ==> out == values
  {
    forall i | 0 <= i < |values| ensures out[i] == Low(values[i], bits)
        && (values[i] < Pow2(bits) ==> out[i] == values[i]) {
      FieldOfStream(values, bits, i);
      if values[i] < Pow2(bits) { SmallLow(values[i], bits); }
    }
  }
}
