/** Record keys and the self-describing byte string each is stored as (`src/db/record.rs`). */
module Keys {
  import opened Basics

  const TAG_STR: Byte := 1
  const TAG_U64: Byte := 2
  const TAG_BYTES: Byte := 3

  /** A string key is held as its UTF-8 bytes. */
  datatype Key = Str(utf8: Bytes) | U64(n: nat) | Raw(bytes: Bytes)

  predicate Continuation(b: Byte) { 0x80 <= b < 0xC0 }

  /** Well-formed UTF-8 byte sequences (The Unicode Standard, table 3-7). */
  predicate ValidUtf8(s: Bytes)
  {
    || s == []
    || (s[0] < 0x80 && ValidUtf8(s[1..]))
    || (|s| >= 2 && 0xC2 <= s[0] < 0xE0 && Continuation(s[1]) && ValidUtf8(s[2..]))
    || (|s| >= 3 && 0xE0 <= s[0] < 0xF0 && Continuation(s[1]) && Continuation(s[2])
        && (s[0] == 0xE0 ==> s[1] >= 0xA0) && (s[0] == 0xED ==> s[1] < 0xA0) && ValidUtf8(s[3..]))
    || (|s| >= 4 && 0xF0 <= s[0] <= 0xF4 && Continuation(s[1]) && Continuation(s[2]) && Continuation(s[3])
        && (s[0] == 0xF0 ==> s[1] >= 0x90) && (s[0] == 0xF4 ==> s[1] < 0x90) && ValidUtf8(s[4..]))
  }

  /** What the source's types guarantee of a key. */
  predicate WellFormed(k: Key)
  {
    match k
    case Str(s) => ValidUtf8(s)
    case U64(n) => n < Pow2(64)
    case Raw(_) => true
  }

  function Encode(k: Key): Bytes
  {
    match k
    case Str(s) => [TAG_STR] + s
    case U64(n) => [TAG_U64] + LeBytes(n, 8)
    case Raw(b) => [TAG_BYTES] + b
  }

  function Decode(b: Bytes): Option<Key>
  {
    if b == [] then None
    else if b[0] == TAG_STR then (if ValidUtf8(b[1..]) then Some(Str(b[1..])) else None)
    else if b[0] == TAG_U64 then (if |b| == 9 then Some(U64(LeNat(b[1..]))) else None)
    else if b[0] == TAG_BYTES then Some(Raw(b[1..]))
    else None
  }

  /** Whether this layer wrote the uri: schema documents use the tag 0xF5 and are skipped. */
  predicate IsKey(b: Bytes) { Decode(b).Some? }

  lemma DecodeEncode(k: Key)
    requires WellFormed(k)
    ensures Decode(Encode(k)) == Some(k)
  {
    if k.U64? {
      LeNatOfLeBytes(k.n, 8);
    }
  }

  lemma EncodeDecode(b: Bytes)
    requires IsKey(b)
    ensures WellFormed(Decode(b).value) && Encode(Decode(b).value) == b
  {
    if b[0] == TAG_U64 {
      LeNatBound(b[1..]);
      LeBytesOfLeNat(b[1..]);
    }
  }

  /** No two keys share an encoding. */
  lemma EncodeInjective(a: Key, b: Key)
    requires WellFormed(a) && WellFormed(b)
    ensures Encode(a) == Encode(b) <==> a == b
  {
    DecodeEncode(a);
    DecodeEncode(b);
  }

  /** The persisted form: a tag byte, then the text, the eight little-endian bytes of the number, or the bytes. */
  lemma EncodedForm(k: Key)
    requires WellFormed(k)
    ensures Encode(k) != []
    ensures k.Str? ==> Encode(k)[0] == 1 && Encode(k)[1..] == k.utf8
    ensures k.U64? ==> Encode(k)[0] == 2 && |Encode(k)| == 9 && LeNat(Encode(k)[1..]) == k.n
    ensures k.Raw? ==> Encode(k)[0] == 3 && Encode(k)[1..] == k.bytes
  {
    if k.U64? { LeNatOfLeBytes(k.n, 8); }
  }
}
