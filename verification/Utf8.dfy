/**
 What well-formed UTF-8 is (RFC 3629, section 3), against the byte-by-byte test of `Keys`: exactly the
 concatenations of encoded Unicode scalar values.
 */
module Utf8 {
  import opened Basics
  import opened Keys

  /** Code points that are not surrogates. */
  predicate Scalar(c: nat)
  {
    c < 0xD800 || 0xE000 <= c < 0x11_0000
  }

  /** One to four bytes, the shortest form. */
  function EncodeScalar(c: nat): (b: Bytes)
    requires Scalar(c)
    ensures 1 <= |b| <= 4
  {
    if c < 0x80 then [c]
    else if c < 0x800 then [0xC0 + c / 64, 0x80 + c % 64]
    else if c < 0x1_0000 then [0xE0 + c / 4096, 0x80 + c / 64 % 64, 0x80 + c % 64]
    else [0xF0 + c / 262_144, 0x80 + c / 4096 % 64, 0x80 + c / 64 % 64, 0x80 + c % 64]
  }

  predicate AllScalar(cs: seq<nat>)
  {
    forall i :: 0 <= i < |cs| ==> Scalar(cs[i])
  }

  function EncodeText(cs: seq<nat>): Bytes
    requires AllScalar(cs)
  {
    if cs == [] then [] else EncodeScalar(cs[0]) + EncodeText(cs[1..])
  }

  /** Leading bytes exclude overlong forms, surrogates and values past the last plane. */
  lemma MiddleBytes(c: nat)
    requires Scalar(c) && 0x800 <= c < 0x1_0000
    ensures var x, y := c / 4096, c / 64 % 64; x <= 15 && (x == 0 ==> y >= 32) && (x == 13 ==> y < 32)
  {
    assert c / 64 == c / 4096 * 64 + c / 64 % 64;
  }

  lemma LongBytes(c: nat)
    requires 0x1_0000 <= c < 0x11_0000
    ensures var x, y := c / 262_144, c / 4096 % 64; x <= 4 && (x == 0 ==> y >= 16) && (x == 4 ==> y < 16)
  {
    assert c / 4096 == c / 262_144 * 64 + c / 4096 % 64;
  }

  /** A scalar value before a well-formed text leaves it well-formed. */
  lemma ScalarIsValid(c: nat, t: Bytes)
    requires Scalar(c) && ValidUtf8(t)
    ensures ValidUtf8(EncodeScalar(c) + t)
  {
    var b := EncodeScalar(c);
    var s := b + t;
    assert s[|b|..] == t;
    if 0x800 <= c < 0x1_0000 {
      MiddleBytes(c);
      ThreeIsValid(s, c / 4096, c / 64 % 64, c % 64);
    } else if c >= 0x1_0000 {
      LongBytes(c);
      FourIsValid(s, c / 262_144, c / 4096 % 64, c / 64 % 64, c % 64);
    } else if c < 0x80 {
      assert s[1..] == t;
    } else {
      assert s[2..] == t;
    }
  }

  lemma ThreeIsValid(s: Bytes, x: nat, y: nat, z: nat)
    requires |s| >= 3 && s[0] == 0xE0 + x && s[1] == 0x80 + y && s[2] == 0x80 + z && ValidUtf8(s[3..])
    requires x <= 15 && y < 64 && z < 64 && (x == 0 ==> y >= 32) && (x == 13 ==> y < 32)
    ensures ValidUtf8(s)
  {
  }

  lemma FourIsValid(s: Bytes, x: nat, y: nat, z: nat, w: nat)
    requires |s| >= 4 && s[0] == 0xF0 + x && s[1] == 0x80 + y && s[2] == 0x80 + z && s[3] == 0x80 + w
    requires ValidUtf8(s[4..]) && x <= 4 && y < 64 && z < 64 && w < 64 && (x == 0 ==> y >= 16) && (x == 4 ==> y < 16)
    ensures ValidUtf8(s)
  {
  }

  lemma {:induction false} TextIsValid(cs: seq<nat>)
    requires AllScalar(cs)
    ensures ValidUtf8(EncodeText(cs))
  {
    if cs != [] {
      TextIsValid(cs[1..]);
      ScalarIsValid(cs[0], EncodeText(cs[1..]));
    }
  }

  /** Digits to the base 64 read back. */
  lemma ThreeDigits(x: nat, y: nat, z: nat)
    requires y < 64 && z < 64
    ensures var c := (x * 64 + y) * 64 + z; c % 64 == z && c / 64 % 64 == y && c / 4096 == x
  {
    var c := (x * 64 + y) * 64 + z;
    assert c == x * 4096 + (y * 64 + z) && y * 64 + z < 4096;
  }

  lemma FourDigits(x: nat, y: nat, z: nat, w: nat)
    requires y < 64 && z < 64 && w < 64
    ensures var c := ((x * 64 + y) * 64 + z) * 64 + w;
            c % 64 == w && c / 64 % 64 == z && c / 4096 % 64 == y && c / 262_144 == x
  {
    ThreeDigits(x * 64 + y, z, w);
    var c := ((x * 64 + y) * 64 + z) * 64 + w;
    assert c == x * 262_144 + (y * 4096 + z * 64 + w) && y * 4096 + z * 64 + w < 262_144;
  }

  lemma LongScalar(s: Bytes) returns (c: nat)
    requires s != [] && ValidUtf8(s) && s[0] >= 0xF0
    ensures Scalar(c) && c >= 0x1_0000 && |s| >= 4 && EncodeScalar(c) == s[..4] && ValidUtf8(s[4..])
  {
    var x, y, z, w := s[0] as int - 0xF0, s[1] as int - 0x80, s[2] as int - 0x80, s[3] as int - 0x80;
    assert 0 <= y < 64 && 0 <= z < 64 && 0 <= w < 64 && ValidUtf8(s[4..]) && (x == 0 ==> y >= 16) && x <= 4
      && (x == 4 ==> y < 16);
    hide ValidUtf8;
    c := ((x * 64 + y) * 64 + z) * 64 + w;
    FourDigits(x, y, z, w);
  }

  lemma MiddleScalar(s: Bytes) returns (c: nat)
    requires s != [] && ValidUtf8(s) && 0xE0 <= s[0] < 0xF0
    ensures Scalar(c) && 0x800 <= c < 0x1_0000 && |s| >= 3 && EncodeScalar(c) == s[..3] && ValidUtf8(s[3..])
  {
    var x, y, z := s[0] as int - 0xE0, s[1] as int - 0x80, s[2] as int - 0x80;
    assert 0 <= y < 64 && 0 <= z < 64 && ValidUtf8(s[3..]) && (x == 0 ==> y >= 32) && (x == 13 ==> y < 32);
    hide ValidUtf8;
    c := (x * 64 + y) * 64 + z;
    ThreeDigits(x, y, z);
  }

  /** The scalar value a well-formed text starts with. */
  lemma FirstScalar(s: Bytes) returns (c: nat)
    requires s != [] && ValidUtf8(s)
    ensures Scalar(c) && EncodeScalar(c) <= s && ValidUtf8(s[|EncodeScalar(c)|..])
  {
    if s[0] < 0x80 {
      c := s[0];
      assert s[..1] == [s[0]];
    } else if s[0] < 0xE0 {
      c := (s[0] as int - 0xC0) * 64 + (s[1] as int - 0x80);
      assert s[..2] == [s[0], s[1]];
      assert c / 64 == s[0] as int - 0xC0 && c % 64 == s[1] as int - 0x80;
    } else if s[0] < 0xF0 {
      c := MiddleScalar(s);
    } else {
      c := LongScalar(s);
    }
  }

  lemma {:induction false} TextOf(s: Bytes) returns (cs: seq<nat>)
    requires ValidUtf8(s)
    ensures AllScalar(cs) && EncodeText(cs) == s
    decreases |s|
  {
    if s == [] {
      cs := [];
    } else {
      var c := FirstScalar(s);
      var b := EncodeScalar(c);
      var rest := TextOf(s[|b|..]);
      cs := [c] + rest;
      assert cs[1..] == rest && s == b + s[|b|..];
    }
  }

  /** The test accepts exactly the encodings of scalar values. */
  lemma ValidIffText(s: Bytes)
    ensures ValidUtf8(s) <==> exists cs :: AllScalar(cs) && EncodeText(cs) == s
  {
    if ValidUtf8(s) {
      var cs := TextOf(s);
      assert AllScalar(cs) && EncodeText(cs) == s;
    }
    forall cs | AllScalar(cs) ensures ValidUtf8(EncodeText(cs)) { TextIsValid(cs); }
  }
}
