/** How Go ranges over a string: UTF-8 sequences (section 4 of RFC 3629), one U+FFFD per stray byte. */
module Utf8 {
  import opened Bytes

  const RUNE_ERROR := 0xFFFD

  predicate Continuation(b: byte, lo: byte, hi: byte) { lo <= b <= hi }

  /** The payload bits of a byte: what is left above its marker. */
  function Bits(b: byte, marker: byte): int { b as int - marker as int }

  /** The first rune of a non-empty string and the number of bytes it takes. */
  function DecodeRune(s: bytes): (r: (nat, nat))
    requires s != []
    ensures 1 <= r.1 <= |s|
  {
    var b := s[0];
    if b < 0x80 then (b, 1)
    else if 0xC2 <= b <= 0xDF && |s| >= 2 && Continuation(s[1], 0x80, 0xBF) then
      (Bits(b, 0xC0) * 0x40 + Bits(s[1], 0x80), 2)
    else if 0xE0 <= b <= 0xEF && |s| >= 3
            && Continuation(s[1], if b == 0xE0 then 0xA0 else 0x80, if b == 0xED then 0x9F else 0xBF)
            && Continuation(s[2], 0x80, 0xBF) then
      (Bits(b, 0xE0) * 0x1000 + Bits(s[1], 0x80) * 0x40 + Bits(s[2], 0x80), 3)
    else if 0xF0 <= b <= 0xF4 && |s| >= 4
            && Continuation(s[1], if b == 0xF0 then 0x90 else 0x80, if b == 0xF4 then 0x8F else 0xBF)
            && Continuation(s[2], 0x80, 0xBF) && Continuation(s[3], 0x80, 0xBF) then
      (Bits(b, 0xF0) * 0x4_0000 + Bits(s[1], 0x80) * 0x1000 + Bits(s[2], 0x80) * 0x40 + Bits(s[3], 0x80), 4)
    else (RUNE_ERROR, 1)
  }

  predicate IsScalar(c: nat) { c < 0xD800 || 0xE000 <= c < 0x11_0000 }

  /** The UTF-8 encoding of a Unicode scalar value, from the table of RFC 3629, section 3. */
  function EncodeRune(c: nat): bytes
    requires IsScalar(c)
  {
    if c < 0x80 then [c]
    else if c < 0x800 then [0xC0 + c / 0x40, 0x80 + c % 0x40]
    else
      var c1 := c / 0x40;
      var c2 := c1 / 0x40;
      if c < 0x1_0000 then [0xE0 + c2, 0x80 + c1 % 0x40, 0x80 + c % 0x40]
      else [0xF0 + c2 / 0x40, 0x80 + c2 % 0x40, 0x80 + c1 % 0x40, 0x80 + c % 0x40]
  }

  lemma DecodeOfTwo(x: nat, y: nat, rest: bytes)
    requires 2 <= x < 0x20 && y < 0x40
    ensures DecodeRune([0xC0 + x, 0x80 + y] + rest) == (x * 0x40 + y, 2)
  {
    var s := [0xC0 + x, 0x80 + y] + rest;
    assert s[0] == 0xC0 + x && s[1] == 0x80 + y;
  }

  lemma DecodeOfThree(x: nat, y: nat, z: nat, rest: bytes)
    requires x < 0x10 && y < 0x40 && z < 0x40 && (x == 0 ==> y >= 0x20) && (x == 0xD ==> y < 0x20)
    ensures DecodeRune([0xE0 + x, 0x80 + y, 0x80 + z] + rest) == (x * 0x1000 + y * 0x40 + z, 3)
  {
    var s := [0xE0 + x, 0x80 + y, 0x80 + z] + rest;
    assert s[0] == 0xE0 + x && s[1] == 0x80 + y && s[2] == 0x80 + z;
  }

  lemma DecodeOfFour(w: nat, x: nat, y: nat, z: nat, rest: bytes)
    requires w <= 4 && x < 0x40 && y < 0x40 && z < 0x40 && (w == 0 ==> x >= 0x10) && (w == 4 ==> x < 0x10)
    ensures DecodeRune([0xF0 + w, 0x80 + x, 0x80 + y, 0x80 + z] + rest)
            == (w * 0x4_0000 + x * 0x1000 + y * 0x40 + z, 4)
  {
    var s := [0xF0 + w, 0x80 + x, 0x80 + y, 0x80 + z] + rest;
    assert s[0] == 0xF0 + w && s[1] == 0x80 + x && s[2] == 0x80 + y && s[3] == 0x80 + z;
  }

  /** Decoding undoes encoding, whatever follows. */
  lemma DecodeOfEncode(c: nat, rest: bytes)
    requires IsScalar(c)
    ensures DecodeRune(EncodeRune(c) + rest) == (c, |EncodeRune(c)|)
  {
    if c < 0x80 {
      assert (EncodeRune(c) + rest)[0] == c;
    } else if c < 0x800 {
      DecodeOfTwo(c / 0x40, c % 0x40, rest);
    } else if c < 0x1_0000 {
      DecodeOfThree(c / 0x40 / 0x40, c / 0x40 % 0x40, c % 0x40, rest);
    } else {
      DecodeOfFour(c / 0x40 / 0x40 / 0x40, c / 0x40 / 0x40 % 0x40, c / 0x40 % 0x40, c % 0x40, rest);
    }
  }

  lemma Split(high: nat, low: nat)
    requires low < 0x40
    ensures (high * 0x40 + low) / 0x40 == high && (high * 0x40 + low) % 0x40 == low
  {
  }

  lemma EncodeOfTwo(x: nat, y: nat)
    requires 2 <= x < 0x20 && y < 0x40
    ensures IsScalar(x * 0x40 + y) && EncodeRune(x * 0x40 + y) == [0xC0 + x, 0x80 + y]
  {
    Split(x, y);
  }

  lemma EncodeOfThree(x: nat, y: nat, z: nat)
    requires x < 0x10 && y < 0x40 && z < 0x40 && (x == 0 ==> y >= 0x20) && (x == 0xD ==> y < 0x20)
    ensures var c := (x * 0x40 + y) * 0x40 + z;
            IsScalar(c) && EncodeRune(c) == [0xE0 + x, 0x80 + y, 0x80 + z]
  {
    Split(x * 0x40 + y, z);
    Split(x, y);
  }

  lemma EncodeOfFour(w: nat, x: nat, y: nat, z: nat)
    requires w <= 4 && x < 0x40 && y < 0x40 && z < 0x40 && (w == 0 ==> x >= 0x10) && (w == 4 ==> x < 0x10)
    ensures var c := ((w * 0x40 + x) * 0x40 + y) * 0x40 + z;
            IsScalar(c) && EncodeRune(c) == [0xF0 + w, 0x80 + x, 0x80 + y, 0x80 + z]
  {
    Split((w * 0x40 + x) * 0x40 + y, z);
    Split(w * 0x40 + x, y);
    Split(w, x);
  }

  /** Encoding undoes decoding, except of a stray byte. */
  lemma EncodeOfDecode(s: bytes)
    requires s != [] && (s[0] < 0x80 || DecodeRune(s).1 > 1)
    ensures var (c, w) := DecodeRune(s); IsScalar(c) && EncodeRune(c) == s[..w]
  {
    var (c, w) := DecodeRune(s);
    if w == 2 {
      EncodeOfTwo(Bits(s[0], 0xC0), Bits(s[1], 0x80));
    } else if w == 3 {
      EncodeOfThree(Bits(s[0], 0xE0), Bits(s[1], 0x80), Bits(s[2], 0x80));
    } else if w == 4 {
      EncodeOfFour(Bits(s[0], 0xF0), Bits(s[1], 0x80), Bits(s[2], 0x80), Bits(s[3], 0x80));
    }
  }

  lemma BeginsWith(s: bytes, c: nat)
    requires s != [] && IsScalar(c)
    ensures EncodeRune(c) <= s ==> DecodeRune(s) == (c, |EncodeRune(c)|)
  {
    if EncodeRune(c) <= s {
      DecodeOfEncode(c, s[|EncodeRune(c)|..]);
      assert s == EncodeRune(c) + s[|EncodeRune(c)|..];
    }
  }

  /** The rune read is c, at its full width, exactly when the string begins with the encoding of c; a string that
      begins with no encoding gives U+FFFD for one byte. */
  lemma DecodesExactly(s: bytes, c: nat)
    requires s != [] && IsScalar(c)
    ensures DecodeRune(s) == (c, |EncodeRune(c)|) <==> EncodeRune(c) <= s
    ensures (forall d | IsScalar(d) :: !(EncodeRune(d) <= s)) <==> DecodeRune(s) == (RUNE_ERROR, 1)
  {
    BeginsWith(s, c);
    if s[0] < 0x80 || DecodeRune(s).1 > 1 {
      EncodeOfDecode(s);
      assert EncodeRune(DecodeRune(s).0) <= s;
    } else {
      forall d | IsScalar(d) ensures !(EncodeRune(d) <= s) {
        BeginsWith(s, d);
      }
    }
  }

  /** A rune below 0x80 is one byte, itself; any other rune is made of bytes at or above 0x80. */
  lemma AsciiRunesAreBytes(s: bytes)
    requires s != []
    ensures var (c, w) := DecodeRune(s);
            if s[0] < 0x80 then c == s[0] && w == 1
            else c >= 0x80 && forall i | 0 <= i < w :: s[i] >= 0x80
  {
  }
}
