/** Byte strings, and the big-endian integers of Go's encoding/binary package. */
module Bytes {
  type byte = x: int | 0 <= x < 256
  type bytes = seq<byte>
  type uint16 = x: int | 0 <= x < 0x1_0000
  type uint32 = x: int | 0 <= x < 0x1_0000_0000

  /** The bytes of an ASCII literal. */
  function Ascii(s: string): (b: bytes)
    ensures |b| == |s|
    ensures forall i | 0 <= i < |s| && s[i] < '\U{80}' :: b[i] == s[i] as int
  {
    seq(|s|, i requires 0 <= i < |s| => s[i] as int % 256)
  }

  /** 256 to the power w. */
  function Pow256(w: nat): (p: nat)
    ensures p > 0
  {
    if w == 0 then 1 else 256 * Pow256(w - 1)
  }

  /** The low w bytes of n, most significant first. */
  function BE(n: nat, w: nat): (b: bytes)
    ensures |b| == w
  {
    if w == 0 then [] else BE(n / 256, w - 1) + [n % 256]
  }

  /** The number a big-endian byte string stands for. */
  function Value(b: bytes): nat {
    if b == [] then 0 else 256 * Value(b[..|b| - 1]) + b[|b| - 1]
  }

  lemma {:induction false} ValueOfBE(n: nat, w: nat)
    requires n < Pow256(w)
    ensures Value(BE(n, w)) == n
  {
    if w > 0 {
      ValueOfBE(n / 256, w - 1);
      assert BE(n, w)[..w - 1] == BE(n / 256, w - 1);
    }
  }

  lemma {:induction false} BEOfValue(b: bytes)
    ensures BE(Value(b), |b|) == b && Value(b) < Pow256(|b|)
  {
    if b != [] {
      BEOfValue(b[..|b| - 1]);
    }
  }

  /** Two and four bytes, written out. */
  lemma BEWritten(n: nat)
    ensures BE(n, 2) == [n / 256 % 256, n % 256]
    ensures BE(n, 4) == [n / 256 / 256 / 256 % 256, n / 256 / 256 % 256, n / 256 % 256, n % 256]
  {
    hide BE;
    BENext(n, 1);
    BENext(n / 256, 0);
    BENext(n, 3);
    BENext(n / 256, 2);
    BENext(n / 256 / 256, 1);
    BENext(n / 256 / 256 / 256, 0);
  }

  lemma ValueWritten(b: bytes)
    ensures |b| == 2 ==> Value(b) == 256 * (b[0] as int) + b[1]
    ensures |b| == 4 ==> Value(b) == 256 * (256 * (256 * (b[0] as int) + b[1]) + b[2]) + b[3]
  {
    if |b| == 2 || |b| == 4 {
      hide Value;
      ValueNext(b);
      ValueNext(b[..|b| - 1]);
      assert b[..|b| - 1][..|b| - 2] == b[..|b| - 2];
      if |b| == 4 {
        ValueNext(b[..2]);
        ValueNext(b[..1]);
        assert b[..2][..1] == b[..1] && b[..1][..0] == [];
      } else {
        assert b[..0] == [];
      }
      ValueOfNothing();
    }
  }

  lemma ValueNext(b: bytes)
    requires b != []
    ensures Value(b) == 256 * Value(b[..|b| - 1]) + b[|b| - 1]
  {
  }

  lemma ValueOfNothing()
    ensures Value([]) == 0
  {
  }

  lemma BENext(n: nat, w: nat)
    ensures BE(n, w + 1) == (if w == 0 then [] else BE(n / 256, w)) + [n % 256]
  {
  }

  lemma PowersOf256()
    ensures Pow256(2) == 0x1_0000 && Pow256(4) == 0x1_0000_0000 && Pow256(8) == 0x1_0000_0000_0000_0000
  {
    assert Pow256(1) == 256;
    assert Pow256(2) == 0x1_0000;
    assert Pow256(3) == 0x100_0000;
    assert Pow256(4) == 0x1_0000_0000;
    assert Pow256(5) == 0x100_0000_0000;
    assert Pow256(6) == 0x1_0000_0000_0000;
    assert Pow256(7) == 0x100_0000_0000_0000;
  }

  lemma Assoc(a: bytes, b: bytes, c: bytes)
    ensures (a + b) + c == a + (b + c)
  {
  }

  /** Go's copy into a slice with enough room: the bytes before and after the target are untouched. */
  method Copy(buf: array<byte>, offset: nat, src: bytes)
    requires offset + |src| <= buf.Length
    modifies buf
    ensures buf[..] == old(buf[..offset]) + src + old(buf[offset + |src|..])
  {
    var i := 0;
    while i < |src|
      invariant 0 <= i <= |src|
      invariant forall k | 0 <= k < offset || offset + i <= k < buf.Length :: buf[k] == old(buf[k])
      invariant forall k | offset <= k < offset + i :: buf[k] == src[k - offset]
    {
      buf[offset + i] := src[i];
      i := i + 1;
    }
    assert buf[offset..offset + i] == src;
    assert buf[..] == buf[..offset] + buf[offset..offset + i] + buf[offset + i..];
  }
}
