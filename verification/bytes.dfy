/** Byte strings, and the fixed-width integers Python's struct module packs into them. */
module Bytes {

  type byte = b: int | 0 <= b < 256

  function Pow256(width: nat): (p: nat)
    ensures p > 0
  {
    if width == 0 then 1 else 256 * Pow256(width - 1)
  }

  /** struct.pack of an unsigned integer of `width` bytes in network order. */
  function BigEndian(n: nat, width: nat): (bs: seq<byte>)
    ensures |bs| == width
  {
    if width == 0 then [] else BigEndian(n / 256, width - 1) + [n % 256]
  }

  function FromBigEndian(bs: seq<byte>): nat
  {
    if |bs| == 0 then 0 else FromBigEndian(bs[..|bs| - 1]) * 256 + bs[|bs| - 1]
  }

  /** struct.pack of an unsigned integer of `width` bytes, least significant byte first. */
  function LittleEndian(n: nat, width: nat): (bs: seq<byte>)
    ensures |bs| == width
  {
    if width == 0 then [] else [n % 256] + LittleEndian(n / 256, width - 1)
  }

  function FromLittleEndian(bs: seq<byte>): nat
  {
    if |bs| == 0 then 0 else bs[0] + 256 * FromLittleEndian(bs[1..])
  }

  /** The number of four bytes, most significant first. */
  function Word(a: nat, b: nat, c: nat, d: nat): nat {
    ((a * 256 + b) * 256 + c) * 256 + d
  }

  /** Network order: the first byte is the most significant one. */
  lemma NetworkOrder(bs: seq<byte>)
    ensures |bs| == 2 ==> FromBigEndian(bs) == Word(0, 0, bs[0], bs[1])
    ensures |bs| == 4 ==> FromBigEndian(bs) == Word(bs[0], bs[1], bs[2], bs[3])
  {
    if |bs| == 2 || |bs| == 4 {
      var n := |bs| - 2;
      assert bs[..n + 1][..n] == bs[..n];
      assert FromBigEndian(bs[..n + 1]) == FromBigEndian(bs[..n]) * 256 + bs[n];
      if n == 2 {
        assert bs[..2][..1] == bs[..1] && bs[..1][..0] == [];
        assert FromBigEndian(bs[..1]) == bs[0];
      }
    }
  }

  lemma LeastFirst(bs: seq<byte>)
    requires |bs| == 4
    ensures FromLittleEndian(bs) == Word(bs[3], bs[2], bs[1], bs[0])
  {
    var b, c, d := bs[1..], bs[2..], bs[3..];
    assert b[1..] == c && c[1..] == d && d[1..] == [];
    assert FromLittleEndian(d) == bs[3];
    assert FromLittleEndian(c) == bs[2] + 256 * FromLittleEndian(d);
    assert FromLittleEndian(b) == bs[1] + 256 * FromLittleEndian(c);
  }

  lemma {:induction false} BigEndianRoundTrip(n: nat, width: nat)
    requires n < Pow256(width)
    ensures FromBigEndian(BigEndian(n, width)) == n
  {
    if width > 0 {
      BigEndianRoundTrip(n / 256, width - 1);
      assert BigEndian(n, width)[..width - 1] == BigEndian(n / 256, width - 1);
    }
  }

  lemma {:induction false} LittleEndianRoundTrip(n: nat, width: nat)
    requires n < Pow256(width)
    ensures FromLittleEndian(LittleEndian(n, width)) == n
  {
    if width > 0 {
      LittleEndianRoundTrip(n / 256, width - 1);
      assert LittleEndian(n, width)[1..] == LittleEndian(n / 256, width - 1);
    }
  }

  lemma Widths()
    ensures Pow256(2) == 0x1_0000
    ensures Pow256(4) == 0x1_0000_0000
    ensures Pow256(8) == 0x1_0000_0000_0000_0000
  {
    assert Pow256(1) == 256;
    assert Pow256(3) == 0x100_0000;
    assert Pow256(5) == 0x100_0000_0000;
    assert Pow256(6) == 0x1_0000_0000_0000;
    assert Pow256(7) == 0x100_0000_0000_0000;
  }

  lemma Regroup<T>(a: seq<T>, b: seq<T>, c: seq<T>)
    ensures a + (b + c) == (a + b) + c
  {
  }
}
