/** Octets and fixed-width integers in both byte orders. */
module Bytes {
  import opened Arithmetic

  type byte = x: nat | x < 0x100

  type uint16 = x: nat | x < 0x1_0000

  type uint32 = x: nat | x < 0x1_0000_0000

  type uint64 = x: nat | x < 0x1_0000_0000_0000_0000

  type int64 = x: int | -0x8000_0000_0000_0000 <= x < 0x8000_0000_0000_0000

  /** static_cast to a signed type of twice half values. */
  function Signed(u: nat, half: nat): int {
    if u >= half then u - 2 * half else u
  }

  ghost function Pow256(n: nat): (p: nat)
    ensures p > 0
    decreases n
  {
    if n == 0 then 1 else 256 * Pow256(n - 1)
  }

  lemma Widths()
    ensures Pow256(1) == 0x100 && Pow256(2) == 0x1_0000 && Pow256(4) == 0x1_0000_0000
    ensures Pow256(8) == 0x1_0000_0000_0000_0000
  {
    assert Pow256(6) == 0x1_0000_0000_0000;
  }

  /** The n low octets of v, most significant first. */
  ghost function BigEndian(v: nat, n: nat): (s: seq<byte>)
    ensures |s| == n
    decreases n
  {
    if n == 0 then [] else BigEndian(v / 256, n - 1) + [v % 256]
  }

  ghost function BigEndianValue(s: seq<byte>): nat
    decreases |s|
  {
    if s == [] then 0 else BigEndianValue(s[..|s| - 1]) * 256 + s[|s| - 1] as nat
  }

  lemma {:induction false} ValueOfBigEndian(v: nat, n: nat)
    requires v < Pow256(n)
    ensures BigEndianValue(BigEndian(v, n)) == v
    decreases n
  {
    if n > 0 {
      ValueOfBigEndian(v / 256, n - 1);
      assert BigEndian(v, n)[..n - 1] == BigEndian(v / 256, n - 1);
    }
  }

  lemma {:induction false} ValueBound(s: seq<byte>)
    ensures BigEndianValue(s) < Pow256(|s|)
    decreases |s|
  {
    if s != [] {
      ValueBound(s[..|s| - 1]);
    }
  }

  lemma {:induction false} BigEndianOfValue(s: seq<byte>)
    ensures BigEndian(BigEndianValue(s), |s|) == s
    decreases |s|
  {
    if s != [] {
      BigEndianOfValue(s[..|s| - 1]);
    }
  }

  lemma ValueStep(s: seq<byte>, n: nat)
    requires n < |s|
    ensures BigEndianValue(s[..n + 1]) == BigEndianValue(s[..n]) * 256 + s[n] as nat
  {
    assert s[..n + 1][..n] == s[..n];
  }

  /** The shift-and-or expression that reads four octets. */
  function ReadUint32(s: seq<byte>): (v: uint32)
    requires |s| >= 4
    ensures v == BigEndianValue(s[..4])
  {
    ValueStep(s, 0);
    ValueStep(s, 1);
    ValueStep(s, 2);
    ValueStep(s, 3);
    s[0] as nat * 0x100_0000 + s[1] as nat * 0x1_0000 + s[2] as nat * 0x100 + s[3] as nat
  }

  /** The same for eight octets. */
  function ReadUint64(s: seq<byte>): (v: uint64)
    requires |s| >= 8
    ensures v == BigEndianValue(s[..8])
  {
    ghost var high := ReadUint32(s);
    ValueStep(s, 4);
    ValueStep(s, 5);
    ValueStep(s, 6);
    ValueStep(s, 7);
    s[0] as nat * 0x100_0000_0000_0000 + s[1] as nat * 0x1_0000_0000_0000
    + s[2] as nat * 0x100_0000_0000 + s[3] as nat * 0x1_0000_0000
    + s[4] as nat * 0x100_0000 + s[5] as nat * 0x1_0000 + s[6] as nat * 0x100 + s[7] as nat
  }

  lemma BigEndianReads(v: nat, n: nat, tail: seq<byte>)
    ensures n == 4 && v < 0x1_0000_0000 ==> ReadUint32(BigEndian(v, n) + tail) == v
    ensures n == 8 && v < 0x1_0000_0000_0000_0000 ==> ReadUint64(BigEndian(v, n) + tail) == v
  {
    Widths();
    assert (BigEndian(v, n) + tail)[..n] == BigEndian(v, n);
    if v < Pow256(n) {
      ValueOfBigEndian(v, n);
    }
  }

  // ------------------------------------------------ low octet first, as in memory

  function LittleEndian(v: nat, n: nat): (s: seq<byte>)
    ensures |s| == n
    decreases n
  {
    if n == 0 then [] else [v % 256] + LittleEndian(v / 256, n - 1)
  }

  function LittleEndianValue(s: seq<byte>): nat
    decreases |s|
  {
    if s == [] then 0 else s[0] as nat + 256 * LittleEndianValue(s[1..])
  }

  lemma {:induction false} ValueOfLittleEndian(v: nat, n: nat)
    requires v < Pow256(n)
    ensures LittleEndianValue(LittleEndian(v, n)) == v
    decreases n
  {
    if n > 0 {
      ValueOfLittleEndian(v / 256, n - 1);
      assert LittleEndian(v, n)[1..] == LittleEndian(v / 256, n - 1);
    }
  }

  lemma {:induction false} LittleEndianBound(s: seq<byte>)
    ensures LittleEndianValue(s) < Pow256(|s|)
    decreases |s|
  {
    if s != [] {
      LittleEndianBound(s[1..]);
    }
  }
}
