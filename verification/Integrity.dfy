/** The CRC-32 fallback of the integrity transformer: a reflected, byte-wise
    register, compared with polynomial long division as section 3.2.9 of
    IEEE 802.3 defines it. */
module Crc32 {

  // ------------------------------------------------------------ the register

  function Xor(a: bv32, b: bv32): bv32 { a ^ b }

  function Widen(b: bv8): bv32 { b as bv32 }

  function Shift(crc: bv32): bv32 {
    (crc >> 1) ^ (if crc & 1 == 1 then 0xEDB8_8320 else 0)
  }

  function Shift8(crc: bv32): bv32 {
    Shift(Shift(Shift(Shift(Shift(Shift(Shift(Shift(crc))))))))
  }

  function Absorb(crc: bv32, b: bv8): bv32 {
    Shift8(Xor(crc, Widen(b)))
  }

  function Fold(crc: bv32, data: seq<bv8>): bv32
    decreases |data|
  {
    if data == [] then crc else Fold(Absorb(crc, data[0]), data[1..])
  }

  function Checksum(data: seq<bv8>): bv32 {
    !Fold(0xFFFF_FFFF, data)
  }

  ghost function ShiftTimes(crc: bv32, n: nat): bv32
    decreases n
  {
    if n == 0 then crc else ShiftTimes(Shift(crc), n - 1)
  }

  lemma EightShifts(crc: bv32)
    ensures ShiftTimes(crc, 8) == Shift8(crc)
  {
    hide Shift;
    var c4 := Shift(Shift(Shift(Shift(crc))));
    assert ShiftTimes(crc, 8) == ShiftTimes(Shift(Shift(crc)), 6) == ShiftTimes(c4, 4);
    assert ShiftTimes(c4, 4) == ShiftTimes(Shift(Shift(c4)), 2);
  }

  /** Two nested loops: one pass over the bytes, eight shifts for each. */
  method ComputeCrc32(data: seq<bv8>) returns (r: bv32)
    ensures r == Checksum(data)
  {
    hide Shift, Shift8, Xor, Widen;
    var crc: bv32 := 0xFFFF_FFFF;
    for n := 0 to |data|
      invariant Fold(crc, data[n..]) == Fold(0xFFFF_FFFF, data)
    {
      ghost var before := crc;
      crc := Xor(crc, Widen(data[n]));
      EightShifts(crc);
      for i := 0 to 8
        invariant ShiftTimes(crc, 8 - i) == Absorb(before, data[n])
      {
        crc := Shift(crc);
      }
      assert data[n..][1..] == data[n + 1..];
    }
    r := !crc;
  }

  // ------------------------------------------------- the register's algebra

  lemma XorAssociative(a: bv32, b: bv32, c: bv32)
    ensures Xor(Xor(a, b), c) == Xor(a, Xor(b, c))
  {
  }

  lemma XorCancels(a: bv32, b: bv32)
    ensures Xor(a, b) == Xor(b, a)
    ensures Xor(Xor(a, b), b) == a
    ensures Xor(a, 0) == a
  {
  }

  lemma ShiftBits(a: bv32, b: bv32)
    ensures (a ^ b) >> 1 == (a >> 1) ^ (b >> 1)
    ensures (a ^ b) & 1 == (a & 1) ^ (b & 1)
    ensures a & 1 == 0 || a & 1 == 1
  {
  }

  lemma XorRearrange(a: bv32, b: bv32, p: bv32)
    ensures (a ^ p) ^ (b ^ p) == a ^ b
    ensures (a ^ p) ^ b == (a ^ b) ^ p == a ^ (b ^ p)
  {
  }

  lemma ShiftOfXor(a: bv32, b: bv32)
    ensures Shift(a ^ b) == Shift(a) ^ Shift(b)
  {
    ShiftBits(a, b);
    ShiftBits(b, a);
    XorRearrange(a >> 1, b >> 1, 0xEDB8_8320);
    XorRearrange(a >> 1, b >> 1, 0);
  }

  lemma ShiftLinear(a: bv32, b: bv32)
    ensures Shift(Xor(a, b)) == Xor(Shift(a), Shift(b))
  {
    hide Shift;
    ShiftOfXor(a, b);
  }

  lemma ShiftInjective(a: bv32, b: bv32)
    requires Shift(a) == Shift(b)
    ensures a == b
  {
  }

  lemma Shift8Injective(a: bv32, b: bv32)
    requires Shift8(a) == Shift8(b)
    ensures a == b
  {
    hide Shift;
    var a2, b2 := Shift(Shift(a)), Shift(Shift(b));
    var a4, b4 := Shift(Shift(a2)), Shift(Shift(b2));
    var a6, b6 := Shift(Shift(a4)), Shift(Shift(b4));
    ShiftInjective(Shift(a6), Shift(b6));
    ShiftInjective(a6, b6);
    ShiftInjective(Shift(a4), Shift(b4));
    ShiftInjective(a4, b4);
    ShiftInjective(Shift(a2), Shift(b2));
    ShiftInjective(a2, b2);
    ShiftInjective(Shift(a), Shift(b));
    ShiftInjective(a, b);
  }

  lemma Shift8Linear(a: bv32, b: bv32)
    ensures Shift8(Xor(a, b)) == Xor(Shift8(a), Shift8(b))
  {
    hide Shift, Xor;
    var a2, b2 := Shift(Shift(a)), Shift(Shift(b));
    var a4, b4 := Shift(Shift(a2)), Shift(Shift(b2));
    var a6, b6 := Shift(Shift(a4)), Shift(Shift(b4));
    ShiftLinear(a, b);
    ShiftLinear(Shift(a), Shift(b));
    ShiftLinear(a2, b2);
    ShiftLinear(Shift(a2), Shift(b2));
    ShiftLinear(a4, b4);
    ShiftLinear(Shift(a4), Shift(b4));
    ShiftLinear(a6, b6);
    ShiftLinear(Shift(a6), Shift(b6));
  }

  function Up(w: bv32): bv32 { w << 1 }

  function Up8(w: bv32): bv32 { Up(Up(Up(Up(Up(Up(Up(Up(w)))))))) }

  lemma DoublingBits(w: bv32)
    requires w < 0x8000_0000
    ensures (w << 1) >> 1 == w && (w << 1) & 1 == 0 && w ^ 0 == w
  {
  }

  lemma ShiftUndoesUp(w: bv32)
    requires w < 0x8000_0000
    ensures Shift(Up(w)) == w
  {
    DoublingBits(w);
  }

  lemma UpBound(w: bv32)
    ensures w < 0x100_0000 ==> Up(w) < 0x200_0000
    ensures w < 0x200_0000 ==> Up(w) < 0x400_0000
    ensures w < 0x400_0000 ==> Up(w) < 0x800_0000
    ensures w < 0x800_0000 ==> Up(w) < 0x1000_0000
    ensures w < 0x1000_0000 ==> Up(w) < 0x2000_0000
    ensures w < 0x2000_0000 ==> Up(w) < 0x4000_0000
    ensures w < 0x4000_0000 ==> Up(w) < 0x8000_0000
  {
  }

  /** What sits above the low byte only moves down when a byte is shifted out. */
  lemma Shift8OfUp8(w: bv32)
    requires w < 0x100_0000
    ensures Shift8(Up8(w)) == w
  {
    hide Shift, Up;
    var w1 := Up(w);
    var w2 := Up(w1);
    var w3 := Up(w2);
    var w4 := Up(w3);
    var w5 := Up(w4);
    var w6 := Up(w5);
    UpBound(w);
    UpBound(w1);
    UpBound(w2);
    UpBound(w3);
    UpBound(w4);
    UpBound(w5);
    UpBound(w6);
    ShiftUndoesUp(w);
    ShiftUndoesUp(w1);
    ShiftUndoesUp(w2);
    ShiftUndoesUp(w3);
    ShiftUndoesUp(w4);
    ShiftUndoesUp(w5);
    ShiftUndoesUp(w6);
    ShiftUndoesUp(Up(w6));
  }

  // ---------------------------------------------- windows of up to four bytes

  /** The bytes as one little-endian word. */
  function Word(w: seq<bv8>): bv32
    decreases |w|
  {
    if w == [] then 0 else Xor(Widen(w[0]), Up8(Word(w[1..])))
  }

  lemma WordBits(b: bv8, x: bv32)
    ensures x == 0 ==> Xor(Widen(b), Up8(x)) < 0x100
    ensures x < 0x100 ==> Xor(Widen(b), Up8(x)) < 0x1_0000
    ensures x < 0x1_0000 ==> Xor(Widen(b), Up8(x)) < 0x100_0000
  {
  }

  lemma {:induction false} WordBound(w: seq<bv8>)
    ensures |w| == 0 ==> Word(w) == 0
    ensures |w| == 1 ==> Word(w) < 0x100
    ensures |w| == 2 ==> Word(w) < 0x1_0000
    ensures |w| <= 3 ==> Word(w) < 0x100_0000
    decreases |w|
  {
    hide Xor, Widen, Up8;
    if w != [] {
      WordBound(w[1..]);
      WordBits(w[0], Word(w[1..]));
    }
  }

  lemma WordStepInjective(b: bv8, x: bv32, c: bv8, y: bv32)
    requires x < 0x100_0000 && y < 0x100_0000
    requires Xor(Widen(b), Up8(x)) == Xor(Widen(c), Up8(y))
    ensures b == c && x == y
  {
  }

  lemma {:induction false} WordInjective(v: seq<bv8>, w: seq<bv8>)
    requires |v| == |w| <= 4 && Word(v) == Word(w)
    ensures v == w
    decreases |v|
  {
    hide Xor, Widen, Up8;
    if v != [] {
      WordBound(v[1..]);
      WordBound(w[1..]);
      WordStepInjective(v[0], Word(v[1..]), w[0], Word(w[1..]));
      WordInjective(v[1..], w[1..]);
      assert v == [v[0]] + v[1..] && w == [w[0]] + w[1..];
    }
  }

  ghost function ShiftBytes(crc: bv32, n: nat): bv32
    decreases n
  {
    if n == 0 then crc else ShiftBytes(Shift8(crc), n - 1)
  }

  /** Up to four bytes enter the register as one word. */
  lemma {:induction false} Window(crc: bv32, w: seq<bv8>)
    requires |w| <= 4
    ensures Fold(crc, w) == ShiftBytes(Xor(crc, Word(w)), |w|)
    decreases |w|
  {
    hide Xor, Widen, Up8, Shift8;
    if w == [] {
      XorCancels(crc, 0);
    } else {
      var b, x := Widen(w[0]), Word(w[1..]);
      WordBound(w[1..]);
      Window(Absorb(crc, w[0]), w[1..]);
      Shift8OfUp8(x);
      Shift8Linear(Xor(crc, b), Up8(x));
      XorAssociative(crc, b, Up8(x));
    }
  }

  lemma {:induction false} ShiftBytesInjective(a: bv32, b: bv32, n: nat)
    requires ShiftBytes(a, n) == ShiftBytes(b, n)
    ensures a == b
    decreases n
  {
    hide Shift8;
    if n > 0 {
      ShiftBytesInjective(Shift8(a), Shift8(b), n - 1);
      Shift8Injective(a, b);
    }
  }

  lemma WindowInjective(crc: bv32, v: seq<bv8>, w: seq<bv8>)
    requires |v| == |w| <= 4 && Fold(crc, v) == Fold(crc, w)
    ensures v == w
  {
    hide Xor, Word, Fold, ShiftBytes;
    Window(crc, v);
    Window(crc, w);
    ShiftBytesInjective(Xor(crc, Word(v)), Xor(crc, Word(w)), |v|);
    XorCancels(Word(v), crc);
    XorCancels(Word(w), crc);
    WordInjective(v, w);
  }

  lemma {:induction false} FoldSplit(crc: bv32, a: seq<bv8>, b: seq<bv8>)
    ensures Fold(crc, a + b) == Fold(Fold(crc, a), b)
    decreases |a|
  {
    hide Absorb;
    if a == [] {
      assert a + b == b;
    } else {
      assert (a + b)[1..] == a[1..] + b;
      FoldSplit(Absorb(crc, a[0]), a[1..], b);
    }
  }

  lemma {:induction false} FoldInjectiveInState(c: bv32, d: bv32, data: seq<bv8>)
    requires Fold(c, data) == Fold(d, data)
    ensures c == d
    decreases |data|
  {
    hide Xor, Widen, Shift8;
    if data != [] {
      FoldInjectiveInState(Absorb(c, data[0]), Absorb(d, data[0]), data[1..]);
      var b := Widen(data[0]);
      Shift8Injective(Xor(c, b), Xor(d, b));
      XorCancels(c, b);
      XorCancels(d, b);
    }
  }

  lemma FoldDetectsBurst(crc: bv32, a: seq<bv8>, b: seq<bv8>, start: nat)
    requires |a| == |b| && Fold(crc, a) == Fold(crc, b)
    requires forall k :: 0 <= k < |a| && !(start <= k < start + 4) ==> a[k] == b[k]
    ensures a == b
  {
    hide *;
    var lo := if start < |a| then start else |a|;
    var hi := if start + 4 < |a| then start + 4 else |a|;
    var pre, suf := a[..lo], a[hi..];
    AroundWindow(a, b, lo, hi);
    FoldSplit(crc, pre + a[lo..hi], suf);
    FoldSplit(crc, pre + b[lo..hi], suf);
    FoldInjectiveInState(Fold(crc, pre + a[lo..hi]), Fold(crc, pre + b[lo..hi]), suf);
    FoldSplit(crc, pre, a[lo..hi]);
    FoldSplit(crc, pre, b[lo..hi]);
    WindowInjective(Fold(crc, pre), a[lo..hi], b[lo..hi]);
  }

  lemma ChecksumDetermines(a: seq<bv8>, b: seq<bv8>)
    requires Checksum(a) == Checksum(b)
    ensures Fold(0xFFFF_FFFF, a) == Fold(0xFFFF_FFFF, b)
  {
    hide Fold;
    var x, y := Fold(0xFFFF_FFFF, a), Fold(0xFFFF_FFFF, b);
    assert x == !!x && y == !!y;
  }

  /** Main result: two different messages of one length that agree outside four
      consecutive bytes have different checksums. */
  lemma DetectsBurst(a: seq<bv8>, b: seq<bv8>, start: nat)
    requires |a| == |b| && a != b
    requires forall k :: 0 <= k < |a| && !(start <= k < start + 4) ==> a[k] == b[k]
    ensures Checksum(a) != Checksum(b)
  {
    hide Checksum, Fold;
    if Checksum(a) == Checksum(b) {
      ChecksumDetermines(a, b);
      FoldDetectsBurst(0xFFFF_FFFF, a, b, start);
    }
  }

  /** Four bytes is the limit: the generator itself, laid over five bytes, is missed. */
  lemma FiveByteBurstMissed()
    ensures Checksum([0x41, 0x06, 0x71, 0xDB, 0x01]) == Checksum([0, 0, 0, 0, 0])
  {
  }

  /** The check value the transformer's test suite expects for "123456789". */
  lemma CheckValue()
    ensures Checksum([0x31, 0x32, 0x33, 0x34, 0x35, 0x36, 0x37, 0x38, 0x39]) == 0xCBF4_3926
  {
  }

  // ------------------------------------- the standard's definition of the CRC

  /** Polynomial long division over GF(2) by
      x^32+x^26+x^23+x^22+x^16+x^12+x^11+x^10+x^8+x^7+x^5+x^4+x^2+x+1,
      highest coefficient first; r holds the running remainder. */
  ghost function Divide(r: bv32, bits: seq<bool>): bv32
    decreases |bits|
  {
    if bits == [] then r else Divide(Xor(TimesX(r), Coefficient(bits[0])), bits[1..])
  }

  /** r times x, reduced by the generator. */
  ghost function TimesX(r: bv32): bv32 {
    (r << 1) ^ (if r & 0x8000_0000 == 0x8000_0000 then 0x04C1_1DB7 else 0)
  }

  ghost function Coefficient(bit: bool): bv32 { if bit then 1 else 0 }

  /** Each octet is sent low bit first. */
  ghost function ByteBits(b: bv8, n: nat): seq<bool>
    decreases n
  {
    if n == 0 then [] else [b & 1 == 1] + ByteBits(b >> 1, n - 1)
  }

  ghost function Bits(data: seq<bv8>): seq<bool>
    decreases |data|
  {
    if data == [] then [] else ByteBits(data[0], 8) + Bits(data[1..])
  }

  ghost function ComplementFirst(data: seq<bv8>): seq<bv8>
    requires |data| >= 4
  {
    [!data[0], !data[1], !data[2], !data[3]] + data[4..]
  }

  /** The register read from the other end. */
  ghost function Reverse(x: bv32): bv32 {
    var a := ((x >> 1) & 0x5555_5555) | ((x & 0x5555_5555) << 1);
    var b := ((a >> 2) & 0x3333_3333) | ((a & 0x3333_3333) << 2);
    var c := ((b >> 4) & 0x0F0F_0F0F) | ((b & 0x0F0F_0F0F) << 4);
    var d := ((c >> 8) & 0x00FF_00FF) | ((c & 0x00FF_00FF) << 8);
    (d >> 16) | (d << 16)
  }

  lemma ReverseShift(x: bv32)
    ensures Reverse(Shift(x)) == TimesX(Reverse(x))
  {
  }

  lemma ReverseXor(x: bv32, y: bv32)
    ensures Reverse(Xor(x, y)) == Xor(Reverse(x), Reverse(y))
  {
  }

  ghost function AbsorbBits(crc: bv32, bits: seq<bool>): bv32
    decreases |bits|
  {
    if bits == [] then crc else AbsorbBits(Shift(Xor(crc, Coefficient(bits[0]))), bits[1..])
  }

  ghost predicate FitsIn(b: bv8, n: nat)
    decreases n
  {
    if n == 0 then b == 0 else FitsIn(b >> 1, n - 1)
  }

  lemma EveryByteFits(b: bv8)
    ensures FitsIn(b, 8)
  {
    var b4 := b >> 1 >> 1 >> 1 >> 1;
    assert b4 >> 1 >> 1 >> 1 >> 1 == 0;
    assert FitsIn(b4 >> 1 >> 1, 2);
    assert FitsIn(b4, 4);
    assert FitsIn(b >> 1 >> 1, 6);
  }

  lemma LowBitSplits(b: bv8)
    ensures Widen(b) == Xor(Coefficient(b & 1 == 1), Up(Widen(b >> 1)))
    ensures Widen(b >> 1) < 0x8000_0000
  {
  }

  lemma ShiftOneBit(crc: bv32, b: bv8)
    ensures Shift(Xor(crc, Widen(b))) == Xor(Shift(Xor(crc, Coefficient(b & 1 == 1))), Widen(b >> 1))
  {
    hide Shift, Xor, Up, Widen, Coefficient;
    var low, rest := Coefficient(b & 1 == 1), Widen(b >> 1);
    LowBitSplits(b);
    XorAssociative(crc, low, Up(rest));
    ShiftLinear(Xor(crc, low), Up(rest));
    ShiftUndoesUp(rest);
  }

  lemma {:induction false} ByteIsItsBits(crc: bv32, b: bv8, n: nat)
    requires FitsIn(b, n)
    ensures ShiftTimes(Xor(crc, Widen(b)), n) == AbsorbBits(crc, ByteBits(b, n))
    decreases n
  {
    hide Shift, Xor, Coefficient, Up;
    if n == 0 {
      XorCancels(crc, 0);
    } else {
      hide Widen;
      ShiftOneBit(crc, b);
      ByteIsItsBits(Shift(Xor(crc, Coefficient(b & 1 == 1))), b >> 1, n - 1);
    }
  }

  lemma {:induction false} AbsorbBitsSplit(crc: bv32, a: seq<bool>, b: seq<bool>)
    ensures AbsorbBits(crc, a + b) == AbsorbBits(AbsorbBits(crc, a), b)
    decreases |a|
  {
    hide Shift, Xor, Coefficient;
    if a == [] {
      assert a + b == b;
    } else {
      assert (a + b)[1..] == a[1..] + b;
      AbsorbBitsSplit(Shift(Xor(crc, Coefficient(a[0]))), a[1..], b);
    }
  }

  lemma {:induction false} FoldIsBitwise(crc: bv32, data: seq<bv8>)
    ensures Fold(crc, data) == AbsorbBits(crc, Bits(data))
    decreases |data|
  {
    hide Shift8, Xor, Widen, ByteBits, ShiftTimes, FitsIn;
    if data != [] {
      EveryByteFits(data[0]);
      EightShifts(Xor(crc, Widen(data[0])));
      ByteIsItsBits(crc, data[0], 8);
      FoldIsBitwise(Absorb(crc, data[0]), data[1..]);
      AbsorbBitsSplit(crc, ByteBits(data[0], 8), Bits(data[1..]));
    }
  }

  // ---------------------------------------------- bursts of 32 bits, anywhere

  /** The bits as one word, the first at the low end. */
  ghost function BitWord(bits: seq<bool>): bv32
    decreases |bits|
  {
    if bits == [] then 0 else Xor(Coefficient(bits[0]), Up(BitWord(bits[1..])))
  }

  ghost function Half(w: bv32): bv32 { w >> 1 }

  ghost predicate Below(x: bv32, limit: bv32) { x < limit }

  /** The word with only bit 32 - m set: words below it have room for m more bits. */
  ghost function Limit(m: nat): bv32
    requires m >= 1
    decreases m
  {
    if m == 1 then 0x8000_0000 else Half(Limit(m - 1))
  }

  lemma LimitOf32()
    ensures Below(0, Limit(32))
  {
    assert Limit(4) == 0x1000_0000;
    assert Limit(8) == 0x100_0000;
    assert Limit(12) == 0x10_0000;
    assert Limit(16) == 0x1_0000;
    assert Limit(20) == 0x1000;
    assert Limit(24) == 0x100;
    assert Limit(28) == 0x10;
  }

  lemma BitBelow(bit: bool, x: bv32, limit: bv32)
    requires Below(x, Half(limit))
    ensures Below(Xor(Coefficient(bit), Up(x)), limit)
  {
  }

  lemma BelowHalf(x: bv32, limit: bv32)
    requires Below(x, Half(limit))
    ensures Below(x, limit)
  {
  }

  /** A word with room for one bit leaves the top one clear. */
  lemma {:induction false} RoomAtTop(x: bv32, m: nat)
    requires m >= 1 && Below(x, Limit(m))
    ensures x < 0x8000_0000
    decreases m
  {
    hide Half;
    if m > 1 {
      hide Below;
      BelowHalf(x, Limit(m - 1));
      RoomAtTop(x, m - 1);
    }
  }

  lemma {:induction false} BitWordBound(bits: seq<bool>, m: nat)
    requires |bits| + m == 32 && m >= 1
    ensures Below(BitWord(bits), Limit(m))
    decreases |bits|
  {
    hide Xor, Coefficient, Up, Below, Half;
    if bits == [] {
      LimitOf32();
    } else {
      BitWordBound(bits[1..], m + 1);
      BitBelow(bits[0], BitWord(bits[1..]), Limit(m));
    }
  }

  lemma TailLeavesTopClear(bits: seq<bool>)
    requires 1 <= |bits| <= 32
    ensures BitWord(bits[1..]) < 0x8000_0000
  {
    hide *;
    BitWordBound(bits[1..], 33 - |bits|);
    RoomAtTop(BitWord(bits[1..]), 33 - |bits|);
  }

  lemma BitStepInjective(b: bool, x: bv32, c: bool, y: bv32)
    requires x < 0x8000_0000 && y < 0x8000_0000
    requires Xor(Coefficient(b), Up(x)) == Xor(Coefficient(c), Up(y))
    ensures b == c && x == y
  {
  }

  lemma {:induction false} BitWordInjective(u: seq<bool>, v: seq<bool>)
    requires |u| == |v| <= 32 && BitWord(u) == BitWord(v)
    ensures u == v
    decreases |u|
  {
    hide Xor, Coefficient, Up;
    if u != [] {
      TailLeavesTopClear(u);
      TailLeavesTopClear(v);
      BitStepInjective(u[0], BitWord(u[1..]), v[0], BitWord(v[1..]));
      BitWordInjective(u[1..], v[1..]);
      assert u == [u[0]] + u[1..] && v == [v[0]] + v[1..];
    }
  }

  /** Up to 32 bits enter the register as one word. */
  lemma {:induction false} BitWindow(crc: bv32, bits: seq<bool>)
    requires |bits| <= 32
    ensures AbsorbBits(crc, bits) == ShiftTimes(Xor(crc, BitWord(bits)), |bits|)
    decreases |bits|
  {
    hide Xor, Coefficient, Up, Shift;
    if bits == [] {
      XorCancels(crc, 0);
    } else {
      var b, x := Coefficient(bits[0]), BitWord(bits[1..]);
      TailLeavesTopClear(bits);
      BitWindow(Shift(Xor(crc, b)), bits[1..]);
      ShiftUndoesUp(x);
      ShiftLinear(Xor(crc, b), Up(x));
      XorAssociative(crc, b, Up(x));
    }
  }

  lemma {:induction false} ShiftTimesInjective(a: bv32, b: bv32, n: nat)
    requires ShiftTimes(a, n) == ShiftTimes(b, n)
    ensures a == b
    decreases n
  {
    hide Shift;
    if n > 0 {
      ShiftTimesInjective(Shift(a), Shift(b), n - 1);
      ShiftInjective(a, b);
    }
  }

  lemma {:induction false} AbsorbBitsInjective(c: bv32, d: bv32, bits: seq<bool>)
    requires AbsorbBits(c, bits) == AbsorbBits(d, bits)
    ensures c == d
    decreases |bits|
  {
    hide Xor, Coefficient, Shift;
    if bits != [] {
      var b := Coefficient(bits[0]);
      AbsorbBitsInjective(Shift(Xor(c, b)), Shift(Xor(d, b)), bits[1..]);
      ShiftInjective(Xor(c, b), Xor(d, b));
      XorCancels(c, b);
      XorCancels(d, b);
    }
  }

  lemma BitWindowInjective(crc: bv32, u: seq<bool>, v: seq<bool>)
    requires |u| == |v| <= 32 && AbsorbBits(crc, u) == AbsorbBits(crc, v)
    ensures u == v
  {
    hide *;
    BitWindow(crc, u);
    BitWindow(crc, v);
    ShiftTimesInjective(Xor(crc, BitWord(u)), Xor(crc, BitWord(v)), |u|);
    XorSame(crc, BitWord(u), BitWord(v));
    BitWordInjective(u, v);
  }

  lemma XorSame(c: bv32, x: bv32, y: bv32)
    requires Xor(c, x) == Xor(c, y)
    ensures x == y
  {
    XorCancels(x, c);
    XorCancels(y, c);
  }

  lemma AbsorbDetectsBurst(crc: bv32, a: seq<bool>, b: seq<bool>, start: nat)
    requires |a| == |b| && AbsorbBits(crc, a) == AbsorbBits(crc, b)
    requires forall k :: 0 <= k < |a| && !(start <= k < start + 32) ==> a[k] == b[k]
    ensures a == b
  {
    hide *;
    var lo := if start < |a| then start else |a|;
    var hi := if start + 32 < |a| then start + 32 else |a|;
    var pre, suf := a[..lo], a[hi..];
    AroundWindow(a, b, lo, hi);
    AbsorbBitsSplit(crc, pre + a[lo..hi], suf);
    AbsorbBitsSplit(crc, pre + b[lo..hi], suf);
    AbsorbBitsInjective(AbsorbBits(crc, pre + a[lo..hi]), AbsorbBits(crc, pre + b[lo..hi]), suf);
    AbsorbBitsSplit(crc, pre, a[lo..hi]);
    AbsorbBitsSplit(crc, pre, b[lo..hi]);
    BitWindowInjective(AbsorbBits(crc, pre), a[lo..hi], b[lo..hi]);
  }

  /** Two texts that agree outside a window differ in the window only. */
  lemma AroundWindow<T>(a: seq<T>, b: seq<T>, lo: nat, hi: nat)
    requires |a| == |b| && lo <= hi <= |a|
    requires forall k | 0 <= k < |a| && !(lo <= k < hi) :: a[k] == b[k]
    ensures a == a[..lo] + a[lo..hi] + a[hi..] && b == a[..lo] + b[lo..hi] + a[hi..]
  {
    assert b[..lo] == a[..lo] && b[hi..] == a[hi..];
  }

  lemma {:induction false} ByteBitsInjective(b: bv8, c: bv8, n: nat)
    requires FitsIn(b, n) && FitsIn(c, n) && ByteBits(b, n) == ByteBits(c, n)
    ensures b == c
    decreases n
  {
    if n > 0 {
      assert ByteBits(b, n)[0] == ByteBits(c, n)[0] && ByteBits(b, n)[1..] == ByteBits(c, n)[1..];
      assert ByteBits(b, n)[1..] == ByteBits(b >> 1, n - 1) && ByteBits(c, n)[1..] == ByteBits(c >> 1, n - 1);
      ByteBitsInjective(b >> 1, c >> 1, n - 1);
      HalvesDetermine(b, c);
    }
  }

  lemma HalvesDetermine(b: bv8, c: bv8)
    ensures b >> 1 == c >> 1 && (b & 1 == 1 <==> c & 1 == 1) ==> b == c
  {
  }

  lemma {:induction false} ByteBitsLength(b: bv8, n: nat)
    ensures |ByteBits(b, n)| == n
    decreases n
  {
    if n > 0 {
      ByteBitsLength(b >> 1, n - 1);
    }
  }

  lemma {:induction false} BitsInjective(a: seq<bv8>, b: seq<bv8>)
    requires |a| == |b|
    ensures |Bits(a)| == |Bits(b)| && (Bits(a) == Bits(b) ==> a == b)
    decreases |a|
  {
    hide ByteBits, FitsIn;
    if a != [] {
      ByteBitsLength(a[0], 8);
      ByteBitsLength(b[0], 8);
      BitsInjective(a[1..], b[1..]);
      if Bits(a) == Bits(b) {
        assert Bits(a)[..8] == ByteBits(a[0], 8) && Bits(b)[..8] == ByteBits(b[0], 8);
        assert Bits(a)[8..] == Bits(a[1..]) && Bits(b)[8..] == Bits(b[1..]);
        EveryByteFits(a[0]);
        EveryByteFits(b[0]);
        ByteBitsInjective(a[0], b[0], 8);
        assert a == [a[0]] + a[1..] && b == [b[0]] + b[1..];
      }
    }
  }

  /** Main result: two different messages of one length whose bits, in the order in which
      they are sent, agree outside 32 consecutive ones have different checksums. */
  lemma DetectsBitBurst(a: seq<bv8>, b: seq<bv8>, start: nat)
    requires |a| == |b| && a != b && |Bits(a)| == |Bits(b)|
    requires forall k :: 0 <= k < |Bits(a)| && !(start <= k < start + 32) ==> Bits(a)[k] == Bits(b)[k]
    ensures Checksum(a) != Checksum(b)
  {
    hide Checksum, Fold, AbsorbBits, Bits;
    if Checksum(a) == Checksum(b) {
      ChecksumDetermines(a, b);
      FoldIsBitwise(0xFFFF_FFFF, a);
      FoldIsBitwise(0xFFFF_FFFF, b);
      AbsorbDetectsBurst(0xFFFF_FFFF, Bits(a), Bits(b), start);
      BitsInjective(a, b);
      assert false;
    }
  }

  /** The division register that takes each message bit at its top end, so that
      the 32 appended zeros need not be fed in. */
  ghost function DivideAtTop(r: bv32, bits: seq<bool>): bv32
    decreases |bits|
  {
    if bits == [] then r else DivideAtTop(TimesX(Xor(r, Reverse(Coefficient(bits[0])))), bits[1..])
  }

  lemma {:induction false} ReverseAbsorb(crc: bv32, bits: seq<bool>)
    ensures Reverse(AbsorbBits(crc, bits)) == DivideAtTop(Reverse(crc), bits)
    decreases |bits|
  {
    hide Shift, Xor, Coefficient, Reverse, TimesX;
    if bits != [] {
      var mixed := Xor(crc, Coefficient(bits[0]));
      ReverseXor(crc, Coefficient(bits[0]));
      ReverseShift(mixed);
      ReverseAbsorb(Shift(mixed), bits[1..]);
    }
  }

  ghost function TimesXPower(r: bv32, n: nat): bv32
    decreases n
  {
    if n == 0 then r else TimesX(TimesXPower(r, n - 1))
  }

  lemma TimesXLinear(a: bv32, b: bv32)
    ensures TimesX(Xor(a, b)) == Xor(TimesX(a), TimesX(b))
  {
    hide Shift, Xor, TimesX, Reverse;
    ReverseTwice(a);
    ReverseTwice(b);
    ShiftLinear(Reverse(a), Reverse(b));
    ReverseXor(Reverse(a), Reverse(b));
    ReverseXor(Shift(Reverse(a)), Shift(Reverse(b)));
    ReverseShift(Reverse(a));
    ReverseShift(Reverse(b));
    ReverseShift(Xor(Reverse(a), Reverse(b)));
  }

  lemma ReverseTwice(x: bv32)
    ensures Reverse(Reverse(x)) == x
  {
  }

  lemma {:induction false} TimesXPowerLinear(a: bv32, b: bv32, n: nat)
    ensures TimesXPower(Xor(a, b), n) == Xor(TimesXPower(a, n), TimesXPower(b, n))
    ensures TimesXPower(TimesX(a), n) == TimesX(TimesXPower(a, n))
    decreases n
  {
    hide Xor, TimesX;
    if n > 0 {
      TimesXPowerLinear(a, b, n - 1);
      TimesXLinear(TimesXPower(a, n - 1), TimesXPower(b, n - 1));
    }
  }

  lemma EightTimesX(r: bv32)
    requires r < 0x100_0000
    ensures TimesX(TimesX(TimesX(TimesX(TimesX(TimesX(TimesX(TimesX(r)))))))) == r << 8
  {
  }

  lemma TwoPowers(r: bv32, n: nat)
    requires n >= 2
    ensures TimesXPower(r, n) == TimesX(TimesX(TimesXPower(r, n - 2)))
  {
    hide TimesX;
  }

  lemma EightPowers(r: bv32, n: nat)
    requires n >= 8
    ensures TimesXPower(r, n) == TimesX(TimesX(TimesX(TimesX(TimesX(TimesX(TimesX(TimesX(TimesXPower(r, n - 8)))))))))
  {
    hide *;
    TwoPowers(r, n);
    TwoPowers(r, n - 2);
    TwoPowers(r, n - 4);
    TwoPowers(r, n - 6);
  }

  lemma PowersOfOne()
    ensures TimesXPower(1, 8) == 0x100 && TimesXPower(1, 16) == 0x1_0000 && TimesXPower(1, 24) == 0x100_0000
  {
    hide TimesX;
    EightPowers(1, 8);
    EightTimesX(1);
    EightPowers(1, 16);
    EightTimesX(0x100);
    EightPowers(1, 24);
    EightTimesX(0x1_0000);
  }

  lemma LastEightPowers()
    ensures TimesX(TimesX(TimesX(TimesX(TimesX(TimesX(TimesX(0x100_0000))))))) == 0x8000_0000
    ensures Reverse(1) == 0x8000_0000
  {
  }

  lemma BitEntersAtTop(bit: bool)
    ensures TimesXPower(Coefficient(bit), 32) == TimesX(Reverse(Coefficient(bit)))
  {
    hide TimesX, Reverse;
    if bit {
      PowersOfOne();
      EightPowers(1, 32);
      LastEightPowers();
    } else {
      ZeroStaysZero(32);
      TimesXOfZero();
    }
  }

  lemma TimesXOfZero()
    ensures TimesX(Reverse(0)) == 0
  {
  }

  lemma {:induction false} ZeroStaysZero(n: nat)
    ensures TimesXPower(0, n) == 0
    decreases n
  {
    if n > 0 {
      ZeroStaysZero(n - 1);
    }
  }

  /** Feeding bits at the top is dividing with the remainder already times x^32. */
  lemma {:induction false} TopIsDividedLate(r: bv32, bits: seq<bool>)
    ensures DivideAtTop(TimesXPower(r, 32), bits) == TimesXPower(Divide(r, bits), 32)
    decreases |bits|
  {
    hide TimesX, Xor, Coefficient, Reverse, TimesXPower;
    if bits != [] {
      var c := Coefficient(bits[0]);
      TimesXPowerLinear(TimesX(r), c, 32);
      TimesXPowerLinear(r, c, 32);
      TimesXLinear(TimesXPower(r, 32), Reverse(c));
      BitEntersAtTop(bits[0]);
      TopIsDividedLate(Xor(TimesX(r), c), bits[1..]);
    }
  }

  ghost function Zeros(n: nat): seq<bool> { seq(n, i => false) }

  lemma {:induction false} DivideZeros(r: bv32, n: nat)
    ensures Divide(r, Zeros(n)) == TimesXPower(r, n)
    decreases n
  {
    hide TimesX, Xor;
    if n > 0 {
      assert Zeros(n) == [false] + Zeros(n - 1);
      XorCancels(TimesX(r), 0);
      DivideZeros(TimesX(r), n - 1);
      TimesXPowerLinear(r, 0, n - 1);
    }
  }

  lemma {:induction false} DivideSplit(r: bv32, a: seq<bool>, b: seq<bool>)
    ensures Divide(r, a + b) == Divide(Divide(r, a), b)
    decreases |a|
  {
    hide TimesX, Xor, Coefficient;
    if a == [] {
      assert a + b == b;
    } else {
      assert (a + b)[1..] == a[1..] + b;
      DivideSplit(Xor(TimesX(r), Coefficient(a[0])), a[1..], b);
    }
  }

  lemma WordOfFour(b0: bv8, b1: bv8, b2: bv8, b3: bv8)
    ensures Word([b0, b1, b2, b3])
         == Xor(Widen(b0), Up8(Xor(Widen(b1), Up8(Xor(Widen(b2), Up8(Xor(Widen(b3), Up8(0))))))))
  {
    hide Xor, Up8, Widen;
    var u := [b0, b1, b2, b3];
    assert u[1..] == [b1, b2, b3] && [b1, b2, b3][1..] == [b2, b3] && [b2, b3][1..] == [b3];
    assert Word([b3]) == Xor(Widen(b3), Up8(0));
    assert Word([b2, b3]) == Xor(Widen(b2), Up8(Word([b3])));
    assert Word([b1, b2, b3]) == Xor(Widen(b1), Up8(Word([b2, b3])));
  }

  lemma ComplementWord(b0: bv8, b1: bv8, b2: bv8, b3: bv8)
    ensures Xor(0xFFFF_FFFF, Word([b0, b1, b2, b3])) == Xor(0, Word([!b0, !b1, !b2, !b3]))
  {
    WordOfFour(b0, b1, b2, b3);
    WordOfFour(!b0, !b1, !b2, !b3);
  }

  /** Starting from all ones is complementing the first 32 bits. */
  lemma PresetIsComplement(data: seq<bv8>)
    requires |data| >= 4
    ensures Fold(0xFFFF_FFFF, data) == Fold(0, ComplementFirst(data))
  {
    hide Xor, Word, Fold, ShiftBytes;
    var u := [data[0], data[1], data[2], data[3]];
    var v := [!data[0], !data[1], !data[2], !data[3]];
    assert data == u + data[4..];
    FoldSplit(0xFFFF_FFFF, u, data[4..]);
    FoldSplit(0, v, data[4..]);
    Window(0xFFFF_FFFF, u);
    Window(0, v);
    ComplementWord(data[0], data[1], data[2], data[3]);
  }

  lemma ReverseComplement(x: bv32)
    ensures Reverse(!x) == !Reverse(x)
  {
  }

  /** Main result: on any frame of at least 32 bits the checksum is the one
      section 3.2.9 of IEEE 802.3 defines. The first 32 bits are complemented,
      the message times x^32 is divided by the generator, and the remainder is
      complemented; both message and checksum are low bit first. */
  lemma MatchesStandard(data: seq<bv8>)
    requires |data| >= 4
    ensures Reverse(Checksum(data)) == !Divide(0, Bits(ComplementFirst(data)) + Zeros(32))
  {
    var m := ComplementFirst(data);
    ChecksumIsComplement(data);
    ReverseComplement(Fold(0, m));
    hide *;
    PresetIsComplement(data);
    RegisterIsRemainder(Bits(m));
    FoldIsBitwise(0, m);
  }

  lemma ChecksumIsComplement(data: seq<bv8>)
    ensures Checksum(data) == !Fold(0xFFFF_FFFF, data)
  {
    hide Fold;
  }

  lemma ReverseZero()
    ensures Reverse(0) == 0
  {
  }

  /** Reading the bits into an empty register leaves the remainder of the message times
      x^32, from the other end. */
  lemma RegisterIsRemainder(bits: seq<bool>)
    ensures Reverse(AbsorbBits(0, bits)) == Divide(0, bits + Zeros(32))
  {
    ReverseZero();
    hide *;
    ReverseAbsorb(0, bits);
    ZeroStaysZero(32);
    TopIsDividedLate(0, bits);
    DivideSplit(0, bits, Zeros(32));
    DivideZeros(Divide(0, bits), 32);
  }
}
