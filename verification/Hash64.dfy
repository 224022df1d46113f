/** The 64-bit hash fallback of the integrity transformer. Words are naturals
    below 2^64 and every wrap-around is written out. Each mixing step is a
    bijection of the words and has its inverse here, so a change of one byte, or
    of the seed alone, can never be lost on the way to the result. */
module Hash64 {
  import opened Arithmetic
  import opened Bytes

  const MODULUS: nat := 0x1_0000_0000_0000_0000
  const PRIME1: nat := 0x9E37_79B1_85EB_CA87
  const PRIME2: nat := 0xC2B2_AE3D_27D4_EB4F
  const PRIME3: nat := 0x1656_67B1_9E37_79F9
  const PRIME5: nat := 0x27D4_EB2F_1656_67C5

  /** Bitwise exclusive or. */
  function Xor(a: nat, b: nat): nat
    decreases a + b
  {
    if a == 0 && b == 0 then 0 else 2 * Xor(a / 2, b / 2) + (a + b) % 2
  }

  function XorWord(a: uint64, b: uint64): uint64 {
    XorBelow(a, b);
    Xor(a, b)
  }

  function MulWord(a: uint64, b: uint64): uint64 { a * b % MODULUS }

  /** rotl64(x, 11): the two halves of the word do not overlap, so or is plus. */
  function RotateLeft11(x: uint64): uint64 {
    x * 0x800 % MODULUS + x / 0x20_0000_0000_0000
  }

  function XorShift(h: uint64, k: nat): uint64 {
    XorWord(h, ShiftRight(h, k))
  }

  function ShiftRight(x: nat, k: nat): (r: nat)
    ensures r <= x && (k > 0 && x > 0 ==> r < x)
    decreases k
  {
    if k == 0 then x else ShiftRight(x, k - 1) / 2
  }

  /** One round of the byte loop. */
  function Mix(h: uint64, b: byte): uint64 {
    MulWord(RotateLeft11(XorWord(h, MulWord(b, PRIME5))), PRIME1)
  }

  function MixAll(h: uint64, data: seq<byte>): uint64
    decreases |data|
  {
    if data == [] then h else MixAll(Mix(h, data[0]), data[1..])
  }

  function Finish(h: uint64): uint64 {
    XorShift(MulWord(XorShift(MulWord(XorShift(h, 33), PRIME2), 29), PRIME3), 32)
  }

  function Start(seed: uint64, size: nat): uint64 {
    (seed + PRIME5 + size) % MODULUS
  }

  function Hash(data: seq<byte>, seed: uint64): uint64 {
    Finish(MixAll(Start(seed, |data|), data))
  }

  /** The byte loop and the final mix. */
  method ComputeHash(data: seq<byte>, seed: uint64) returns (h: uint64)
    ensures h == Hash(data, seed)
  {
    h := (seed + PRIME5 + |data|) % MODULUS;
    var p := 0;
    while p < |data|
      invariant 0 <= p <= |data|
      invariant MixAll(h, data[p..]) == MixAll(Start(seed, |data|), data)
    {
      assert data[p..][1..] == data[p + 1..];
      h := XorWord(h, MulWord(data[p], PRIME5));
      h := MulWord(RotateLeft11(h), PRIME1);
      p := p + 1;
    }
    h := XorShift(h, 33);
    h := MulWord(h, PRIME2);
    h := XorShift(h, 29);
    h := MulWord(h, PRIME3);
    h := XorShift(h, 32);
  }

  // ------------------------------------------------------------ exclusive or

  lemma Pow2Of64()
    ensures Pow2(64) == MODULUS
  {
    assert Pow2(8) == 0x100 && Pow2(16) == 0x1_0000 && Pow2(24) == 0x100_0000 && Pow2(32) == 0x1_0000_0000;
    assert Pow2(40) == 0x100_0000_0000 && Pow2(48) == 0x1_0000_0000_0000 && Pow2(56) == 0x100_0000_0000_0000;
  }

  lemma {:induction false} XorBelowPow2(a: nat, b: nat, n: nat)
    requires a < Pow2(n) && b < Pow2(n)
    ensures Xor(a, b) < Pow2(n)
    decreases n
  {
    if n > 0 {
      XorBelowPow2(a / 2, b / 2, n - 1);
    }
  }

  lemma XorBelow(a: uint64, b: uint64)
    ensures Xor(a, b) < MODULUS
  {
    Pow2Of64();
    XorBelowPow2(a, b, 64);
  }

  lemma XorParts(a: nat, b: nat)
    ensures Xor(a, b) == 2 * Xor(a / 2, b / 2) + (a + b) % 2
    ensures Xor(a, b) / 2 == Xor(a / 2, b / 2) && Xor(a, b) % 2 == (a + b) % 2
  {
  }

  lemma {:induction false} XorCommutes(a: nat, b: nat)
    ensures Xor(a, b) == Xor(b, a)
    decreases a + b
  {
    if a != 0 || b != 0 {
      XorCommutes(a / 2, b / 2);
    }
  }

  lemma {:induction false} XorCancels(a: nat, b: nat)
    ensures Xor(Xor(a, b), b) == a
    decreases a + b
  {
    if a != 0 || b != 0 {
      hide Xor;
      var x := Xor(a, b);
      XorParts(a, b);
      XorParts(x, b);
      XorCancels(a / 2, b / 2);
      Parity(x, a, b);
    }
  }

  lemma Parity(x: nat, a: nat, b: nat)
    requires x % 2 == (a + b) % 2
    ensures (x + b) % 2 == a % 2
  {
  }

  lemma XorInjective(a: nat, b: nat, c: nat)
    ensures Xor(a, c) == Xor(b, c) ==> a == b
    ensures Xor(c, a) == Xor(c, b) ==> a == b
  {
    XorCancels(a, c);
    XorCancels(b, c);
    XorCommutes(c, a);
    XorCommutes(c, b);
  }

  lemma {:induction false} ShiftRightOfXor(a: nat, b: nat, k: nat)
    ensures ShiftRight(Xor(a, b), k) == Xor(ShiftRight(a, k), ShiftRight(b, k))
    decreases k
  {
    if k > 0 {
      ShiftRightOfXor(a, b, k - 1);
    }
  }

  /** x ^ (x >> k) determines x: its own top part first, then the rest. */
  lemma {:induction false} XorShiftInjective(x: nat, y: nat, k: nat)
    requires k > 0 && Xor(x, ShiftRight(x, k)) == Xor(y, ShiftRight(y, k))
    ensures x == y
    decreases x + y
  {
    if x > 0 || y > 0 {
      var s, t := ShiftRight(x, k), ShiftRight(y, k);
      ShiftRightOfXor(x, s, k);
      ShiftRightOfXor(y, t, k);
      XorShiftInjective(s, t, k);
      XorInjective(x, y, s);
    }
  }

  // --------------------------------------- rotation and odd multiplication

  lemma RotateInjective(x: uint64, y: uint64)
    requires RotateLeft11(x) == RotateLeft11(y)
    ensures x == y
  {
    RotateParts(x);
    RotateParts(y);
  }

  lemma RotateParts(x: uint64)
    ensures RotateLeft11(x) == (x % 0x20_0000_0000_0000) * 0x800 + x / 0x20_0000_0000_0000
    ensures RotateLeft11(x) % 0x800 == x / 0x20_0000_0000_0000
  {
    var high, low := x / 0x20_0000_0000_0000, x % 0x20_0000_0000_0000;
    QuotientUnique(x * 0x800, MODULUS, high, low * 0x800);
    QuotientUnique(RotateLeft11(x), 0x800, low, high);
  }

  /** p is a unit: p * inverse == 1 modulo 2^64. */
  ghost predicate IsInverse(p: uint64, inverse: nat, k: nat) {
    p * inverse == 1 + MODULUS * k
  }

  const INVERSE1: nat := 0x0887_4934_32BA_DB37
  const INVERSE2: nat := 0x0BA7_9078_168D_4BAF
  const INVERSE3: nat := 0xE9E9_F4C4_1D6D_F849

  lemma PrimesAreUnits()
    ensures IsInverse(PRIME1, INVERSE1, 0x0545_584C_CD1F_A67A)
    ensures IsInverse(PRIME2, INVERSE2, 0x08DD_1DEC_2186_0607)
    ensures IsInverse(PRIME3, INVERSE3, 0x1469_0E60_8137_8F7F)
    ensures IsInverse(PRIME5, 0xC592_C09F_DFBA_7F0D, 0x1EBD_AE61_ED7C_1B77)
  {
  }

  // ------------------------------------------------------------ the inverse steps

  lemma MulUndone(y: uint64, p: uint64, inverse: uint64, k: nat)
    requires IsInverse(p, inverse, k)
    ensures MulWord(MulWord(y, inverse), p) == y
  {
    var q, r := y * inverse / MODULUS, MulWord(y, inverse);
    assert r == y * inverse - q * MODULUS;
    calc {
      r * p;
      y * inverse * p - q * MODULUS * p;
      y * (p * inverse) - q * p * MODULUS;
      y * (1 + MODULUS * k) - q * p * MODULUS;
      (y * k - q * p) * MODULUS + y;
    }
    QuotientUnique(r * p, MODULUS, y * k - q * p, y);
  }

  lemma MulInjective(x: uint64, y: uint64, p: uint64, inverse: uint64, k: nat)
    requires IsInverse(p, inverse, k) && MulWord(x, p) == MulWord(y, p)
    ensures x == y
  {
    hide MulWord;
    MulUndone(x, inverse, p, k);
    MulUndone(y, inverse, p, k);
  }

  lemma MulPrimeInjective(x: uint64, y: uint64, p: uint64)
    requires p in {PRIME1, PRIME2, PRIME3, PRIME5} && MulWord(x, p) == MulWord(y, p)
    ensures x == y
  {
    hide MulWord, IsInverse;
    PrimesAreUnits();
    if p == PRIME1 {
      MulInjective(x, y, p, INVERSE1, 0x0545_584C_CD1F_A67A);
    } else if p == PRIME2 {
      MulInjective(x, y, p, INVERSE2, 0x08DD_1DEC_2186_0607);
    } else if p == PRIME3 {
      MulInjective(x, y, p, INVERSE3, 0x1469_0E60_8137_8F7F);
    } else {
      MulInjective(x, y, p, 0xC592_C09F_DFBA_7F0D, 0x1EBD_AE61_ED7C_1B77);
    }
  }

  /** Rotation to the left by the remaining 53 bits. */
  function RotateLeft53(x: uint64): uint64 {
    x % 0x800 * 0x20_0000_0000_0000 + x / 0x800
  }

  lemma RotateUndone(x: uint64)
    ensures RotateLeft11(RotateLeft53(x)) == x
  {
    var y := RotateLeft53(x);
    QuotientUnique(y, 0x20_0000_0000_0000, x % 0x800, x / 0x800);
    RotateParts(y);
  }

  /** x ^ (x >> k) ^ (x >> 2k) ^ ... */
  function Unshift(x: uint64, k: nat): uint64
    requires k > 0
    decreases x
  {
    if x == 0 then 0 else XorWord(x, Unshift(ShiftRight(x, k), k))
  }

  lemma {:induction false} UnshiftUndone(y: uint64, k: nat)
    requires k > 0
    ensures XorShift(Unshift(y, k), k) == y
    decreases y
  {
    if y == 0 {
      assert Xor(0, 0) == 0 && ShiftRight(0, k) <= 0;
    } else {
      hide Xor, ShiftRight;
      var z := ShiftRight(y, k);
      var w := Unshift(z, k);
      UnshiftUndone(z, k);
      ShiftRightOfXor(y, w, k);
      XorCancels(w, ShiftRight(w, k));
      XorCancels(y, w);
    }
  }

  function UnMix(h: uint64, b: byte): uint64 {
    XorWord(RotateLeft53(MulWord(h, INVERSE1)), MulWord(b, PRIME5))
  }

  function UnFinish(h: uint64): uint64 {
    Unshift(MulWord(Unshift(MulWord(Unshift(h, 32), INVERSE3), 29), INVERSE2), 33)
  }

  /** A round is a bijection of the state, whatever the byte. */
  lemma MixUndone(h: uint64, b: byte)
    ensures Mix(UnMix(h, b), b) == h && UnMix(Mix(h, b), b) == h
  {
    MixOfUnMix(h, b);
    MixOfUnMix(Mix(h, b), b);
    MixInjective(UnMix(Mix(h, b), b), b, h, b);
    hide Mix, UnMix;
  }

  lemma MixOfUnMix(h: uint64, b: byte)
    ensures Mix(UnMix(h, b), b) == h
  {
    hide MulWord, Xor, RotateLeft11, RotateLeft53, IsInverse;
    var m := MulWord(h, INVERSE1);
    XorCancels(RotateLeft53(m), MulWord(b, PRIME5));
    RotateUndone(m);
    PrimesAreUnits();
    MulUndone(h, PRIME1, INVERSE1, 0x0545_584C_CD1F_A67A);
  }

  /** The final mix is a bijection of the words. */
  lemma FinishUndone(h: uint64)
    ensures Finish(UnFinish(h)) == h && UnFinish(Finish(h)) == h
  {
    FinishOfUnFinish(h);
    FinishOfUnFinish(Finish(h));
    FinishInjective(UnFinish(Finish(h)), h);
    hide Finish, UnFinish;
  }

  lemma FinishOfUnFinish(h: uint64)
    ensures Finish(UnFinish(h)) == h
  {
    hide MulWord, XorShift, Unshift, IsInverse;
    PrimesAreUnits();
    var c := Unshift(h, 32);
    var d := Unshift(MulWord(c, INVERSE3), 29);
    UnshiftUndone(h, 32);
    MulUndone(c, PRIME3, INVERSE3, 0x1469_0E60_8137_8F7F);
    UnshiftUndone(MulWord(c, INVERSE3), 29);
    MulUndone(d, PRIME2, INVERSE2, 0x08DD_1DEC_2186_0607);
    UnshiftUndone(MulWord(d, INVERSE2), 33);
  }

  // ----------------------------------------------------------- the whole hash

  lemma FinishInjective(x: uint64, y: uint64)
    ensures Finish(x) == Finish(y) ==> x == y
  {
    hide MulWord, Xor, ShiftRight;
    if Finish(x) == Finish(y) {
      var a, b := XorShift(x, 33), XorShift(y, 33);
      var c, d := XorShift(MulWord(a, PRIME2), 29), XorShift(MulWord(b, PRIME2), 29);
      XorShiftInjective(MulWord(c, PRIME3), MulWord(d, PRIME3), 32);
      MulPrimeInjective(c, d, PRIME3);
      XorShiftInjective(MulWord(a, PRIME2), MulWord(b, PRIME2), 29);
      MulPrimeInjective(a, b, PRIME2);
      XorShiftInjective(x, y, 33);
    }
  }

  /** A round is injective in the state and, from one state, in the byte. */
  lemma MixInjective(g: uint64, b: byte, h: uint64, c: byte)
    ensures Mix(g, b) == Mix(h, c) ==> (g == h <==> b == c)
  {
    hide MulWord, Xor, RotateLeft11;
    if Mix(g, b) == Mix(h, c) {
      var u, v := MulWord(b, PRIME5), MulWord(c, PRIME5);
      MulPrimeInjective(RotateLeft11(XorWord(g, u)), RotateLeft11(XorWord(h, v)), PRIME1);
      RotateInjective(XorWord(g, u), XorWord(h, v));
      XorInjective(g, h, u);
      XorInjective(u, v, g);
      if g == h {
        MulPrimeInjective(b, c, PRIME5);
      }
    }
  }

  lemma {:induction false} MixAllInjectiveInState(g: uint64, h: uint64, data: seq<byte>)
    ensures MixAll(g, data) == MixAll(h, data) ==> g == h
    decreases |data|
  {
    hide Mix;
    if data != [] && MixAll(g, data) == MixAll(h, data) {
      MixAllInjectiveInState(Mix(g, data[0]), Mix(h, data[0]), data[1..]);
      MixInjective(g, data[0], h, data[0]);
    }
  }

  lemma {:induction false} MixAllShowsOneByte(h: uint64, a: seq<byte>, b: seq<byte>, i: nat)
    requires |a| == |b| && i < |a| && a[i] != b[i]
    requires forall k :: 0 <= k < |a| && k != i ==> a[k] == b[k]
    ensures MixAll(h, a) != MixAll(h, b)
    decreases |a|
  {
    hide Mix;
    if i == 0 {
      assert a[1..] == b[1..];
      MixAllInjectiveInState(Mix(h, a[0]), Mix(h, b[0]), a[1..]);
      MixInjective(h, a[0], h, b[0]);
    } else {
      MixAllShowsOneByte(Mix(h, a[0]), a[1..], b[1..], i - 1);
    }
  }

  /** Main result: changing exactly one byte of a message of any length always
      changes its hash. */
  lemma OneByteAlwaysShows(a: seq<byte>, b: seq<byte>, i: nat, seed: uint64)
    requires |a| == |b| && i < |a| && a[i] != b[i]
    requires forall k :: 0 <= k < |a| && k != i ==> a[k] == b[k]
    ensures Hash(a, seed) != Hash(b, seed)
  {
    hide Finish, MixAll, Start;
    var h := Start(seed, |a|);
    FinishInjective(MixAll(h, a), MixAll(h, b));
    MixAllShowsOneByte(h, a, b, i);
  }

  /** Changing only the seed always changes the hash as well. */
  lemma SeedAlwaysShows(data: seq<byte>, s: uint64, t: uint64)
    requires s != t
    ensures Hash(data, s) != Hash(data, t)
  {
    hide Finish, MixAll;
    var g, h := Start(s, |data|), Start(t, |data|);
    FinishInjective(MixAll(g, data), MixAll(h, data));
    MixAllInjectiveInState(g, h, data);
  }

  function UnMixAll(h: uint64, data: seq<byte>): uint64
    decreases |data|
  {
    if data == [] then h else UnMix(UnMixAll(h, data[1..]), data[0])
  }

  lemma {:induction false} MixAllUndone(h: uint64, data: seq<byte>)
    ensures MixAll(UnMixAll(h, data), data) == h
    decreases |data|
  {
    hide Mix, UnMix;
    if data != [] {
      MixUndone(UnMixAll(h, data[1..]), data[0]);
      MixAllUndone(h, data[1..]);
    }
  }

  /** The seed under which a message has a given hash. */
  function SeedFor(data: seq<byte>, h: uint64): uint64 {
    (UnMixAll(UnFinish(h), data) - PRIME5 - |data|) % MODULUS
  }

  /** Main result: for every message the hash is a bijection of the seeds, so every hash
      is reached from exactly one of them. */
  lemma SeedsAreHashes(data: seq<byte>, h: uint64, seed: uint64)
    ensures Hash(data, seed) == h <==> seed == SeedFor(data, h)
  {
    hide Finish, UnFinish, MixAll, UnMixAll;
    var s := SeedFor(data, h);
    var start := UnMixAll(UnFinish(h), data);
    StartUndone(start, |data|);
    MixAllUndone(UnFinish(h), data);
    FinishUndone(h);
    if seed != s {
      SeedAlwaysShows(data, seed, s);
    }
  }

  lemma StartUndone(start: uint64, size: nat)
    ensures Start((start - PRIME5 - size) % MODULUS, size) == start
  {
    var n := start - PRIME5 - size;
    var q := n / MODULUS;
    QuotientUnique(n % MODULUS + PRIME5 + size, MODULUS, -q, start);
  }

  // ------------------------------------------------------------- the steps bit by bit

  predicate Bit(x: nat, i: nat)
    decreases i
  {
    if i == 0 then x % 2 == 1 else Bit(x / 2, i - 1)
  }

  /** A number is determined by its bits. */
  lemma {:induction false} SameBits(x: nat, y: nat)
    requires forall i: nat :: Bit(x, i) <==> Bit(y, i)
    ensures x == y
    decreases x + y
  {
    if x != 0 || y != 0 {
      assert Bit(x, 0) <==> Bit(y, 0);
      forall i: nat
        ensures Bit(x / 2, i) <==> Bit(y / 2, i)
      {
        assert Bit(x, i + 1) <==> Bit(y, i + 1);
      }
      SameBits(x / 2, y / 2);
    }
  }

  lemma {:induction false} BitOfXor(a: nat, b: nat, i: nat)
    ensures Bit(Xor(a, b), i) <==> Bit(a, i) != Bit(b, i)
    decreases i
  {
    hide Xor;
    XorParts(a, b);
    if i == 0 {
      OddSum(a, b);
    } else {
      BitOfXor(a / 2, b / 2, i - 1);
    }
  }

  lemma OddSum(a: nat, b: nat)
    ensures (a + b) % 2 == 1 <==> (a % 2 == 1) != (b % 2 == 1)
  {
  }

  lemma {:induction false} BitOfShift(x: nat, k: nat, i: nat)
    ensures Bit(ShiftRight(x, k), i) <==> Bit(x, i + k)
    decreases k
  {
    if k > 0 {
      BitOfShift(x, k - 1, i + 1);
    }
  }

  /** y is x with every bit turned where the one k places above it is set. */
  ghost predicate Spread(y: nat, x: nat, k: nat) {
    forall i: nat :: Bit(y, i) <==> Bit(x, i) != Bit(x, i + k)
  }

  lemma XorShiftSpreads(x: uint64, k: nat)
    ensures Spread(XorShift(x, k), x, k)
  {
    hide Bit, Xor, ShiftRight;
    forall i: nat
      ensures Bit(XorShift(x, k), i) <==> Bit(x, i) != Bit(x, i + k)
    {
      BitOfXor(x, ShiftRight(x, k), i);
      BitOfShift(x, k, i);
    }
  }

  /** The final mix: shifts by 33, 29 and 32 bits, and two products modulo 2^64 between. */
  lemma FinishSpelled(h: uint64) returns (a: uint64, b: uint64)
    ensures Spread(a, h, 33)
    ensures Spread(b, a * 0xC2B2_AE3D_27D4_EB4F % 0x1_0000_0000_0000_0000, 29)
    ensures Spread(Finish(h), b * 0x1656_67B1_9E37_79F9 % 0x1_0000_0000_0000_0000, 32)
  {
    hide Spread, XorShift;
    a := XorShift(h, 33);
    b := XorShift(MulWord(a, PRIME2), 29);
    XorShiftSpreads(h, 33);
    XorShiftSpreads(MulWord(a, PRIME2), 29);
    XorShiftSpreads(MulWord(b, PRIME3), 32);
  }

  /** A round: the byte's product turns bits of the state, which is rotated by 11 bits and
      multiplied. */
  lemma MixSpelled(h: uint64, b: byte) returns (x: uint64)
    ensures forall i: nat :: Bit(x, i) <==> Bit(h, i) != Bit(b * 0x27D4_EB2F_1656_67C5 % 0x1_0000_0000_0000_0000, i)
    ensures Mix(h, b) == (x * 0x800 % 0x1_0000_0000_0000_0000 + x / 0x20_0000_0000_0000)
                         * 0x9E37_79B1_85EB_CA87 % 0x1_0000_0000_0000_0000
  {
    hide Bit, Xor;
    x := XorWord(h, MulWord(b, PRIME5));
    forall i: nat
      ensures Bit(x, i) <==> Bit(h, i) != Bit(MulWord(b, PRIME5), i)
    {
      BitOfXor(h, MulWord(b, PRIME5), i);
    }
  }
}
