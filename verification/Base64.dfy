/** The fallback Base64 codec. The reference is the bit-level definition of
    sections 4 and 5 of RFC 4648: the octets' bits are cut into groups of six,
    the last one filled with zeros, and each group selects a symbol. */
module Base64 {
  import opened Arithmetic
  import opened Bytes

  datatype Result<T> = Ok(value: T) | DecodingError

  type sextet = x: nat | x < 64

  // --------------------------------------------------------------- the tables

  const PAD: byte := 61  // '='

  /** The alphabets of section 4 and, for url-safe text, section 5. */
  function Symbol(v: sextet, urlSafe: bool): byte {
    if v < 26 then 65 + v           // A-Z
    else if v < 52 then 71 + v      // a-z
    else if v < 62 then v - 4       // 0-9
    else if v == 62 then (if urlSafe then 45 else 43)  // '-' or '+'
    else if urlSafe then 95 else 47                    // '_' or '/'
  }

  /** The decoding tables: the digit, -2 for '=', -1 for everything else. */
  function Lookup(c: byte, urlSafe: bool): int {
    if 65 <= c <= 90 then c - 65
    else if 97 <= c <= 122 then c - 71
    else if 48 <= c <= 57 then c + 4
    else if c == (if urlSafe then 45 else 43) then 62
    else if c == (if urlSafe then 95 else 47) then 63
    else if c == PAD then -2
    else -1
  }

  // --------------------------------------------------------- the reference

  /** The n low bits of v, high bit first. */
  ghost function BitsOf(v: nat, n: nat): (s: seq<bool>)
    ensures |s| == n
    decreases n
  {
    if n == 0 then [] else BitsOf(v / 2, n - 1) + [v % 2 == 1]
  }

  ghost function Number(s: seq<bool>): nat
    decreases |s|
  {
    if s == [] then 0 else 2 * Number(s[..|s| - 1]) + (if s[|s| - 1] then 1 else 0)
  }

  ghost function Bits(values: seq<nat>, width: nat): (s: seq<bool>)
    ensures |s| == |values| * width
    decreases |values|
  {
    if values == [] then [] else BitsOf(values[0], width) + Bits(values[1..], width)
  }

  ghost function Zeros(n: nat): (s: seq<bool>)
    ensures |s| == n
  {
    seq(n, i => false)
  }

  /** Groups of six, the last filled up with zeros on the right. */
  ghost function Sextets(bits: seq<bool>): seq<sextet>
    decreases |bits|
  {
    NumberBound(bits);
    if bits == [] then []
    else if |bits| < 6 then [Number(bits + Zeros(6 - |bits|))]
    else [Number(bits[..6])] + Sextets(bits[6..])
  }

  /** Groups of eight; bits that fill no octet are discarded. */
  ghost function Octets(bits: seq<bool>): seq<byte>
    decreases |bits|
  {
    NumberBound(bits);
    if |bits| < 8 then [] else [Number(bits[..8])] + Octets(bits[8..])
  }

  ghost function Symbols(digits: seq<sextet>, urlSafe: bool): seq<byte>
    decreases |digits|
  {
    if digits == [] then [] else [Symbol(digits[0], urlSafe)] + Symbols(digits[1..], urlSafe)
  }

  ghost function Padding(n: nat, usePadding: bool): seq<byte> {
    if !usePadding || n % 3 == 0 then [] else if n % 3 == 1 then [PAD, PAD] else [PAD]
  }

  ghost function Encoded(data: seq<byte>, urlSafe: bool, usePadding: bool): seq<byte> {
    Symbols(Sextets(Bits(data, 8)), urlSafe) + Padding(|data|, usePadding)
  }

  /** The text up to its trailing pad characters. */
  ghost function Unpadded(s: seq<byte>): (u: seq<byte>)
    ensures |u| <= |s| && u == s[..|u|] && (forall i | |u| <= i < |s| :: s[i] == PAD)
    ensures u == [] || u[|u| - 1] != PAD
    decreases |s|
  {
    if s != [] && s[|s| - 1] == PAD then Unpadded(s[..|s| - 1]) else s
  }

  /** The digits of a text; pad characters inside it are skipped. */
  ghost function Digits(s: seq<byte>, urlSafe: bool): seq<sextet>
    decreases |s|
  {
    if s == [] then []
    else
      var n := |s| - 1;
      Digits(s[..n], urlSafe) + (if Lookup(s[n], urlSafe) >= 0 then [Lookup(s[n], urlSafe)] else [])
  }

  ghost predicate HasForeign(s: seq<byte>, urlSafe: bool) {
    exists c | c in s :: Lookup(c, urlSafe) == -1
  }

  ghost function Decoded(s: seq<byte>, urlSafe: bool): Result<seq<byte>> {
    var u := Unpadded(s);
    if |s| - |u| > 2 || HasForeign(u, urlSafe) then DecodingError
    else Ok(Octets(Bits(Digits(u, urlSafe), 6)))
  }

  // ---------------------------------------------------------- bits and numbers

  lemma {:induction false} NumberOfBits(v: nat, n: nat)
    requires v < Pow2(n)
    ensures Number(BitsOf(v, n)) == v
    decreases n
  {
    if n > 0 {
      NumberOfBits(v / 2, n - 1);
      assert BitsOf(v, n)[..n - 1] == BitsOf(v / 2, n - 1);
    }
  }

  lemma {:induction false} BitsOfNumber(s: seq<bool>)
    ensures BitsOf(Number(s), |s|) == s && Number(s) < Pow2(|s|)
    decreases |s|
  {
    if s != [] {
      BitsOfNumber(s[..|s| - 1]);
    }
  }

  lemma NumberBound(bits: seq<bool>)
    ensures 1 <= |bits| < 6 ==> Number(bits + Zeros(6 - |bits|)) < 64
    ensures |bits| >= 6 ==> Number(bits[..6]) < 64
    ensures |bits| >= 8 ==> Number(bits[..8]) < 256
  {
    SmallPowers();
    if 1 <= |bits| < 6 {
      BitsOfNumber(bits + Zeros(6 - |bits|));
    } else if |bits| >= 6 {
      BitsOfNumber(bits[..6]);
      if |bits| >= 8 {
        BitsOfNumber(bits[..8]);
      }
    }
  }

  /** Low bits do not see what is above them. */
  lemma {:induction false} BitsAppend(w: nat, u: nat, m: nat, v: nat, n: nat)
    requires v < Pow2(n) && w == u * Pow2(n) + v
    ensures BitsOf(w, m + n) == BitsOf(u, m) + BitsOf(v, n)
    decreases n
  {
    if n > 0 {
      Halves(w, u, v, Pow2(n - 1));
      BitsAppend(w / 2, u, m, v / 2, n - 1);
      assert BitsOf(w, m + n) == BitsOf(w / 2, m + (n - 1)) + [w % 2 == 1];
    }
  }

  lemma Halves(w: nat, u: nat, v: nat, p: nat)
    requires w == u * (2 * p) + v
    ensures w / 2 == u * p + v / 2 && w % 2 == v % 2
  {
    var q := u * p;
    assert w == 2 * q + v;
  }

  lemma SmallPowers()
    ensures Pow2(2) == 4 && Pow2(4) == 16 && Pow2(6) == 64 && Pow2(8) == 256
    ensures Pow2(10) == 0x400 && Pow2(12) == 0x1000 && Pow2(16) == 0x1_0000 && Pow2(18) == 0x4_0000
  {
    assert Pow2(14) == 0x4000;
  }

  lemma {:induction false} BitsSuffix(x: nat, m: nat, n: nat)
    ensures BitsOf(x, m + n)[m..] == BitsOf(x, n)
    decreases n
  {
    if n > 0 {
      BitsSuffix(x / 2, m, n - 1);
      assert BitsOf(x, m + n) == BitsOf(x / 2, m + (n - 1)) + [x % 2 == 1];
    }
  }

  /** The low n bits of x and the m bits above them. */
  lemma SplitAt(x: nat, m: nat, n: nat, q: nat)
    requires q == x / Pow2(n)
    ensures BitsOf(x, m + n) == BitsOf(q, m) + BitsOf(x, n)
  {
    BitsAppend(x, q, m, x % Pow2(n), n);
    BitsSuffix(x, m, n);
  }

  lemma LowSix(x: nat)
    ensures BitsOf(x, 6) == BitsOf(x % 64, 6)
  {
    hide Pow2, BitsOf;
    SmallPowers();
    BitsAppend(x, x / 64, 0, x % 64, 6);
    NoBits(x / 64);
  }

  lemma NoBits(t: nat)
    ensures BitsOf(t, 0) == []
  {
  }

  lemma Regroup(b: seq<bool>, c: seq<bool>, d: seq<bool>, e: seq<bool>, f: seq<bool>)
    ensures b + c + d + e + f == b + (c + d + e + f) && b + c + d + e == b + (c + d + e) && b + c + d == b + (c + d)
  {
  }

  lemma {:induction false} BitsSplit(a: seq<nat>, b: seq<nat>, w: nat)
    ensures Bits(a + b, w) == Bits(a, w) + Bits(b, w)
    decreases |a|
  {
    hide BitsOf;
    if a == [] {
      assert a + b == b;
    } else {
      assert (a + b)[1..] == a[1..] + b;
      BitsSplit(a[1..], b, w);
    }
  }

  lemma BitsAddOne(a: seq<nat>, v: nat, w: nat)
    ensures Bits(a + [v], w) == Bits(a, w) + BitsOf(v, w)
  {
    hide BitsOf;
    BitsSplit(a, [v], w);
    assert Bits([v], w) == BitsOf(v, w) + [];
  }

  lemma {:induction false} SextetsOfDigits(ds: seq<sextet>)
    ensures Sextets(Bits(ds, 6)) == ds
    decreases |ds|
  {
    hide BitsOf, Number;
    if ds != [] {
      SmallPowers();
      NumberOfBits(ds[0], 6);
      SextetsOfDigits(ds[1..]);
      assert Bits(ds, 6)[..6] == BitsOf(ds[0], 6) && Bits(ds, 6)[6..] == Bits(ds[1..], 6);
    }
  }

  lemma {:induction false} SextetsFilled(bits: seq<bool>, k: nat)
    requires k < 6 && (|bits| + k) % 6 == 0
    ensures Sextets(bits) == Sextets(bits + Zeros(k))
    decreases |bits|
  {
    hide Number;
    var f := bits + Zeros(k);
    if bits == [] {
      assert f == bits;
    } else if |bits| < 6 {
      assert k == 6 - |bits| && f[..6] == f && f[6..] == [];
    } else {
      assert f[..6] == bits[..6] && f[6..] == bits[6..] + Zeros(k);
      SextetsFilled(bits[6..], k);
    }
  }

  /** The digits are determined by their bits. */
  lemma SextetsUnique(bits: seq<bool>, ds: seq<sextet>, k: nat)
    requires k < 6 && Bits(ds, 6) == bits + Zeros(k)
    ensures Sextets(bits) == ds
  {
    hide Sextets, Bits;
    SextetsOfDigits(ds);
    SextetsFilled(bits, k);
  }

  lemma {:induction false} OctetsOfBytes(data: seq<byte>, rest: seq<bool>)
    requires |rest| < 8
    ensures Octets(Bits(data, 8) + rest) == data
    decreases |data|
  {
    hide BitsOf, Number;
    var b := Bits(data, 8) + rest;
    if data != [] {
      SmallPowers();
      NumberOfBits(data[0], 8);
      OctetsOfBytes(data[1..], rest);
      assert b[..8] == BitsOf(data[0], 8) && b[8..] == Bits(data[1..], 8) + rest;
    }
  }

  // ------------------------------------------------------------- the encoder

  /** Three octets packed in a word, read back as four digits. */
  lemma TripleDigits(a: byte, b: byte, c: byte, t: nat)
    requires t == a as nat * 0x1_0000 + b as nat * 0x100 + c as nat
    ensures BitsOf(t / 0x4_0000 % 64, 6) + BitsOf(t / 0x1000 % 64, 6) + BitsOf(t / 64 % 64, 6) + BitsOf(t % 64, 6)
         == BitsOf(a, 8) + BitsOf(b, 8) + BitsOf(c, 8)
  {
    hide BitsOf, Pow2;
    SmallPowers();
    BitsAppend(a as nat * 0x100 + b as nat, a, 8, b, 8);
    BitsAppend(t, a as nat * 0x100 + b as nat, 16, c, 8);
    SplitAt(t, 6, 18, t / 0x4_0000);
    SplitAt(t, 6, 12, t / 0x1000);
    SplitAt(t, 6, 6, t / 64);
    LowSix(t / 0x4_0000);
    LowSix(t / 0x1000);
    LowSix(t / 64);
    LowSix(t);
  }

  /** One or two left-over octets: the digits that are written, filled with zeros. */
  lemma TailDigits(a: byte, b: byte, t: nat)
    requires t == a as nat * 0x1_0000 + b as nat * 0x100
    ensures BitsOf(t / 0x4_0000 % 64, 6) + BitsOf(t / 0x1000 % 64, 6) + BitsOf(t / 64 % 64, 6)
         == BitsOf(a, 8) + BitsOf(b, 8) + Zeros(2)
    ensures b == 0 ==>
      BitsOf(t / 0x4_0000 % 64, 6) + BitsOf(t / 0x1000 % 64, 6) == BitsOf(a, 8) + Zeros(4)
  {
    hide *;
    TripleDigits(a, b, 0, t);
    ZeroBits(8);
    ZeroBits(6);
    LowDigitIsZero(a, b, t);
    BitCounts(a, b, t);
    CutTail(BitsOf(t / 0x4_0000 % 64, 6), BitsOf(t / 0x1000 % 64, 6), BitsOf(t / 64 % 64, 6),
            BitsOf(a, 8), BitsOf(b, 8));
  }

  lemma LowDigitIsZero(a: byte, b: byte, t: nat)
    requires t == a as nat * 0x1_0000 + b as nat * 0x100
    ensures t % 64 == 0
  {
  }

  lemma BitCounts(a: byte, b: byte, t: nat)
    ensures |BitsOf(t / 0x4_0000 % 64, 6)| == |BitsOf(t / 0x1000 % 64, 6)| == |BitsOf(t / 64 % 64, 6)| == 6
    ensures |BitsOf(a, 8)| == |BitsOf(b, 8)| == 8
  {
  }

  lemma CutTail(d1: seq<bool>, d2: seq<bool>, d3: seq<bool>, a: seq<bool>, b: seq<bool>)
    requires |d1| == |d2| == |d3| == 6 && |a| == |b| == 8
    requires d1 + d2 + d3 + Zeros(6) == a + b + Zeros(8)
    ensures d1 + d2 + d3 == a + b + Zeros(2)
    ensures b == Zeros(8) ==> d1 + d2 == a + Zeros(4)
  {
    var whole := a + b + Zeros(8);
    assert d1 + d2 + d3 == whole[..18] == a + b + Zeros(2);
    assert d1 + d2 == whole[..12];
    assert b == Zeros(8) ==> whole[..12] == a + Zeros(4);
  }

  lemma {:induction false} ZeroBits(n: nat)
    ensures BitsOf(0, n) == Zeros(n)
    decreases n
  {
    if n > 0 {
      ZeroBits(n - 1);
    }
  }

  lemma {:induction false} SymbolsAddOne(ds: seq<sextet>, d: sextet, urlSafe: bool)
    ensures Symbols(ds + [d], urlSafe) == Symbols(ds, urlSafe) + [Symbol(d, urlSafe)]
    decreases |ds|
  {
    if ds == [] {
      assert [] + [d] == [d];
    } else {
      assert (ds + [d])[1..] == ds[1..] + [d];
      SymbolsAddOne(ds[1..], d, urlSafe);
    }
  }

  /** Appends one symbol; the digits so far are tracked beside the text. */
  method Emit(output: seq<byte>, ghost ds: seq<sextet>, d: sextet, urlSafe: bool)
    returns (output': seq<byte>, ghost ds': seq<sextet>)
    requires output == Symbols(ds, urlSafe)
    ensures ds' == ds + [d] && output' == Symbols(ds', urlSafe) && output' == output + [Symbol(d, urlSafe)]
    ensures Bits(ds', 6) == Bits(ds, 6) + BitsOf(d, 6)
  {
    output', ds' := output + [Symbol(d, urlSafe)], ds + [d];
    SymbolsAddOne(ds, d, urlSafe);
    BitsAddOne(ds, d, 6);
  }

  /** One full chunk: three octets become four symbols. */
  method EncodeChunk(a: byte, b: byte, c: byte, text: seq<byte>, ghost ds0: seq<sextet>, urlSafe: bool)
    returns (output: seq<byte>, ghost ds: seq<sextet>)
    requires text == Symbols(ds0, urlSafe)
    ensures output == Symbols(ds, urlSafe)
    ensures Bits(ds, 6) == Bits(ds0, 6) + (BitsOf(a, 8) + BitsOf(b, 8) + BitsOf(c, 8))
  {
    hide *;
    var triple := a as nat * 0x1_0000 + b as nat * 0x100 + c as nat;
    output, ds := Emit(text, ds0, triple / 0x4_0000 % 64, urlSafe);
    output, ds := Emit(output, ds, triple / 0x1000 % 64, urlSafe);
    output, ds := Emit(output, ds, triple / 64 % 64, urlSafe);
    output, ds := Emit(output, ds, triple % 64, urlSafe);
    TripleDigits(a, b, c, triple);
    Regroup(Bits(ds0, 6), BitsOf(triple / 0x4_0000 % 64, 6), BitsOf(triple / 0x1000 % 64, 6),
            BitsOf(triple / 64 % 64, 6), BitsOf(triple % 64, 6));
  }

  lemma NoDigits(data: seq<byte>, urlSafe: bool)
    ensures Bits([], 6) == Bits(data[..0], 8) && Symbols([], urlSafe) == []
  {
  }

  method EncodeChunks(data: seq<byte>, full: nat, urlSafe: bool) returns (output: seq<byte>, ghost ds: seq<sextet>)
    requires full % 3 == 0 && full <= |data|
    ensures output == Symbols(ds, urlSafe) && Bits(ds, 6) == Bits(data[..full], 8)
  {
    hide *;
    output, ds := [], [];
    NoDigits(data, urlSafe);
    var i := 0;
    while i < full
      invariant 0 <= i <= full && (full - i) % 3 == 0
      invariant output == Symbols(ds, urlSafe) && Bits(ds, 6) == Bits(data[..i], 8)
    {
      ThreeLeft(full - i);
      output, ds := EncodeChunk(data[i], data[i + 1], data[i + 2], output, ds, urlSafe);
      ThreeMore(data, i);
      i := i + 3;
    }
  }

  method Encode(data: seq<byte>, urlSafe: bool, usePadding: bool) returns (output: seq<byte>)
    ensures output == Encoded(data, urlSafe, usePadding)
  {
    hide *;
    ghost var ds;
    var full := |data| / 3 * 3;
    output, ds := EncodeChunks(data, full, urlSafe);
    if full < |data| {
      output := EncodeTail(data, full, output, ds, urlSafe, usePadding);
    } else {
      assert data[..full] == data;
      EncodedIs(data, urlSafe, usePadding, ds, 0);
    }
  }

  lemma ThreeLeft(n: int)
    requires n > 0 && n % 3 == 0
    ensures n >= 3 && (n - 3) % 3 == 0
  {
  }

  /** The last one or two octets, and the padding. */
  method EncodeTail(data: seq<byte>, i: nat, text: seq<byte>, ghost ds0: seq<sextet>, urlSafe: bool, usePadding: bool)
    returns (output: seq<byte>)
    requires i % 3 == 0 && i < |data| < i + 3
    requires text == Symbols(ds0, urlSafe) && Bits(ds0, 6) == Bits(data[..i], 8)
    ensures output == Encoded(data, urlSafe, usePadding)
  {
    hide *;
    ghost var ds;
    var triple := data[i] as nat * 0x1_0000;
    if i + 1 < |data| {
      triple := triple + data[i + 1] as nat * 0x100;
    }
    var d1, d2, d3: sextet := triple / 0x4_0000 % 64, triple / 0x1000 % 64, triple / 64 % 64;
    output, ds := Emit(text, ds0, d1, urlSafe);
    output, ds := Emit(output, ds, d2, urlSafe);
    if i + 1 < |data| {
      TwoLeft(data, i, ds0, triple, urlSafe, usePadding);
      output, ds := Emit(output, ds, d3, urlSafe);
      if usePadding {
        output := output + [PAD];
      }
    } else {
      OneLeft(data, i, ds0, triple, urlSafe, usePadding);
      if usePadding {
        output := output + [PAD, PAD];
      }
    }
  }

  lemma TwoLeft(data: seq<byte>, i: nat, ds0: seq<sextet>, t: nat, urlSafe: bool, usePadding: bool)
    requires i % 3 == 0 && i + 2 == |data| && Bits(ds0, 6) == Bits(data[..i], 8)
    requires t == data[i] as nat * 0x1_0000 + data[i + 1] as nat * 0x100
    ensures Encoded(data, urlSafe, usePadding)
         == Symbols(ds0 + [t / 0x4_0000 % 64] + [t / 0x1000 % 64] + [t / 64 % 64], urlSafe)
            + if usePadding then [PAD] else []
  {
    hide *;
    var d1, d2, d3: sextet := t / 0x4_0000 % 64, t / 0x1000 % 64, t / 64 % 64;
    BitsAddOne(ds0, d1, 6);
    BitsAddOne(ds0 + [d1], d2, 6);
    BitsAddOne(ds0 + [d1] + [d2], d3, 6);
    TailDigits(data[i], data[i + 1], t);
    Regroup(Bits(ds0, 6), BitsOf(d1, 6), BitsOf(d2, 6), BitsOf(d3, 6), []);
    BitsAddOne(data[..i], data[i], 8);
    BitsAddOne(data[..i] + [data[i]], data[i + 1], 8);
    assert data == data[..i] + [data[i]] + [data[i + 1]];
    Regroup(Bits(data[..i], 8), BitsOf(data[i], 8), BitsOf(data[i + 1], 8), Zeros(2), []);
    EncodedIs(data, urlSafe, usePadding, ds0 + [d1] + [d2] + [d3], 2);
  }

  lemma OneLeft(data: seq<byte>, i: nat, ds0: seq<sextet>, t: nat, urlSafe: bool, usePadding: bool)
    requires i % 3 == 0 && i + 1 == |data| && Bits(ds0, 6) == Bits(data[..i], 8) && t == data[i] as nat * 0x1_0000
    ensures Encoded(data, urlSafe, usePadding)
         == Symbols(ds0 + [t / 0x4_0000 % 64] + [t / 0x1000 % 64], urlSafe) + if usePadding then [PAD, PAD] else []
  {
    hide *;
    var d1, d2: sextet := t / 0x4_0000 % 64, t / 0x1000 % 64;
    BitsAddOne(ds0, d1, 6);
    BitsAddOne(ds0 + [d1], d2, 6);
    TailDigits(data[i], 0, t);
    Regroup(Bits(ds0, 6), BitsOf(d1, 6), BitsOf(d2, 6), [], []);
    BitsAddOne(data[..i], data[i], 8);
    assert data == data[..i] + [data[i]];
    Regroup(Bits(data[..i], 8), BitsOf(data[i], 8), Zeros(4), [], []);
    EncodedIs(data, urlSafe, usePadding, ds0 + [d1] + [d2], 4);
  }

  lemma EncodedIs(data: seq<byte>, urlSafe: bool, usePadding: bool, ds: seq<sextet>, k: nat)
    requires Bits(ds, 6) == Bits(data, 8) + (if k == 0 then [] else Zeros(k))
    requires k == if |data| % 3 == 0 then 0 else if |data| % 3 == 1 then 4 else 2
    ensures Encoded(data, urlSafe, usePadding) == Symbols(ds, urlSafe)
      + (if !usePadding || k == 0 then [] else if k == 4 then [PAD, PAD] else [PAD])
  {
    hide Bits, Sextets, Symbols;
    assert k == 0 ==> Zeros(k) == [];
    SextetsUnique(Bits(data, 8), ds, k);
  }

  lemma ThreeMore(data: seq<byte>, i: nat)
    requires i + 3 <= |data|
    ensures Bits(data[..i + 3], 8)
         == Bits(data[..i], 8) + (BitsOf(data[i], 8) + BitsOf(data[i + 1], 8) + BitsOf(data[i + 2], 8))
  {
    hide Bits, BitsOf;
    BitsAddOne(data[..i], data[i], 8);
    BitsAddOne(data[..i + 1], data[i + 1], 8);
    BitsAddOne(data[..i + 2], data[i + 2], 8);
    assert data[..i + 1] == data[..i] + [data[i]];
    assert data[..i + 2] == data[..i + 1] + [data[i + 1]];
    assert data[..i + 3] == data[..i + 2] + [data[i + 2]];
  }

  // ------------------------------------------------------------- the decoder

  /** The 32-bit accumulator drops its top bits; the twelve in use are never among them. */
  lemma WrapHarmless(x: nat, n: nat)
    requires n <= 12
    ensures BitsOf(x % 0x1_0000_0000, n) == BitsOf(x, n)
  {
    hide Pow2, BitsOf;
    SmallPowers();
    var y := x % 0x1_0000_0000;
    LowTwelve(x);
    BitsAppend(x, x / 0x1000, 0, x % 0x1000, 12);
    BitsAppend(y, y / 0x1000, 0, y % 0x1000, 12);
    NoBits(x / 0x1000);
    NoBits(y / 0x1000);
    BitsSuffix(x, 12 - n, n);
    BitsSuffix(y, 12 - n, n);
  }

  lemma LowTwelve(x: nat)
    ensures x % 0x1_0000_0000 % 0x1000 == x % 0x1000
  {
    var q, y := x / 0x1_0000_0000, x % 0x1_0000_0000;
    QuotientUnique(x, 0x1000, q * 0x10_0000 + y / 0x1000, y % 0x1000);
  }

  /** Six more bits arrive; a full octet, if there is one, leaves at the top. */
  lemma Accumulate(buffer: nat, value: sextet, bits: nat, next: nat)
    requires bits in {0, 2, 4, 6} && next == (buffer * 64 + value) % 0x1_0000_0000
    ensures BitsOf(next, bits + 6) == BitsOf(buffer, bits) + BitsOf(value, 6)
    ensures bits == 2 ==> BitsOf(next, 8) == BitsOf(next % 256, 8) + BitsOf(next, 0)
    ensures bits == 4 ==> BitsOf(next, 10) == BitsOf(next / 4 % 256, 8) + BitsOf(next, 2)
    ensures bits == 6 ==> BitsOf(next, 12) == BitsOf(next / 16 % 256, 8) + BitsOf(next, 4)
  {
    hide Pow2, BitsOf;
    SmallPowers();
    WrapHarmless(buffer * 64 + value, bits + 6);
    BitsAppend(buffer * 64 + value, buffer, bits, value, 6);
    SplitAt(next, 8, 2, next / 4);
    SplitAt(next, 8, 4, next / 16);
    LowEight(next);
    LowEight(next / 4);
    LowEight(next / 16);
    NoBits(next);
  }

  lemma LowEight(x: nat)
    ensures BitsOf(x, 8) == BitsOf(x % 256, 8)
  {
    hide Pow2, BitsOf;
    SmallPowers();
    BitsAppend(x, x / 256, 0, x % 256, 8);
    NoBits(x / 256);
  }

  /** buffer >> bits, for the shifts that occur. */
  function ShiftRight(buffer: nat, bits: nat): nat {
    if bits == 0 then buffer else if bits == 2 then buffer / 4 else buffer / 16
  }

  method Decode(input: seq<byte>, urlSafe: bool) returns (result: Result<seq<byte>>)
    ensures result == Decoded(input, urlSafe)
  {
    hide *;
    var padding, len := 0, |input|;
    assert input[..|input|] == input;
    while len > 0 && input[len - 1] == PAD
      invariant 0 <= len <= |input| && padding == |input| - len
      invariant Unpadded(input[..len]) == Unpadded(input)
    {
      PaddingOff(input, len);
      padding, len := padding + 1, len - 1;
    }
    NothingToStrip(input, len);
    DecodedByParts(input, urlSafe, input[..len]);
    if padding > 2 {
      return DecodingError;
    }
    result := DecodeBody(input[..len], urlSafe);
  }

  lemma PaddingOff(s: seq<byte>, n: nat)
    requires 0 < n <= |s| && s[n - 1] == PAD
    ensures Unpadded(s[..n]) == Unpadded(s[..n - 1])
  {
    assert s[..n][..n - 1] == s[..n - 1];
  }

  lemma NothingToStrip(s: seq<byte>, n: nat)
    requires n <= |s| && (n == 0 || s[n - 1] != PAD)
    ensures Unpadded(s[..n]) == s[..n]
  {
  }

  lemma DecodedByParts(s: seq<byte>, urlSafe: bool, u: seq<byte>)
    requires u == Unpadded(s)
    ensures Decoded(s, urlSafe)
         == if |s| - |u| > 2 || HasForeign(u, urlSafe) then DecodingError
            else Ok(Octets(Bits(Digits(u, urlSafe), 6)))
  {
    hide Unpadded, HasForeign, Octets, Bits, Digits;
  }

  method DecodeBody(s: seq<byte>, urlSafe: bool) returns (result: Result<seq<byte>>)
    ensures result == if HasForeign(s, urlSafe) then DecodingError else Ok(Octets(Bits(Digits(s, urlSafe), 6)))
  {
    hide *;
    var output: seq<byte> := [];
    var buffer, bits := 0, 0;
    var i := 0;
    NothingRead(s, urlSafe);
    while i < |s|
      invariant 0 <= i <= |s| && bits in {0, 2, 4, 6} && 0 <= buffer < 0x1_0000_0000
      invariant !HasForeign(s[..i], urlSafe)
      invariant Bits(Digits(s[..i], urlSafe), 6) == Bits(output, 8) + BitsOf(buffer, bits)
    {
      var value := Lookup(s[i], urlSafe);
      LookupRange(s[i], urlSafe);
      OneMoreRead(s, i, urlSafe);
      if value < 0 {
        if value == -2 {
          i := i + 1;
          continue;
        }
        return DecodingError;
      }
      output, buffer, bits := TakeDigit(output, buffer, bits, value, Digits(s[..i], urlSafe));
      i := i + 1;
    }
    assert s[..i] == s;
    OctetsOfBytes(output, BitsOf(buffer, bits));
    result := Ok(output);
  }

  lemma OneMoreRead(s: seq<byte>, i: nat, urlSafe: bool)
    requires i < |s|
    ensures var v, before := Lookup(s[i], urlSafe), Digits(s[..i], urlSafe);
      && Digits(s[..i + 1], urlSafe) == (if v >= 0 then before + [v] else before)
      && (HasForeign(s[..i + 1], urlSafe) <==> HasForeign(s[..i], urlSafe) || v == -1)
      && (v == -1 ==> HasForeign(s, urlSafe))
  {
    hide Lookup;
    assert s[..i + 1] == s[..i] + [s[i]] && s[..i + 1][..i] == s[..i];
    assert Digits(s[..i], urlSafe) + [] == Digits(s[..i], urlSafe);
    assert s[i] in s;
  }

  lemma NothingRead(s: seq<byte>, urlSafe: bool)
    ensures Bits(Digits(s[..0], urlSafe), 6) == Bits([], 8) + BitsOf(0, 0)
    ensures !HasForeign(s[..0], urlSafe)
  {
  }

  lemma LookupRange(c: byte, urlSafe: bool)
    ensures -2 <= Lookup(c, urlSafe) < 64
  {
  }

  method TakeDigit(output0: seq<byte>, buffer0: nat, bits0: nat, value: sextet, ghost ds: seq<sextet>)
    returns (output: seq<byte>, buffer: nat, bits: nat)
    requires bits0 in {0, 2, 4, 6} && buffer0 < 0x1_0000_0000
    requires Bits(ds, 6) == Bits(output0, 8) + BitsOf(buffer0, bits0)
    ensures bits in {0, 2, 4, 6} && buffer < 0x1_0000_0000
    ensures Bits(ds + [value], 6) == Bits(output, 8) + BitsOf(buffer, bits)
  {
    hide Bits, BitsOf;
    output := output0;
    buffer := (buffer0 * 64 + value) % 0x1_0000_0000;
    bits := bits0 + 6;
    Accumulate(buffer0, value, bits0, buffer);
    BitsAddOne(ds, value, 6);
    Regroup(Bits(output0, 8), BitsOf(buffer0, bits0), BitsOf(value, 6), [], []);
    if bits >= 8 {
      bits := bits - 8;
      var octet := ShiftRight(buffer, bits) % 256;
      output := output + [octet];
      BitsAddOne(output0, octet, 8);
      Regroup(Bits(output0, 8), BitsOf(octet, 8), BitsOf(buffer, bits), [], []);
    }
  }

  // ---------------------------------------------------------- the round trips

  lemma SymbolLookup(d: sextet, urlSafe: bool)
    ensures Lookup(Symbol(d, urlSafe), urlSafe) == d && Symbol(d, urlSafe) != PAD
  {
  }

  lemma LookupSymbol(c: byte, urlSafe: bool)
    requires Lookup(c, urlSafe) >= 0
    ensures Lookup(c, urlSafe) < 64 && Symbol(Lookup(c, urlSafe), urlSafe) == c
  {
  }

  lemma {:induction false} DigitsOfSymbols(ds: seq<sextet>, urlSafe: bool)
    ensures var s := Symbols(ds, urlSafe);
      |s| == |ds| && Digits(s, urlSafe) == ds && forall c | c in s :: Lookup(c, urlSafe) >= 0
    decreases |ds|
  {
    hide Symbol, Lookup;
    if ds != [] {
      var n := |ds| - 1;
      var s := Symbols(ds[..n], urlSafe);
      DigitsOfSymbols(ds[..n], urlSafe);
      SymbolsAddOne(ds[..n], ds[n], urlSafe);
      SymbolLookup(ds[n], urlSafe);
      assert ds[..n] + [ds[n]] == ds;
      assert Symbols(ds, urlSafe)[..n] == s;
    }
  }

  lemma {:induction false} UnpaddedText(s: seq<byte>, p: seq<byte>)
    requires (forall i | 0 <= i < |p| :: p[i] == PAD) && (s == [] || s[|s| - 1] != PAD)
    ensures Unpadded(s + p) == s
    decreases |p|
  {
    if p == [] {
      assert s + p == s;
    } else {
      var n := |p| - 1;
      assert (s + p)[..|s + p| - 1] == s + p[..n];
      UnpaddedText(s, p[..n]);
    }
  }

  /** The digits the encoder chooses for some octets, and the zeros it adds. */
  lemma SextetBits(data: seq<byte>) returns (k: nat)
    ensures k == (if |data| % 3 == 0 then 0 else if |data| % 3 == 1 then 4 else 2)
    ensures Bits(Sextets(Bits(data, 8)), 6) == Bits(data, 8) + Zeros(k)
  {
    var bits := Bits(data, 8);
    k := if |data| % 3 == 0 then 0 else if |data| % 3 == 1 then 4 else 2;
    hide *;
    SextetFill(|data|, |data| / 3, |data| % 3);
    BitsOfSextets(bits, k);
  }

  lemma SextetFill(n: nat, q: nat, r: nat)
    requires n == 3 * q + r
    ensures r == 0 ==> 8 * n % 6 == 0
    ensures r == 1 ==> (8 * n + 4) % 6 == 0
    ensures r == 2 ==> (8 * n + 2) % 6 == 0
  {
    if r == 0 {
      QuotientUnique(8 * n, 6, 4 * q, 0);
    } else if r == 1 {
      QuotientUnique(8 * n + 4, 6, 4 * q + 2, 0);
    } else if r == 2 {
      QuotientUnique(8 * n + 2, 6, 4 * q + 3, 0);
    }
  }

  lemma {:induction false} BitsOfSextets(bits: seq<bool>, k: nat)
    requires k < 6 && (|bits| + k) % 6 == 0
    ensures Bits(Sextets(bits), 6) == bits + Zeros(k)
    decreases |bits|
  {
    hide BitsOf, Number;
    if bits == [] {
      assert Zeros(0) == [];
    } else if |bits| < 6 {
      BitsOfNumber(bits + Zeros(k));
      assert Bits(Sextets(bits), 6) == bits + Zeros(k) + [];
    } else {
      BitsOfNumber(bits[..6]);
      BitsOfSextets(bits[6..], k);
      assert bits == bits[..6] + bits[6..];
    }
  }

  /** Main result: decoding undoes encoding for every octet string, in both
      alphabets, padded or not. */
  lemma DecodeAfterEncode(data: seq<byte>, urlSafe: bool, usePadding: bool)
    ensures Decoded(Encoded(data, urlSafe, usePadding), urlSafe) == Ok(data)
  {
    hide Bits, Sextets, Octets, Symbols, Digits, Lookup, Unpadded;
    var ds, p := Sextets(Bits(data, 8)), Padding(|data|, usePadding);
    var s := Symbols(ds, urlSafe);
    DigitsOfSymbols(ds, urlSafe);
    if s != [] {
      assert s[|s| - 1] in s;
      PadIsNoDigit(urlSafe);
    }
    UnpaddedText(s, p);
    var k := SextetBits(data);
    OctetsOfBytes(data, Zeros(k));
  }

  lemma PadIsNoDigit(urlSafe: bool)
    ensures Lookup(PAD, urlSafe) == -2
  {
  }

  /** Canonical text (RFC 4648, sections 3.5 and 4): only symbols, the exact
      padding, and zeros in the bits that encode nothing. */
  ghost predicate Canonical(s: seq<byte>, urlSafe: bool, usePadding: bool) {
    var u := Unpadded(s);
    var n := |u| % 4;
    && (forall i | 0 <= i < |u| :: Lookup(u[i], urlSafe) >= 0)
    && n != 1
    && |s| - |u| == (if !usePadding || n == 0 then 0 else 4 - n)
    && (n == 2 ==> Lookup(u[|u| - 1], urlSafe) % 16 == 0)
    && (n == 3 ==> Lookup(u[|u| - 1], urlSafe) % 4 == 0)
  }

  lemma {:induction false} SymbolsOfDigits(u: seq<byte>, urlSafe: bool)
    requires forall i | 0 <= i < |u| :: Lookup(u[i], urlSafe) >= 0
    ensures var ds := Digits(u, urlSafe);
      Symbols(ds, urlSafe) == u && |ds| == |u| && (u != [] ==> ds[|u| - 1] == Lookup(u[|u| - 1], urlSafe))
    decreases |u|
  {
    hide Lookup, Symbol;
    if u != [] {
      var n := |u| - 1;
      SymbolsOfDigits(u[..n], urlSafe);
      LookupSymbol(u[n], urlSafe);
      SymbolsAddOne(Digits(u[..n], urlSafe), Lookup(u[n], urlSafe), urlSafe);
      assert u[..n] + [u[n]] == u;
    }
  }

  lemma {:induction false} BitsOfOctets(bits: seq<bool>)
    ensures |Octets(bits)| == |bits| / 8 && Bits(Octets(bits), 8) == bits[..|bits| - |bits| % 8]
    decreases |bits|
  {
    hide BitsOf, Number;
    if |bits| >= 8 {
      BitsOfNumber(bits[..8]);
      BitsOfOctets(bits[8..]);
      assert |bits[8..]| % 8 == |bits| % 8 && |bits[8..]| / 8 == |bits| / 8 - 1;
      assert bits[..|bits| - |bits| % 8] == bits[..8] + bits[8..][..|bits[8..]| - |bits| % 8];
    }
  }

  lemma TrailingZeros(d: sextet)
    ensures d % 16 == 0 <==> BitsOf(d, 4) == Zeros(4)
    ensures d % 4 == 0 <==> BitsOf(d, 2) == Zeros(2)
  {
    hide BitsOf, Number, Pow2;
    SmallPowers();
    ZeroBits(4);
    ZeroBits(2);
    BitsAppend(d, d / 16, 0, d % 16, 4);
    BitsAppend(d, d / 4, 0, d % 4, 2);
    NoBits(d / 16);
    NoBits(d / 4);
    NumberOfBits(d % 16, 4);
    NumberOfBits(0, 4);
    NumberOfBits(d % 4, 2);
    NumberOfBits(0, 2);
  }

  lemma LastBits(ds: seq<sextet>, k: nat)
    requires ds != [] && k <= 6
    ensures Bits(ds, 6)[6 * |ds| - k..] == BitsOf(ds[|ds| - 1], k)
  {
    hide BitsOf;
    var n := |ds| - 1;
    BitsAddOne(ds[..n], ds[n], 6);
    assert ds[..n] + [ds[n]] == ds;
    BitsSuffix(ds[n], 6 - k, k);
    assert Bits(ds, 6)[6 * |ds| - k..] == BitsOf(ds[n], 6)[6 - k..];
  }

  /** How many zeros fill the last digit, by the length of the text. */
  ghost function Fill(n: nat): nat {
    if n % 4 == 2 then 4 else if n % 4 == 3 then 2 else 0
  }

  lemma TextLength(n: nat, m: nat)
    requires 6 * n == 8 * m + Fill(n) && n % 4 != 1
    ensures n % 4 == (if m % 3 == 0 then 0 else m % 3 + 1)
  {
    var q, r := n / 4, n % 4;
    assert n == 4 * q + r;
    assert m == 3 * q + (if r == 0 then 0 else r - 1);
  }

  /** Digits whose last one carries only zeros in its spare bits. */
  ghost predicate Filled(ds: seq<sextet>) {
    && |ds| % 4 != 1
    && (|ds| % 4 == 2 ==> ds[|ds| - 1] % 16 == 0)
    && (|ds| % 4 == 3 ==> ds[|ds| - 1] % 4 == 0)
  }

  lemma SpareBits(ds: seq<sextet>)
    requires Filled(ds)
    ensures var r := Fill(|ds|); r <= |Bits(ds, 6)| && Bits(ds, 6)[|Bits(ds, 6)| - r..] == Zeros(r)
  {
    hide Bits, BitsOf;
    if ds != [] {
      LastBits(ds, Fill(|ds|));
      TrailingZeros(ds[|ds| - 1]);
      NoBits(ds[|ds| - 1]);
    }
  }

  lemma FilledOctets(ds: seq<sextet>)
    requires Filled(ds)
    ensures var x := Octets(Bits(ds, 6));
      Bits(ds, 6) == Bits(x, 8) + Zeros(Fill(|ds|)) && 6 * |ds| == 8 * |x| + Fill(|ds|)
  {
    var n, bits := |ds|, Bits(ds, 6);
    hide *;
    SpareBits(ds);
    BitsOfOctets(bits);
    SixEighths(n, n / 4, n % 4);
    var cut := |bits| - Fill(n);
    assert bits == bits[..cut] + bits[cut..];
  }

  lemma CanonicalIsEncoded(s: seq<byte>, urlSafe: bool, usePadding: bool)
    requires Canonical(s, urlSafe, usePadding)
    ensures Decoded(s, urlSafe).Ok? && Encoded(Decoded(s, urlSafe).value, urlSafe, usePadding) == s
  {
    hide Bits, Sextets, Octets, Symbols, Digits, Lookup;
    var u := Unpadded(s);
    var ds := Digits(u, urlSafe);
    SymbolsOfDigits(u, urlSafe);
    assert Filled(ds);
    assert !HasForeign(u, urlSafe);
    var x := Octets(Bits(ds, 6));
    FilledOctets(ds);
    SextetsUnique(Bits(x, 8), ds, Fill(|u|));
    TextLength(|u|, |x|);
    PadTail(s, u, |x|, usePadding);
  }

  lemma PadTail(s: seq<byte>, u: seq<byte>, m: nat, usePadding: bool)
    requires u == Unpadded(s) && |u| % 4 == (if m % 3 == 0 then 0 else m % 3 + 1)
    requires |s| - |u| == (if !usePadding || |u| % 4 == 0 then 0 else 4 - |u| % 4)
    ensures s == u + Padding(m, usePadding)
  {
    assert forall i | |u| <= i < |s| :: s[i] == PAD;
    hide Unpadded;
  }

  lemma SixEighths(n: nat, q: nat, r: nat)
    requires n == 4 * q + r && r < 4 && r != 1
    ensures n * 6 % 8 == Fill(n) && n % 4 == r
  {
    QuotientUnique(n, 4, q, r);
    QuotientUnique(n * 6, 8, 3 * q + 6 * r / 8, 6 * r % 8);
  }

  lemma EncodedIsFilled(data: seq<byte>) returns (ds: seq<sextet>)
    ensures ds == Sextets(Bits(data, 8)) && Filled(ds)
    ensures |ds| % 4 == (if |data| % 3 == 0 then 0 else |data| % 3 + 1)
  {
    hide *;
    ds := Sextets(Bits(data, 8));
    var k := SextetBits(data);
    SextetCount(data, ds, k);
    DigitCount(|ds|, |data|, k);
    SpareIsZero(Bits(data, 8), ds, k);
    FilledByCount(ds, |data|, k);
  }

  lemma SextetCount(data: seq<byte>, ds: seq<sextet>, k: nat)
    requires Bits(ds, 6) == Bits(data, 8) + Zeros(k)
    ensures 6 * |ds| == 8 * |data| + k
  {
    hide BitsOf;
  }

  lemma SpareIsZero(bits: seq<bool>, ds: seq<sextet>, k: nat)
    requires Bits(ds, 6) == bits + Zeros(k) && 6 * |ds| == |bits| + k && k <= 6
    ensures ds != [] ==> BitsOf(ds[|ds| - 1], k) == Zeros(k)
  {
    hide Bits, BitsOf;
    if ds != [] {
      LastBits(ds, k);
    }
  }

  lemma FilledByCount(ds: seq<sextet>, m: nat, k: nat)
    requires |ds| % 4 == (if m % 3 == 0 then 0 else m % 3 + 1)
    requires k == (if m % 3 == 0 then 0 else if m % 3 == 1 then 4 else 2)
    requires ds != [] ==> BitsOf(ds[|ds| - 1], k) == Zeros(k)
    ensures Filled(ds)
  {
    hide BitsOf;
    if ds != [] {
      TrailingZeros(ds[|ds| - 1]);
    }
  }

  lemma EncodedIsCanonical(data: seq<byte>, urlSafe: bool, usePadding: bool)
    ensures Canonical(Encoded(data, urlSafe, usePadding), urlSafe, usePadding)
  {
    hide Bits, Sextets, Symbols, Digits, Lookup, Unpadded, Canonical;
    var ds := EncodedIsFilled(data);
    var p := Padding(|data|, usePadding);
    var u := Symbols(ds, urlSafe);
    DigitsOfSymbols(ds, urlSafe);
    assert forall i | 0 <= i < |u| :: u[i] in u;
    SymbolsOfDigits(u, urlSafe);
    PadIsNoDigit(urlSafe);
    UnpaddedText(u, p);
    FilledIsCanonical(u + p, u, ds, urlSafe, usePadding);
  }

  lemma FilledIsCanonical(s: seq<byte>, u: seq<byte>, ds: seq<sextet>, urlSafe: bool, usePadding: bool)
    requires u == Unpadded(s) && |u| == |ds| && Filled(ds)
    requires forall i | 0 <= i < |u| :: Lookup(u[i], urlSafe) >= 0
    requires u != [] ==> ds[|u| - 1] == Lookup(u[|u| - 1], urlSafe)
    requires |s| - |u| == if !usePadding || |u| % 4 == 0 then 0 else 4 - |u| % 4
    ensures Canonical(s, urlSafe, usePadding)
  {
    hide Unpadded, Lookup;
    var n := |u| % 4;
    if u == [] {
      assert n == 0;
    }
  }

  lemma DigitCount(n: nat, m: nat, k: nat)
    requires 6 * n == 8 * m + k && k == (if m % 3 == 0 then 0 else if m % 3 == 1 then 4 else 2)
    ensures n % 4 == (if m % 3 == 0 then 0 else m % 3 + 1)
  {
    var q, r := m / 3, m % 3;
    assert m == 3 * q + r;
    assert n == 4 * q + (if r == 0 then 0 else r + 1);
  }

  /** Main result: encoding undoes decoding exactly on canonical text. */
  lemma EncodeAfterDecode(s: seq<byte>, urlSafe: bool, usePadding: bool)
    ensures (Decoded(s, urlSafe).Ok? && Encoded(Decoded(s, urlSafe).value, urlSafe, usePadding) == s)
       <==> Canonical(s, urlSafe, usePadding)
  {
    hide Decoded, Encoded, Canonical;
    if Canonical(s, urlSafe, usePadding) {
      CanonicalIsEncoded(s, urlSafe, usePadding);
    }
    if Decoded(s, urlSafe).Ok? {
      EncodedIsCanonical(Decoded(s, urlSafe).value, urlSafe, usePadding);
    }
  }

  // ------------------------------------------------- the alphabets as RFC 4648 prints them

  const UPPER_CASE := "ABCDEFGHIJKLM" + "NOPQRSTUVWXYZ"
  const LOWER_CASE := "abcdefghijklm" + "nopqrstuvwxyz"

  /** The alphabets of sections 4 and 5. */
  function Alphabet(urlSafe: bool): string {
    UPPER_CASE + LOWER_CASE + "0123456789" + if urlSafe then "-_" else "+/"
  }

  lemma LetterAt(k: nat)
    requires k < 26
    ensures |UPPER_CASE| == |LOWER_CASE| == 26
    ensures UPPER_CASE[k] as int == 65 + k && LOWER_CASE[k] as int == 97 + k
  {
  }

  lemma DigitAt(k: nat)
    requires k < 10
    ensures "0123456789"[k] as int == 48 + k
  {
  }

  /** Digit v is written as the character at position v of the alphabet. */
  lemma SymbolIsPosition(v: sextet, urlSafe: bool)
    ensures |Alphabet(urlSafe)| == 64 && Symbol(v, urlSafe) == Alphabet(urlSafe)[v] as int
  {
    hide UPPER_CASE, LOWER_CASE;
    LetterAt(v % 26);
    if 52 <= v < 62 {
      DigitAt(v - 52);
    }
  }

  /** Upper and lower case letters, digits and the two symbols of the chosen alphabet. */
  predicate IsBase64(c: char, urlSafe: bool) {
    || 'A' <= c <= 'Z' || 'a' <= c <= 'z' || '0' <= c <= '9'
    || (if urlSafe then c == '-' || c == '_' else c == '+' || c == '/')
  }

  /** Reading is the inverse of the position in the alphabet, '=' is skipped, and the rest
      is refused. */
  lemma LookupIsPosition(c: byte, urlSafe: bool)
    ensures |Alphabet(urlSafe)| == 64
    ensures forall v | 0 <= v < 64 :: Lookup(c, urlSafe) == v <==> Alphabet(urlSafe)[v] as int == c
    ensures Lookup(c, urlSafe) == -2 <==> c as char == '='
    ensures Lookup(c, urlSafe) == -1 <==> c as char != '=' && !IsBase64(c as char, urlSafe)
  {
    forall v: sextet
      ensures Symbol(v, urlSafe) == Alphabet(urlSafe)[v] as int && Lookup(Symbol(v, urlSafe), urlSafe) == v
    {
      SymbolIsPosition(v, urlSafe);
      SymbolLookup(v, urlSafe);
    }
    if Lookup(c, urlSafe) >= 0 {
      LookupSymbol(c, urlSafe);
    }
    hide Alphabet, Symbol;
  }

  lemma {:induction false} TrailingPads(s: seq<byte>)
    ensures |s| - |Unpadded(s)| > 2
        <==> |s| >= 3 && s[|s| - 1] == PAD && s[|s| - 2] == PAD && s[|s| - 3] == PAD
  {
    var u := Unpadded(s);
    if |s| - |u| > 2 {
      assert s[|s| - 1] == PAD && s[|s| - 2] == PAD && s[|s| - 3] == PAD;
    } else if u != [] {
      assert u[|u| - 1] == s[|u| - 1];
    }
    hide Unpadded;
  }

  /** Main result on refusals: decoding fails exactly on text that ends in three pads or
      holds a character that is neither a pad nor of the chosen alphabet. */
  lemma FailsExactly(s: seq<byte>, urlSafe: bool)
    ensures Decoded(s, urlSafe) == DecodingError
        <==> (|s| >= 3 && forall i | |s| - 3 <= i < |s| :: s[i] as char == '=')
             || exists c | c in s :: c as char != '=' && !IsBase64(c as char, urlSafe)
  {
    TrailingPads(s);
    var u := Unpadded(s);
    forall c: byte
      ensures Lookup(c, urlSafe) == -1 <==> c as char != '=' && !IsBase64(c as char, urlSafe)
    {
      LookupIsPosition(c, urlSafe);
    }
    forall c | c in s
      ensures c in u || c as char == '='
    {
      var i :| 0 <= i < |s| && s[i] == c;
      assert i < |u| ==> u[i] == c;
    }
    assert forall c | c in u :: c in s;
    hide Unpadded, Lookup, IsBase64, Octets, Bits, Digits;
  }
}
