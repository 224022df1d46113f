/** The binary form of a data point: an address and a value, each behind its length,
    then fixed-width fields, all in the byte order of memory. */
module DataPointCodec {
  import opened Bytes

  /** A value is its type tag and its octets, wherever they are stored. */
  datatype Value = Value(kind: byte, data: seq<byte>)

  datatype Point = Point(
    address: seq<byte>, value: Value, timestamp: int64,
    protocolId: uint16, quality: byte, sequenceNumber: uint32)

  /** Lengths fit their fields: 16 bits for the address, size_t for the whole value. */
  ghost predicate Fits(p: Point) {
    |p.address| < 0x1_0000 && |p.value.data| + 9 < 0x1_0000_0000_0000_0000
  }

  /** A read either gives a result and the octets behind it, or refuses, or asks for
      so much memory that the allocation aborts the process. */
  datatype Parse<T> = Parsed(value: T, rest: seq<byte>) | Rejected | Aborted

  // ---------------------------------------------------------- the wire format

  ghost function Unsigned(i: int64): nat { i % 0x1_0000_0000_0000_0000 }

  ghost function ValueWire(v: Value): seq<byte> {
    [v.kind] + LittleEndian(|v.data| % 0x1_0000_0000_0000_0000, 8) + v.data
  }

  ghost function FieldsWire(p: Point): seq<byte> {
    LittleEndian(Unsigned(p.timestamp), 8) + LittleEndian(p.protocolId, 2) + [p.quality]
    + LittleEndian(p.sequenceNumber, 4)
  }

  ghost function Wire(p: Point): seq<byte> {
    LittleEndian(|p.address| % 0x1_0000, 2) + p.address + ValueWire(p.value) + FieldsWire(p)
  }

  /** Value::deserialize. The sum of offset and size wraps around in size_t. */
  ghost function ParseValue(r: seq<byte>): Parse<Value> {
    if |r| < 9 then Rejected
    else
      var size := LittleEndianValue(r[1..9]);
      if |r| < (9 + size) % 0x1_0000_0000_0000_0000 then Rejected
      else if |r| < 9 + size then Aborted
      else Parsed(Value(r[0], r[9..9 + size]), r[9 + size..])
  }

  ghost function ReadNumber(r: seq<byte>, from: nat, n: nat): (v: nat)
    requires from + n <= |r|
    ensures v < Pow256(n)
  {
    LittleEndianBound(r[from..from + n]);
    LittleEndianValue(r[from..from + n])
  }

  ghost function ParseFields(address: seq<byte>, v: Value, r: seq<byte>): Parse<Point> {
    if |r| < 15 then Rejected
    else
      Widths();
      var timestamp := Signed(ReadNumber(r, 0, 8), 0x8000_0000_0000_0000);
      Parsed(Point(address, v, timestamp, ReadNumber(r, 8, 2), r[10], ReadNumber(r, 11, 4)), r[15..])
  }

  /** DataPoint::deserialize, with the octets it does not look at. */
  ghost function ParsePoint(r: seq<byte>): Parse<Point> {
    if |r| < 2 then Rejected
    else
      var n := ReadNumber(r, 0, 2);
      if |r| < 2 + n then Rejected
      else
        match ParseValue(r[2 + n..])
        case Rejected => Rejected
        case Aborted => Aborted
        case Parsed(v, rest) => ParseFields(r[2..2 + n], v, rest)
  }

  /** The address and its length are there. */
  ghost predicate AddressComplete(r: seq<byte>) {
    |r| >= 2 && |r| >= 2 + ReadNumber(r, 0, 2)
  }

  ghost function BehindAddress(r: seq<byte>): (rest: seq<byte>)
    requires AddressComplete(r)
    ensures |r| - |rest| >= 2
  {
    r[2 + ReadNumber(r, 0, 2)..]
  }

  // --------------------------------------------- sizes that wrap the length check

  /** A size so large that the sum with its offset wraps around, and more than is there. */
  ghost predicate SizeWraps(r: seq<byte>) {
    && |r| >= 9
    && var size := LittleEndianValue(r[1..9]);
       size >= 0x1_0000_0000_0000_0000 - 9 && |r| < 9 + size
  }

  lemma ValueAbortsExactly(r: seq<byte>)
    ensures ParseValue(r) == Aborted <==> SizeWraps(r)
  {
    if |r| >= 9 {
      Widths();
      LittleEndianBound(r[1..9]);
      hide LittleEndianValue;
      SumWraps(LittleEndianValue(r[1..9]), |r|);
    }
  }

  lemma SumWraps(size: uint64, n: nat)
    requires n >= 9
    ensures (9 + size) % 0x1_0000_0000_0000_0000 <= n < 9 + size
       <==> size >= 0x1_0000_0000_0000_0000 - 9 && n < 9 + size
  {
  }

  /** Main result on malformed input: reading a point aborts if and only if its address is
      complete and the size of its value wraps the length check. */
  lemma AbortsExactly(r: seq<byte>)
    ensures ParsePoint(r) == Aborted <==> AddressComplete(r) && SizeWraps(BehindAddress(r))
  {
    hide ParseValue, SizeWraps, LittleEndianValue;
    if AddressComplete(r) {
      ValueAbortsExactly(BehindAddress(r));
    }
  }

  /** Such an input: no address, and a size of eight octets of ones. */
  lemma AllOnesAborts(kind: byte)
    ensures ParsePoint([0, 0, kind, 255, 255, 255, 255, 255, 255, 255, 255]) == Aborted
  {
    hide ParsePoint, ParseValue, LittleEndianValue;
    var r := [0, 0, kind, 255, 255, 255, 255, 255, 255, 255, 255];
    NoLength(r);
    var ones := [255, 255, 255, 255, 255, 255, 255, 255];
    AllOnes();
    assert BehindAddress(r) == [kind] + ones && ([kind] + ones)[1..9] == ones;
    AbortsExactly(r);
  }

  lemma NoLength(r: seq<byte>)
    requires |r| >= 2 && r[0] == r[1] == 0
    ensures ReadNumber(r, 0, 2) == 0
  {
    assert r[0..2] == [0, 0] && [0, 0][1..] == [0] && [0][1..] == [];
    assert LittleEndianValue([0, 0]) == 0;
  }

  lemma AllOnes()
    ensures LittleEndianValue([255, 255, 255, 255, 255, 255, 255, 255]) == 0xFFFF_FFFF_FFFF_FFFF
  {
    var a: seq<byte> := [255, 255];
    var b := a + a;
    assert LittleEndianValue(a) == 0xFFFF;
    assert b == [255, 255, 255, 255];
    assert LittleEndianValue([255, 255, 255, 255]) == 0xFFFF_FFFF;
  }

  // ------------------------------------------------------------- the operations

  method CopyInto(buffer: array<byte>, offset: nat, s: seq<byte>)
    requires offset + |s| <= buffer.Length
    modifies buffer
    ensures buffer[..] == old(buffer[..offset]) + s + old(buffer[offset + |s|..])
  {
    var i := 0;
    while i < |s|
      invariant 0 <= i <= |s|
      invariant buffer[..] == old(buffer[..offset]) + s[..i] + old(buffer[offset + i..])
    {
      buffer[offset + i] := s[i];
      i := i + 1;
    }
    assert s[..i] == s;
  }

  /** The buffer holds what has been written so far, then its former octets. */
  ghost predicate Written(buffer: array<byte>, done: seq<byte>, before: seq<byte>)
    reads buffer
  {
    |done| <= buffer.Length == |before| && buffer[..] == done + before[|done|..]
  }

  /** One memcpy at the current offset. */
  method Put(buffer: array<byte>, offset: nat, s: seq<byte>, ghost done: seq<byte>, ghost before: seq<byte>)
    returns (ghost done': seq<byte>)
    requires Written(buffer, done, before) && offset == |done| && offset + |s| <= buffer.Length
    modifies buffer
    ensures done' == done + s && Written(buffer, done', before)
  {
    CopyInto(buffer, offset, s);
    done' := done + s;
    assert old(buffer[..offset]) == done && old(buffer[offset + |s|..]) == before[offset + |s|..];
  }

  /** Value::serialize at an offset of the enclosing buffer. */
  method SerializeValue(v: Value, buffer: array<byte>, offset: nat, ghost done: seq<byte>, ghost before: seq<byte>)
    returns (ghost done': seq<byte>)
    requires |v.data| < 0x1_0000_0000_0000_0000
    requires Written(buffer, done, before) && offset == |done| && offset + 9 + |v.data| <= buffer.Length
    modifies buffer
    ensures done' == done + ValueWire(v) && Written(buffer, done', before)
  {
    hide LittleEndian, Written;
    done' := Put(buffer, offset, [v.kind], done, before);
    done' := Put(buffer, offset + 1, LittleEndian(|v.data|, 8), done', before);
    if |v.data| > 0 {
      done' := Put(buffer, offset + 9, v.data, done', before);
    }
    assert done' == done + ValueWire(v);
  }

  method SerializeFields(p: Point, buffer: array<byte>, offset: nat, ghost done: seq<byte>, ghost before: seq<byte>)
    returns (ghost done': seq<byte>)
    requires Written(buffer, done, before) && offset == |done| && offset + 15 <= buffer.Length
    modifies buffer
    ensures done' == done + FieldsWire(p) && Written(buffer, done', before)
  {
    hide LittleEndian, Written;
    done' := Put(buffer, offset, LittleEndian(p.timestamp % 0x1_0000_0000_0000_0000, 8), done, before);
    done' := Put(buffer, offset + 8, LittleEndian(p.protocolId, 2), done', before);
    done' := Put(buffer, offset + 10, [p.quality], done', before);
    done' := Put(buffer, offset + 11, LittleEndian(p.sequenceNumber, 4), done', before);
    assert done' == done + FieldsWire(p);
  }

  /** The writes themselves, once there is room for them. */
  method SerializeAll(p: Point, buffer: array<byte>, ghost before: seq<byte>)
    requires Fits(p) && 2 + |p.address| + 9 + |p.value.data| + 15 <= buffer.Length && Written(buffer, [], before)
    modifies buffer
    ensures Written(buffer, Wire(p), before)
  {
    hide LittleEndian, Written, ValueWire, FieldsWire;
    ghost var done := [];
    var offset := 0;
    done := Put(buffer, offset, LittleEndian(|p.address|, 2), done, before);
    offset := offset + 2;
    done := Put(buffer, offset, p.address, done, before);
    offset := offset + |p.address|;
    ValueWireLength(p.value);
    done := SerializeValue(p.value, buffer, offset, done, before);
    offset := offset + 9 + |p.value.data|;
    done := SerializeFields(p, buffer, offset, done, before);
    assert done == Wire(p);
  }

  lemma ValueWireLength(v: Value)
    ensures |ValueWire(v)| == 9 + |v.data|
  {
  }

  /** Writes the point at the start of a span that is large enough, and nothing else. */
  method Serialize(p: Point, buffer: array<byte>)
    requires Fits(p)
    modifies buffer
    ensures buffer[..] == if buffer.Length < |Wire(p)| then old(buffer[..])
                          else Wire(p) + old(buffer[|Wire(p)|..])
  {
    WireLength(p);
    if buffer.Length < 2 + |p.address| + 9 + |p.value.data| + 15 {
      return;
    }
    hide Wire;
    SerializeAll(p, buffer, buffer[..]);
  }

  lemma WireLength(p: Point)
    ensures |Wire(p)| == 2 + |p.address| + 9 + |p.value.data| + 15
  {
    hide LittleEndian;
  }

  /** Longer addresses are stored outside the object. */
  const MAX_INLINE_ADDRESS: nat := 32

  /** A data point object, whose fields deserialize overwrites one by one. */
  class DataPoint {
    var address: seq<byte>
    var value: Value
    var timestamp: int64
    var protocolId: uint16
    var quality: byte
    var sequenceNumber: uint32

    ghost function Contents(): Point
      reads this
    {
      Point(address, value, timestamp, protocolId, quality, sequenceNumber)
    }

    /** Stored outside, the octets of the address are gone; the object keeps their number. */
    method ReleaseAddress()
      modifies this`address
      ensures |address| == |old(address)|
      ensures |address| <= MAX_INLINE_ADDRESS ==> address == old(address)
    {
      if |address| > MAX_INLINE_ADDRESS {
        var released: seq<byte> := *;
        if |released| == |address| {
          address := released;
        }
      }
    }

    /** The outcome's value field carries nothing; the result is in the object. A refused
        read leaves the fixed-width fields alone. The address is replaced as soon as it is
        complete, the value if it is; a value with a refused size has the new type, and
        octets that are not determined. A long address is released before the new one is
        known to be complete, so if it is not, only the length of the old one stays. */
    method Deserialize(buffer: seq<byte>) returns (outcome: Parse<()>)
      modifies this
      ensures match ParsePoint(buffer)
        case Parsed(p, rest) => outcome == Parsed((), rest) && Contents() == p
        case Rejected => outcome == Rejected
        case Aborted => outcome == Aborted
      ensures !outcome.Parsed? ==>
        timestamp == old(timestamp) && protocolId == old(protocolId)
        && quality == old(quality) && sequenceNumber == old(sequenceNumber)
      ensures !outcome.Parsed? ==>
        if !AddressComplete(buffer) then
          && value == old(value)
          && (|buffer| < 2 || |old(address)| <= MAX_INLINE_ADDRESS ==> address == old(address))
          && |address| == |old(address)|
        else
          var r := BehindAddress(buffer);
          && address == buffer[2..|buffer| - |r|]
          && match ParseValue(r)
             case Parsed(v, _) => value == v
             case _ => if |r| < 9 then value == old(value) else value.kind == r[0]
    {
      hide LittleEndianValue;
      Widths();
      if |buffer| < 2 {
        return Rejected;
      }
      ReleaseAddress();
      LittleEndianBound(buffer[0..2]);
      var n := LittleEndianValue(buffer[0..2]);
      var offset := 2;
      if |buffer| < offset + n {
        return Rejected;
      }
      address := buffer[offset..offset + n];
      offset := offset + n;
      var r := buffer[offset..];
      var parsed := DeserializeValue(r);
      if !parsed.Parsed? {
        if |r| >= 9 {
          var octets: seq<byte> := *;
          value := Value(r[0], octets);
        }
        return if parsed.Rejected? then Rejected else Aborted;
      }
      value := parsed.value;
      r := parsed.rest;
      if |r| < 15 {
        return Rejected;
      }
      LittleEndianBound(r[0..8]);
      LittleEndianBound(r[8..10]);
      LittleEndianBound(r[11..15]);
      timestamp := Signed(LittleEndianValue(r[0..8]), 0x8000_0000_0000_0000);
      protocolId := LittleEndianValue(r[8..10]);
      quality := r[10];
      sequenceNumber := LittleEndianValue(r[11..15]);
      outcome := Parsed((), r[15..]);
    }
  }

  method DeserializeValue(buffer: seq<byte>) returns (outcome: Parse<Value>)
    ensures outcome == ParseValue(buffer)
  {
    if |buffer| < 1 + 8 {
      return Rejected;
    }
    var kind := buffer[0];
    var size := LittleEndianValue(buffer[1..9]);
    var offset := 9;
    if |buffer| < (offset + size) % 0x1_0000_0000_0000_0000 {
      return Rejected;
    }
    if |buffer| < offset + size {
      return Aborted;
    }
    outcome := Parsed(Value(kind, buffer[offset..offset + size]), buffer[offset + size..]);
  }

  // ---------------------------------------------------------------- an example

  lemma {:induction false} ZerosLittle(n: nat)
    ensures LittleEndian(0, n) == seq(n, _ => 0)
    decreases n
  {
    if n > 0 {
      ZerosLittle(n - 1);
    }
  }

  lemma {:induction false} OnesLittle(n: nat)
    ensures LittleEndian(Pow256(n) - 1, n) == seq(n, _ => 255)
    decreases n
  {
    if n > 0 {
      OnesLittle(n - 1);
      assert (Pow256(n) - 1) / 256 == Pow256(n - 1) - 1 && (Pow256(n) - 1) % 256 == 255;
    }
  }

  lemma SmallLittle(a: byte, b: byte)
    ensures LittleEndian(a as nat + b as nat * 0x100, 2) == [a, b]
    ensures LittleEndian(a, 4) == [a, 0, 0, 0] && LittleEndian(a, 8) == [a, 0, 0, 0, 0, 0, 0, 0]
  {
    var v := a as nat + b as nat * 0x100;
    assert v / 256 == b as nat && v % 256 == a as nat && a as nat / 256 == 0;
    assert LittleEndian(b as nat, 1) == [b];
    ZerosLittle(3);
    ZerosLittle(7);
  }

  lemma MinusTwoLittle()
    ensures LittleEndian(Unsigned(-2), 8) == [254, 255, 255, 255, 255, 255, 255, 255]
  {
    var v := Unsigned(-2);
    OnesLittle(7);
    assert Pow256(7) == 0x100_0000_0000_0000 by {
      Widths();
    }
    assert v % 256 == 254 && v / 256 == 0x100_0000_0000_0000 - 1;
  }

  /** The point "a" with a value of kind 3 and octets 7 and 8, at -2 nanoseconds, of
      protocol 258, quality 5 and number 2. */
  lemma WireExample()
    ensures Wire(Point([97], Value(3, [7, 8]), -2, 258, 5, 2))
         == [1, 0] + [97] + [3, 2, 0, 0, 0, 0, 0, 0, 0, 7, 8]
            + [254, 255, 255, 255, 255, 255, 255, 255, 2, 1, 5, 2, 0, 0, 0]
  {
    hide LittleEndian, Unsigned;
    SmallLittle(1, 0);
    SmallLittle(2, 1);
    MinusTwoLittle();
  }

  // ------------------------------------------------------ unique decodability

  lemma NumberReads(v: nat, n: nat, r: seq<byte>, from: nat)
    requires v < Pow256(n) && from + n <= |r| && r[from..from + n] == LittleEndian(v, n)
    ensures ReadNumber(r, from, n) == v
  {
    ValueOfLittleEndian(v, n);
  }

  lemma ValueReads(v: Value, tail: seq<byte>)
    requires |v.data| + 9 < 0x1_0000_0000_0000_0000
    ensures ParseValue(ValueWire(v) + tail) == Parsed(v, tail)
  {
    hide LittleEndian, LittleEndianValue;
    Widths();
    var r, n := ValueWire(v) + tail, |v.data|;
    ValueOfLittleEndian(n, 8);
    assert r[1..9] == LittleEndian(n, 8);
    assert r[9..9 + n] == v.data && r[9 + n..] == tail;
  }

  lemma FieldsRead(p: Point, tail: seq<byte>)
    ensures ParseFields(p.address, p.value, FieldsWire(p) + tail) == Parsed(p, tail)
  {
    hide LittleEndian, LittleEndianValue, ReadNumber;
    Widths();
    var r := FieldsWire(p) + tail;
    assert r[0..0 + 8] == LittleEndian(Unsigned(p.timestamp), 8);
    assert r[8..8 + 2] == LittleEndian(p.protocolId, 2);
    assert r[11..11 + 4] == LittleEndian(p.sequenceNumber, 4);
    NumberReads(Unsigned(p.timestamp), 8, r, 0);
    NumberReads(p.protocolId, 2, r, 8);
    NumberReads(p.sequenceNumber, 4, r, 11);
    assert r[15..] == tail;
  }

  /** Main result: reading back what was written gives the point and leaves the rest. */
  lemma RoundTrip(p: Point, tail: seq<byte>)
    requires Fits(p)
    ensures ParsePoint(Wire(p) + tail) == Parsed(p, tail)
  {
    hide LittleEndian, ReadNumber, ParseValue, ParseFields, ValueWire, FieldsWire;
    Widths();
    var r, n := Wire(p) + tail, |p.address|;
    assert r[0..0 + 2] == LittleEndian(n, 2);
    NumberReads(n, 2, r, 0);
    assert r[2..2 + n] == p.address;
    assert r[2 + n..] == ValueWire(p.value) + (FieldsWire(p) + tail);
    ValueReads(p.value, FieldsWire(p) + tail);
    FieldsRead(p, tail);
  }

  lemma ValuePrefixRejected(v: Value, r: seq<byte>)
    requires |v.data| + 9 < 0x1_0000_0000_0000_0000
    requires r < ValueWire(v)
    ensures ParseValue(r) == Rejected
  {
    hide LittleEndian, LittleEndianValue;
    Widths();
    if |r| >= 9 {
      ValueOfLittleEndian(|v.data|, 8);
      assert r[1..9] == ValueWire(v)[1..9] == LittleEndian(|v.data|, 8);
    }
  }

  /** No proper prefix of a serialized point is accepted (or aborts the reader). */
  lemma PrefixRejected(p: Point, n: nat)
    requires Fits(p) && n < |Wire(p)|
    ensures ParsePoint(Wire(p)[..n]) == Rejected
  {
    hide LittleEndian, ReadNumber, ParseValue, ValueWire, FieldsWire;
    Widths();
    var w, r, m := Wire(p), Wire(p)[..n], |p.address|;
    if n >= 2 {
      assert r[0..0 + 2] == w[0..2] == LittleEndian(m, 2);
      NumberReads(m, 2, r, 0);
      if n >= 2 + m {
        var v, f := ValueWire(p.value), FieldsWire(p);
        var u := r[2 + m..];
        assert w[2 + m..] == v + f && u == (v + f)[..n - 2 - m];
        if |u| < |v| {
          assert u == v[..|u|];
          ValuePrefixRejected(p.value, u);
        } else {
          assert u == v + u[|v|..];
          ValueReads(p.value, u[|v|..]);
          FieldsWireLength(p);
        }
      }
    }
  }

  lemma FieldsWireLength(p: Point)
    ensures |FieldsWire(p)| == 15
  {
    hide LittleEndian;
  }

  ghost function Stream(ps: seq<Point>): seq<byte> {
    if ps == [] then [] else Wire(ps[0]) + Stream(ps[1..])
  }

  /** Reads points until the octets are used up; None when a read does not succeed. */
  ghost function ParseStream(r: seq<byte>): Parse<seq<Point>>
    decreases |r|
  {
    if r == [] then Parsed([], [])
    else
      match ParsePoint(r)
      case Parsed(p, rest) =>
        if |rest| < |r| then
          match ParseStream(rest)
          case Parsed(ps, tail) => Parsed([p] + ps, tail)
          case Rejected => Rejected
          case Aborted => Aborted
        else Rejected
      case Rejected => Rejected
      case Aborted => Aborted
  }

  /** Main result: a concatenation of serialized points parses back to the list. */
  lemma {:induction false} StreamRoundTrip(ps: seq<Point>)
    requires forall i | 0 <= i < |ps| :: Fits(ps[i])
    ensures ParseStream(Stream(ps)) == Parsed(ps, [])
    decreases |ps|
  {
    hide ParsePoint, Wire, Fits;
    if ps != [] {
      WireLength(ps[0]);
      RoundTrip(ps[0], Stream(ps[1..]));
      StreamRoundTrip(ps[1..]);
      assert Stream(ps) != [] && ps == [ps[0]] + ps[1..];
    }
  }

  /** So two different lists never have the same octets. */
  lemma UniquelyDecodable(ps: seq<Point>, qs: seq<Point>)
    requires forall i | 0 <= i < |ps| :: Fits(ps[i])
    requires forall i | 0 <= i < |qs| :: Fits(qs[i])
    requires Stream(ps) == Stream(qs)
    ensures ps == qs
  {
    hide Stream, ParseStream;
    StreamRoundTrip(ps);
    StreamRoundTrip(qs);
  }
}
