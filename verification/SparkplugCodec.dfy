/** The simplified Sparkplug data payload: what the sink's encoder writes and
    what the scoop's decoder reads, two separate pieces of code. */

module SparkplugTypes {
  import opened Bytes

  type int8 = x: int | -0x80 <= x < 0x80

  type int16 = x: int | -0x8000 <= x < 0x8000

  type int32 = x: int | -0x8000_0000 <= x < 0x8000_0000

  /** A value on either side; floats are their IEEE 754 bit patterns. */
  datatype Value =
    | Empty
    | Bool(b: bool)
    | Int8(i8: int8)
    | Int16(i16: int16)
    | Int32(i32: int32)
    | Int64(i64: int64)
    | UInt8(u8: byte)
    | UInt16(u16: uint16)
    | UInt32(u32: uint32)
    | UInt64(u64: uint64)
    | Float32(bits32: uint32)
    | Float64(bits64: uint64)
    | Text(s: seq<byte>)
    | Binary(bytes: seq<byte>)

  /** The datatype code from_data_point infers; 0 is Unknown. */
  function DatatypeOf(v: Value): uint32 {
    match v
    case Int8(_) => 1
    case Int16(_) => 2
    case Int32(_) => 3
    case Int64(_) => 4
    case UInt8(_) => 5
    case UInt16(_) => 6
    case UInt32(_) => 7
    case UInt64(_) => 8
    case Float32(_) => 9
    case Float64(_) => 10
    case Bool(_) => 11
    case Text(_) => 12
    case _ => 0
  }

  const TEXT: uint32 := 14

  const BYTES: uint32 := 17

  datatype Definition = Definition(name: seq<byte>, datatype_: uint32, alias: uint64)

  /** A metric as it is handed to encode_data. */
  datatype Entry = Entry(def: Definition, value: Value)

  /** A metric as the decoder reports it. */
  datatype Metric = Metric(name: seq<byte>, alias: uint64, datatype_: uint32, isNull: bool, value: Value)

  datatype Payload = Payload(timestamp: uint64, sequence: uint64, metrics: seq<Metric>)
}

module SparkplugEncoder {
  import opened Arithmetic
  import opened Bytes
  import opened SparkplugTypes

  // ------------------------------------------------------- the wire format

  ghost function StringBytes(s: seq<byte>): seq<byte> {
    BigEndian(|s| % 0x1_0000_0000, 4) + s
  }

  ghost function ValueBytes(v: Value): seq<byte> {
    match v
    case Bool(b) => [if b then 1 else 0]
    case Int8(i) => BigEndian(i % 0x100, 1)
    case Int16(i) => BigEndian(i % 0x1_0000, 2)
    case Int32(i) => BigEndian(i % 0x1_0000_0000, 4)
    case Int64(i) => BigEndian(i % 0x1_0000_0000_0000_0000, 8)
    case UInt8(u) => BigEndian(u, 1)
    case UInt16(u) => BigEndian(u, 2)
    case UInt32(u) => BigEndian(u, 4)
    case UInt64(u) => BigEndian(u, 8)
    case Float32(u) => BigEndian(u, 4)
    case Float64(u) => BigEndian(u, 8)
    case Text(s) => StringBytes(s)
    case _ => [0]
  }

  ghost predicate ByAlias(def: Definition, useAlias: bool) {
    useAlias && def.alias > 0
  }

  ghost function NameBytes(def: Definition, useAlias: bool): seq<byte> {
    if ByAlias(def, useAlias) then [1] + BigEndian(def.alias, 8) else [0] + StringBytes(def.name)
  }

  ghost function EntryBytes(e: Entry, useAlias: bool): seq<byte> {
    NameBytes(e.def, useAlias) + BigEndian(e.def.datatype_, 4) + ValueBytes(e.value)
  }

  ghost function EntriesBytes(es: seq<Entry>, useAlias: bool): seq<byte> {
    if es == [] then [] else EntryBytes(es[0], useAlias) + EntriesBytes(es[1..], useAlias)
  }

  ghost function DataBytes(timestamp: uint64, sequence: uint64, es: seq<Entry>, useAlias: bool): seq<byte> {
    BigEndian(timestamp, 8) + BigEndian(sequence, 8) + BigEndian(|es| % 0x1_0000_0000, 4)
    + EntriesBytes(es, useAlias)
  }

  // ------------------------------------------------------------ the encoder

  /** value >> (i * 8) */
  function ShiftRightBytes(value: nat, i: nat): nat
    decreases i
  {
    if i == 0 then value else ShiftRightBytes(value, i - 1) / 256
  }

  /** The payload vector that every function appends to. */
  class PayloadBuffer {
    var bytes: seq<byte>

    constructor ()
      ensures bytes == []
    {
      bytes := [];
    }

    method Push(b: byte)
      modifies this
      ensures bytes == old(bytes) + [b]
    {
      bytes := bytes + [b];
    }

    /** append_uint32 and append_uint64: count octets, high one first. */
    method AppendUint(value: nat, count: nat)
      modifies this
      ensures bytes == old(bytes) + BigEndian(value, count)
    {
      var i := count;
      assert BigEndian(ShiftRightBytes(value, count), 0) == [];
      while i > 0
        invariant 0 <= i <= count
        invariant bytes == old(bytes) + BigEndian(ShiftRightBytes(value, i), count - i)
      {
        i := i - 1;
        Push(ShiftRightBytes(value, i) % 256);
      }
    }

    method AppendString(s: seq<byte>)
      modifies this
      ensures bytes == old(bytes) + StringBytes(s)
    {
      AppendUint(|s| % 0x1_0000_0000, 4);
      bytes := bytes + s;
    }

    method AppendValue(v: Value)
      modifies this
      ensures bytes == old(bytes) + ValueBytes(v)
    {
      match v
      case Bool(b) => Push(if b then 1 else 0);
      case Int8(i) => AppendUint(i % 0x100, 1);
      case Int16(i) =>
        Push(i / 256 % 256);
        Push(i % 256);
        TwoOctets(i);
      case Int32(i) => AppendUint(i % 0x1_0000_0000, 4);
      case Int64(i) => AppendUint(i % 0x1_0000_0000_0000_0000, 8);
      case UInt8(u) =>
        Push(u);
        assert BigEndian(u, 1) == [u];
      case UInt16(u) =>
        Push(u / 256 % 256);
        Push(u % 256);
        TwoOctets(u);
      case UInt32(u) => AppendUint(u, 4);
      case UInt64(u) => AppendUint(u, 8);
      case Float32(u) => AppendUint(u, 4);
      case Float64(u) => AppendUint(u, 8);
      case Text(s) => AppendString(s);
      case Empty => Push(0);
      case Binary(_) => Push(0);
    }

    method AppendMetric(def: Definition, v: Value, useAlias: bool)
      modifies this
      ensures bytes == old(bytes) + EntryBytes(Entry(def, v), useAlias)
    {
      hide BigEndian, StringBytes, ValueBytes;
      if useAlias && def.alias > 0 {
        Push(1);
        AppendUint(def.alias, 8);
      } else {
        Push(0);
        AppendString(def.name);
      }
      assert bytes == old(bytes) + NameBytes(def, useAlias);
      AppendUint(def.datatype_, 4);
      AppendValue(v);
    }
  }

  lemma TwoOctets(i: int)
    requires -0x8000 <= i < 0x1_0000
    ensures BigEndian(i % 0x1_0000, 2) == [i / 256 % 256, i % 256]
  {
    TwoDigits(i % 0x1_0000);
    hide BigEndian;
    var q, u := i / 0x1_0000, i % 0x1_0000;
    var v, w := u / 256, u % 256;
    assert i == (q * 256 + v) * 256 + w;
    QuotientUnique(i, 256, q * 256 + v, w);
    QuotientUnique(q * 256 + v, 256, q, v);
  }

  lemma TwoDigits(u: uint16)
    ensures BigEndian(u, 2) == [u / 256, u % 256]
  {
    assert BigEndian(u / 256, 1) == [u / 256];
  }

  lemma {:induction false} EntriesBytesSplit(es: seq<Entry>, i: nat, useAlias: bool)
    requires i < |es|
    ensures EntriesBytes(es[..i + 1], useAlias) == EntriesBytes(es[..i], useAlias) + EntryBytes(es[i], useAlias)
    decreases i
  {
    hide EntryBytes;
    if i == 0 {
      assert es[..1][1..] == [];
    } else {
      EntriesBytesSplit(es[1..], i - 1, useAlias);
      assert es[..i + 1][1..] == es[1..][..i] && es[..i][1..] == es[1..][..i - 1];
    }
  }

  method EncodeData(timestamp: uint64, sequence: uint64, es: seq<Entry>, useAlias: bool)
    returns (data: seq<byte>)
    ensures data == DataBytes(timestamp, sequence, es, useAlias)
  {
    hide BigEndian, EntryBytes;
    var payload := new PayloadBuffer();
    payload.AppendUint(timestamp, 8);
    payload.AppendUint(sequence, 8);
    payload.AppendUint(|es| % 0x1_0000_0000, 4);
    ghost var header := payload.bytes;
    for i := 0 to |es|
      invariant payload.bytes == header + EntriesBytes(es[..i], useAlias)
    {
      EntriesBytesSplit(es, i, useAlias);
      payload.AppendMetric(es[i].def, es[i].value, useAlias);
    }
    assert es[..|es|] == es;
    data := payload.bytes;
  }

  /** A single point, addressed by alias exactly when one is given. */
  method EncodeDataPoint(timestamp: uint64, sequence: uint64, address: seq<byte>, v: Value, alias: uint64)
    returns (data: seq<byte>)
    ensures data == DataBytes(timestamp, sequence, [Entry(Definition(address, DatatypeOf(v), alias), v)], alias > 0)
  {
    hide BigEndian, EntryBytes;
    var payload := new PayloadBuffer();
    payload.AppendUint(timestamp, 8);
    payload.AppendUint(sequence, 8);
    payload.AppendUint(1, 4);
    var def := Definition(address, DatatypeOf(v), alias);
    payload.AppendMetric(def, v, alias > 0);
    data := payload.bytes;
    assert EntriesBytes([Entry(def, v)], alias > 0) == EntryBytes(Entry(def, v), alias > 0) + [];
  }
}

module SparkplugDecoder {
  import opened Bytes
  import opened SparkplugTypes
  import opened Wrappers

  // ---------------------------------------- what a reader makes of its input
  // Each function takes the octets not yet read and also gives those left over.

  const DEFAULT: Value := Bool(false)

  /** A string whose octets are missing reads as empty; the length stays consumed. */
  ghost function StringFrom(r: seq<byte>): (seq<byte>, seq<byte>) {
    if |r| < 4 then ([], r)
    else
      var len := ReadUint32(r);
      if |r| < 4 + len then ([], r[4..]) else (r[4..4 + len], r[4 + len..])
  }

  /** The octets a datatype code takes, when it has a fixed width. */
  ghost function Width(code: uint32): nat {
    match code
    case 1 => 1
    case 2 => 2
    case 3 => 4
    case 4 => 8
    case 5 => 1
    case 6 => 2
    case 7 => 4
    case 8 => 8
    case 9 => 4
    case 10 => 8
    case 11 => 1
    case _ => 0
  }

  ghost function FixedValue(code: uint32, s: seq<byte>): Value
    requires Width(code) > 0 && |s| == Width(code)
  {
    ValueBound(s);
    Widths();
    var u := BigEndianValue(s);
    match code
    case 1 => Int8(Signed(u, 0x80))
    case 2 => Int16(Signed(u, 0x8000))
    case 3 => Int32(Signed(u, 0x8000_0000))
    case 4 => Int64(Signed(u, 0x8000_0000_0000_0000))
    case 5 => UInt8(u)
    case 6 => UInt16(u)
    case 7 => UInt32(u)
    case 8 => UInt64(u)
    case 9 => Float32(u)
    case 10 => Float64(u)
    case _ => Bool(u != 0)
  }

  /** Value, null flag and rest. A value cut short keeps the default and its octets. */
  ghost function ValueFrom(code: uint32, r: seq<byte>): (Value, bool, seq<byte>) {
    var w := Width(code);
    if w > 0 then
      if |r| < w then (DEFAULT, false, r) else (FixedValue(code, r[..w]), false, r[w..])
    else if code == 12 || code == TEXT then
      var (s, rest) := StringFrom(r);
      (Text(s), false, rest)
    else if code == BYTES then
      if |r| < 4 then (DEFAULT, false, r)
      else
        var len := ReadUint32(r);
        if |r| < 4 + len then (DEFAULT, false, r[4..]) else (Binary(r[4..4 + len]), false, r[4 + len..])
    else (DEFAULT, true, r)
  }

  /** Name, alias and rest; None when the alias is cut short. */
  ghost function NameFrom(r: seq<byte>): Option<(seq<byte>, uint64, seq<byte>)>
    requires r != []
  {
    if r[0] != 0 then
      if |r| < 9 then None else Some(([], ReadUint64(r[1..]), r[9..]))
    else
      var (name, rest) := StringFrom(r[1..]);
      Some((name, 0, rest))
  }

  /** One metric and the rest; None where the loop gives up. */
  ghost function MetricFrom(r: seq<byte>): Option<(Metric, seq<byte>)>
    requires r != []
  {
    match NameFrom(r)
    case None => None
    case Some((name, alias, r1)) =>
      if |r1| < 4 then None
      else
        var code := ReadUint32(r1);
        var (v, isNull, rest) := ValueFrom(code, r1[4..]);
        Some((Metric(name, alias, code, isNull, v), rest))
  }

  ghost function MetricsFrom(r: seq<byte>, count: nat): seq<Metric>
    decreases count
  {
    if count == 0 || r == [] then []
    else
      match MetricFrom(r)
      case None => []
      case Some((m, rest)) => [m] + MetricsFrom(rest, count - 1)
  }

  ghost function Decoded(data: seq<byte>): Option<Payload> {
    if |data| < 24 then None
    else
      var count := ReadUint32(data[16..]);
      if count > 10000 then None
      else Some(Payload(ReadUint64(data), ReadUint64(data[8..]), MetricsFrom(data[20..], count)))
  }

  // ------------------------------------------------------------ the decoder

  method ReadString(data: seq<byte>, offset: nat) returns (s: seq<byte>, next: nat)
    requires offset <= |data|
    ensures offset <= next <= |data| && StringFrom(data[offset..]) == (s, data[next..])
  {
    hide ReadUint32;
    next := offset;
    if offset + 4 > |data| {
      return [], next;
    }
    var len := ReadUint32(data[offset..]);
    next := offset + 4;
    assert data[offset..][4..] == data[next..];
    if next + len > |data| {
      return [], next;
    }
    assert data[offset..][4..4 + len] == data[next..next + len];
    assert data[offset..][4 + len..] == data[next + len..];
    s := data[next..next + len];
    next := next + len;
  }

  /** The switch over the datatype: the value, whether it is null, the new offset. */
  method ReadValue(code: uint32, data: seq<byte>, offset: nat)
    returns (v: Value, isNull: bool, next: nat)
    requires offset <= |data|
    ensures offset <= next <= |data| && ValueFrom(code, data[offset..]) == (v, isNull, data[next..])
  {
    hide ReadUint32, ReadUint64, StringFrom, BigEndianValue;
    v, isNull, next := Bool(false), false, offset;
    var r := data[offset..];
    assert forall k | 0 <= k <= |r| :: r[k..] == data[offset + k..];
    if code == 11 {
      if offset < |data| {
        OneOctet(r);
        v, next := Bool(data[offset] != 0), offset + 1;
      }
    } else if code == 1 {
      if offset < |data| {
        OneOctet(r);
        v, next := Int8(Signed(data[offset], 0x80)), offset + 1;
      }
    } else if code == 2 {
      if offset + 2 <= |data| {
        ReadTwo(r);
        v := Int16(Signed(data[offset] as nat * 0x100 + data[offset + 1] as nat, 0x8000));
        next := offset + 2;
      }
    } else if code == 3 {
      if offset + 4 <= |data| {
        v, next := Int32(Signed(ReadUint32(r), 0x8000_0000)), offset + 4;
      }
    } else if code == 4 {
      if offset + 8 <= |data| {
        v, next := Int64(Signed(ReadUint64(r), 0x8000_0000_0000_0000)), offset + 8;
      }
    } else if code == 5 {
      if offset < |data| {
        OneOctet(r);
        v, next := UInt8(data[offset]), offset + 1;
      }
    } else if code == 6 {
      if offset + 2 <= |data| {
        ReadTwo(r);
        v := UInt16(data[offset] as nat * 0x100 + data[offset + 1] as nat);
        next := offset + 2;
      }
    } else if code == 7 {
      if offset + 4 <= |data| {
        v, next := UInt32(ReadUint32(r)), offset + 4;
      }
    } else if code == 8 {
      if offset + 8 <= |data| {
        v, next := UInt64(ReadUint64(r)), offset + 8;
      }
    } else if code == 9 {
      if offset + 4 <= |data| {
        v, next := Float32(ReadUint32(r)), offset + 4;
      }
    } else if code == 10 {
      if offset + 8 <= |data| {
        v, next := Float64(ReadUint64(r)), offset + 8;
      }
    } else if code == 12 || code == TEXT {
      var s;
      s, next := ReadString(data, offset);
      v := Text(s);
    } else if code == BYTES {
      if offset + 4 <= |data| {
        var len := ReadUint32(r);
        next := offset + 4;
        if next + len <= |data| {
          assert r[4..4 + len] == data[next..next + len];
          v := Binary(data[next..next + len]);
          next := next + len;
        }
      }
    } else {
      isNull := true;
    }
  }

  lemma OneOctet(r: seq<byte>)
    requires r != []
    ensures BigEndianValue(r[..1]) == r[0]
  {
    ValueStep(r, 0);
  }

  lemma ReadTwo(r: seq<byte>)
    requires |r| >= 2
    ensures BigEndianValue(r[..2]) == r[0] as nat * 0x100 + r[1] as nat
  {
    OneOctet(r);
    ValueStep(r, 1);
  }

  /** One pass of the metric loop; None where it breaks off. */
  method ReadMetric(data: seq<byte>, offset: nat) returns (metric: Option<Metric>, next: nat)
    requires offset < |data|
    ensures next <= |data| && MetricFrom(data[offset..])
         == if metric == None then None else Some((metric.value, data[next..]))
  {
    hide StringFrom, ValueFrom, ReadUint32, ReadUint64, BigEndianValue;
    ghost var r := data[offset..];
    var useAlias := data[offset] != 0;
    next := offset + 1;
    var name: seq<byte>, alias: uint64 := [], 0;
    if useAlias {
      if next + 8 > |data| {
        return None, next;
      }
      alias := ReadUint64(data[next..]);
      next := next + 8;
      assert r[1..] == data[offset + 1..] && r[9..] == data[next..];
    } else {
      assert r[1..] == data[next..];
      name, next := ReadString(data, next);
    }
    assert NameFrom(r) == Some((name, alias, data[next..]));
    if next + 4 > |data| {
      return None, next;
    }
    var code := ReadUint32(data[next..]);
    assert data[next..][4..] == data[next + 4..];
    next := next + 4;
    var v, isNull;
    v, isNull, next := ReadValue(code, data, next);
    metric := Some(Metric(name, alias, code, isNull, v));
  }

  method Decode(data: seq<byte>) returns (result: Option<Payload>)
    ensures result == Decoded(data)
  {
    hide MetricFrom, ReadUint32, ReadUint64;
    if |data| < 24 {
      return None;
    }
    var offset := 0;
    var timestamp := ReadUint64(data[offset..]);
    offset := offset + 8;
    var sequence := ReadUint64(data[offset..]);
    offset := offset + 8;
    var count := ReadUint32(data[offset..]);
    offset := offset + 4;
    assert data[0..] == data;
    if count > 10000 {
      return None;
    }
    var metrics: seq<Metric> := [];
    var i := 0;
    while i < count && offset < |data|
      invariant 0 <= i <= count && 0 <= offset <= |data|
      invariant metrics + MetricsFrom(data[offset..], count - i) == MetricsFrom(data[20..], count)
      decreases count - i
    {
      var metric, next := ReadMetric(data, offset);
      if metric == None {
        break;
      }
      metrics := metrics + [metric.value];
      offset := next;
      i := i + 1;
    }
    assert metrics == MetricsFrom(data[20..], count);
    result := Some(Payload(timestamp, sequence, metrics));
  }
}

/** What the decoder makes of the encoder's output. */
module SparkplugRoundTrip {
  import opened Bytes
  import opened SparkplugTypes
  import opened SparkplugEncoder
  import opened SparkplugDecoder
  import opened Wrappers

  /** The metric an entry should arrive as: its alias or its name, its datatype, its value. */
  ghost function Expected(e: Entry, useAlias: bool): Metric {
    Metric(
      if ByAlias(e.def, useAlias) then [] else e.def.name,
      if ByAlias(e.def, useAlias) then e.def.alias else 0,
      e.def.datatype_,
      Valueless(e),
      if Valueless(e) then DEFAULT else e.value)
  }

  ghost function ExpectedAll(es: seq<Entry>, useAlias: bool): (ms: seq<Metric>)
    ensures |ms| == |es| && forall i | 0 <= i < |es| :: ms[i] == Expected(es[i], useAlias)
  {
    if es == [] then [] else [Expected(es[0], useAlias)] + ExpectedAll(es[1..], useAlias)
  }

  /** The value kinds without a datatype: encoded as one zero octet that no datatype announces. */
  ghost predicate Valueless(e: Entry) {
    e.value.Empty? || e.value.Binary?
  }

  /** The datatype is the one from_data_point assigns. */
  ghost predicate Inferred(e: Entry) {
    e.def.datatype_ == DatatypeOf(e.value)
  }

  /** Every length the entry writes fits the 32-bit length field. */
  ghost predicate LengthsFit(e: Entry, useAlias: bool) {
    && (ByAlias(e.def, useAlias) || |e.def.name| < 0x1_0000_0000)
    && (e.value.Text? ==> |e.value.s| < 0x1_0000_0000)
  }

  /** No value, no alias and an empty name: all zero octets on the wire. */
  ghost predicate Blank(e: Entry, useAlias: bool) {
    Valueless(e) && !ByAlias(e.def, useAlias) && e.def.name == []
  }

  lemma StringReads(s: seq<byte>, tail: seq<byte>)
    requires |s| < 0x1_0000_0000
    ensures StringFrom(StringBytes(s) + tail) == (s, tail)
  {
    hide ReadUint32, BigEndian;
    var r := StringBytes(s) + tail;
    BigEndianReads(|s|, 4, s + tail);
    assert r == BigEndian(|s|, 4) + (s + tail);
    assert r[4..4 + |s|] == s && r[4 + |s|..] == tail;
  }

  lemma NameReads(def: Definition, useAlias: bool, tail: seq<byte>)
    requires ByAlias(def, useAlias) || |def.name| < 0x1_0000_0000
    ensures NameFrom(NameBytes(def, useAlias) + tail)
         == Some(if ByAlias(def, useAlias) then ([], def.alias, tail) else (def.name, 0, tail))
  {
    hide ReadUint64, BigEndian, StringBytes, StringFrom;
    var r := NameBytes(def, useAlias) + tail;
    if ByAlias(def, useAlias) {
      BigEndianReads(def.alias, 8, tail);
      assert r[1..] == BigEndian(def.alias, 8) + tail && r[9..] == tail;
    } else {
      StringReads(def.name, tail);
      assert r[1..] == StringBytes(def.name) + tail;
    }
  }

  lemma FixedReads(code: uint32, u: nat, tail: seq<byte>)
    requires Width(code) > 0 && u < Pow256(Width(code))
    ensures var s := BigEndian(u, Width(code));
      BigEndianValue(s) == u && ValueFrom(code, s + tail) == (FixedValue(code, s), false, tail)
  {
    hide FixedValue;
    var s := BigEndian(u, Width(code));
    ValueOfBigEndian(u, Width(code));
    assert (s + tail)[..Width(code)] == s && (s + tail)[Width(code)..] == tail;
  }

  lemma ValueReads(v: Value, tail: seq<byte>)
    requires !v.Empty? && !v.Binary? && (v.Text? ==> |v.s| < 0x1_0000_0000)
    ensures ValueFrom(DatatypeOf(v), ValueBytes(v) + tail) == (v, false, tail)
  {
    hide ValueFrom, BigEndian, BigEndianValue, Pow256, StringFrom, StringBytes;
    Widths();
    match v
    case Bool(b) =>
      FixedReads(11, if b then 1 else 0, tail);
      OneOctetBigEndian(if b then 1 else 0);
    case Int8(i) => FixedReads(1, i % 0x100, tail);
    case Int16(i) => FixedReads(2, i % 0x1_0000, tail);
    case Int32(i) => FixedReads(3, i % 0x1_0000_0000, tail);
    case Int64(i) => FixedReads(4, i % 0x1_0000_0000_0000_0000, tail);
    case UInt8(u) => FixedReads(5, u, tail);
    case UInt16(u) => FixedReads(6, u, tail);
    case UInt32(u) => FixedReads(7, u, tail);
    case UInt64(u) => FixedReads(8, u, tail);
    case Float32(u) => FixedReads(9, u, tail);
    case Float64(u) => FixedReads(10, u, tail);
    case Text(s) =>
      StringReads(s, tail);
      TextFrom(StringBytes(s) + tail);
  }

  lemma TextFrom(r: seq<byte>)
    ensures var (s, rest) := StringFrom(r); ValueFrom(12, r) == (Text(s), false, rest)
  {
  }

  lemma OneOctetBigEndian(b: byte)
    ensures BigEndian(b, 1) == [b]
  {
    assert BigEndian(b / 256, 0) == [];
  }

  /** An entry that announces its value arrives whole and leaves the rest untouched. */
  lemma EntryReads(e: Entry, useAlias: bool, tail: seq<byte>)
    requires Inferred(e) && LengthsFit(e, useAlias) && !Valueless(e)
    ensures MetricFrom(EntryBytes(e, useAlias) + tail) == Some((Expected(e, useAlias), tail))
  {
    hide NameFrom, NameBytes, ValueFrom, ValueBytes, BigEndian, ReadUint32;
    var r := EntryBytes(e, useAlias) + tail;
    var r2 := ValueBytes(e.value) + tail;
    var r1 := BigEndian(e.def.datatype_, 4) + r2;
    assert r == NameBytes(e.def, useAlias) + r1;
    NameReads(e.def, useAlias, r1);
    BigEndianReads(e.def.datatype_, 4, r2);
    assert r1[4..] == r2;
    ValueReads(e.value, tail);
  }

  /** Without a datatype the value octet stays unread. */
  lemma ValuelessReads(e: Entry, useAlias: bool, tail: seq<byte>)
    requires Inferred(e) && LengthsFit(e, useAlias) && Valueless(e)
    ensures MetricFrom(EntryBytes(e, useAlias) + tail) == Some((Expected(e, useAlias), [0] + tail))
  {
    hide NameFrom, NameBytes, BigEndian, ReadUint32;
    var r := EntryBytes(e, useAlias) + tail;
    var r2 := [0] + tail;
    var r1 := BigEndian(e.def.datatype_, 4) + r2;
    assert r == NameBytes(e.def, useAlias) + r1;
    NameReads(e.def, useAlias, r1);
    BigEndianReads(e.def.datatype_, 4, r2);
    assert r1[4..] == r2;
  }

  // -------------------------------------------- reading behind zero octets

  ghost function Zeros(n: nat): (s: seq<byte>)
    ensures |s| == n
  {
    seq(n, i => 0)
  }

  lemma {:induction false} ValueOfZeros(n: nat)
    ensures BigEndianValue(Zeros(n)) == 0
    decreases n
  {
    if n > 0 {
      ValueOfZeros(n - 1);
      assert Zeros(n)[..n - 1] == Zeros(n - 1);
    }
  }

  lemma ShiftedOctets(b: seq<byte>, k: nat, tail: seq<byte>)
    requires |b| == 4 && k > 0
    ensures b == (Zeros(k) + b + tail)[..4] ==> b == Zeros(4)
  {
    var q := Zeros(k) + b + tail;
    assert q[0] == 0;
    assert q[1] == if 1 < k then 0 else b[1 - k];
    assert q[2] == if 2 < k then 0 else b[2 - k];
    assert q[3] == if 3 < k then 0 else b[3 - k];
  }

  /** A number read k octets too early is never itself. */
  lemma ShiftedNumber(n: uint32, k: nat, tail: seq<byte>)
    requires n > 0 && k > 0
    ensures ReadUint32(Zeros(k) + BigEndian(n, 4) + tail) != n
  {
    hide ReadUint32, BigEndian, BigEndianValue;
    var q := Zeros(k) + BigEndian(n, 4) + tail;
    Widths();
    ValueOfBigEndian(n, 4);
    ValueOfZeros(4);
    BigEndianOfValue(q[..4]);
    ShiftedOctets(BigEndian(n, 4), k, tail);
  }

  lemma ZerosRead(n: nat, tail: seq<byte>)
    requires n >= 9
    ensures MetricFrom(Zeros(n) + tail) == Some((Metric([], 0, 0, true, DEFAULT), Zeros(n - 9) + tail))
  {
    hide ReadUint32, BigEndianValue;
    var r := Zeros(n) + tail;
    var q := r[1..];
    ValueOfZeros(4);
    assert q[..4] == Zeros(4) && q[4..4] == [];
    assert q[4..][..4] == Zeros(4) && q[4..][4..] == Zeros(n - 9) + tail;
    assert NameFrom(r) == Some(([], 0, q[4..]));
  }

  lemma BlankIsZeros(e: Entry, useAlias: bool)
    requires Inferred(e) && Blank(e, useAlias)
    ensures EntryBytes(e, useAlias) == Zeros(10)
    ensures Expected(e, useAlias) == Metric([], 0, 0, true, DEFAULT)
  {
    hide BigEndian;
    BigEndianZero(4);
    assert StringBytes([]) == Zeros(4) + [];
    assert NameBytes(e.def, useAlias) == [0] + StringBytes([]);
  }

  lemma {:induction false} BigEndianZero(n: nat)
    ensures BigEndian(0, n) == Zeros(n)
    decreases n
  {
    if n > 0 {
      BigEndianZero(n - 1);
    }
  }

  lemma UnflaggedMetric(r: seq<byte>)
    requires r != [] && r[0] == 0 && MetricFrom(r).Some?
    ensures var m := MetricFrom(r).value.0; m.alias == 0 && m.name == StringFrom(r[1..]).0
  {
    hide StringFrom, ValueFrom, ReadUint32;
  }

  lemma NamedMisread(name: seq<byte>, k: nat, tail: seq<byte>, q: seq<byte>)
    requires k > 0 && 0 < |name| < 0x1_0000_0000 && q == Zeros(k) + BigEndian(|name|, 4) + tail
    ensures StringFrom(q).0 != name
  {
    hide ReadUint32, BigEndian;
    ShiftedNumber(|name|, k, tail);
  }

  /** Read behind a zero octet, an entry that is not blank is misread. */
  lemma Misread(e: Entry, useAlias: bool, k: nat, tail: seq<byte>)
    requires k > 0 && Inferred(e) && LengthsFit(e, useAlias) && !Blank(e, useAlias)
    ensures var m := MetricFrom(Zeros(k) + EntryBytes(e, useAlias) + tail);
      m == None || m.value.0 != Expected(e, useAlias)
  {
    hide BigEndian, ValueBytes, StringFrom, MetricFrom;
    var r := Zeros(k) + EntryBytes(e, useAlias) + tail;
    assert r[0] == 0;
    if MetricFrom(r).Some? {
      UnflaggedMetric(r);
      if !ByAlias(e.def, useAlias) {
        var body := BigEndian(e.def.datatype_, 4) + (ValueBytes(e.value) + tail);
        NameOnWire(e, useAlias, k, tail);
        if |e.def.name| > 0 {
          NamedMisread(e.def.name, k, e.def.name + body, r[1..]);
        } else {
          NamelessMisread(e.def.datatype_, k, ValueBytes(e.value) + tail, r);
        }
      }
    }
  }

  lemma NameOnWire(e: Entry, useAlias: bool, k: nat, tail: seq<byte>)
    requires k > 0 && LengthsFit(e, useAlias) && !ByAlias(e.def, useAlias)
    ensures var r, n := Zeros(k) + EntryBytes(e, useAlias) + tail, e.def.name;
      var body := BigEndian(e.def.datatype_, 4) + (ValueBytes(e.value) + tail);
      && r[1..] == Zeros(k) + BigEndian(|n|, 4) + (n + body)
      && (n == [] ==> r == Zeros(k) + [0] + BigEndian(0, 4) + body)
  {
    hide BigEndian, ValueBytes;
    var r, n := Zeros(k) + EntryBytes(e, useAlias) + tail, e.def.name;
    var body := BigEndian(e.def.datatype_, 4) + (ValueBytes(e.value) + tail);
    assert NameBytes(e.def, useAlias) == [0] + (BigEndian(|n|, 4) + n);
    assert r == Zeros(k) + [0] + BigEndian(|n|, 4) + n + body;
    assert Zeros(k) == [0] + Zeros(k - 1) && Zeros(k - 1) + [0] == Zeros(k);
    assert r[1..] == Zeros(k - 1) + [0] + BigEndian(|n|, 4) + n + body;
  }

  lemma NamelessMisread(code: uint32, k: nat, tail: seq<byte>, r: seq<byte>)
    requires k > 0 && code > 0 && r == Zeros(k) + [0] + BigEndian(0, 4) + (BigEndian(code, 4) + tail)
    ensures MetricFrom(r).Some? && MetricFrom(r).value.0.datatype_ != code
  {
    hide ReadUint32, BigEndian, BigEndianValue, ValueFrom;
    BigEndianZero(4);
    ValueOfZeros(4);
    var q := r[1..];
    assert q == Zeros(4) + (Zeros(k) + BigEndian(code, 4) + tail);
    assert q[..4] == Zeros(4) && q[4..4] == [] && q[4..] == Zeros(k) + BigEndian(code, 4) + tail;
    assert NameFrom(r) == Some(([], 0, q[4..]));
    ShiftedNumber(code, k, tail);
  }

  ghost predicate AllInferred(es: seq<Entry>, useAlias: bool) {
    forall e | e in es :: Inferred(e) && LengthsFit(e, useAlias)
  }

  ghost predicate AllBlank(es: seq<Entry>, useAlias: bool) {
    forall e | e in es :: Blank(e, useAlias)
  }

  lemma AllBlankSplit(es: seq<Entry>, useAlias: bool)
    requires es != []
    ensures AllBlank(es, useAlias) <==> Blank(es[0], useAlias) && AllBlank(es[1..], useAlias)
  {
    hide Blank;
    assert es == [es[0]] + es[1..];
  }

  lemma NothingRead(r: seq<byte>, es: seq<Entry>, useAlias: bool)
    requires es == []
    ensures MetricsFrom(r, |es|) == ExpectedAll(es, useAlias) && AllBlank(es, useAlias)
  {
  }

  /** Read any number of zero octets late, a list comes out right exactly if it is blank. */
  lemma {:induction false} ReadBehind(es: seq<Entry>, useAlias: bool, k: nat)
    requires k > 0 && AllInferred(es, useAlias)
    ensures MetricsFrom(Zeros(k) + EntriesBytes(es, useAlias), |es|) == ExpectedAll(es, useAlias)
       <==> AllBlank(es, useAlias)
    decreases |es|
  {
    hide *;
    var r := Zeros(k) + EntriesBytes(es, useAlias);
    if es == [] {
      NothingRead(r, es, useAlias);
    } else {
      AllInferredRest(es, useAlias);
      AllBlankSplit(es, useAlias);
      FirstBehind(es, useAlias, k);
      FirstOfMetrics(r, |es|);
      SameAsExpected(MetricsFrom(r, |es|), es, useAlias);
      if Blank(es[0], useAlias) {
        ReadBehind(es[1..], useAlias, k + 1);
      }
    }
  }

  lemma AllInferredRest(es: seq<Entry>, useAlias: bool)
    requires es != [] && AllInferred(es, useAlias)
    ensures AllInferred(es[1..], useAlias)
  {
    hide LengthsFit, Inferred;
  }

  /** A reader given something either stops at its first metric or goes on behind it. */
  lemma FirstOfMetrics(r: seq<byte>, count: nat)
    requires r != [] && count > 0
    ensures var ms := MetricsFrom(r, count);
      match MetricFrom(r)
      case None => ms == []
      case Some((m, rest)) => ms != [] && ms[0] == m && ms[1..] == MetricsFrom(rest, count - 1)
  {
    hide MetricFrom;
  }

  lemma SameAsExpected(ms: seq<Metric>, es: seq<Entry>, useAlias: bool)
    requires es != []
    ensures ms == ExpectedAll(es, useAlias)
       <==> ms != [] && ms[0] == Expected(es[0], useAlias) && ms[1..] == ExpectedAll(es[1..], useAlias)
  {
    hide Expected;
    if ms != [] {
      assert ms == [ms[0]] + ms[1..];
    }
  }

  /** The first of the entries read k octets late. */
  lemma FirstBehind(es: seq<Entry>, useAlias: bool, k: nat)
    requires k > 0 && es != [] && AllInferred(es, useAlias)
    ensures var m := MetricFrom(Zeros(k) + EntriesBytes(es, useAlias));
      if Blank(es[0], useAlias)
      then m == Some((Expected(es[0], useAlias), Zeros(k + 1) + EntriesBytes(es[1..], useAlias)))
      else m == None || m.value.0 != Expected(es[0], useAlias)
  {
    hide MetricFrom, EntryBytes, Blank, Expected;
    var e, rest := es[0], EntriesBytes(es[1..], useAlias);
    var r := Zeros(k) + EntriesBytes(es, useAlias);
    assert r == Zeros(k) + EntryBytes(e, useAlias) + rest;
    if Blank(e, useAlias) {
      BlankIsZeros(e, useAlias);
      assert r == Zeros(k + 10) + rest;
      ZerosRead(k + 10, rest);
    } else {
      Misread(e, useAlias, k, rest);
    }
  }

  ghost predicate NoneShifted(es: seq<Entry>, useAlias: bool) {
    forall i | 0 <= i < |es| - 1 :: Valueless(es[i]) ==> Blank(es[i + 1], useAlias)
  }

  lemma {:induction false} ShiftPersists(es: seq<Entry>, useAlias: bool)
    requires es != [] && Valueless(es[0])
    ensures NoneShifted(es, useAlias) <==> forall e | e in es[1..] :: Blank(e, useAlias)
    decreases |es|
  {
    var u := es[1..];
    if u != [] {
      assert u == [u[0]] + u[1..] && u[0] == es[1];
      NoneShiftedSplit(es, useAlias);
      if Blank(u[0], useAlias) {
        ShiftPersists(u, useAlias);
      } else {
        assert u[0] in u;
      }
    }
  }

  lemma NoneShiftedSplit(es: seq<Entry>, useAlias: bool)
    requires |es| > 1
    ensures NoneShifted(es, useAlias)
       <==> (Valueless(es[0]) ==> Blank(es[1], useAlias)) && NoneShifted(es[1..], useAlias)
  {
    hide Valueless, Blank;
    var u := es[1..];
    if NoneShifted(u, useAlias) && (Valueless(es[0]) ==> Blank(es[1], useAlias)) {
      forall i | 0 <= i < |es| - 1
        ensures Valueless(es[i]) ==> Blank(es[i + 1], useAlias)
      {
        if i > 0 {
          assert u[i - 1] == es[i] && u[i - 1 + 1] == es[i + 1];
        }
      }
    }
  }

  lemma FirstRead(es: seq<Entry>, useAlias: bool, r: seq<byte>, rest: seq<byte>)
    requires es != [] && r != [] && MetricFrom(r) == Some((Expected(es[0], useAlias), rest))
    ensures MetricsFrom(r, |es|) == ExpectedAll(es, useAlias)
       <==> MetricsFrom(rest, |es| - 1) == ExpectedAll(es[1..], useAlias)
  {
    hide MetricFrom, Expected;
    var a, b := MetricsFrom(rest, |es| - 1), ExpectedAll(es[1..], useAlias);
    assert a == MetricsFrom(r, |es|)[1..] && b == ExpectedAll(es, useAlias)[1..];
  }

  lemma {:induction false} ReadOnTime(es: seq<Entry>, useAlias: bool)
    requires AllInferred(es, useAlias)
    ensures MetricsFrom(EntriesBytes(es, useAlias), |es|) == ExpectedAll(es, useAlias) <==> NoneShifted(es, useAlias)
    decreases |es|
  {
    if es != [] {
      var e, rest := es[0], EntriesBytes(es[1..], useAlias);
      var r := EntryBytes(e, useAlias) + rest;
      assert EntriesBytes(es, useAlias) == r;
      assert e in es && AllInferred(es[1..], useAlias);
      EntryNotEmpty(e, useAlias);
      hide *;
      if Valueless(e) {
        ValuelessReads(e, useAlias, rest);
        FirstRead(es, useAlias, r, [0] + rest);
        OneZero(rest);
        ReadBehind(es[1..], useAlias, 1);
        ShiftPersists(es, useAlias);
      } else {
        EntryReads(e, useAlias, rest);
        FirstRead(es, useAlias, r, rest);
        ReadOnTime(es[1..], useAlias);
        NotShiftedByFirst(es, useAlias);
      }
    }
  }

  lemma OneZero(rest: seq<byte>)
    ensures [0] + rest == Zeros(1) + rest
  {
  }

  lemma NotShiftedByFirst(es: seq<Entry>, useAlias: bool)
    requires es != [] && !Valueless(es[0])
    ensures NoneShifted(es, useAlias) <==> NoneShifted(es[1..], useAlias)
  {
    if |es| > 1 {
      NoneShiftedSplit(es, useAlias);
    }
  }

  lemma EntryNotEmpty(e: Entry, useAlias: bool)
    ensures EntryBytes(e, useAlias) != []
  {
    hide BigEndian, ValueBytes, StringBytes;
  }

  ghost predicate LengthsBounded(m: Metric) {
    |m.name| < 0x1_0000_0000 && (m.value.Text? ==> |m.value.s| < 0x1_0000_0000)
  }

  /** No decoded metric holds a name or text of 2^32 octets or more. */
  lemma {:induction false} DecodedLengths(r: seq<byte>, count: nat)
    ensures |MetricsFrom(r, count)| <= count
    ensures forall m | m in MetricsFrom(r, count) :: LengthsBounded(m)
    decreases count
  {
    hide MetricFrom, LengthsBounded;
    if count > 0 && r != [] && MetricFrom(r).Some? {
      MetricLengths(r);
      DecodedLengths(MetricFrom(r).value.1, count - 1);
    }
  }

  lemma MetricLengths(r: seq<byte>)
    requires r != [] && MetricFrom(r).Some?
    ensures LengthsBounded(MetricFrom(r).value.0)
  {
    hide ReadUint32, ReadUint64, BigEndianValue;
  }

  /** What a list of metrics must satisfy to arrive: between 1 and 10000 of them,
      lengths that fit their fields, and none shifted by a metric without a value. */
  ghost predicate Survives(es: seq<Entry>, useAlias: bool) {
    && 1 <= |es| <= 10000
    && (forall e | e in es :: LengthsFit(e, useAlias))
    && NoneShifted(es, useAlias)
  }

  lemma HeaderReads(timestamp: uint64, sequence: uint64, es: seq<Entry>, useAlias: bool)
    ensures var d := DataBytes(timestamp, sequence, es, useAlias);
      && |d| >= 20 && ReadUint64(d) == timestamp && ReadUint64(d[8..]) == sequence
      && ReadUint32(d[16..]) == |es| % 0x1_0000_0000 && d[20..] == EntriesBytes(es, useAlias)
  {
    hide ReadUint32, ReadUint64, BigEndian, EntriesBytes;
    var d, body := DataBytes(timestamp, sequence, es, useAlias), EntriesBytes(es, useAlias);
    var count := BigEndian(|es| % 0x1_0000_0000, 4);
    assert d == BigEndian(timestamp, 8) + (BigEndian(sequence, 8) + (count + body));
    assert d[8..] == BigEndian(sequence, 8) + (count + body);
    assert d[16..] == count + body;
    BigEndianReads(timestamp, 8, BigEndian(sequence, 8) + (count + body));
    BigEndianReads(sequence, 8, count + body);
    BigEndianReads(|es| % 0x1_0000_0000, 4, body);
  }

  lemma EntryAtLeastFour(es: seq<Entry>, useAlias: bool)
    requires es != []
    ensures |EntriesBytes(es, useAlias)| >= 4
  {
    hide BigEndian, ValueBytes, NameBytes;
    assert |EntryBytes(es[0], useAlias)| >= 4;
  }

  /** Main result: for metrics whose datatype was inferred from the value, the
      decoder returns the same timestamp, sequence number and metrics, in order,
      exactly when the list survives. */
  lemma RoundTrip(timestamp: uint64, sequence: uint64, es: seq<Entry>, useAlias: bool)
    requires forall e | e in es :: Inferred(e)
    ensures Decoded(DataBytes(timestamp, sequence, es, useAlias))
         == Some(Payload(timestamp, sequence, ExpectedAll(es, useAlias)))
       <==> Survives(es, useAlias)
  {
    hide DataBytes, EntriesBytes, ReadUint32, ReadUint64, MetricsFrom, Expected, NoneShifted, LengthsFit;
    var body, want := EntriesBytes(es, useAlias), ExpectedAll(es, useAlias);
    HeaderReads(timestamp, sequence, es, useAlias);
    DecodedLengths(body, |es| % 0x1_0000_0000);
    if es == [] {
      NoEntries(useAlias);
    } else if |es| <= 10000 {
      EntryAtLeastFour(es, useAlias);
      if forall e | e in es :: LengthsFit(e, useAlias) {
        ReadOnTime(es, useAlias);
      } else {
        var i :| 0 <= i < |es| && !LengthsFit(es[i], useAlias);
        TooLong(es[i], useAlias);
        assert want[i] in want;
      }
    }
  }

  /** A metric without a value, and behind it the Boolean true under the name "b". */
  function EmptyThenNamed(): seq<Entry> {
    [Entry(Definition([], 0, 0), Empty), Entry(Definition([98], 11, 0), Bool(true))]
  }

  lemma EmptyThenNamedBytes()
    ensures EntryBytes(EmptyThenNamed()[0], false) == Zeros(10)
    ensures EntryBytes(EmptyThenNamed()[1], false) == [0, 0, 0, 0, 1, 98, 0, 0, 0, 11, 1]
  {
    BlankIsZeros(EmptyThenNamed()[0], false);
    assert BigEndian(1, 3) == [0, 0, 1] && BigEndian(11, 3) == [0, 0, 11];
  }

  lemma ZeroLength(r: seq<byte>, tail: seq<byte>)
    requires r == [0, 0, 0, 0, 0] + tail
    ensures NameFrom(r) == Some(([], 0, tail))
  {
    var s := r[1..];
    assert s == [0, 0, 0, 0] + tail && s[4..4] == [] && s[4..] == tail;
    assert ReadUint32(s) == 0;
    hide ReadUint32, ReadUint64, BigEndianValue;
    assert StringFrom(s) == ([], tail);
  }

  lemma UnknownCode(name: seq<byte>, tail: seq<byte>, r: seq<byte>)
    requires r != [] && NameFrom(r) == Some((name, 0, [1, 98, 0, 0] + tail))
    ensures MetricFrom(r) == Some((Metric(name, 0, 0x0162_0000, true, DEFAULT), tail))
  {
    var r1 := [1, 98, 0, 0] + tail;
    assert ReadUint32(r1) == 0x0162_0000;
    assert r1[4..] == tail;
    hide NameFrom, ReadUint32, BigEndianValue;
  }

  /** The null octet in front shifts the second metric: it loses its name and value. */
  lemma ShiftedByOne()
    ensures MetricFrom([0, 0, 0, 0, 0, 1, 98, 0, 0, 0, 11, 1])
         == Some((Metric([], 0, 0x0162_0000, true, DEFAULT), [0, 11, 1]))
  {
    hide *;
    var r: seq<byte> := [0, 0, 0, 0, 0, 1, 98, 0, 0, 0, 11, 1];
    var r1: seq<byte> := [1, 98, 0, 0, 0, 11, 1];
    assert r == [0, 0, 0, 0, 0] + r1 && r1 == [1, 98, 0, 0] + [0, 11, 1];
    ZeroLength(r, r1);
    UnknownCode([], [0, 11, 1], r);
  }

  lemma TwoMetrics(r: seq<byte>, first: Metric, r1: seq<byte>, second: Metric, r2: seq<byte>)
    requires r != [] && MetricFrom(r) == Some((first, r1))
    requires r1 != [] && MetricFrom(r1) == Some((second, r2))
    ensures MetricsFrom(r, 2) == [first, second]
  {
    hide MetricFrom;
    assert MetricsFrom(r2, 0) == [];
  }

  lemma EmptyThenNamedReads()
    ensures MetricsFrom(EntriesBytes(EmptyThenNamed(), false), 2)
         == [Metric([], 0, 0, true, DEFAULT), Metric([], 0, 0x0162_0000, true, DEFAULT)]
  {
    var es := EmptyThenNamed();
    hide EntryBytes, MetricFrom, MetricsFrom;
    EmptyThenNamedBytes();
    ShiftedByOne();
    var tail := EntryBytes(es[1], false);
    ValuelessReads(es[0], false, tail);
    assert es[1..] == [es[1]] && EntriesBytes(es[1..], false) == tail + [] == tail;
    var r1 := [0] + tail;
    assert r1 == [0, 0, 0, 0, 0, 1, 98, 0, 0, 0, 11, 1];
    var second := Metric([], 0, 0x0162_0000, true, DEFAULT);
    TwoMetrics(EntriesBytes(es, false), Expected(es[0], false), r1, second, [0, 11, 1]);
  }

  lemma DecodedData(timestamp: uint64, sequence: uint64, es: seq<Entry>, useAlias: bool)
    requires 1 <= |es| <= 10000
    ensures Decoded(DataBytes(timestamp, sequence, es, useAlias))
         == Some(Payload(timestamp, sequence, MetricsFrom(EntriesBytes(es, useAlias), |es|)))
  {
    hide DataBytes, EntriesBytes, ReadUint32, ReadUint64, MetricsFrom;
    HeaderReads(timestamp, sequence, es, useAlias);
    EntryAtLeastFour(es, useAlias);
  }

  /** Such a payload does not come back. */
  lemma NullOctetShifts(timestamp: uint64, sequence: uint64)
    ensures !Survives(EmptyThenNamed(), false)
    ensures Decoded(DataBytes(timestamp, sequence, EmptyThenNamed(), false))
         == Some(Payload(timestamp, sequence,
                         [Metric([], 0, 0, true, DEFAULT), Metric([], 0, 0x0162_0000, true, DEFAULT)]))
  {
    assert !Survives(EmptyThenNamed(), false) by {
      var es := EmptyThenNamed();
      assert Valueless(es[0]) && !Blank(es[1], false);
    }
    EmptyThenNamedReads();
    DecodedData(timestamp, sequence, EmptyThenNamed(), false);
    hide *;
  }

  lemma NoEntries(useAlias: bool)
    ensures EntriesBytes([], useAlias) == []
  {
  }

  lemma TooLong(e: Entry, useAlias: bool)
    requires !LengthsFit(e, useAlias)
    ensures !LengthsBounded(Expected(e, useAlias))
  {
  }

  // --------------------------------------------------- the octets, and other datatypes

  /** A metric "m" without an alias, with the datatype inferred from its value. */
  function Example(v: Value): Entry {
    Entry(Definition([109], DatatypeOf(v), 0), v)
  }

  lemma ExampleOctets(v: Value, code: byte, octets: seq<byte>)
    requires DatatypeOf(v) == code && ValueBytes(v) == octets
    ensures EntryBytes(Example(v), false) == [0, 0, 0, 0, 1, 109, 0, 0, 0, code] + octets
  {
    SmallOctets(code);
    SmallOctets(1);
    hide BigEndian, ValueBytes, DatatypeOf;
    assert NameBytes(Example(v).def, false) == [0, 0, 0, 0, 1, 109];
  }

  lemma SmallOctets(b: byte)
    ensures BigEndian(b, 4) == [0, 0, 0, b]
  {
    assert b / 256 == 0 && b % 256 == b;
    assert BigEndian(0, 3) == [0, 0, 0];
  }

  lemma FourOctets(a: byte, b: byte, c: byte, d: byte)
    ensures BigEndian(a as nat * 0x100_0000 + b as nat * 0x1_0000 + c as nat * 0x100 + d as nat, 4) == [a, b, c, d]
  {
    var s := [a, b, c, d];
    assert s[..4] == s && ReadUint32(s) == BigEndianValue(s);
    BigEndianOfValue(s);
  }

  lemma EightOctets(a: byte, b: byte, c: byte, d: byte, e: byte, f: byte, g: byte, h: byte)
    ensures BigEndian(a as nat * 0x100_0000_0000_0000 + b as nat * 0x1_0000_0000_0000
                      + c as nat * 0x100_0000_0000 + d as nat * 0x1_0000_0000
                      + e as nat * 0x100_0000 + f as nat * 0x1_0000 + g as nat * 0x100 + h as nat, 8)
         == [a, b, c, d, e, f, g, h]
  {
    var s := [a, b, c, d, e, f, g, h];
    assert s[..8] == s && ReadUint64(s) == BigEndianValue(s);
    BigEndianOfValue(s);
  }

  lemma ShortOctets(a: byte, b: byte)
    ensures BigEndian(a as nat * 0x100 + b as nat, 2) == [a, b] && BigEndian(a, 1) == [a]
  {
    var v := a as nat * 0x100 + b as nat;
    assert v / 256 == a as nat && v % 256 == b as nat;
    OneOctetBigEndian(a);
  }

  /** The code and the octets of each kind of value, high octet first. */
  lemma ShortValues()
    ensures DatatypeOf(Bool(true)) == 11 && ValueBytes(Bool(true)) == [1] && ValueBytes(Bool(false)) == [0]
    ensures DatatypeOf(Int8(-2)) == 1 && ValueBytes(Int8(-2)) == [254]
    ensures DatatypeOf(Int16(-2)) == 2 && ValueBytes(Int16(-2)) == [255, 254]
    ensures DatatypeOf(UInt8(7)) == 5 && ValueBytes(UInt8(7)) == [7]
    ensures DatatypeOf(UInt16(258)) == 6 && ValueBytes(UInt16(258)) == [1, 2]
    ensures DatatypeOf(Empty) == 0 && ValueBytes(Empty) == [0]
  {
    hide BigEndian;
    ShortOctets(254, 0);
    ShortOctets(7, 0);
    ShortOctets(255, 254);
    ShortOctets(1, 2);
  }

  lemma FourOctetValues()
    ensures DatatypeOf(Int32(-2)) == 3 && ValueBytes(Int32(-2)) == [255, 255, 255, 254]
    ensures DatatypeOf(UInt32(0x0102_0304)) == 7 && ValueBytes(UInt32(0x0102_0304)) == [1, 2, 3, 4]
    ensures DatatypeOf(Float32(0x3F80_0000)) == 9 && ValueBytes(Float32(0x3F80_0000)) == [63, 128, 0, 0]
    ensures DatatypeOf(Text([104, 105])) == 12 && ValueBytes(Text([104, 105])) == [0, 0, 0, 2, 104, 105]
  {
    hide BigEndian;
    FourOctets(255, 255, 255, 254);
    FourOctets(1, 2, 3, 4);
    FourOctets(63, 128, 0, 0);
    FourOctets(0, 0, 0, 2);
  }

  lemma EightOctetValues()
    ensures DatatypeOf(Int64(-2)) == 4 && ValueBytes(Int64(-2)) == [255, 255, 255, 255, 255, 255, 255, 254]
    ensures DatatypeOf(UInt64(0x0102_0304_0506_0708)) == 8
            && ValueBytes(UInt64(0x0102_0304_0506_0708)) == [1, 2, 3, 4, 5, 6, 7, 8]
    ensures DatatypeOf(Float64(0x3FF0_0000_0000_0000)) == 10
            && ValueBytes(Float64(0x3FF0_0000_0000_0000)) == [63, 240, 0, 0, 0, 0, 0, 0]
  {
    hide BigEndian;
    EightOctets(255, 255, 255, 255, 255, 255, 255, 254);
    EightOctets(1, 2, 3, 4, 5, 6, 7, 8);
    EightOctets(63, 240, 0, 0, 0, 0, 0, 0);
  }

  /** Metrics of the datatypes Text and Bytes, which the encoder infers for no value, are read
      with all their octets. */
  lemma OtherDatatypesRead(def: Definition, useAlias: bool, s: seq<byte>, tail: seq<byte>)
    requires (ByAlias(def, useAlias) || |def.name| < 0x1_0000_0000) && |s| < 0x1_0000_0000
    ensures var head, body := NameBytes(def, useAlias), StringBytes(s) + tail;
      var name := if ByAlias(def, useAlias) then [] else def.name;
      var alias := if ByAlias(def, useAlias) then def.alias else 0;
      && MetricFrom(head + ([0, 0, 0, 14] + body)) == Some((Metric(name, alias, 14, false, Text(s)), tail))
      && MetricFrom(head + ([0, 0, 0, 17] + body)) == Some((Metric(name, alias, 17, false, Binary(s)), tail))
  {
    var body := StringBytes(s) + tail;
    TypedRead(def, useAlias, 14, body);
    TypedRead(def, useAlias, 17, body);
    TextBodyFrom(s, tail);
    BytesFrom(s, tail);
    hide *;
  }

  lemma TextBodyFrom(s: seq<byte>, tail: seq<byte>)
    requires |s| < 0x1_0000_0000
    ensures ValueFrom(14, StringBytes(s) + tail) == (Text(s), false, tail)
  {
    StringReads(s, tail);
    hide StringFrom, StringBytes;
  }

  lemma TypedRead(def: Definition, useAlias: bool, code: byte, body: seq<byte>)
    requires ByAlias(def, useAlias) || |def.name| < 0x1_0000_0000
    ensures var (v, isNull, rest) := ValueFrom(code, body);
      MetricFrom(NameBytes(def, useAlias) + ([0, 0, 0, code] + body))
      == Some((Metric(if ByAlias(def, useAlias) then [] else def.name,
                      if ByAlias(def, useAlias) then def.alias else 0, code, isNull, v), rest))
  {
    hide NameFrom, NameBytes, ValueFrom, BigEndian, ReadUint32;
    var r1 := [0, 0, 0, code] + body;
    NameReads(def, useAlias, r1);
    SmallOctets(code);
    BigEndianReads(code, 4, body);
    assert r1[4..] == body;
  }

  lemma BytesFrom(s: seq<byte>, tail: seq<byte>)
    requires |s| < 0x1_0000_0000
    ensures ValueFrom(17, StringBytes(s) + tail) == (Binary(s), false, tail)
  {
    hide BigEndian, ReadUint32;
    var r := StringBytes(s) + tail;
    BigEndianReads(|s|, 4, s + tail);
    assert r == BigEndian(|s|, 4) + (s + tail);
    assert r[4..4 + |s|] == s && r[4 + |s|..] == tail;
  }
}
