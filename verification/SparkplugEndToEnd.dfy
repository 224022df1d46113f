/** The Sparkplug sink's payloads in the Sparkplug scoop: what becomes of metrics on their
    way from the encoder over the wire through decoding and alias resolution. */
module SparkplugEndToEnd {
  import opened Bytes
  import opened DataPoints
  import opened Wrappers
  import opened SparkplugTypes
  import opened SparkplugEncoder
  import opened SparkplugDecoder
  import opened SparkplugRoundTrip
  import Scoop = SparkplugScoop

  // ----------------------------------------------- the decoder's metrics as received

  function Characters(s: seq<byte>): (r: string)
    ensures |r| == |s|
  {
    if s == [] then [] else [s[0] as char] + Characters(s[1..])
  }

  /** reading is what to_data_point makes of a value. */
  function Received(m: Metric, reading: Value -> int): Scoop.Metric {
    Scoop.Metric(Characters(m.name), m.alias, reading(m.value))
  }

  function ReceivedAll(ms: seq<Metric>, reading: Value -> int): (r: seq<Scoop.Metric>)
    ensures |r| == |ms| && forall i | 0 <= i < |ms| :: r[i] == Received(ms[i], reading)
  {
    if ms == [] then [] else ReceivedAll(ms[..|ms| - 1], reading) + [Received(ms[|ms| - 1], reading)]
  }

  function ReceivedPayload(p: Option<Payload>, reading: Value -> int): Option<Scoop.Payload> {
    match p
    case None => None
    case Some(q) => Some(Scoop.Payload(q.timestamp, ReceivedAll(q.metrics, reading)))
  }

  /** The message's payload is what decoding some data yields. */
  ghost predicate OffTheWire(m: Scoop.Message, reading: Value -> int) {
    exists data: seq<byte> :: m.payload == ReceivedPayload(Decoded(data), reading)
  }

  ghost predicate AllOffTheWire(history: seq<Scoop.Message>, reading: Value -> int) {
    forall i | 0 <= i < |history| :: OffTheWire(history[i], reading)
  }

  // ------------------------------------------------------ a name or an alias, not both

  /** The decoder never gives a metric both a name and an alias. */
  lemma {:induction false} DecodedNameOrAlias(r: seq<byte>, count: nat)
    ensures forall m | m in MetricsFrom(r, count) :: m.name == [] || m.alias == 0
    decreases count
  {
    hide ValueFrom, StringFrom, ReadUint32, ReadUint64;
    if count > 0 && r != [] && MetricFrom(r).Some? {
      DecodedNameOrAlias(MetricFrom(r).value.1, count - 1);
    }
  }

  lemma WireNameOrAlias(m: Scoop.Message, reading: Value -> int)
    requires OffTheWire(m, reading)
    ensures m.payload.Some? ==> Scoop.NameOrAlias(m.payload.value.metrics)
  {
    var data: seq<byte> :| m.payload == ReceivedPayload(Decoded(data), reading);
    if m.payload.Some? {
      DecodedNameOrAlias(data[20..], ReadUint32(data[16..]));
      hide MetricsFrom, ReadUint32, ReadUint64;
      var ms := MetricsFrom(data[20..], ReadUint32(data[16..]));
      forall k | 0 <= k < |ms|
        ensures ReceivedAll(ms, reading)[k].name == "" || ReceivedAll(ms, reading)[k].alias == 0
      {
        assert ms[k] in ms;
      }
    }
  }

  /** Main result: when all births came off the wire, no alias is ever resolved. Whatever
      the history, a data message brings the points of its named metrics and no others. */
  lemma WireNeverResolves(c: Scoop.Config, history: seq<Scoop.Message>, m: Scoop.Message, reading: Value -> int)
    requires AllOffTheWire(history, reading)
    ensures m.payload.Some? && Scoop.IsData(c, m) ==>
      Scoop.Brings(c, history, m)
      == Scoop.Points(m.payload.value.metrics, m.topic.value.node, Scoop.Filed(m.topic.value))
  {
    forall i | 0 <= i < |history|
      ensures history[i].payload.Some? ==> Scoop.NameOrAlias(history[i].payload.value.metrics)
    {
      WireNameOrAlias(history[i], reading);
    }
    hide *;
    Scoop.SimplifiedFormNeverResolves(c, history, m);
  }

  // ------------------------------------------------------- from the sink to the scoop

  /** The points of the entries that are sent under a name of their own. */
  ghost function EntryPoints(es: seq<Entry>, useAlias: bool, node: string, device: string,
                             reading: Value -> int): seq<Point> {
    if es == [] then []
    else
      var e := es[|es| - 1];
      EntryPoints(es[..|es| - 1], useAlias, node, device, reading)
      + if ByAlias(e.def, useAlias) || e.def.name == [] then []
        else [Point(Scoop.Address(node, device, Characters(e.def.name)), reading(Expected(e, useAlias).value))]
  }

  lemma {:induction false} PointsOfEntries(es: seq<Entry>, useAlias: bool, node: string, device: string,
                                           reading: Value -> int)
    ensures Scoop.Points(ReceivedAll(ExpectedAll(es, useAlias), reading), node, device)
         == EntryPoints(es, useAlias, node, device, reading)
    decreases |es|
  {
    if es != [] {
      hide Expected, Received, Scoop.Address;
      var n := |es| - 1;
      PointsOfEntries(es[..n], useAlias, node, device, reading);
      LastReceived(es, useAlias, reading);
      NameOfReceived(es[n], useAlias, reading);
      hide ExpectedAll, ReceivedAll;
    }
  }

  lemma LastReceived(es: seq<Entry>, useAlias: bool, reading: Value -> int)
    requires es != []
    ensures var ms, n := ReceivedAll(ExpectedAll(es, useAlias), reading), |es| - 1;
      && |ms| == |es| && ms[n] == Received(Expected(es[n], useAlias), reading)
      && ms[..n] == ReceivedAll(ExpectedAll(es[..n], useAlias), reading)
  {
    hide Expected, Received;
  }

  lemma NameOfReceived(e: Entry, useAlias: bool, reading: Value -> int)
    ensures var m := Received(Expected(e, useAlias), reading);
      && m.reading == reading(Expected(e, useAlias).value)
      && m.name == if ByAlias(e.def, useAlias) then [] else Characters(e.def.name)
  {
  }

  /** Main result across both components: a data message the sink encodes, and that the
      formats carry over, brings exactly the points of the entries sent by name. An entry
      sent by its alias never becomes a point. */
  lemma SinkToScoop(c: Scoop.Config, history: seq<Scoop.Message>, m: Scoop.Message, reading: Value -> int,
                    timestamp: uint64, sequence: uint64, es: seq<Entry>, useAlias: bool)
    requires AllOffTheWire(history, reading) && Scoop.IsData(c, m)
    requires m.payload == ReceivedPayload(Decoded(DataBytes(timestamp, sequence, es, useAlias)), reading)
    requires (forall e | e in es :: Inferred(e)) && Survives(es, useAlias)
    ensures Scoop.Brings(c, history, m)
         == EntryPoints(es, useAlias, m.topic.value.node, Scoop.Filed(m.topic.value), reading)
  {
    RoundTrip(timestamp, sequence, es, useAlias);
    hide Decoded, DataBytes, Survives, Inferred, AllOffTheWire;
    WireNeverResolves(c, history, m, reading);
    PointsOfEntries(es, useAlias, m.topic.value.node, Scoop.Filed(m.topic.value), reading);
  }
}
