# IPB, modelled and proved in Dafny

IPB moves industrial data points between protocols. This project models the parts of it
that compute something hard, and proves what they are for:

- the integrity codes of the transform layer: the byte-wise CRC-32 and the 64-bit fallback
  hash (`Integrity.dfy`, `Hash64.dfy`);
- the text and wire formats: Base64 (`Base64.dfy`), the simplified Sparkplug payload written
  by the sink and read by the scoop (`SparkplugCodec.dfy`), data points (`DataPointCodec.dfy`),
  Sparkplug topic names (`SparkplugTopic.dfy`);
- the MQTT topic patterns and their regular expressions (`TopicPattern.dfy`), and the address
  templates filled from topics (`AddressTemplate.dfy`);
- the Sparkplug sink's threads, batch and sequence number as a state machine
  (`SparkplugSink.dfy`), the order in which it publishes (`SparkplugOrder.dfy`), the Sparkplug
  scoop's life cycles, alias tables and buffer (`SparkplugScoop.dfy`), and the way of a metric from one to the other (`SparkplugEndToEnd.dfy`);
- the two rotating log sinks (`LogRotation.dfy`);
- the statistics of the benchmark framework (`BenchmarkStatistics.dfy`);
- routing: the value ordering (`ValueOrder.dfy`), the router's dispatch (`Router.dfy`), the
  syslog sink's fallback (`SyslogSink.dfy`), the bridge's forwarding (`Bridge.dfy`).

`Arithmetic.dfy`, `Bytes.dfy`, `DataPoints.dfy`, `GetLine.dfy` and `Wrappers.dfy` hold what several
of them share.

Code that works step by step is a method, and an object whose methods change its fields is a
class; each is tied by its contract to a function of its inputs or of its history, and the
theorems are about that function. Threads are modelled as steps that any of them may take next.
Machine words are the integers of their width, with wrap-around written out. The doubles of
the statistics and of the value ordering are reals; the double of an integer is the nearest one,
of two equally near the even one.

What brokers, sockets, files, sinks, the rule engine and the payload decoder of the scoop answer
is a parameter, so every theorem holds for all their answers. `hide` statements in proofs only
keep definitions from the solver.

`dafny verify dfyconfig.toml` checks the whole project.

## What turned out otherwise

Where the code falls short of what its documentation or a standard says, the code is modelled as
it is and the exact condition is proved.

- The Sparkplug payload formats of sink and scoop undo each other exactly for 1 to 10000 metrics
  whose strings fit their length fields and in which a metric without a value is followed only
  by metrics with no value, no name and no alias. The encoder writes a null octet that the decoder
  does not skip (`SparkplugRoundTrip.RoundTrip`; `NullOctetShifts` is such a payload).
- With payloads of that format the scoop never resolves an alias, so a metric the sink sends by
  its alias never becomes a point (`SparkplugEndToEnd.WireNeverResolves`, `SinkToScoop`). In general
  an alias gets a name if and only if the last birth gave it one (`SparkplugScoop.ResolvesExactly`).
- A level of `#` must match something and a level of `+` must not be empty, unlike in section 4.7
  of MQTT 3.1.1 (`TopicLevels.AgreesWithStandard`; `BareParentRefused`, `EmptyLevelRefused` and
  `LineBreakRefused` are inputs).
- Filling an address template does not end if a level of the topic contains the placeholder it
  replaces. For one loop the condition is `AddressTemplate.EndsUnlessItLoops`, for the whole call
  `FilledUnlessItLoops` and, on templates that mention the whole topic, `TopicTemplateFills`.
- Sparkplug publishes are made with a sequence number of at most 255 if and only if publishing is
  one thread at a time (`SparkplugSink.InRangeExactlyIfSerial`). Otherwise the number gets as high as
  255 plus the number of workers, and no higher (`OvershootReached`, `RunInv`).
- Points of one device are published in the order in which they were written if and only if there is
  at most one worker (`SparkplugOrder.InOrderExactlyIfOneWorker`).
- The address of a Sparkplug point has no group in it, unlike the comment on it. Points of two metrics
  share an address if and only if node, device and name are the same or the name of a metric of the
  node itself spells out the device and the name of the other (`SparkplugScoop.AddressesCollide`;
  `SlashedNameCollides` is such a pair).
- The value ordering is a total order within every type but the two floating-point ones
  (`ValueOrder.TotalOrderWithinType`). On the values of several types it is transitive if and only if
  every two of the types go together (`OrderedExactlyTogether`): none is a floating-point type, and
  they are the same type, or one is Empty, or they are Boolean and text, or Boolean and an integer
  type, or two integer types other than signed and unsigned 64 bits. Any two other types hold three
  values that break it (`ApartDrifts`).
- Nodes of one name in different groups share their state. An owner's own group decides its state at
  every moment if and only if no message of another group is a birth of the owner, but for one that
  repeats to a living device what its last birth said, or a death of the owner while it lives by its
  own group's messages (`SparkplugScoop.GroupsApart`, for nodes `NodesApart`;
  `ForeignDeathSwitchesOff` is a history where it does not).
- A point whose matches all lack targets is offered to no sink, and routing it succeeds
  (`Router.OfferedToNoSink`; `TargetlessMatchVanishes` is such a rule). Without any match and without
  a dead-letter queue it is an error when routed alone, and none in a batch.
- The size field of a serialised value can wrap `offset + size_` around, so that a malformed value
  passes the length check. Such inputs are the outcome `Aborted`, and they are exactly those of
  `DataPointCodec.AbortsExactly`; `AllOnesAborts` is one.

## Model

| member | source | states |
|---|---|---|
| `Crc32.ComputeCrc32` | core/transform/src/integrity.cpp:33-41 | the nested loops compute the fold of the eight-fold shift step over the bytes |
| `Crc32.DetectsBurst` | core/transform/src/integrity.cpp:33-41 | messages of one length, any length, that differ only within four consecutive bytes have different checksums |
| `Crc32.DetectsBitBurst` | core/transform/src/integrity.cpp:33-41 | messages of one length whose bits, in the order sent, differ only within 32 consecutive ones, at any offset, have different checksums |
| `Crc32.FiveByteBurstMissed` | core/transform/src/integrity.cpp:33-41 | five bytes are too many: two messages that differ within five bytes and share their checksum |
| `Crc32.MatchesStandard` | core/transform/src/integrity.cpp:33-41 | on 32 bits and more the checksum is the remainder section 3.2.9 of IEEE 802.3 defines by polynomial division |
| `Crc32.CheckValue` | core/transform/tests/transform_test.cpp:1051 | the checksum of the digits 1 to 9 is CBF43926 |
| `Hash64.ComputeHash` | core/transform/src/integrity.cpp:65-84 | the loop and the final mix compute the composition of the mixing steps |
| `Hash64.MixInjective` | core/transform/src/integrity.cpp:72-73 | one mixing round loses neither the state nor the byte |
| `Hash64.FinishInjective` | core/transform/src/integrity.cpp:78-82 | the final mix, xor-shifts and odd products modulo 2^64, is injective |
| `Hash64.MixUndone` | core/transform/src/integrity.cpp:72-73 | product with the inverse prime, rotation by 53 bits and xor undo a mixing round on both sides, so for each byte it is a bijection of the words |
| `Hash64.FinishUndone` | core/transform/src/integrity.cpp:78-82 | iterated xor-shifts and inverse products undo the final mix on both sides, so it is a bijection of the words |
| `Hash64.UnshiftUndone` | core/transform/src/integrity.cpp:78-82 | the iterated xor-shift is mapped back by the xor-shift, for every distance |
| `Hash64.MulUndone` | core/transform/src/integrity.cpp:73-81 | multiplying modulo 2^64 by a unit undoes multiplying by its inverse |
| `Hash64.RotateUndone` | core/transform/src/integrity.cpp:61-63 | rotating by 53 and then by 11 bits is the identity |
| `Hash64.FinishSpelled` | core/transform/src/integrity.cpp:78-82 | the final mix turns bits by those 33, 29 and 32 places above, with a product modulo 2^64 after the first and the second |
| `Hash64.MixSpelled` | core/transform/src/integrity.cpp:72-73 | a round turns the bits of the state by those of the product of the byte, rotates by 11 bits and multiplies |
| `Hash64.OneByteAlwaysShows` | core/transform/src/integrity.cpp:54-84 | changing exactly one byte of a message of any length always changes the hash |
| `Hash64.SeedAlwaysShows` | core/transform/src/integrity.cpp:54-84 | changing only the seed always changes the hash |
| `Hash64.SeedsAreHashes` | core/transform/src/integrity.cpp:54-84 | for every message each hash belongs to exactly one seed |
| `Base64.Encode` | core/transform/src/encoding.cpp:98-149 | the encoder writes the 6-bit digits of the concatenated octets, for both alphabets, and the padding |
| `Base64.Decode` | core/transform/src/encoding.cpp:185-232 | the streaming decoder with its wrapping accumulator yields the octets of the concatenated 6-bit digits, or an error for a foreign character or more than two pads |
| `Base64.DecodeAfterEncode` | core/transform/src/encoding.cpp:98-232 | decoding undoes encoding for every octet string, both alphabets, padded or not |
| `Base64.EncodeAfterDecode` | core/transform/src/encoding.cpp:98-232 | encoding undoes decoding exactly on the canonical text of RFC 4648, sections 3.5 and 4 |
| `Base64.FailsExactly` | core/transform/src/encoding.cpp:185-222 | decoding fails if and only if the text ends in three pads or holds a character that is no pad, letter, digit or symbol of the chosen alphabet |
| `Base64.SymbolIsPosition` | core/transform/src/encoding.cpp:98-100 | digit v is written as character v of the alphabet of section 4 or 5 of RFC 4648 |
| `Base64.LookupIsPosition` | core/transform/src/encoding.cpp:185-222 | a character is read as its position in the alphabet, a pad is skipped and every other character is refused |
| `SparkplugEncoder.PayloadBuffer.AppendMetric` | sinks/sparkplug/src/sparkplug_encoder.cpp:222-311 | a metric appends its flag, alias or name, datatype and value octets to the buffer |
| `SparkplugEncoder.PayloadBuffer.AppendUint` | sinks/sparkplug/src/sparkplug_encoder.cpp:173-183 | the shifting loop appends the number big-endian |
| `SparkplugEncoder.PayloadBuffer.AppendString` | sinks/sparkplug/src/sparkplug_encoder.cpp:185-188 | the length modulo 2^32 and the characters |
| `SparkplugEncoder.PayloadBuffer.AppendValue` | sinks/sparkplug/src/sparkplug_encoder.cpp:236-310 | the octets of a value by its type, a null octet for none |
| `SparkplugEncoder.EncodeData` | sinks/sparkplug/src/sparkplug_encoder.cpp:113-140 | the payload is header, count and the octets of the metrics in order |
| `SparkplugEncoder.EncodeDataPoint` | sinks/sparkplug/src/sparkplug_encoder.cpp:145-170 | a single point is the payload of one metric with the datatype inferred from its value |
| `SparkplugDecoder.ReadValue` | scoops/sparkplug/src/sparkplug_payload.cpp:214-323 | the value read at an offset, by datatype, and how far the offset moves |
| `SparkplugDecoder.ReadString` | scoops/sparkplug/src/sparkplug_payload.cpp:131-145 | a length-prefixed string, or the empty one where data is missing, with the offset moved as far as was read |
| `SparkplugDecoder.ReadMetric` | scoops/sparkplug/src/sparkplug_payload.cpp:190-325 | one metric from an offset, or none if it is cut short before its datatype ends |
| `SparkplugRoundTrip.Misread` | scoops/sparkplug/src/sparkplug_payload.cpp:189-326 | a metric read late by some zero octets comes out wrong unless it is blank |
| `SparkplugRoundTrip.ReadOnTime` | scoops/sparkplug/src/sparkplug_payload.cpp:188-326 | a list read from its start comes out right exactly if no metric in it is shifted by a null before it |
| `SparkplugDecoder.Decode` | scoops/sparkplug/src/sparkplug_payload.cpp:149-330 | the cursor loop reads the metrics one after the other, up to the count, the end of the data or the first that is cut short |
| `SparkplugRoundTrip.EntryReads` | scoops/sparkplug/src/sparkplug_payload.cpp:189-326 | a metric with a value is read back from its octets, and the rest is left untouched |
| `SparkplugRoundTrip.ValuelessReads` | scoops/sparkplug/src/sparkplug_payload.cpp:319-323 | after a metric without a value the reader stands one octet early |
| `SparkplugRoundTrip.ReadBehind` | scoops/sparkplug/src/sparkplug_payload.cpp:188-326 | a list read late by any number of zero octets comes out right exactly if every metric in it is blank |
| `SparkplugRoundTrip.RoundTrip` | sinks/sparkplug/src/sparkplug_encoder.cpp:113-140 | decoding an encoded payload gives timestamp, sequence and metrics back if and only if there are 1 to 10000 of them, their strings fit and none is shifted by a null |
| `SparkplugRoundTrip.NullOctetShifts` | scoops/sparkplug/src/sparkplug_payload.cpp:188-326 | a metric without a value followed by a Boolean named "b" comes back as two nameless metrics without a value, the second of another datatype |
| `SparkplugRoundTrip.OtherDatatypesRead` | scoops/sparkplug/src/sparkplug_payload.cpp:189-326 | metrics of the datatypes Text and Bytes, which the encoder never infers, are read with all their octets |
| `SparkplugRoundTrip.ShortValues` | sinks/sparkplug/src/sparkplug_encoder.cpp:145-170 | datatype code and octets of values of one and two octets, by example |
| `SparkplugRoundTrip.FourOctetValues` | sinks/sparkplug/src/sparkplug_encoder.cpp:145-170 | datatype code and octets of values of four octets and of text, by example |
| `SparkplugRoundTrip.EightOctetValues` | sinks/sparkplug/src/sparkplug_encoder.cpp:145-170 | datatype code and octets of values of eight octets, by example |
| `DataPointCodec.Serialize` | core/common/src/data_point.cpp:284-317 | a large enough buffer begins with the wire form and is otherwise unchanged; a smaller one is left alone |
| `DataPointCodec.SerializeValue` | core/common/src/data_point.cpp:10-29 | type, size and data at a moving offset, nothing else touched |
| `DataPointCodec.DeserializeValue` | core/common/src/data_point.cpp:31-65 | a value is read, refused, or the length check wraps around |
| `DataPointCodec.DataPoint.Deserialize` | core/common/src/data_point.cpp:319-377 | the object takes the parsed point's fields; a refused read replaces the address once it is complete and the value once it is, and nothing of the fixed-width fields; behind an incomplete address a short old address is kept, and of a long one the length |
| `DataPointCodec.RoundTrip` | core/common/src/data_point.cpp:284-377 | parsing a serialised point followed by anything gives the point, and leaves what follows |
| `DataPointCodec.PrefixRejected` | core/common/src/data_point.cpp:319-377 | every proper prefix of a serialised point is rejected |
| `DataPointCodec.StreamRoundTrip` | core/common/src/data_point.cpp:284-377 | a concatenation of serialised points parses back to the list |
| `DataPointCodec.UniquelyDecodable` | core/common/src/data_point.cpp:284-317 | two lists of points with the same concatenation are the same list |
| `DataPointCodec.WireExample` | core/common/src/data_point.cpp:284-317 | the octets of one point, low octet of every number first |
| `DataPointCodec.ValueAbortsExactly` | core/common/src/data_point.cpp:46-60 | a value's length check wraps around if and only if its size is within nine of 2^64 and more than is there |
| `DataPointCodec.AbortsExactly` | core/common/src/data_point.cpp:319-354 | reading a point aborts if and only if its address is complete and the size of its value wraps the length check |
| `DataPointCodec.AllOnesAborts` | core/common/src/data_point.cpp:46-60 | such an input: an empty address and a size of eight octets of ones |
| `TopicPattern.Matches` | scoops/mqtt/src/mqtt_scoop.cpp:26-63 | the three in-place passes and the match decide whether the compiled expression matches the topic |
| `TopicPattern.EscapeSpecials` | scoops/mqtt/src/mqtt_scoop.cpp:30-40 | inserting with a moving index escapes every special character once |
| `TopicPattern.ReplaceWildcard` | scoops/mqtt/src/mqtt_scoop.cpp:42-55 | replacing from a moving position replaces every wildcard once, the inserted text not again |
| `TopicPattern.CompilationPreservesMeaning` | scoops/mqtt/src/mqtt_scoop.cpp:26-63 | for every pattern and topic the compiled expression matches exactly when literals match themselves, + a non-empty slash-free run and # anything on one line |
| `TopicLevels.LevelsMatch` | scoops/mqtt/src/mqtt_scoop.cpp:42-55 | on whole-level wildcards this is matching level by level |
| `TopicLevels.HashTakesOneLine` | scoops/mqtt/src/mqtt_scoop.cpp:50-55 | the filter `#` takes exactly the texts without a line break |
| `TopicLevels.AgreesWithStandard` | scoops/mqtt/src/mqtt_scoop.cpp:26-63 | the code takes a topic exactly when section 4.7.1 of MQTT 3.1.1 does and none of three named departures applies |
| `TopicLevels.BareParentRefused` | scoops/mqtt/src/mqtt_scoop.cpp:26-63 | section 4.7.1 matches `a/#` with the topic `a`, the code does not |
| `TopicLevels.EmptyLevelRefused` | scoops/mqtt/src/mqtt_scoop.cpp:26-63 | section 4.7.1 matches `+` with an empty level, the code does not |
| `TopicLevels.LineBreakRefused` | scoops/mqtt/src/mqtt_scoop.cpp:26-63 | section 4.7.1 matches `#` with a line break, the code does not |
| `AddressTemplate.ReplaceEach` | scoops/mqtt/src/mqtt_scoop.cpp:82-88 | the replacing loop, where it ends, leaves what its rounds compute |
| `AddressTemplate.EndsUnlessItLoops` | scoops/mqtt/src/mqtt_scoop.cpp:85-87 | the loop ends if and only if the placeholder does not occur or its replacement does not contain it |
| `AddressTemplate.BracelessSubstitutes` | scoops/mqtt/src/mqtt_scoop.cpp:82-88 | for a level without an opening brace the loop is plain substitution of every occurrence |
| `AddressTemplate.GenerateAddress` | scoops/mqtt/src/mqtt_scoop.cpp:65-91 | for every template and topic the address is the template with the topic put in once and the levels in turn, or the call does not return |
| `AddressTemplate.TopicReplacedOnce` | scoops/mqtt/src/mqtt_scoop.cpp:65-72 | the first mention of the whole topic is replaced by it, and what follows is left |
| `AddressTemplate.FilledUnlessItLoops` | scoops/mqtt/src/mqtt_scoop.cpp:82-88 | filling goes on for ever if and only if, for some level, the text filled so far has its placeholder and so has the level |
| `AddressTemplate.TopicTemplateFills` | scoops/mqtt/src/mqtt_scoop.cpp:65-91 | on templates that mention the whole topic the call returns if and only if no level contains its own placeholder |
| `AddressTemplate.NoSelfMentionFills` | scoops/mqtt/src/mqtt_scoop.cpp:82-88 | on any template the call returns if no level contains its own placeholder |
| `AddressTemplate.SelfMentionLoops` | scoops/mqtt/src/mqtt_scoop.cpp:82-88 | it does not return if the text has the placeholder of a level that contains it, whatever comes before |
| `AddressTemplate.RunKeeps` | scoops/mqtt/src/mqtt_scoop.cpp:85-87 | replacing one placeholder leaves every other where it is |
| `AddressTemplate.PlaceholderTopicLoops` | scoops/mqtt/src/mqtt_scoop.cpp:65-91 | the template and the topic {level0} are such a call |
| `AddressTemplate.BracelessTopicFills` | scoops/mqtt/src/mqtt_scoop.cpp:65-91 | for a topic without an opening brace filling is plain substitution, level by level |
| `GetLine.Split` | scoops/sparkplug/src/sparkplug_topic.cpp:73-79 | the getline loop yields the parts, without an empty one after the last slash |
| `GetLine.LinesOfJoin` | scoops/sparkplug/src/sparkplug_topic.cpp:73-79 | joined slash-free parts are split again, if the last is not empty |
| `SparkplugTopic.Parse` | scoops/sparkplug/src/sparkplug_topic.cpp:68-110 | parse computes the topic its parts denote |
| `SparkplugTopic.TypesReadBack` | scoops/sparkplug/src/sparkplug_topic.cpp:17-62 | every message type is read back from its name |
| `SparkplugTopic.SpelledTopics` | scoops/sparkplug/src/sparkplug_topic.cpp:112-125 | the parts of the topic text of every message type, spelled out |
| `SparkplugTopic.ParseToString` | scoops/sparkplug/src/sparkplug_topic.cpp:68-125 | a topic is read back from its text if and only if no field has a slash, a STATE topic has a host and nothing else, and another has a node or a device |
| `SparkplugTopic.ToStringParse` | scoops/sparkplug/src/sparkplug_topic.cpp:68-125 | an accepted text is written back unchanged if and only if it has no final slash, no further parts and a known message type |
| `SparkplugScoop.OnlineIsHistory` | scoops/sparkplug/src/sparkplug_scoop.cpp:452-577 | an owner is online if and only if some processed decodable birth of it has no later processed death of it or its node |
| `SparkplugScoop.LastBirthRules` | scoops/sparkplug/src/sparkplug_scoop.cpp:465-484 | an owner is known exactly if it has such a birth, and its metrics and aliases are those of the last one |
| `SparkplugScoop.GroupsApart` | scoops/sparkplug/src/sparkplug_scoop.cpp:452-577 | at every moment an owner is in the state its own group's messages alone leave it in, if and only if no message of another group is a processed decodable birth of it, other than one that repeats time, names and aliases of the birth a device lives by, or a processed death of it while some birth in its own group has no later death there |
| `SparkplugScoop.NodesApart` | scoops/sparkplug/src/sparkplug_scoop.cpp:452-508 | a node's own group decides its state if and only if no processed decodable birth in another group names the node and no processed death there does while the node lives by its own group's messages |
| `SparkplugScoop.UntouchedByOthers` | scoops/sparkplug/src/sparkplug_scoop.cpp:452-577 | so it is where no processed birth or death in another group names the owner's node |
| `SparkplugScoop.ForeignDeathSwitchesOff` | scoops/sparkplug/src/sparkplug_scoop.cpp:490-508 | a node death in one group takes the node of the same name in another group offline |
| `SparkplugScoop.TableMeans` | scoops/sparkplug/src/sparkplug_scoop.cpp:474-483 | an alias table maps each alias in use to the name of the last metric that has it |
| `SparkplugScoop.ResolvesExactly` | scoops/sparkplug/src/sparkplug_scoop.cpp:599-631 | an unnamed metric with an alias gets a name if and only if the reader's last processed birth has, as its last metric with that alias, one with a name |
| `SparkplugScoop.Scoop.BuildState` | scoops/sparkplug/src/sparkplug_scoop.cpp:472-483 | the birth loop stores the names and the alias table of the payload |
| `SparkplugScoop.Scoop.HandleNodeBirth` | scoops/sparkplug/src/sparkplug_scoop.cpp:452-488 | a decodable birth replaces the node's state and brings its named metrics' points; another only counts as an error |
| `SparkplugScoop.Scoop.HandleDeviceBirth` | scoops/sparkplug/src/sparkplug_scoop.cpp:528-561 | the same for one device of a node, all others unchanged |
| `SparkplugScoop.Scoop.HandleDeviceDeath` | scoops/sparkplug/src/sparkplug_scoop.cpp:563-577 | a known device goes offline, all else unchanged |
| `SparkplugScoop.Scoop.HandleData` | scoops/sparkplug/src/sparkplug_scoop.cpp:510-526 | data is resolved against the reader's aliases and brings the points of the metrics then named |
| `SparkplugScoop.Scoop.Dispatch` | scoops/sparkplug/src/sparkplug_scoop.cpp:404-449 | one message moves every owner as the message prescribes and the buffer takes its points |
| `SparkplugScoop.Scoop.HandleNodeDeath` | scoops/sparkplug/src/sparkplug_scoop.cpp:490-508 | the node and all its devices, and no other, go offline |
| `SparkplugScoop.Scoop.ResolveAliases` | scoops/sparkplug/src/sparkplug_scoop.cpp:599-631 | exactly the unnamed metrics with a known alias get a name, from the device's table or, without a device, the node's |
| `SparkplugScoop.Scoop.ProcessMetrics` | scoops/sparkplug/src/sparkplug_scoop.cpp:633-663 | of the named metrics' points the buffer takes the first there is room for, and the rest is counted as dropped |
| `SparkplugScoop.Scoop.HandleMessage` | scoops/sparkplug/src/sparkplug_scoop.cpp:391-592 | after every message the states of all owners are those its history determines, the buffer invariant holds, and what was added to the buffer is filed under the node and device of the message's topic |
| `SparkplugScoop.BroughtIsFiled` | scoops/sparkplug/src/sparkplug_scoop.cpp:633-645 | every point a message brings has the reading of one of its metrics and an address whose parts are the node of its topic, the device if it is a device's, and the name |
| `SparkplugScoop.AddressParts` | scoops/sparkplug/src/sparkplug_payload.cpp:30-35 | splitting an address gives the prefix, the node, the device if there is one, and the parts of the name |
| `SparkplugScoop.AddressesCollide` | scoops/sparkplug/src/sparkplug_payload.cpp:30-35 | two metrics share an address if and only if node, device and name are the same or a name of the node itself spells out the device and the name of the other |
| `SparkplugScoop.SlashedNameCollides` | scoops/sparkplug/src/sparkplug_payload.cpp:30-35 | a metric motor/rpm of a node and a metric rpm of its device motor share an address |
| `SparkplugScoop.Scoop.Read` | scoops/sparkplug/src/sparkplug_scoop.cpp:199-209 | read removes everything in order; removed points followed by the buffer stay the accepted ones |
| `SparkplugScoop.Scoop.Deliver` | scoops/sparkplug/src/sparkplug_scoop.cpp:675-693 | a turn of the processing loop removes the first hundred at most, in order, for the callback or, without one, for nobody |
| `SparkplugScoop.DeliveredInOrder` | scoops/sparkplug/src/sparkplug_scoop.cpp:684-693 | what the callback has received stays a subsequence of what left the buffer |
| `SparkplugScoop.Scoop.ResetStatistics` | scoops/sparkplug/src/sparkplug_scoop.cpp:346-354 | accepted plus dropped equals the named metrics since the reset, from zero |
| `SparkplugScoop.SubsequenceGrows` | scoops/sparkplug/src/sparkplug_scoop.cpp:654-660 | the accepted points stay a subsequence of all arrivals, in order of arrival |
| `SparkplugScoop.SimplifiedFormNeverResolves` | scoops/sparkplug/src/sparkplug_scoop.cpp:623-641 | after births whose metrics have a name or an alias, not both, a data message brings the points of its named metrics only |
| `SparkplugEndToEnd.DecodedNameOrAlias` | scoops/sparkplug/src/sparkplug_payload.cpp:189-206 | the decoder never gives a metric both a name and an alias |
| `SparkplugEndToEnd.WireNeverResolves` | scoops/sparkplug/src/sparkplug_scoop.cpp:599-641 | when all payloads came off the wire no alias is ever resolved: a data message brings the points of its named metrics only |
| `SparkplugEndToEnd.SinkToScoop` | sinks/sparkplug/src/sparkplug_encoder.cpp:113-140 | a payload the encoder makes and the formats carry over brings, in the scoop, exactly the points of the entries sent by name |
| `SparkplugSink.GroupByDevice` | sinks/sparkplug/src/sparkplug_sink.cpp:632-638 | the grouping loop maps each device found to its points, in batch order |
| `SparkplugSink.GroupingPartitions` | sinks/sparkplug/src/sparkplug_sink.cpp:628-641 | the groups of a flush together are exactly the batch |
| `SparkplugSink.NextConserves` | sinks/sparkplug/src/sparkplug_sink.cpp:278-297 | every step, stopping and starting again included, keeps each accepted point in one of queue, hands, batch and publish |
| `SparkplugSink.NextKeepsOneHolder` | sinks/sparkplug/src/sparkplug_sink.cpp:551-582 | no step lets two threads hold the batch lock |
| `SparkplugSink.NextBoundsBatch` | sinks/sparkplug/src/sparkplug_sink.cpp:553-591 | every step keeps the queue bounded and the batch below its size while the lock is free |
| `SparkplugSink.NextBoundsSequence` | sinks/sparkplug/src/sparkplug_sink.cpp:653-666 | every step keeps the number at most 255 plus the threads between fetch_add and store |
| `SparkplugSink.NextCounts` | sinks/sparkplug/src/sparkplug_sink.cpp:610-625 | with one publisher at a time every step keeps the number exact modulo 256 |
| `SparkplugSink.RunInv` | sinks/sparkplug/src/sparkplug_sink.cpp:531-668 | in every state of every run no point is lost or doubled, the batch is below its size when the lock is free, and the number is at most 255 plus the threads between their two operations |
| `SparkplugSink.SequenceIsExact` | sinks/sparkplug/src/sparkplug_sink.cpp:348-353 | with one publishing thread at a time the number is the publishes since the last rebirth modulo 256 whenever none is between its operations, in batched mode whenever the lock is free |
| `SparkplugSink.SequenceIsHistory` | sinks/sparkplug/src/sparkplug_sink.cpp:348-353 | that number is counted by the history of steps alone: the successful publishes since the last rebirth, which sets it to zero |
| `SparkplugSink.OvershootReached` | sinks/sparkplug/src/sparkplug_sink.cpp:619-622 | the bound cannot be improved: with direct publishing some run reaches 255 plus the number of workers |
| `SparkplugSink.InRangeExactlyIfSerial` | sinks/sparkplug/src/sparkplug_sink.cpp:593-666 | every publish of every run is made with a number of at most 255 if and only if publishing is one thread at a time: batched, or by at most one worker |
| `SparkplugOrder.BatchIsCollected` | sinks/sparkplug/src/sparkplug_sink.cpp:551-591 | in every state of every run the batch is the points added since the last flush ended, in the order of adding |
| `SparkplugOrder.FlushInOrder` | sinks/sparkplug/src/sparkplug_sink.cpp:553-641 | whenever a flush begins, each of its groups has exactly the collected points of its device, in the order of adding |
| `SparkplugOrder.PublishedInOrder` | sinks/sparkplug/src/sparkplug_sink.cpp:531-668 | with at most one worker the points of each device handed to publish are, in every state of every run, the first of those write took, in that order |
| `SparkplugOrder.InOrderExactlyIfOneWorker` | sinks/sparkplug/src/sparkplug_sink.cpp:531-668 | the points of each device reach publish in the order of write in every run if and only if there is at most one worker |
| `LogDirectory.RenameShifts` | core/common/src/debug.cpp:371-380 | one rename moves one file of the chain and overwrites nothing |
| `FileSinkModel.FileSink.ShiftFiles` | core/common/src/debug.cpp:371-380 | the renaming loop shifts the whole chain by one |
| `FileSinkModel.FileSink.Rotate` | core/common/src/debug.cpp:367-389 | rotation puts an empty live file before the newest max_files - 1 files |
| `FileSinkModel.FileSink.Write` | core/common/src/debug.cpp:445-452 | after any writes backups and live file are a gap-free suffix of everything written, all of it while there is room, with at most max_files - 1 backups, each cut at the size limit |
| `FileSinkModel.AppendKeeps` | core/common/src/debug.cpp:445-450 | a record added to the live file keeps the suffix, and cuts it at the limit if it reaches it |
| `FileSinkModel.FileSink.Open` | core/common/src/debug.cpp:357-365 | after opening the directory holds the whole chain again, with the size of its live file at hand; a failed open changes nothing |
| `FileSinkModel.RotationKeeps` | core/common/src/debug.cpp:367-389 | dropping the oldest file keeps the suffix |
| `StructuredFileSinkModel.StructuredFileSink.Rotate` | core/common/src/structured_logger.cpp:380-398 | rotation puts an empty live file before the newest max_files files |
| `StructuredFileSinkModel.StructuredFileSink.Write` | core/common/src/structured_logger.cpp:426-433 | the same suffix with at most max_files backups, every file within max_size or of one record, and none left before the next record would have exceeded it |
| `StructuredFileSinkModel.StructuredFileSink.ShiftFiles` | core/common/src/structured_logger.cpp:385-393 | the renames shift the chain by one, the oldest file replaced |
| `StructuredFileSinkModel.StructuredFileSink.Open` | core/common/src/structured_logger.cpp:368-378 | after opening the directory holds the whole chain again, with the size of its live file at hand; a failed open changes nothing |
| `StructuredFileSinkModel.AppendKeeps` | core/common/src/structured_logger.cpp:428-433 | a record that fits, or finds the file empty, keeps suffix and size rule |
| `StructuredFileSinkModel.RotationKeeps` | core/common/src/structured_logger.cpp:380-398 | rotation keeps the suffix and the size rule |
| `BenchmarkStatistics.Chebyshev` | benchmarks/include/ipb/benchmarks/benchmark_framework.hpp:731-755 | with threshold k fewer than n/k^2 of n samples are removed if any are, so a threshold of one or more never removes all |
| `BenchmarkStatistics.PercentileMonotone` | benchmarks/include/ipb/benchmarks/benchmark_framework.hpp:788-799 | interpolated percentiles never decrease with p and lie between the extremes |
| `BenchmarkStatistics.PercentileIsLinear` | benchmarks/include/ipb/benchmarks/benchmark_framework.hpp:788-799 | the percentile at the position of a sample is the sample, and between two neighbouring positions it grows in proportion |
| `BenchmarkStatistics.MedianIsMiddle` | benchmarks/include/ipb/benchmarks/benchmark_framework.hpp:788-799 | the median is the middle sample, or the mean of the two middle ones |
| `BenchmarkStatistics.RemoveOutliers` | benchmarks/include/ipb/benchmarks/benchmark_framework.hpp:731-754 | the loops keep the samples within k deviations of the mean, unless none is |
| `BenchmarkStatistics.OutlierFacts` | benchmarks/include/ipb/benchmarks/benchmark_framework.hpp:731-755 | what is kept is sorted, not empty and all but few of the samples |
| `BenchmarkStatistics.KeptExactly` | benchmarks/include/ipb/benchmarks/benchmark_framework.hpp:731-755 | each sample within k deviations of the mean is kept as often as it occurs and no other, unless none is that near |
| `BenchmarkStatistics.Summarize` | benchmarks/include/ipb/benchmarks/benchmark_framework.hpp:757-785 | the report of a sorted set has its extremes, its mean between them, its percentiles in order and its throughput |
| `BenchmarkStatistics.CalculateStatistics` | benchmarks/include/ipb/benchmarks/benchmark_framework.hpp:724-786 | the report orders minimum, percentiles and maximum, has the mean between the extremes, and rests on all but few of the samples |
| `ValueOrder.Antisymmetric` | core/router/src/router.cpp:169-268 | the sign of the comparison turns with its sides, for values of any types |
| `ValueOrder.OperatorsAgree` | core/router/src/router.cpp:290-308 | an operator holds exactly when its opposite does not and its mirror image does with the sides swapped |
| `ValueOrder.TotalOrderWithinType` | core/router/src/router.cpp:188-267 | the comparison is a total order on the values of a type if and only if the type is not a floating-point one |
| `ValueOrder.OrderedExactlyTogether` | core/router/src/router.cpp:169-268 | less-or-equal is transitive on the values of a set of types if and only if every two of the types go together |
| `ValueOrder.TransitiveTogether` | core/router/src/router.cpp:169-268 | less-or-equal is transitive on any three values whose types go together pairwise |
| `ValueOrder.ApartDrifts` | core/router/src/router.cpp:169-268 | any two types that do not go together hold three values, each at most the next, of which the first is greater than the third |
| `ValueOrder.MixedTypesCycle` | core/router/src/router.cpp:171-186 | integers of any type and text are in a cycle: 9 below 10 below the text 5 below 9 |
| `ValueOrder.IntegersOrderedByNumber` | core/router/src/router.cpp:171-178 | integers in the range of their types are ordered by their numbers, unless one is of signed and the other of unsigned 64 bits and a double is inexact |
| `ValueOrder.InexactIntegersMerge` | core/router/src/router.cpp:171-178 | integers of different types never compare against their numeric order, and are equal if and only if they share a double |
| `ValueOrder.OrderedByKey` | core/router/src/router.cpp:171-186 | Empty comes before every integer and every integer before the Booleans, and each kind is ordered by number |
| `ValueOrder.OrderedByText` | core/router/src/router.cpp:180-186 | Empty, Booleans and text are ordered by their texts |
| `ValueOrder.NearestIsNearest` | core/router/src/router.cpp:57-75 | the double of an integer has 53 bits, and no such double is nearer to it |
| `ValueOrder.TiesToEven` | core/router/src/router.cpp:57-75 | an integer half way between two doubles becomes the one with the even significand |
| `ValueOrder.NearestMonotone` | core/router/src/router.cpp:57-75 | rounding to a double keeps the order of the integers |
| `ValueOrder.BinaryIsShortlex` | core/router/src/router.cpp:253-263 | binary values are ordered by length, then at the first octet that differs |
| `ValueOrder.MixedNumbers` | core/router/src/router.cpp:57-81 | an integer and a float, or floats of the two types, are equal if and only if they differ by less than 10^-9, and otherwise ordered by their numbers |
| `ValueOrder.FloatTolerances` | core/router/src/router.cpp:235-246 | floats of one type are equal if and only if they differ by less than 10^-6 or 10^-9, and otherwise ordered by their numbers |
| `ValueOrder.DictionaryOrder` | core/router/src/router.cpp:180-186 | text, and values of different types that are not both numbers, are ordered by their texts as in a dictionary |
| `ValueOrder.TextsOfValues` | core/router/src/router.cpp:96-155 | the text of an integer is its decimal numeral, Booleans are spelled out, and nothing is the empty text |
| `Router.Router.DispatchToSinks` | core/router/src/router.cpp:1119-1163 | the calls for the matches in order, success if one succeeded or none was made, otherwise one dead-letter call and failure |
| `Router.Router.Route` | core/router/src/router.cpp:938-966 | the calls one point gives rise to, and which error is reported |
| `Router.Router.RouteBatch` | core/router/src/router.cpp:992-1030 | the same calls in the same order as routing each point in turn; failure if and only if some point had attempts and none succeeded |
| `Router.Router.RouteEach` | core/router/src/router.cpp:938-966 | routing each point in turn issues the calls RouteBatch is compared with |
| `Router.DeadLetterExactly` | core/router/src/router.cpp:948-963 | one dead-letter write if and only if the queue is on and no rule matched or there were attempts and all failed |
| `Router.AttemptsByPriority` | core/router/src/router.cpp:1125-1136 | one write is attempted for each match that has targets, by failover from priority 192 on and in rotation below |
| `Router.OfferedToNoSink` | core/router/src/router.cpp:943-966 | exactly when a point gives rise to no call at all; a batch then reports no failure, and routed alone it is an error if no rule matched and succeeds if one did |
| `Router.TargetlessMatchVanishes` | core/router/src/router.cpp:1125-1162 | with a rule that matches everything and has no targets every point vanishes and is reported as routed, with the dead-letter queue on |
| `Router.BatchesConcatenate` | core/router/src/router.cpp:1008-1020 | cutting a batch in two changes no call and no order |
| `SyslogSinkModel.StreakBelowLimit` | sinks/syslog/src/syslog_sink.cpp:1005-1020 | outside fallback the failures in a row are below the limit and in fallback at most the limit |
| `SyslogSinkModel.TracksMore` | sinks/syslog/src/syslog_sink.cpp:1005-1013 | flag and counter move so that fallback is entered exactly at the failure that completes the limit since the last remote success, recovery or start, or at a start that cannot connect |
| `SyslogSinkModel.SyslogSink.Start` | sinks/syslog/src/syslog_sink.cpp:57-94 | start clears the counters, and begins in fallback if the remote cannot be reached |
| `SyslogSinkModel.SyslogSink.HandleSendFailure` | sinks/syslog/src/syslog_sink.cpp:1005-1020 | with one more failure in the history, flag and counter are again what the history says |
| `SyslogSinkModel.SyslogSink.Transmit` | sinks/syslog/src/syslog_sink.cpp:199-213 | a message goes where the history says, and history and statistics after it are those of sending it |
| `SyslogSinkModel.SyslogSink.SendRemotely` | sinks/syslog/src/syslog_sink.cpp:200-205 | the remote, then the fallback; the history gains one remote event and the machine stays in step |
| `SyslogSinkModel.SyslogSink.SendToRemote` | sinks/syslog/src/syslog_sink.cpp:742-761 | a success enters the history, with which flag and counter stay in step; a failure leaves everything to its handler |
| `SyslogSinkModel.InFallbackMore` | sinks/syslog/src/syslog_sink.cpp:1005-1020 | how one more event moves the fallback flag that the history determines |
| `SyslogSinkModel.SyslogSink.SendDataPoint` | sinks/syslog/src/syslog_sink.cpp:165-230 | a point offered to a running sink is filtered, queued, dropped, sent or failed, an exception counting as failed, and only one of them |
| `SyslogSinkModel.SyslogSink.ProcessMessageBatch` | sinks/syslog/src/syslog_sink.cpp:979-1003 | history and statistics after a batch are those of its messages one by one |
| `SyslogSinkModel.EachIsSettledOnce` | sinks/syslog/src/syslog_sink.cpp:979-1003 | every message of a batch raises exactly one of sent, failed and filtered, and nothing is dropped |
| `SyslogSinkModel.SentExactly` | sinks/syslog/src/syslog_sink.cpp:199-213 | a message counts as sent exactly if the remote takes it, or refuses it and a fallback takes it, or, in fallback, the local syslog takes it |
| `SyslogSinkModel.SyslogSink.WorkerTurn` | sinks/syslog/src/syslog_sink.cpp:320-341 | a turn takes the front of the queue, at most a batch, and processes it; every point stays accounted for |
| `SyslogSinkModel.ProcessedInTurn` | sinks/syslog/src/syslog_sink.cpp:320-341 | cutting the queue into batches changes neither history nor statistics |
| `SyslogSinkModel.SyslogSink.Stop` | sinks/syslog/src/syslog_sink.cpp:103-118 | stopping empties the queue with the history and statistics of one pass over it, whatever the batch size |
| `SyslogSinkModel.SyslogSink.RecoverFromFallback` | sinks/syslog/src/syslog_sink.cpp:786-800 | recovery ends fallback exactly if the connection succeeds |
| `BridgeModel.Bridge.Start` | apps/ipb-bridge/src/bridge.cpp:55-93 | start from stopped, paused or running, ends a pause and counts each component that fails |
| `BridgeModel.Bridge.Initialize` | apps/ipb-bridge/src/bridge.cpp:20-37 | only a stopped bridge takes its forwarding mode, and stays stopped |
| `BridgeModel.Bridge.Stop` | apps/ipb-bridge/src/bridge.cpp:95-116 | the bridge is stopped, and a pause outlives it |
| `BridgeModel.Bridge.Pause` | apps/ipb-bridge/src/bridge.cpp:118-123 | only a running bridge is paused |
| `BridgeModel.Bridge.Resume` | apps/ipb-bridge/src/bridge.cpp:125-130 | only a paused bridge is resumed |
| `BridgeModel.Bridge.Tick` | apps/ipb-bridge/src/bridge.cpp:146-164 | an expired watchdog is an error, and no point is counted |
| `BridgeModel.Bridge.AddSink` | apps/ipb-bridge/src/bridge.cpp:186-201 | a new id is appended, a known one refused, and the index stays in range |
| `BridgeModel.Bridge.RemoveSink` | apps/ipb-bridge/src/bridge.cpp:221-243 | the sink is taken out and the index stays in range |
| `BridgeModel.Bridge.DataReceived` | apps/ipb-bridge/src/bridge.cpp:280-326 | every point received is forwarded, dropped or, in turn, refused by the one sink it was sent to; broadcast sends to each sink once in order |
| `BridgeModel.Bridge.ForwardData` | apps/ipb-bridge/src/bridge.cpp:291-326 | in turn one sink gets the point and the index moves on; otherwise each sink gets it once |
| `BridgeModel.Bridge.SendToAll` | apps/ipb-bridge/src/bridge.cpp:309-318 | broadcasting sends to each sink in order and reports whether any took the point |
| `RoundRobin.EachInItsTurn` | apps/ipb-bridge/src/bridge.cpp:297-307 | over k turns on n sinks each is chosen k / n times, and those the unfinished round has reached once more |
| `RoundRobin.AtMostOneAhead` | apps/ipb-bridge/src/bridge.cpp:297-307 | no sink is ever more than one turn ahead of another |

## Left out

- OpenSSL, zlib, xxHash, zstd, lz4, snappy, protobuf, Paho, libmodbus, jsoncpp: foreign code behind the hand-written branches.
- `encode_birth` and the encoder of the scoop: the decoder does not read the first, and the second is a stub.
- The hexadecimal codec: it would add only easy members.
- Rule engine, scheduler, message bus, sink registry, lock-free queues: only their callers are modelled. Batch evaluation of rules is taken point by point.
- Regular expressions outside what topic patterns compile to, and the complexity errors of `std::regex`; the matching operators CONTAINS and REGEX_MATCH of a value condition.
- Floating-point rounding: statistics and value comparison are over reals, but for the rounding of integers to doubles, which is to nearest. The text of a floating-point value is a parameter of the value ordering.
- NaN, which the tolerances of the value ordering do not see.
- Inline and external storage of values and addresses: both are octet sequences, but for what reading does to a long address.
- DataPointCodec.DataPoint.Deserialize: the octets of a value whose size was refused are not determined, nor are those of an old address of more than 32 octets when the new one is incomplete; in memory they are stale or gone.
- AddressTemplate.GenerateAddress: a call that does not return is the outcome `None`, since a Dafny method has to end; the loop itself is modelled where it ends.
- SyslogSinkModel.SyslogSink.Stop: with a batch size of zero only an empty queue lets it return, so a queue that is not empty needs a positive one.
- SyslogSinkModel: each send and each recovery is one step; `bytes_sent` and exceptions inside a batch, which end the worker thread, are not modelled.
- StructuredFileSinkModel: requires max_files of at least 1; with zero the unsigned loop counter wraps.
- LogRotation: the directory is the sink's alone and begins empty, renaming and removing succeed where the file exists, and one write call is one step.
- SparkplugSink: publishing births, the registry of devices and the birth counter are not modelled; the device of an address is an arbitrary tag; statistics other than the sequence number are left out.
- SparkplugScoop: each message is one step. Its two halves, state and buffer, are under different locks, but no other step reads both. Timestamps and qualities of points are not modelled.
- SparkplugScoop.Scoop.Deliver: what the callback does with a batch is its own affair.
- Router: deadlines, asynchronous variants and log messages are not modelled.
- BridgeModel: the counters of active sources and sinks and the uptime are not modelled; they count calls rather than components.
- Subscription filters, configuration, health reports, formatting of log and syslog lines, clocks.
