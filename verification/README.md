# StarterCpp: codec, multicast reassembly and struct ordering, verified

A Dafny model of three components of the repository.

**The VITA 49.2 codec** (`Arithmetic`, `ByteSwap`, `BitVectors`, `Doubles`, `ByteVector`, `Vita49Types`,
`PacketHeader`, `SignalDataPacket`, `ContextPacket`, `Vita49Codec`, `CanonicalPackets`, `FileRoundTrip`). Endian words, the
packet prologue (ANSI/VITA 49.2-2017, section 5.1), 16-bit I/Q payloads, context packets laid out by CIF0
(section 9.1), streams of concatenated packets, splitting of long sample vectors, and the re-encoding loop of the file tool. Every
encoder and decoder is a method over byte vectors with the source's branches and loops, proved equal to a
specification function; the lemmas are about those functions, and for each format one of them gives the bytes in
plain numbers, not in the model's constants. The top results are the unbounded round trip of
a split stream, the test on a file's bytes that decides whether the file tool reproduces it, and that the tool
never loses a sample.

**Multicast fragmentation and reassembly** (`Chunking`, `Fragmentation`, `Reassembly`, `ReassemblyRuns`,
`Delivery`, `Multicast`, `EndToEnd`). `Publisher.Publish` reuses one packet buffer as the source does;
`Subscriber.ProcessFragment` and `CleanupStaleMessages` update the reassembly table. Results are over whole
runs: any datagrams in any order and multiplicity, cleanups at any time, and, end to end, a publisher, a
network that may lose, duplicate and reorder, and a subscriber; and, on the two objects, a published message
reaches the handler. Datagrams are at most 65535 bytes long, UDP's
maximum and the size of the receive buffer; a longer one is a sendto that fails.

**Struct ordering in the IDL generator** (`TopoSort`). The recursive depth-first search with its single
visited set, the two dictionaries built before it and the lookups after it.

Conventions. Bytes and words are integers in range, shifts are divisions and multiplications by powers of two,
CIF0 is a bit-vector. `float` and `double` are exact reals, except that an int64 becomes a `double` by rounding
to 53 bits (IEEE 754-2019, ties to even); `std::round` and `lround` round halves away from zero. The clock is a parameter in nanoseconds. `std::optional` is `Option`. A pointer and a length are a
sequence. Sets whose iteration order Python leaves open are walked in an arbitrary order. Host byte order, in
which the packed fragment header is stored, is a parameter.

Where code and comments differ, the model follows the code:

- src/libs/Vita49_2/ContextPacket.h:37 says that fields at bits 20-8 are skipped. The decoder skips 20-15 and
  never looks at 14-0 (`LowBitsIgnored`).
- src/libs/Vita49_2/SignalDataPacket.h:19-20 puts I in the upper half word. That is so in big-endian packets
  only (`SampleWord`).
- src/libs/PubSub/HighBandwidthSubscriber.h:120 says that `stop()` discards incomplete messages; the code
  keeps them. `stop()` is not part of this model.

Properties that hold only under a condition. Each has its exact condition and an input that fails:

| property | exact condition | failing input |
|---|---|---|
| a header serialises to its announced size | every announced section has its value (`SerializedSize`) | a class id without OUI (`UnfilledClassId`) |
| a loud sample saturates | the product fits an int, or its low 32 bits happen to lie beyond the same end (`QuantiseSaturatesIff`) | sample 65536 (`LoudSampleFlips`) |
| an encoded stream decodes | the scale factor is not zero (`SignalStreamRoundTrip`) | every stream at scale 0 (`ZeroScaleLosesStream`) |
| a decoded context packet can be encoded | every frequency's raw value is below 2^63 - 512 (`DecodedInRange`, `ParsedWhole`) | a bandwidth of 2^63 - 512 steps (`FrequencyOverflows`) |
| a decoded frequency is the field's value | the raw value is a multiple of the spacing of doubles there (`FreqDecodedNearest`) | a bandwidth of 2^53 + 1 steps (`FrequencyRounded`) |
| the file tool reproduces a file | the file is not empty and its packets are canonical (`DoRoundTrip`, `CanonicalStream`) | a packet of type 6 (`UnknownTypeDropped`), a non-zero trailer (`TrailerLost`), a class id (`ClassIdLost`), a frequency that no double holds (`FrequencyRounded`) |
| a message is delivered when its last fragment arrives | the fragment completes the current life of its entry, which late cleanups and completions end (`SystemDelivers`, `LifeOf`); a timely cleanup is enough (`SystemDeliversInTime`) but not needed (`EvictedAndDelivered`) | `EvictedAndLost` |
| a message is delivered once | one life of its entry is completed (`SystemDelivers`); never more than one if some fragment arrives at most once (`AtMostOnce`) | `RepeatedAndDeliveredTwice` |
| structs come in dependency order | no cycle (`TopoSortStructs`) | two structs that use each other (`MutualStructs`) |
| every struct of the order can be looked up | no dependency on an unregistered name (`TopoSortStructs`) | `UnregisteredStruct`; a direct call only, since the generator passes exactly the declared names, with which it cannot happen (`TopoSortStructs`) |

The 16-bit topic length in the fragment header is not among them: no topic of 2^16 bytes fits in a datagram, so
whatever is delivered is the published message (`SystemSafe`).

## Model

| member | source | states |
|---|---|---|
| ByteSwap.BytePositions | src/libs/Vita49_2/ByteSwap.h:20-120 | the weight of every byte in 16-, 32- and 64-bit reads, both byte orders |
| ByteSwap.ReadsShift | src/libs/Vita49_2/ByteSwap.h:20-120 | a read anywhere in a buffer is that read of the bytes under it |
| ByteSwap.TwosComplement | src/libs/Vita49_2/ByteSwap.h:20-120 | the signed reading is congruent to the bits modulo 2^16 and 2^64 and goes back to them |
| Vita49Types.RoundHalves | src/libs/Vita49_2/ContextPacket.cpp:57-86 | halves are rounded away from zero |
| ByteSwap.WordReadBack | src/libs/Vita49_2/ByteSwap.h:20-114 | a 32-bit write anywhere in a buffer is read back, in both byte orders |
| ByteSwap.DWordReadBack | src/libs/Vita49_2/ByteSwap.h:28-120 | the same for 64 bits, built from two words in the order's own sequence |
| ByteSwap.DWordWriteBack | src/libs/Vita49_2/ByteSwap.h:28-120 | a value read and written again gives back the same eight bytes |
| PacketHeaderCodec.Parse | src/libs/Vita49_2/PacketHeader.cpp:42-115 | accepts iff word 0 announces a nonempty packet inside the buffer that holds the whole prologue; each section is read at its offset |
| PacketHeaderCodec.HeaderLayout | src/libs/Vita49_2/PacketHeader.cpp:52-114 | acceptance and every header field in bits and bytes: type, flags, count and size in word 0; stream id for types 1, 3, 4 and 5; each section's offset |
| PacketHeaderCodec.Serialize | src/libs/Vita49_2/PacketHeader.cpp:121-181 | appends exactly the header's bytes to the vector and changes nothing before them |
| PacketHeaderCodec.SerializedSize | src/libs/Vita49_2/PacketHeader.cpp:121-200 | the serialised length is never more than sizeInBytes, and equal to it iff every optional that type and flags call for has a value |
| PacketHeaderCodec.UnfilledClassId | src/libs/Vita49_2/PacketHeader.cpp:121-200 | a header with the class id flag and no OUI: a size of 12 bytes, 4 bytes serialised |
| PacketHeaderCodec.HeaderRoundTrip | src/libs/Vita49_2/PacketHeader.cpp:42-200 | a well-formed header followed by its packet body parses back to itself and its length, both byte orders |
| PacketHeaderCodec.HeaderCanonical | src/libs/Vita49_2/PacketHeader.cpp:42-181 | for every accepted buffer the parsed header is well formed and serialises to the same bytes with only the reserved bits of word 0 and the top byte of the OUI word cleared |
| PacketHeaderCodec.CanonicalIdempotent | src/libs/Vita49_2/PacketHeader.cpp:42-181 | parsing the canonical bytes gives the same header again |
| PacketHeaderCodec.ParseHeaderLocal | src/libs/Vita49_2/PacketHeader.cpp:52-114 | a header parse depends only on the header's own bytes and on the packet being there |
| SignalDataPacket.QuantiseIsNearest | src/libs/Vita49_2/SignalDataPacket.cpp:144-147 | with a positive scale and a product in int range, the int16 is a nearest one: within half a step when unclamped, the end point otherwise |
| SignalDataPacket.QuantiseSaturatesIff | src/libs/Vita49_2/SignalDataPacket.cpp:144-147 | for every product in long's range, narrowing to int before clamping gives the saturated value iff the product fits an int or its low 32 bits stand for a value beyond the same end of int16 |
| SignalDataPacket.LoudSampleFlips | src/libs/Vita49_2/SignalDataPacket.cpp:144-147 | a concrete sample at the default scale that should saturate high and comes out as -32768 |
| SignalDataPacket.QuantiseInverse | src/libs/Vita49_2/SignalDataPacket.cpp:75-147 | encoding a decoded int16 gives it back |
| SignalDataPacket.SampleWord | src/libs/Vita49_2/SignalDataPacket.cpp:149-160 | I and Q in a payload word: I is the upper half iff the order is big-endian or both are equal |
| SignalDataPacket.MaxSamples | src/libs/Vita49_2/SignalDataPacket.cpp:179-197 | the returned count, with any header of these flags and the trailer, fills 65535 words exactly; encode refuses precisely what is longer |
| SignalDataPacket.EncodeEmptyIff | src/libs/Vita49_2/SignalDataPacket.cpp:123-197 | encode returns an empty vector iff the samples exceed maxSamplesPerPacket; otherwise the packet has exactly the words it announces |
| SignalDataPacket.Decode | src/libs/Vita49_2/SignalDataPacket.cpp:15-86 | the loop decodes every payload word between header and trailer; zero scale, other packet types and short packets are refused |
| SignalDataPacket.Encode | src/libs/Vita49_2/SignalDataPacket.cpp:92-173 | header, one word per sample, zero trailer |
| SignalDataPacket.EncodedSignalLayout | src/libs/Vita49_2/SignalDataPacket.cpp:92-173 | the encoded bytes: type 1, flags, timestamp types, count modulo 16 and size in word 0, stream id, timestamps, every sample at its place, four zero bytes for a trailer |
| SignalDataPacket.SignalRoundTrip | src/libs/Vita49_2/SignalDataPacket.cpp:15-173 | an encoded packet decodes to its header and its requantised samples, whatever follows it |
| Doubles.ToDoubleExact | src/libs/Vita49_2/ContextPacket.cpp:52-55 | the conversion of an integer always gives a double, and leaves exactly the doubles as they are |
| Doubles.ToDoubleIsNearest | src/libs/Vita49_2/ContextPacket.cpp:52-55 | no double is nearer to the integer than what the conversion gives |
| Doubles.SignificandExact | src/libs/Vita49_2/ContextPacket.cpp:52-60 | every m * 2^e with at most 53 bits in m is a double |
| Doubles.CastBackIff | src/libs/Vita49_2/ContextPacket.cpp:52-60 | the double of an int64 is an int64 again exactly below 2^63 - 512 |
| ContextPacket.FreqError | src/libs/Vita49_2/ContextPacket.cpp:51-60 | a frequency whose fixed-point value fits comes back within 2^-21 Hz, and unchanged the second time |
| ContextPacket.FreqFitsIff | src/libs/Vita49_2/ContextPacket.cpp:57-60 | for every double the condition under which frequencies are encoded is just that the fixed-point value is an int64 |
| ContextPacket.FreqDecodedNearest | src/libs/Vita49_2/ContextPacket.cpp:52-55 | a decoded frequency is a double nearest to the field's value, and is that value iff it is a double |
| ContextPacket.LevelError | src/libs/Vita49_2/ContextPacket.cpp:62-86 | a level or gain comes back within 2^-8 dB, and unchanged the second time |
| ContextPacket.Cif0Bits | src/libs/Vita49_2/ContextPacket.cpp:290-363 | after encoding, bit k of CIF0 is set iff the field of bit k has a value |
| ContextPacket.FieldDataLength | src/libs/Vita49_2/ContextPacket.cpp:106-363 | the data the encoder wrote above a bit is as long as the sizes the decoder has skipped when it reaches that bit |
| ContextPacket.FieldReadBack | src/libs/Vita49_2/ContextPacket.cpp:178-363 | each field's raw value stands at the decoder's offset |
| ContextPacket.Decode | src/libs/Vita49_2/ContextPacket.cpp:139-274 | the bit loop accepts iff the packet has room for header, CIF0 and all set bits 30-15, and reads every field at the sum of the sizes above it |
| ContextPacket.OffsetTable | src/libs/Vita49_2/ContextPacket.cpp:106-203 | for each CIF0 bit from 30 to 15, by its mask: the number of bytes of its field, the skipped ones too, and that it stands behind the fields of the higher bits |
| ContextPacket.SkippedSizes | src/libs/Vita49_2/ContextPacket.cpp:106-136 | the bytes announced by each of the skipped bits 20 to 15 alone; none for 31 and 14 to 0 |
| ContextPacket.DecodedValues | src/libs/Vita49_2/ContextPacket.cpp:52-263 | every field of an accepted packet, from the bytes at its place: 64-bit steps of 1/1048576 Hz, signed half words of 1/128 dB (upper for the level, lower for the gain), plain words |
| ContextPacket.LevelGainPacket | src/libs/Vita49_2/ContextPacket.cpp:62-86 | a literal packet with a level of 2 dBm and a gain of -1 dB |
| ContextPacket.Encode | src/libs/Vita49_2/ContextPacket.cpp:280-405 | the straight-line encoder writes header, CIF0 and the fields most significant bit first |
| ContextPacket.EncodedContextLayout | src/libs/Vita49_2/ContextPacket.cpp:280-405 | the encoded bytes: type 4, timestamp types, count and size in word 0, stream id, timestamps, CIF0, and every value at its place as Round(Hz * 1048576) or Round(dB * 128) |
| ContextPacket.ContextRoundTrip | src/libs/Vita49_2/ContextPacket.cpp:139-405 | for every set of fields, order and timestamp types, decoding an encoding consumes the whole packet and restores presence, ids, counts and change indicator exactly and reals rounded to fixed point |
| ContextPacket.ContextStable | src/libs/Vita49_2/ContextPacket.cpp:139-405 | decoded fields encode to the same bytes again |
| ContextPacket.DecodedInRange | src/libs/Vita49_2/ContextPacket.cpp:204-263 | the decoded values fit their fixed-point fields again iff no announced frequency is 2^63 - 512 or more |
| ContextPacket.LowBitsIgnored | src/libs/Vita49_2/ContextPacket.cpp:172-266 | changing CIF0 bits 20-0 never changes what an accepted packet decodes to, and changing 14-0 never changes acceptance |
| Vita49Codec.Codec.ParseOne | src/libs/Vita49_2/Vita49Codec.cpp:57-130 | dispatches on the packet type; unknown types are skipped by their size |
| Vita49Codec.PacketKinds | src/libs/Vita49_2/Vita49Codec.cpp:57-130 | types 0-3 are signal data, 4 and 5 context, others are skipped by size; when each is accepted, and how much is consumed |
| Vita49Codec.DecodedSamples | src/libs/Vita49_2/SignalDataPacket.cpp:15-86 | the number of samples and each one's value, from the bytes at its place, as signed 16-bit numbers over the scale factor |
| Vita49Codec.OneSamplePacket | src/libs/Vita49_2/Vita49Codec.cpp:57-130 | a literal data packet, its stream id and its sample (0.5, -1.0) at the default scale |
| Vita49Codec.Codec.ParseAll | src/libs/Vita49_2/Vita49Codec.cpp:24-55 | the offset loop returns the packets of the whole buffer up to the first that does not parse |
| Vita49Codec.ParsePacketLocal | src/libs/Vita49_2/Vita49Codec.cpp:57-130 | a packet's parse depends only on its first bytesConsumed bytes |
| Vita49Codec.ParsedWhole | src/libs/Vita49_2/Vita49Codec.cpp:35-130 | every step consumes whole words, and decoded context values can be encoded again iff no announced frequency is 2^63 - 512 or more |
| Vita49Codec.StreamCompositional | src/libs/Vita49_2/Vita49Codec.cpp:24-55 | behind a fully consumed buffer, the packets of a concatenation are the concatenation of the packets |
| Vita49Codec.StreamsConcatenate | src/libs/Vita49_2/Vita49Codec.cpp:24-55 | any number of fully consumed buffers in a row, of any mix of packets, parse to their packets in order |
| Vita49Codec.TruncationPrefix | src/libs/Vita49_2/Vita49Codec.cpp:24-55 | for arbitrary bytes, cutting the buffer anywhere yields a prefix of its packets, and the longest that fits: the next packet reaches beyond the cut |
| Vita49Codec.Codec.EncodeSamples | src/libs/Vita49_2/Vita49Codec.cpp:136-191 | the splitting loop emits one packet per chunk with counts modulo 16, one packet for no samples, and never takes its break |
| Vita49Codec.SignalStreamRoundTrip | src/libs/Vita49_2/Vita49Codec.cpp:24-191 | for any number of samples, parsing the encoded stream consumes everything and gives ceil(n/max) signal packets (one for n = 0), packet i with the caller's prologue and count (start + i) mod 16, and the requantised samples in order |
| Vita49Codec.ZeroScaleLosesStream | src/libs/Vita49_2/Vita49Codec.cpp:24-191 | with a zero scale factor something is encoded and nothing of it parses |
| CanonicalPackets.CanonicalSignal | src/libs/Vita49_2/SignalDataPacket.cpp:15-173 | a data packet with a stream id, no class id, no reserved bits and a zero trailer is decoded whole, and the encoder makes the same bytes of what was decoded |
| CanonicalPackets.FieldsWriteBack | src/libs/Vita49_2/ContextPacket.cpp:178-363 | with no CIF0 bit below 21, a zero lower level half word, a zero upper gain half word and frequencies that a double holds, the decoded fields encode to the bytes they came from, set bit by set bit |
| CanonicalPackets.CanonicalContext | src/libs/Vita49_2/ContextPacket.cpp:139-405 | an IF context packet with such fields, exactly as long as CIF0 announces and without class id or reserved bits, is decoded whole and encoded to the same bytes |
| CanonicalPackets.EncodedSignalCanonical | src/libs/Vita49_2/SignalDataPacket.cpp:92-173 | every signal packet the encoder makes is canonical |
| CanonicalPackets.EncodedContextCanonical | src/libs/Vita49_2/ContextPacket.cpp:280-405 | every context packet the encoder makes is canonical |
| FileRoundTrip.DoRoundTrip | src/apps/Tools/Vita49FileCodec.cpp:358-484 | decodes the file, re-encodes packet by packet, decodes that and compares the samples, failing on an empty file or when nothing decodes; returns the file itself iff it is not empty and canonical, a test on its bytes; finds zero sample error whenever it gets that far |
| FileRoundTrip.ItemsReproduced | src/apps/Tools/Vita49FileCodec.cpp:374-412 | any concatenation of encoder outputs with in-range values is parsed whole and reproduced byte for byte |
| FileRoundTrip.FileRoundTripIff | src/apps/Tools/Vita49FileCodec.cpp:374-412 | for arbitrary bytes and any non-zero scale, what was parsed can be encoded and gives the bytes back iff they are canonical packets in a row; then nothing is left unparsed |
| FileRoundTrip.SamplesSurvive | src/apps/Tools/Vita49FileCodec.cpp:425-484 | for arbitrary bytes, canonical or not: what is re-encoded is parsed whole again and holds exactly the samples of the first parse |
| FileRoundTrip.UnknownTypeDropped | src/apps/Tools/Vita49FileCodec.cpp:374-412 | a file with one packet of type 6: parsed whole, re-encoded to nothing |
| FileRoundTrip.TrailerLost | src/apps/Tools/Vita49FileCodec.cpp:374-412 | a data packet with trailer word 1: parsed whole, not reproduced |
| FileRoundTrip.ClassIdLost | src/apps/Tools/Vita49FileCodec.cpp:374-412 | a data packet with a class id: parsed whole, not reproduced |
| FileRoundTrip.StreamIdAdded | src/apps/Tools/Vita49FileCodec.cpp:374-412 | a literal file with a data packet without stream id, and the file with stream id 0 that the tool makes of it |
| FileRoundTrip.BandwidthSurvivesIff | src/apps/Tools/Vita49FileCodec.cpp:374-412 | a context packet with any bandwidth is parsed whole; it can be encoded iff the raw value is below 2^63 - 512, and comes back iff a double holds it |
| FileRoundTrip.BandwidthValue | src/libs/Vita49_2/ContextPacket.cpp:52-55 | its bandwidth is the raw number over 1048576, if a double holds it |
| FileRoundTrip.FrequencyRounded | src/apps/Tools/Vita49FileCodec.cpp:374-412 | a file with bandwidth 2^53 + 1 steps: parsed whole, not reproduced |
| FileRoundTrip.FrequencyOverflows | src/apps/Tools/Vita49FileCodec.cpp:374-412 | a file with bandwidth 2^63 - 512 steps: parsed whole, and the value cannot be cast back |
| Chunking.ChunksCount | src/libs/PubSub/HighBandwidthPublisher.cpp:116-122 | the greedy cut makes exactly ceil(n/size) pieces |
| Fragmentation.WireRoundTrip | src/libs/PubSub/HighBandwidthPublisher.h:17-24 | a packet's header fields and body are read back as stored |
| Fragmentation.WireLayout | src/libs/PubSub/HighBandwidthPublisher.h:17-24 | the 12-byte header: id at 0, fragment number at 4, total at 6, topic length at 8 |
| Fragmentation.WireBytes | src/libs/PubSub/HighBandwidthPublisher.h:17-24 | a literal packet on little- and big-endian hosts |
| Fragmentation.PiecesRebuild | src/libs/PubSub/HighBandwidthPublisher.cpp:110-171 | the computed fragment count is the number of pieces cut, and they concatenate to the payload |
| Fragmentation.PiecesFull | src/libs/PubSub/HighBandwidthPublisher.cpp:136-171 | no packet exceeds the MTU, all but the last are full, no later one is empty |
| Fragmentation.PacketFields | src/libs/PubSub/HighBandwidthPublisher.cpp:136-171 | what packet i carries: id, number, total, the topic's 16-bit length and the topic itself in packet 0 only, then its piece |
| Fragmentation.ArrivesIntactIff | src/libs/PubSub/HighBandwidthPublisher.cpp:145 | the 16-bit topic length lets a message arrive as published iff its topic is shorter than 2^16, which SystemSafe shows of every delivered one |
| Fragmentation.SlotsRebuild | src/libs/PubSub/HighBandwidthSubscriber.cpp:261-289 | filled slots concatenate to the message as it arrives |
| Fragmentation.Publisher.Publish | src/libs/PubSub/HighBandwidthPublisher.cpp:88-185 | what is sent is exactly the packets (or those before a failing send) of the message whose topic is name, slash and topic, with nothing stale from the reused buffer; accepted up to 65535 fragments, and then the id counter advances modulo 2^32 |
| Reassembly.CompleteIffAll | src/libs/PubSub/HighBandwidthSubscriber.cpp:280 | as many received indices as fragments means every index was received |
| Reassembly.AcceptKeepsInv | src/libs/PubSub/HighBandwidthSubscriber.cpp:236-296 | every fragment that is indexed within bounds keeps the table invariant: as many slots as fragments, received indices in range and fewer than all, unreceived slots empty |
| Reassembly.AcceptCases | src/libs/PubSub/HighBandwidthSubscriber.cpp:234-296 | what a fragment does, case by case on the table: inconsistent total, duplicate, bad topic length, new entry, filled slot, completion with the slots in a row |
| Reassembly.Subscriber.ProcessFragment | src/libs/PubSub/HighBandwidthSubscriber.cpp:217-297 | the new table, wherever the code indexes within bounds; a completed message with a handler for its topic calls that handler once with it, and in every other case nothing is called |
| Reassembly.Subscriber.CleanupStaleMessages | src/libs/PubSub/HighBandwidthSubscriber.cpp:194-215 | removes exactly the entries older than the timeout, from (timeout + 1) million nanoseconds on, and leaves the others as they are |
| Reassembly.ElapsedInNs | src/libs/PubSub/HighBandwidthSubscriber.cpp:199-206 | the millisecond comparison as a bound in nanoseconds |
| Reassembly.Subscriber.DeliverMessage | src/libs/PubSub/HighBandwidthSubscriber.cpp:299-315 | calls the topic's handler once with the message if there is one and it is not empty, and nothing otherwise |
| Reassembly.Subscriber.Subscribe | src/libs/PubSub/HighBandwidthSubscriber.cpp:37-44 | registers the handler under the namespaced topic, replacing any other |
| ReassemblyRuns.Run | src/libs/PubSub/HighBandwidthSubscriber.cpp:194-297 | in every reachable state every entry is waiting |
| ReassemblyRuns.ReceiveLoop | src/libs/PubSub/HighBandwidthSubscriber.cpp:141-192 | the object taken through any datagrams and cleanups has the table of the run, and has called the handlers for the run's deliveries |
| ReassemblyRuns.CalledPerDelivery | src/libs/PubSub/HighBandwidthSubscriber.cpp:299-315 | a registered handler is called once per delivery on its topic, in order, with the delivered message; nothing is called for a topic without one |
| ReassemblyRuns.CalledForEach | src/libs/PubSub/HighBandwidthSubscriber.cpp:299-315 | when every topic has a handler, call i is delivery i's message to its topic's handler |
| ReassemblyRuns.RunSafe | src/libs/PubSub/HighBandwidthSubscriber.cpp:194-297 | under any loss, duplication, reordering, interleaving and cleanups, every delivery is a published message under its own id, and no entry mixes messages |
| ReassemblyRuns.DeliveredWasPublished | src/libs/PubSub/HighBandwidthSubscriber.cpp:194-297 | with topics below 2^16 bytes, delivered topic and payload are exactly the published ones |
| DeliveryResults.EntryTracksLife | src/libs/PubSub/HighBandwidthSubscriber.cpp:194-297 | in every run, with cleanups of any lateness and packets of any multiplicity, the entry of an id holds exactly what its current life has collected, since that life began, and the message was delivered once per completed life |
| DeliveryResults.DeliveredIffCompleted | src/libs/PubSub/HighBandwidthSubscriber.cpp:194-297 | in every run an event delivers a message of the id iff it completes the current life, and then exactly that message, removing the entry |
| DeliveryResults.EntryTracksArrivals | src/libs/PubSub/HighBandwidthSubscriber.cpp:234-280 | with no late cleanup, until everything arrived nothing is delivered and the entry holds exactly what arrived, since the first arrival |
| DeliveryResults.DeliveredAtLastFragment | src/libs/PubSub/HighBandwidthSubscriber.cpp:205-296 | whatever the order, duplicates and interleaving, the last missing fragment delivers the message, exactly once, and removes its entry, if no cleanup came later than the timeout after the first fragment |
| DeliveryResults.WithinTimeout | src/libs/PubSub/HighBandwidthSubscriber.cpp:199-206 | as long as the clock is within the timeout of the first fragment, no cleanup was too late |
| DeliveryResults.EvictedAndDelivered | src/libs/PubSub/HighBandwidthSubscriber.cpp:194-297 | a late cleanup evicts fragment 0 of 2, both arrive afterwards: delivered although the cleanup was late |
| DeliveryResults.EvictedAndLost | src/libs/PubSub/HighBandwidthSubscriber.cpp:194-297 | a late cleanup evicts fragment 0 of 2, only fragment 1 arrives afterwards: everything arrived, nothing is delivered |
| DeliveryResults.RepeatedAndDeliveredTwice | src/libs/PubSub/HighBandwidthSubscriber.cpp:234-296 | both of 2 fragments arrive twice: delivered twice |
| DeliveryResults.Conservation | src/libs/PubSub/HighBandwidthSubscriber.cpp:254-296 | whoever sends under an id and whatever totals are claimed, if k lies below all of them, deliveries of the id, plus one if its entry holds fragment k, never exceed the arrivals of fragment k |
| DeliveryResults.AtMostOnce | src/libs/PubSub/HighBandwidthSubscriber.cpp:254-296 | an id under which some fragment number, below every total claimed, arrived at most once is delivered at most once |
| DeliveryResults.DeliveredNeedsFirst | src/libs/PubSub/HighBandwidthSubscriber.cpp:254-296 | nothing is delivered under an id of which fragment 0 never arrived |
| MulticastSystem.SystemSafe | src/libs/PubSub/HighBandwidthPublisher.cpp:131-185 | over every run of publisher, lossy network and subscriber, whatever is delivered is, topic and payload, the message published under that id |
| MulticastSystem.SystemDelivers | src/libs/PubSub/HighBandwidthSubscriber.cpp:205-296 | in every run of the whole system, whatever is lost, duplicated, reordered or cleaned up late, an event delivers under a published id iff it completes the current life of its entry, and then that very message; deliveries are the completed lives |
| MulticastSystem.SystemDeliversInTime | src/libs/PubSub/HighBandwidthSubscriber.cpp:205-296 | in particular the arrival of a published message's last missing packet delivers it, once, if no cleanup came too late |
| MulticastSystem.AtMostOnceWithoutDuplication | src/libs/PubSub/HighBandwidthSubscriber.cpp:234-296 | over every run whose network does not duplicate, no id is delivered twice |
| EndToEnd.Exchange | src/libs/PubSub/HighBandwidthPublisher.cpp:88-185 | subscribing, publishing and receiving all packets in any order with repetitions up to the last missing one calls the handler exactly once, with the payload under name, slash and topic, and leaves nothing waiting |
| TopoSort.BuildTables | src/libs/CycloneDDS/generate_dds_json_helpers.py:256-268 | the nested loops build struct_info and deps as one pass over all declarations does |
| TopoSort.TablesOfOk | src/libs/CycloneDDS/generate_dds_json_helpers.py:256-268 | exactly the declared structs are registered, each once; its dependencies are exactly the known structs that some field of its registered declaration names, other than itself |
| TopoSort.LastDeclarationWins | src/libs/CycloneDDS/generate_dds_json_helpers.py:256-268 | a name declared more than once is registered with its last declaration and that declaration's dependencies |
| TopoSort.KeysInDeclarationOrder | src/libs/CycloneDDS/generate_dds_json_helpers.py:256-268 | names keep the place of their first declaration: an earlier key was declared before every declaration of a later one |
| TopoSort.Sorter.Visit | src/libs/CycloneDDS/generate_dds_json_helpers.py:273-279 | terminates on cyclic graphs too, extends the order without repetition, leaves the recursion stack as it was, and emits a dependency first unless a path leads back from it |
| TopoSort.OrderImpliesAcyclic | src/libs/CycloneDDS/generate_dds_json_helpers.py:270-282 | a dependency-first order of all structs exists only without cycles |
| TopoSort.TopoSortStructs | src/libs/CycloneDDS/generate_dds_json_helpers.py:251-286 | every declared struct exactly once, with its module; every known struct that some field names stands before the struct unless a cycle leads back, so dependency order holds iff there is no cycle; a KeyError iff some struct depends on an unregistered name, and never when, as in the generator, only declared names count as structs |
| TopoSort.MutualStructs | src/libs/CycloneDDS/generate_dds_json_helpers.py:251-286 | two structs that use each other: a cycle, and no order of all structs has dependencies first |
| TopoSort.TwoDependencies | src/libs/CycloneDDS/generate_dds_json_helpers.py:251-286 | a struct with two fields depends on both, and comes after both in every dependency-first order |
| TopoSort.DeclaredAgain | src/libs/CycloneDDS/generate_dds_json_helpers.py:256-268 | a struct declared in two modules: first place, last declaration, last module |
| TopoSort.UnregisteredStruct | src/libs/CycloneDDS/generate_dds_json_helpers.py:251-286 | a struct that uses a known name without a declaration: the dependency is dangling, hence the KeyError |

## Left out

- IEEE rounding in the sample conversions: exact at powers of two such as the default scale factor; at other factors the source rounds 1 / scale and the products to `float`, which the model does not.
- Conversions that overflow, which C++ leaves undefined: fixed-point values that do not fit int64 or int16 (`InRange`, `StreamCastsBack`), and lround beyond the range of long.
- SignalDataPacket.QuantiseIsNearest: assumes a positive scale and a product in int range; outside it QuantiseSaturatesIff gives the exact condition.
- PacketHeaderCodec.Parse: starts from a default header, as every caller in the library does; optionals left over in a reused header object are not modelled. Null data pointers are not modelled.
- ContextPacket.Decode: the loop's branches for unknown and flag-only sizes are not written, since bits 30 to 15 all have one or two words (the contract of Cif0FieldSizeWords).
- ContextPacket.Encode: fields of the same kind share a helper method where the source repeats the statements.
- FileRoundTrip.DoRoundTrip: requires that no decoded frequency overflows when it is cast back, which is undefined in the source (FrequencyOverflows). File access and log lines are left out.
- Fragmentation.Publisher.Publish: requires, once a message is about to be cut, that its topic fits in the first fragment; beyond that the source copies past its packet buffer. Protobuf serialisation and the success of each send are parameters.
- ReassemblyRuns.RunSafe: assumes distinct ids, that is one publisher and at most 2^32 messages.
- Reassembly.Subscriber.ProcessFragment: requires exactly what keeps the source's index in bounds (a fragment that is discarded first, or whose number is below the total); beyond it the behaviour is undefined. Handler calls are recorded in a ghost log.
- DeliveryResults.Conservation: takes, like the other results over whole runs, datagrams whose fragment number is below their total.
- Threads and locks: processFragment and cleanupStaleMessages are single steps; releasing the lock around a handler call is not modelled.
- Sockets, polling, multicast setup, start and stop, logging.
- TopoSort.Sorter.Visit: Python's recursion limit.
- Regular-expression IDL parsing and C++ text emission in the generator.
- Zyre and DDS transports: wrappers that hand each call to a library whose behaviour is not in the repository.
- Omniscope, gRPC demos, timers and data handlers: threads, device access and generated stubs around single calls, without an algorithm of their own.
- The inspect and generate modes of the file tool: they log what was decoded, or call the modelled encoders once on a computed tone.
