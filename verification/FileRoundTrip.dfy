/** Decoding a capture file, re-encoding it packet by packet and comparing the samples:
    doRoundTrip (src/apps/Tools/Vita49FileCodec.cpp). */
module FileRoundTrip {
  import opened ByteSwap
  import opened BitVectors
  import opened Doubles
  import opened Vita49Types
  import opened Wrappers
  import opened PacketHeaderCodec
  import opened Vita49Codec
  import opened CanonicalPackets
  import S = SignalDataPacket
  import C = ContextPacket

  // ---- re-encoding parsed packets ----

  predicate Encodable(p: ParsedPacket) { p.kind.Context? ==> C.InRange(p.contextFields) }

  predicate AllEncodable(ps: seq<ParsedPacket>) { forall p :: p in ps ==> Encodable(p) }

  function ReEncodePacket(p: ParsedPacket, scale: real, o: ByteOrder): seq<byte>
    requires Encodable(p)
  {
    match p.kind
    case SignalData => EncodeSignalData(PrologueOf(p.header), p.samples, p.header.trailerPresent, scale, o)
    case Context => C.EncodeContext(PrologueOf(p.header), p.contextFields, o)
    case Unknown => []
  }

  function ReEncode(ps: seq<ParsedPacket>, scale: real, o: ByteOrder): seq<byte>
    requires AllEncodable(ps)
  {
    if ps == [] then [] else ReEncode(ps[..|ps| - 1], scale, o) + ReEncodePacket(ps[|ps| - 1], scale, o)
  }

  lemma {:induction false} ReEncodeFirst(p: ParsedPacket, ps: seq<ParsedPacket>, scale: real, o: ByteOrder)
    requires Encodable(p) && AllEncodable(ps)
    ensures ReEncode([p] + ps, scale, o) == ReEncodePacket(p, scale, o) + ReEncode(ps, scale, o)
  {
    hide Encodable, ReEncodePacket;
    var all := [p] + ps;
    if ps == [] {
      assert all[..0] == [];
      assert ReEncode(all[..0], scale, o) == [];
    } else {
      var init, last := ps[..|ps| - 1], ps[|ps| - 1];
      ReEncodeFirst(p, init, scale, o);
      assert all[..|all| - 1] == [p] + init;
    }
  }

  /** The context packets of the file hold no frequency that is too large to encode again. */
  predicate StreamCastsBack(d: seq<byte>, scale: real, o: ByteOrder)
    decreases |d|
  {
    var r := ParsePacket(d, scale, o);
    r.Some? ==>
      && (r.value.packet.kind.Context? ==> ContextCastsBack(d, o))
      && StreamCastsBack(d[r.value.bytesConsumed..], scale, o)
  }

  lemma NothingToEncode()
    ensures AllEncodable([])
  {
  }

  lemma FirstEncodable(p: ParsedPacket, ps: seq<ParsedPacket>)
    ensures AllEncodable([p] + ps) <==> Encodable(p) && AllEncodable(ps)
  {
    hide Encodable;
    if AllEncodable([p] + ps) {
      assert ([p] + ps)[0] == p;
      assert forall q :: q in ps ==> q in [p] + ps;
    }
  }

  lemma {:induction false} StreamEncodable(d: seq<byte>, scale: real, o: ByteOrder)
    ensures AllEncodable(ParseStream(d, scale, o)) <==> StreamCastsBack(d, scale, o)
    decreases |d|
  {
    hide ParsePacket, ParseStream, Consumed, ContextCastsBack, C.InRange, AllEncodable;
    StreamStep(d, scale, o);
    var r := ParsePacket(d, scale, o);
    if r.None? {
      NothingToEncode();
    } else {
      var rest := d[r.value.bytesConsumed..];
      ParsedWhole(d, scale, o);
      StreamEncodable(rest, scale, o);
      FirstEncodable(r.value.packet, ParseStream(rest, scale, o));
    }
  }

  /** A buffer that is parsed whole and whose packets re-encode to the buffer. */
  ghost predicate Reproduced(d: seq<byte>, scale: real, o: ByteOrder) {
    && Consumed(d, scale, o) == |d|
    && AllEncodable(ParseStream(d, scale, o))
    && ReEncode(ParseStream(d, scale, o), scale, o) == d
  }

  lemma {:induction false} ReEncodeAppend(a: seq<ParsedPacket>, b: seq<ParsedPacket>, scale: real, o: ByteOrder)
    requires AllEncodable(a + b)
    ensures AllEncodable(a)
    ensures AllEncodable(b)
    ensures ReEncode(a + b, scale, o) == ReEncode(a, scale, o) + ReEncode(b, scale, o)
  {
    hide Encodable, ReEncodePacket;
    assert forall p :: p in a ==> p in a + b;
    assert forall p :: p in b ==> p in a + b;
    if b == [] {
      assert a + b == a;
    } else {
      assert (a + b)[..|a + b| - 1] == a + b[..|b| - 1];
      ReEncodeAppend(a, b[..|b| - 1], scale, o);
    }
  }

  lemma ReproducedAppend(a: seq<byte>, b: seq<byte>, scale: real, o: ByteOrder)
    requires Reproduced(a, scale, o) && Reproduced(b, scale, o)
    ensures Reproduced(a + b, scale, o)
  {
    hide ParseStream, Consumed, Encodable, ReEncode;
    StreamCompositional(a, b, scale, o);
    StreamEncodable(a + b, scale, o);
    ReEncodeAppend(ParseStream(a, scale, o), ParseStream(b, scale, o), scale, o);
  }

  /** A buffer holding exactly one packet. */
  lemma SinglePacket(d: seq<byte>, p: ParsedPacket, scale: real, o: ByteOrder)
    requires ParsePacket(d, scale, o) == Some(Parsed(p, |d|))
    requires Encodable(p) && ReEncodePacket(p, scale, o) == d
    ensures Reproduced(d, scale, o)
  {
    hide ParsePacket, Encodable, ReEncodePacket;
    assert d[|d|..] == [];
    EmptyParses(scale, o);
    assert ParseStream(d, scale, o) == [p];
    ReEncodeFirst(p, [], scale, o);
    assert [p] + [] == [p];
  }

  lemma ReproducedEmpty(scale: real, o: ByteOrder)
    ensures Reproduced([], scale, o)
  {
  }

  // ---- canonical files ----

  /** Canonical packets in a row, each as long as the low half of its first word says. */
  predicate CanonicalStream(d: seq<byte>, o: ByteOrder)
    decreases |d|
  {
    d != [] ==>
      && |d| >= 4
      && var n := WordAt(d, 0, o) % 0x1_0000 * 4;
         0 < n <= |d| && CanonicalPacket(d[..n], o) && CanonicalStream(d[n..], o)
  }

  lemma CanonicalSignalReproduced(e: seq<byte>, scale: real, o: ByteOrder)
    requires scale != 0.0 && |e| >= 4 && CanonicalPacket(e, o)
    requires WordAt(e, 0, o) / 0x1000_0000 == IF_DATA_WITH_STREAM_ID
    ensures Reproduced(e, scale, o)
  {
    hide S.DecodeSignal, S.EncodeSignal, EncodeSignalData, MaxPerPacket, PrologueOf, WordAt, Reproduced,
         CanonicalPacket;
    assert HeaderOfWord0(WordAt(e, 0, o)).packetType == IF_DATA_WITH_STREAM_ID;
    CanonicalSignal(e, scale, o);
    var r := S.DecodeSignal(e, scale, o).value;
    OneChunk(PrologueOf(r.header), r.samples, r.header.trailerPresent, scale, o);
    SinglePacket(e, ParsedPacket(SignalData, r.header, r.samples, NO_FIELDS), scale, o);
  }

  lemma ParsesAsContext(e: seq<byte>, scale: real, o: ByteOrder)
    requires |e| >= 4 && WordAt(e, 0, o) / 0x1000_0000 == IF_CONTEXT && C.DecodeContext(e, o).Some?
    ensures var r := C.DecodeContext(e, o).value;
            ParsePacket(e, scale, o) == Some(Parsed(ParsedPacket(Context, r.header, [], r.fields), r.bytesConsumed))
  {
    hide C.DecodeContext, WordAt;
  }

  lemma CanonicalContextReproduced(e: seq<byte>, scale: real, o: ByteOrder)
    requires |e| >= 4 && CanonicalPacket(e, o) && WordAt(e, 0, o) / 0x1000_0000 == IF_CONTEXT
    ensures Reproduced(e, scale, o)
  {
    hide C.DecodeContext, C.EncodeContext, WordAt, Reproduced, CanonicalPacket, C.InRange, ParsePacket, PrologueOf;
    assert HeaderOfWord0(WordAt(e, 0, o)).packetType == IF_CONTEXT;
    CanonicalContext(e, o);
    ParsesAsContext(e, scale, o);
    var r := C.DecodeContext(e, o).value;
    SinglePacket(e, ParsedPacket(Context, r.header, [], r.fields), scale, o);
  }

  /** A canonical packet is of one of two types and tells its own length. */
  lemma CanonicalTypes(e: seq<byte>, o: ByteOrder)
    requires CanonicalPacket(e, o)
    ensures |e| == WordAt(e, 0, o) % 0x1_0000 * 4
    ensures WordAt(e, 0, o) / 0x1000_0000 == IF_DATA_WITH_STREAM_ID || WordAt(e, 0, o) / 0x1000_0000 == IF_CONTEXT
  {
    hide WordAt;
  }

  lemma {:induction false} CanonicalReproduced(d: seq<byte>, scale: real, o: ByteOrder)
    requires scale != 0.0 && CanonicalStream(d, o)
    ensures Reproduced(d, scale, o)
    decreases |d|
  {
    hide Reproduced, CanonicalPacket, WordAt;
    if d == [] {
      ReproducedEmpty(scale, o);
    } else {
      var n := WordAt(d, 0, o) % 0x1_0000 * 4;
      CanonicalTypes(d[..n], o);
      if WordAt(d[..n], 0, o) / 0x1000_0000 == IF_CONTEXT {
        CanonicalContextReproduced(d[..n], scale, o);
      } else {
        CanonicalSignalReproduced(d[..n], scale, o);
      }
      CanonicalReproduced(d[n..], scale, o);
      ReproducedAppend(d[..n], d[n..], scale, o);
      assert d == d[..n] + d[n..];
    }
  }

  lemma CanonicalFirst(e: seq<byte>, rest: seq<byte>, o: ByteOrder)
    requires CanonicalPacket(e, o) && CanonicalStream(rest, o)
    ensures CanonicalStream(e + rest, o)
  {
    CanonicalTypes(e, o);
    assert |e| >= 4;
    WordLocal(e, e + rest, |e|, 0, o);
    hide CanonicalPacket, WordAt;
    assert (e + rest)[..|e|] == e && (e + rest)[|e|..] == rest;
  }

  lemma {:induction false} CanonicalAppend(a: seq<byte>, b: seq<byte>, o: ByteOrder)
    requires CanonicalStream(a, o) && CanonicalStream(b, o)
    ensures CanonicalStream(a + b, o)
    decreases |a|
  {
    hide CanonicalPacket, WordAt;
    if a == [] {
      assert a + b == b;
    } else {
      var n := WordAt(a, 0, o) % 0x1_0000 * 4;
      CanonicalAppend(a[n..], b, o);
      CanonicalFirst(a[..n], a[n..] + b, o);
      assert a + b == a[..n] + (a[n..] + b);
    }
  }

  lemma {:induction false} ChunksCanonical(a: Prologue, chunks: seq<seq<IQSample>>, trailer: bool, scale: real,
                                           o: ByteOrder)
    requires forall c :: c in chunks ==> |c| <= MaxPerPacket(a, trailer)
    ensures CanonicalStream(EncodeChunks(a, chunks, trailer, scale, o), o)
    decreases |chunks|
  {
    hide S.EncodeSignal, CanonicalPacket;
    if chunks == [] {
    } else {
      EncodedSignalCanonical(a, chunks[0], trailer, scale, o);
      ChunksCanonical(NextCount(a), chunks[1..], trailer, scale, o);
      hide MaxPerPacket;
      CanonicalFirst(S.EncodeSignal(a, chunks[0], trailer, scale, o),
                     EncodeChunks(NextCount(a), chunks[1..], trailer, scale, o), o);
    }
  }

  lemma SignalDataCanonical(a: Prologue, s: seq<IQSample>, trailer: bool, scale: real, o: ByteOrder)
    ensures CanonicalStream(EncodeSignalData(a, s, trailer, scale, o), o)
  {
    hide EncodeChunks, SampleChunks, MaxPerPacket, CanonicalStream;
    SampleChunksFit(a, s, trailer);
    ChunksCanonical(a, SampleChunks(a, s, trailer), trailer, scale, o);
  }

  lemma EmptyCanonical(o: ByteOrder)
    ensures CanonicalStream([], o)
  {
  }

  lemma ContextCanonical(a: Prologue, f: ContextFields, o: ByteOrder)
    requires C.InRange(f)
    ensures CanonicalStream(C.EncodeContext(a, f, o), o)
  {
    hide C.InRange, CanonicalPacket, CanonicalStream, C.EncodeContext;
    var e := C.EncodeContext(a, f, o);
    EncodedContextCanonical(a, f, o);
    EmptyCanonical(o);
    CanonicalFirst(e, [], o);
    assert e + [] == e;
  }

  /** One call of encodeSignalData or encodeContext. */
  datatype Item =
    | SignalItem(a: Prologue, samples: seq<IQSample>, trailer: bool)
    | ContextItem(a: Prologue, fields: ContextFields)

  predicate ItemInRange(i: Item) { i.ContextItem? ==> C.InRange(i.fields) }

  function EncodeItem(i: Item, scale: real, o: ByteOrder): seq<byte>
    requires ItemInRange(i)
  {
    match i
    case SignalItem(a, s, t) => EncodeSignalData(a, s, t, scale, o)
    case ContextItem(a, f) => C.EncodeContext(a, f, o)
  }

  function EncodeItems(items: seq<Item>, scale: real, o: ByteOrder): seq<byte>
    requires forall i :: i in items ==> ItemInRange(i)
  {
    if items == [] then [] else EncodeItem(items[0], scale, o) + EncodeItems(items[1..], scale, o)
  }

  lemma ItemCanonical(i: Item, scale: real, o: ByteOrder)
    requires ItemInRange(i)
    ensures CanonicalStream(EncodeItem(i, scale, o), o)
  {
    hide CanonicalStream, EncodeSignalData, C.EncodeContext, C.InRange;
    match i
    case SignalItem(a, s, t) => SignalDataCanonical(a, s, t, scale, o);
    case ContextItem(a, f) => ContextCanonical(a, f, o);
  }

  lemma {:induction false} ItemsCanonical(items: seq<Item>, scale: real, o: ByteOrder)
    requires forall i :: i in items ==> ItemInRange(i)
    ensures CanonicalStream(EncodeItems(items, scale, o), o)
  {
    hide CanonicalStream, EncodeItem, ItemInRange;
    if items == [] {
      EmptyCanonical(o);
    } else {
      ItemCanonical(items[0], scale, o);
      ItemsCanonical(items[1..], scale, o);
      CanonicalAppend(EncodeItem(items[0], scale, o), EncodeItems(items[1..], scale, o), o);
    }
  }

  /** Whatever the encoders write in a row is parsed whole and reproduced byte for byte. */
  lemma ItemsReproduced(items: seq<Item>, scale: real, o: ByteOrder)
    requires scale != 0.0 && forall i :: i in items ==> ItemInRange(i)
    ensures Reproduced(EncodeItems(items, scale, o), scale, o)
  {
    ItemsCanonical(items, scale, o);
    CanonicalReproduced(EncodeItems(items, scale, o), scale, o);
  }

  lemma ReEncodedPacketCanonical(p: ParsedPacket, scale: real, o: ByteOrder)
    requires Encodable(p)
    ensures CanonicalStream(ReEncodePacket(p, scale, o), o)
  {
    hide CanonicalStream, EncodeSignalData, C.EncodeContext, C.InRange, PrologueOf;
    match p.kind
    case SignalData => SignalDataCanonical(PrologueOf(p.header), p.samples, p.header.trailerPresent, scale, o);
    case Context => ContextCanonical(PrologueOf(p.header), p.contextFields, o);
    case Unknown => EmptyCanonical(o);
  }

  lemma {:induction false} ReEncodedCanonical(ps: seq<ParsedPacket>, scale: real, o: ByteOrder)
    requires AllEncodable(ps)
    ensures CanonicalStream(ReEncode(ps, scale, o), o)
  {
    hide CanonicalStream, ReEncodePacket, Encodable;
    if ps == [] {
      EmptyCanonical(o);
    } else {
      var init, last := ps[..|ps| - 1], ps[|ps| - 1];
      ReEncodedCanonical(init, scale, o);
      ReEncodedPacketCanonical(last, scale, o);
      CanonicalAppend(ReEncode(init, scale, o), ReEncodePacket(last, scale, o), o);
    }
  }

  /** Decoding a file and re-encoding it packet by packet is possible and reproduces its bytes
      exactly when the file is canonical. */
  lemma FileRoundTripIff(d: seq<byte>, scale: real, o: ByteOrder)
    requires scale != 0.0
    ensures StreamCastsBack(d, scale, o) <==> AllEncodable(ParseStream(d, scale, o))
    ensures StreamCastsBack(d, scale, o) && ReEncode(ParseStream(d, scale, o), scale, o) == d
        <==> CanonicalStream(d, o)
    ensures CanonicalStream(d, o) ==> Consumed(d, scale, o) == |d|
  {
    hide ParseStream, ReEncode, AllEncodable, CanonicalStream, Consumed, StreamCastsBack;
    StreamEncodable(d, scale, o);
    if StreamCastsBack(d, scale, o) { ReEncodedCanonical(ParseStream(d, scale, o), scale, o); }
    if CanonicalStream(d, o) { CanonicalReproduced(d, scale, o); }
  }

  // ---- files that do not come back ----

  lemma OnePacket(d: seq<byte>, scale: real, o: ByteOrder)
    requires ParsePacket(d, scale, o).Some? && ParsePacket(d, scale, o).value.bytesConsumed == |d|
    ensures Consumed(d, scale, o) == |d|
    ensures ParseStream(d, scale, o) == [ParsePacket(d, scale, o).value.packet]
  {
    hide ParsePacket, ParseStream, Consumed;
    StreamStep(d, scale, o);
    assert d[|d|..] == [];
    EmptyParses(scale, o);
  }

  /** A packet of type 6 is parsed and then dropped. */
  lemma UnknownTypeDropped(scale: real)
    ensures var d: seq<byte> := [0x60, 0, 0, 1];
            && Consumed(d, scale, BigEndian) == |d| && |ParseStream(d, scale, BigEndian)| == 1
            && AllEncodable(ParseStream(d, scale, BigEndian))
            && ReEncode(ParseStream(d, scale, BigEndian), scale, BigEndian) == []
  {
    var d: seq<byte> := [0x60, 0, 0, 1];
    assert ParsePacket(d, scale, BigEndian) == Some(Parsed(ParsedPacket(Unknown, NO_HEADER, [], NO_FIELDS), 4));
    hide ParsePacket;
    OnePacket(d, scale, BigEndian);
  }

  /** A data packet whose trailer word is 1 is parsed, and comes back with another trailer. */
  lemma TrailerLost(scale: real)
    requires scale != 0.0
    ensures var d: seq<byte> := [0x14, 0, 0, 3, 0, 0, 0, 7, 0, 0, 0, 1];
            && Consumed(d, scale, BigEndian) == |d|
            && AllEncodable(ParseStream(d, scale, BigEndian))
            && ReEncode(ParseStream(d, scale, BigEndian), scale, BigEndian) != d
  {
    var d: seq<byte> := [0x14, 0, 0, 3, 0, 0, 0, 7, 0, 0, 0, 1];
    assert WordAt(d, 0, BigEndian) == 0x1400_0003;
    var h := HeaderOfWord0(0x1400_0003);
    assert h.trailerPresent && h.packetSize == 3 && SizeInBytes(h) == 8;
    assert S.DecodeSignal(d, scale, BigEndian).Some?;
    assert WordAt(d, 8, BigEndian) == 1;
    assert d[..12] == d && !CanonicalPacket(d, BigEndian);
    hide ParseStream, Consumed, S.DecodeSignal, ReEncode, Encodable;
    OnePacket(d, scale, BigEndian);
    FileRoundTripIff(d, scale, BigEndian);
  }

  /** A data packet with a class id is parsed, and comes back without it. */
  lemma ClassIdLost(scale: real)
    requires scale != 0.0
    ensures var d: seq<byte> := [0x18, 0, 0, 4, 0, 0, 0, 7, 0, 0, 0, 1, 0, 0, 0, 2];
            && Consumed(d, scale, BigEndian) == |d|
            && AllEncodable(ParseStream(d, scale, BigEndian))
            && ReEncode(ParseStream(d, scale, BigEndian), scale, BigEndian) != d
  {
    var d: seq<byte> := [0x18, 0, 0, 4, 0, 0, 0, 7, 0, 0, 0, 1, 0, 0, 0, 2];
    assert WordAt(d, 0, BigEndian) == 0x1800_0004;
    var h := HeaderOfWord0(0x1800_0004);
    assert h.classIdPresent && h.packetSize == 4 && SizeInBytes(h) == 16;
    assert S.DecodeSignal(d, scale, BigEndian).Some?;
    assert d[..16] == d && !CanonicalPacket(d, BigEndian);
    hide ParseStream, Consumed, S.DecodeSignal, ReEncode, Encodable;
    OnePacket(d, scale, BigEndian);
    FileRoundTripIff(d, scale, BigEndian);
  }

  /** A context packet with a bandwidth and nothing else. */
  function BandwidthFile(raw: u64): seq<byte> {
    [0x40, 0, 0, 5, 0, 0, 0, 7, 0x20, 0, 0, 0] + DWordBytes(raw, BigEndian)
  }

  lemma OnlyBit29()
    ensures forall bit :: 15 <= bit <= 30 ==> (Bit(0x2000_0000, bit) <==> bit == 29)
  {
    forall bit | 15 <= bit <= 30
      ensures Bit(0x2000_0000, bit) <==> bit == 29
    {
      match bit
      case 15 => case 16 => case 17 => case 18 => case 19 => case 20 => case 21 => case 22 =>
      case 23 => case 24 => case 25 => case 26 => case 27 => case 28 => case 29 => case 30 =>
    }
  }

  lemma {:induction false} WordsBelow29(cif0: bv32, bit: int)
    requires 14 <= bit <= 28 && C.WordsAbove(cif0, 28) == 2
    requires forall k :: 15 <= k <= 28 ==> !Bit(cif0, k)
    ensures C.WordsAbove(cif0, bit) == 2
    decreases 28 - bit
  {
    hide Bit;
    if bit == 28 {
    } else {
      WordsBelow29(cif0, bit + 1);
    }
  }

  lemma BandwidthCif0(d: seq<byte>, raw: u64, o: ByteOrder)
    requires |d| == 20 && DWordAt(d, 12, o) == raw
    ensures var cif0: bv32 := 0x2000_0000;
            && C.AnnouncedBytes(cif0) == 8
            && (C.CastsBack(d, 12, cif0, o) <==> SignedOf64(raw) < C.MAX_CAST_BACK)
            && (CanonicalValues(d, 12, cif0, o) <==> Exact(SignedOf64(raw)))
  {
    hide Bit, Exact, DWordAt, WordAt, SignedOf64;
    var cif0: bv32 := 0x2000_0000;
    OnlyBit29();
    assert C.WordsAbove(cif0, 29) == 0;
    assert C.WordsAbove(cif0, 28) == 2;
    WordsBelow29(cif0, 14);
    assert C.HoldsFreq(29);
  }

  lemma Bit29()
    ensures ToBits(0x2000_0000) == 0x2000_0000
  {
    BitsBack(0x2000_0000);
    assert FromBits(0x2000_0000) == 0x2000_0000;
  }

  lemma BandwidthHeader(raw: u64)
    ensures var d := BandwidthFile(raw);
            && |d| == 20 && WordAt(d, 0, BigEndian) == 0x4000_0005
            && WordAt(d, 4, BigEndian) == 7
            && WordAt(d, 8, BigEndian) == 0x2000_0000 && DWordAt(d, 12, BigEndian) == raw
            && ToBits(WordAt(d, 8, BigEndian)) == 0x2000_0000
  {
    hide DWordBytes, DWordAt, ToBits;
    var d := BandwidthFile(raw);
    assert d == d[..12] + DWordBytes(raw, BigEndian) + [];
    assert d[0] == 0x40 && d[1] == 0 && d[2] == 0 && d[3] == 5;
    assert d[4] == 0 && d[5] == 0 && d[6] == 0 && d[7] == 7;
    assert d[8] == 0x20 && d[9] == 0 && d[10] == 0 && d[11] == 0;
    DWordReadBack(d[..12], raw, [], BigEndian);
    Bit29();
  }

  lemma NothingParsed(scale: real, o: ByteOrder)
    ensures StreamCastsBack([], scale, o) && CanonicalStream([], o)
  {
  }

  lemma BandwidthParses(d: seq<byte>, raw: u64, scale: real)
    requires |d| == 20 && WordAt(d, 0, BigEndian) == 0x4000_0005
    requires WordAt(d, 8, BigEndian) == 0x2000_0000 && DWordAt(d, 12, BigEndian) == raw
    requires ToBits(WordAt(d, 8, BigEndian)) == 0x2000_0000
    ensures var r := ParsePacket(d, scale, BigEndian);
            r.Some? && r.value.packet.kind == Context && r.value.bytesConsumed == |d|
    ensures ContextCastsBack(d, BigEndian) <==> SignedOf64(raw) < C.MAX_CAST_BACK
    ensures CanonicalPacket(d, BigEndian) <==> Exact(SignedOf64(raw))
  {
    hide WordAt, DWordAt, Exact, SignedOf64, C.Fields, C.CastsBack, CanonicalValues, C.AnnouncedBytes, ToBits;
    BandwidthCif0(d, raw, BigEndian);
    var h := HeaderOfWord0(0x4000_0005);
    assert h.packetType == IF_CONTEXT && h.packetSize == 5 && !h.classIdPresent && SizeInBytes(h) == 8;
  }

  /** A file of exactly one context packet. */
  lemma OneContextPacket(d: seq<byte>, scale: real, o: ByteOrder)
    requires 4 <= |d| == WordAt(d, 0, o) % 0x1_0000 * 4
    requires var r := ParsePacket(d, scale, o);
             r.Some? && r.value.packet.kind.Context? && r.value.bytesConsumed == |d|
    ensures StreamCastsBack(d, scale, o) <==> ContextCastsBack(d, o)
    ensures CanonicalStream(d, o) <==> CanonicalPacket(d, o)
  {
    hide ParsePacket, CanonicalPacket, ContextCastsBack, WordAt;
    assert d[..|d|] == d && d[|d|..] == [];
    NothingParsed(scale, o);
  }

  /** A context packet whose only field is a bandwidth is parsed whole, whatever its raw value.
      It can be encoded again exactly if the raw value casts back, and comes back unchanged
      exactly if a double holds it. */
  lemma BandwidthSurvivesIff(raw: u64, scale: real)
    requires scale != 0.0
    ensures var d := BandwidthFile(raw);
            && Consumed(d, scale, BigEndian) == |d|
            && (StreamCastsBack(d, scale, BigEndian) <==> SignedOf64(raw) < C.MAX_CAST_BACK)
            && (StreamCastsBack(d, scale, BigEndian) <==> AllEncodable(ParseStream(d, scale, BigEndian)))
            && (StreamCastsBack(d, scale, BigEndian) ==>
                  (ReEncode(ParseStream(d, scale, BigEndian), scale, BigEndian) == d <==> Exact(SignedOf64(raw))))
  {
    hide BandwidthFile, ParsePacket, ParseStream, Consumed, CanonicalPacket, ContextCastsBack, ReEncode, AllEncodable,
         Exact, SignedOf64, DWordAt, WordAt, ToBits, StreamCastsBack, CanonicalStream;
    var d, o := BandwidthFile(raw), BigEndian;
    BandwidthHeader(raw);
    BandwidthParses(d, raw, scale);
    OnePacket(d, scale, o);
    OneContextPacket(d, scale, o);
    FileRoundTripIff(d, scale, o);
  }

  lemma DWordBig(raw: u64, hi: u32, lo: u32)
    requires raw == hi * 0x1_0000_0000 + lo
    ensures BandwidthFile(raw)
         == [0x40, 0, 0, 5, 0, 0, 0, 7, 0x20, 0, 0, 0] + (WordBytes(hi, BigEndian) + WordBytes(lo, BigEndian))
  {
    hide WordBytes;
    assert raw / 0x1_0000_0000 == hi && raw % 0x1_0000_0000 == lo;
  }

  lemma BandwidthBytes()
    ensures BandwidthFile(0x20_0000_0000_0001)
         == [0x40, 0, 0, 5, 0, 0, 0, 7, 0x20, 0, 0, 0, 0, 0x20, 0, 0, 0, 0, 0, 1]
    ensures BandwidthFile(0x7FFF_FFFF_FFFF_FE00)
         == [0x40, 0, 0, 5, 0, 0, 0, 7, 0x20, 0, 0, 0, 0x7F, 0xFF, 0xFF, 0xFF, 0xFF, 0xFF, 0xFE, 0]
  {
    hide BandwidthFile, DWordBytes;
    DWordBig(0x20_0000_0000_0001, 0x20_0000, 1);
    DWordBig(0x7FFF_FFFF_FFFF_FE00, 0x7FFF_FFFF, 0xFFFF_FE00);
    assert WordBytes(0x20_0000, BigEndian) == [0, 0x20, 0, 0] && WordBytes(1, BigEndian) == [0, 0, 0, 1];
    assert WordBytes(0x7FFF_FFFF, BigEndian) == [0x7F, 0xFF, 0xFF, 0xFF];
    assert WordBytes(0xFFFF_FE00, BigEndian) == [0xFF, 0xFF, 0xFE, 0];
  }

  lemma FirstIsBandwidth(f: ContextFields, d: seq<byte>, base: nat, o: ByteOrder)
    requires C.ValuesAt(f, d, base, 0x2000_0000, o) && base + 8 <= |d|
    ensures f.bandwidth == Some(ToDouble(SignedOf64(DWordAt(d, base, o))) as real / 1048576.0)
  {
    hide DWordAt, WordAt, SignedOf64, ToDouble, C.FieldOffset, C.AnnouncedBytes;
    C.OffsetTable(0x2000_0000);
  }

  lemma BandwidthDecodes(d: seq<byte>, raw: u64)
    requires |d| == 20 && WordAt(d, 0, BigEndian) == 0x4000_0005 && WordAt(d, 4, BigEndian) == 7
    requires DWordAt(d, 12, BigEndian) == raw && ToBits(WordAt(d, 8, BigEndian)) == 0x2000_0000
    requires Exact(SignedOf64(raw)) && C.DecodeContext(d, BigEndian).Some?
    ensures var r := C.DecodeContext(d, BigEndian).value;
            r.header.streamId == Some(7) && r.fields.bandwidth == Some(SignedOf64(raw) as real / 1048576.0)
  {
    hide ParseHeader, WordAt, DWordAt, C.FieldOffset, C.AnnouncedBytes, C.Fields, Exact, ToDouble, SignedOf64, ToBits,
         C.ValuesAt;
    HeaderLayout(d, BigEndian);
    ToDoubleExact(SignedOf64(raw));
    C.DecodedValues(d, BigEndian);
    FirstIsBandwidth(C.DecodeContext(d, BigEndian).value.fields, d, 12, BigEndian);
  }

  /** Its value: the raw number of 2^-20 Hz steps, if a double holds it. */
  lemma BandwidthValue(raw: u64, scale: real)
    requires Exact(SignedOf64(raw))
    ensures var r := ParsePacket(BandwidthFile(raw), scale, BigEndian);
            && r.Some? && r.value.packet.kind == Context
            && r.value.packet.header.streamId == Some(7)
            && r.value.packet.contextFields.bandwidth == Some(SignedOf64(raw) as real / 1048576.0)
  {
    hide BandwidthFile, WordAt, DWordAt, C.DecodeContext, Exact, SignedOf64, ToBits, S.DecodeSignal;
    var d := BandwidthFile(raw);
    BandwidthHeader(raw);
    BandwidthParses(d, raw, scale);
    ParsesAsContext(d, scale, BigEndian);
    BandwidthDecodes(d, raw);
  }

  /** The bandwidth 2^53 + 1 steps is parsed, and comes back as another one. */
  lemma FrequencyRounded(scale: real)
    requires scale != 0.0
    ensures var d: seq<byte> := [0x40, 0, 0, 5, 0, 0, 0, 7, 0x20, 0, 0, 0, 0, 0x20, 0, 0, 0, 0, 0, 1];
            && Consumed(d, scale, BigEndian) == |d|
            && AllEncodable(ParseStream(d, scale, BigEndian))
            && ReEncode(ParseStream(d, scale, BigEndian), scale, BigEndian) != d
  {
    hide ParseStream, Consumed, StreamCastsBack, ReEncode, AllEncodable, BandwidthFile, DWordBytes;
    var raw: u64 := 0x20_0000_0000_0001;
    BandwidthBytes();
    BandwidthSurvivesIff(raw, scale);
    assert Ulp(raw) == 2 && !Exact(SignedOf64(raw));
  }

  /** A bandwidth of 2^63 - 512 steps is parsed, and cannot be cast back. */
  lemma FrequencyOverflows(scale: real)
    requires scale != 0.0
    ensures var d: seq<byte> := [0x40, 0, 0, 5, 0, 0, 0, 7, 0x20, 0, 0, 0, 0x7F, 0xFF, 0xFF, 0xFF, 0xFF, 0xFF, 0xFE, 0];
            && Consumed(d, scale, BigEndian) == |d|
            && !StreamCastsBack(d, scale, BigEndian) && !AllEncodable(ParseStream(d, scale, BigEndian))
  {
    hide ParseStream, Consumed, StreamCastsBack, ReEncode, AllEncodable, BandwidthFile, DWordBytes, Exact;
    var raw: u64 := 0x7FFF_FFFF_FFFF_FE00;
    BandwidthBytes();
    BandwidthSurvivesIff(raw, scale);
  }

  /** A packet of one sample, without or with the stream id 0. */
  lemma OneSampleParses(d: seq<byte>, w: u32, start: nat, scale: real)
    requires scale != 0.0 && ((w == 2 && start == 4) || (w == 0x1000_0003 && start == 8)) && |d| == start + 4
    requires WordAt(d, 0, BigEndian) == w && (start == 8 ==> WordAt(d, 4, BigEndian) == 0)
    requires U16At(d, start, BigEndian) == 0x4000 && U16At(d, start + 2, BigEndian) == 0x8000
    ensures var r := ParsePacket(d, scale, BigEndian);
            && r.Some? && r.value.bytesConsumed == |d| && r.value.packet.kind == SignalData
            && r.value.packet.samples == [IQSample(16384.0 / scale, -32768.0 / scale)]
            && PrologueOf(r.value.packet.header) == Prologue(0, 0, 0, 0, 0, 0)
            && !r.value.packet.header.trailerPresent
  {
    hide ParsePacket, ParseHeader, WordAt, U16At;
    PacketKinds(d, scale, BigEndian);
    HeaderLayout(d, BigEndian);
    DecodedSamples(d, scale, BigEndian);
  }

  lemma OneSampleFiles(scale: real)
    requires scale != 0.0
    ensures var d: seq<byte> := [0, 0, 0, 2, 0x40, 0, 0x80, 0];
            var e: seq<byte> := [0x10, 0, 0, 3, 0, 0, 0, 0, 0x40, 0, 0x80, 0];
            var r, q := ParsePacket(d, scale, BigEndian), ParsePacket(e, scale, BigEndian);
            && r.Some? && q.Some? && r.value.bytesConsumed == |d| && q.value.bytesConsumed == |e|
            && r.value.packet.kind == SignalData && q.value.packet.kind == SignalData
            && r.value.packet.samples == q.value.packet.samples
            && PrologueOf(r.value.packet.header) == PrologueOf(q.value.packet.header)
            && !r.value.packet.header.trailerPresent && !q.value.packet.header.trailerPresent
  {
    hide ParsePacket, PrologueOf;
    OneSampleParses([0, 0, 0, 2, 0x40, 0, 0x80, 0], 2, 4, scale);
    OneSampleParses([0x10, 0, 0, 3, 0, 0, 0, 0, 0x40, 0, 0x80, 0], 0x1000_0003, 8, scale);
  }

  lemma CanonicalSample()
    ensures CanonicalStream([0x10, 0, 0, 3, 0, 0, 0, 0, 0x40, 0, 0x80, 0], BigEndian)
  {
    var e: seq<byte> := [0x10, 0, 0, 3, 0, 0, 0, 0, 0x40, 0, 0x80, 0];
    assert WordAt(e, 0, BigEndian) == 0x1000_0003;
    var h := HeaderOfWord0(0x1000_0003);
    assert h.packetType == IF_DATA_WITH_STREAM_ID && !h.trailerPresent && h.packetSize == 3 && SizeInBytes(h) == 8;
    assert CanonicalPacket(e, BigEndian);
    assert e[..12] == e && e[12..] == [];
  }

  /** A data packet without stream id is parsed, and comes back as one with stream id 0. */
  lemma StreamIdAdded(scale: real)
    requires scale != 0.0
    ensures var d: seq<byte> := [0, 0, 0, 2, 0x40, 0, 0x80, 0];
            && Consumed(d, scale, BigEndian) == |d|
            && AllEncodable(ParseStream(d, scale, BigEndian))
            && ReEncode(ParseStream(d, scale, BigEndian), scale, BigEndian)
                 == [0x10, 0, 0, 3, 0, 0, 0, 0, 0x40, 0, 0x80, 0]
  {
    var d: seq<byte>, e: seq<byte> := [0, 0, 0, 2, 0x40, 0, 0x80, 0], [0x10, 0, 0, 3, 0, 0, 0, 0, 0x40, 0, 0x80, 0];
    OneSampleFiles(scale);
    CanonicalSample();
    hide ParsePacket, ParseStream, Consumed, CanonicalStream, PrologueOf, EncodeSignalData;
    OnePacket(d, scale, BigEndian);
    OnePacket(e, scale, BigEndian);
    CanonicalReproduced(e, scale, BigEndian);
    var p, q := ParsePacket(d, scale, BigEndian).value.packet, ParsePacket(e, scale, BigEndian).value.packet;
    assert [p][..0] == [] && [q][..0] == [];
    assert ReEncodePacket(p, scale, BigEndian) == ReEncodePacket(q, scale, BigEndian);
    assert ReEncode([p], scale, BigEndian) == ReEncode([q], scale, BigEndian);
  }

  // ---- samples are never lost ----

  /** Samples that 16 bits hold, in signal packets only. */
  ghost predicate Settled(p: ParsedPacket, scale: real)
    requires scale != 0.0
  {
    S.RequantisedAll(p.samples, scale) == p.samples && (p.kind != SignalData ==> p.samples == [])
  }

  lemma SamplesSettled(d: seq<byte>, off: nat, n: nat, scale: real, o: ByteOrder)
    requires off + 4 * n <= |d| && scale != 0.0
    ensures S.RequantisedAll(S.SamplesAt(d, off, n, scale, o), scale) == S.SamplesAt(d, off, n, scale, o)
  {
    hide S.Quantise, S.Dequantise, U16At, SignedOf16;
    forall i | 0 <= i < n
      ensures S.Requantised(S.SampleAt(d, off + 4 * i, scale, o), scale) == S.SampleAt(d, off + 4 * i, scale, o)
    {
      S.QuantiseInverse(SignedOf16(U16At(d, off + 4 * i, o)), scale);
      S.QuantiseInverse(SignedOf16(U16At(d, off + 4 * i + 2, o)), scale);
    }
  }

  lemma NoSamplesSettled(scale: real)
    requires scale != 0.0
    ensures S.RequantisedAll([], scale) == []
  {
  }

  lemma ParsedSettled(d: seq<byte>, scale: real, o: ByteOrder)
    requires scale != 0.0 && ParsePacket(d, scale, o).Some?
    ensures Settled(ParsePacket(d, scale, o).value.packet, scale)
  {
    hide ParseHeader, S.SamplesAt, S.RequantisedAll, C.DecodeContext, WordAt;
    NoSamplesSettled(scale);
    var t: PacketType := WordAt(d, 0, o) / 0x1000_0000;
    if IsDataPacket(t) {
      var h, start := ParseHeader(d, o).value.header, ParseHeader(d, o).value.bytes;
      SamplesSettled(d, start, (h.packetSize * 4 - start - if h.trailerPresent then 4 else 0) / 4, scale, o);
    }
  }

  lemma {:induction false} StreamSettled(d: seq<byte>, scale: real, o: ByteOrder)
    requires scale != 0.0
    ensures forall p :: p in ParseStream(d, scale, o) ==> Settled(p, scale)
    decreases |d|
  {
    hide ParsePacket, Settled;
    var r := ParsePacket(d, scale, o);
    if r.None? {
    } else {
      ParsedSettled(d, scale, o);
      StreamSettled(d[r.value.bytesConsumed..], scale, o);
    }
  }

  lemma {:induction false} SamplesOfAppend(a: seq<ParsedPacket>, b: seq<ParsedPacket>)
    ensures SamplesOf(a + b) == SamplesOf(a) + SamplesOf(b)
  {
    if a == [] {
      assert a + b == b;
    } else {
      assert (a + b)[1..] == a[1..] + b;
      SamplesOfAppend(a[1..], b);
    }
  }

  lemma ContextWithoutSamples(a: Prologue, f: ContextFields, scale: real, o: ByteOrder)
    requires C.InRange(f)
    ensures var e := C.EncodeContext(a, f, o);
            Consumed(e, scale, o) == |e| && SamplesOf(ParseStream(e, scale, o)) == []
  {
    hide C.InRange, C.EncodeContext, C.DecodeContext, CanonicalPacket, WordAt, ParsePacket, ParseStream, Consumed,
         C.RoundedFields, C.ContextWords;
    var e := C.EncodeContext(a, f, o);
    C.ContextRoundTrip(a, f, o, []);
    assert e + [] == e;
    EncodedContextCanonical(a, f, o);
    ParsesAsContext(e, scale, o);
    OnePacket(e, scale, o);
  }

  lemma ReEncodedPacketSamples(p: ParsedPacket, scale: real, o: ByteOrder)
    requires scale != 0.0 && Encodable(p) && Settled(p, scale)
    ensures var e := ReEncodePacket(p, scale, o);
            Consumed(e, scale, o) == |e| && SamplesOf(ParseStream(e, scale, o)) == p.samples
  {
    hide EncodeSignalData, C.EncodeContext, C.InRange, PrologueOf, ParseStream, Consumed, S.RequantisedAll;
    match p.kind
    case SignalData => SignalStreamRoundTrip(PrologueOf(p.header), p.samples, p.header.trailerPresent, scale, o);
    case Context => ContextWithoutSamples(PrologueOf(p.header), p.contextFields, scale, o);
    case Unknown => EmptyParses(scale, o);
  }

  lemma {:induction false} ReEncodedSamples(ps: seq<ParsedPacket>, scale: real, o: ByteOrder)
    requires scale != 0.0 && AllEncodable(ps) && forall p :: p in ps ==> Settled(p, scale)
    ensures var e := ReEncode(ps, scale, o);
            Consumed(e, scale, o) == |e| && SamplesOf(ParseStream(e, scale, o)) == SamplesOf(ps)
  {
    hide ReEncodePacket, Encodable, ParseStream, Consumed, Settled;
    if ps == [] {
      EmptyParses(scale, o);
    } else {
      var init, last := ps[..|ps| - 1], ps[|ps| - 1];
      ReEncodedSamples(init, scale, o);
      ReEncodedPacketSamples(last, scale, o);
      var e, f := ReEncode(init, scale, o), ReEncodePacket(last, scale, o);
      StreamCompositional(e, f, scale, o);
      SamplesOfAppend(ParseStream(e, scale, o), ParseStream(f, scale, o));
      SamplesOfAppend(init, [last]);
      assert ps == init + [last] && last.samples + [] == last.samples;
      assert SamplesOf([last]) == last.samples;
    }
  }

  /** For arbitrary bytes, canonical or not: what is re-encoded is parsed whole again and holds
      exactly the samples of the first parse. */
  lemma SamplesSurvive(d: seq<byte>, scale: real, o: ByteOrder)
    requires scale != 0.0 && StreamCastsBack(d, scale, o)
    ensures AllEncodable(ParseStream(d, scale, o))
    ensures var e := ReEncode(ParseStream(d, scale, o), scale, o);
            && Consumed(e, scale, o) == |e|
            && SamplesOf(ParseStream(e, scale, o)) == SamplesOf(ParseStream(d, scale, o))
  {
    hide ParseStream, ReEncode, AllEncodable, Consumed, StreamCastsBack, Settled, SamplesOf;
    StreamEncodable(d, scale, o);
    StreamSettled(d, scale, o);
    ReEncodedSamples(ParseStream(d, scale, o), scale, o);
  }

  // ---- the tool ----

  method ReEncodeOne(codec: Codec, pkt: ParsedPacket) returns (bytes: seq<byte>)
    requires Encodable(pkt)
    ensures bytes == ReEncodePacket(pkt, codec.scaleFactor, codec.byteOrder)
  {
    hide C.InRange, EncodeSignalData, C.EncodeContext;
    bytes := [];
    var h := pkt.header;
    var a := Prologue(h.streamId.GetOr(0), h.packetCount, h.tsiType, h.tsfType,
                      h.integerTimestamp.GetOr(0), h.fractionalTimestamp.GetOr(0));
    if pkt.kind == SignalData {
      bytes := codec.EncodeSamples(a, pkt.samples, h.trailerPresent);
    } else if pkt.kind == Context {
      bytes := codec.EncodeFields(a, pkt.contextFields);
    }
  }

  method ReEncodeAll(codec: Codec, packets: seq<ParsedPacket>) returns (out: seq<byte>)
    requires AllEncodable(packets)
    ensures out == ReEncode(packets, codec.scaleFactor, codec.byteOrder)
  {
    hide ReEncodePacket, Encodable;
    out := [];
    for k := 0 to |packets|
      invariant out == ReEncode(packets[..k], codec.scaleFactor, codec.byteOrder)
    {
      var bytes := ReEncodeOne(codec, packets[k]);
      assert packets[..k + 1][..k] == packets[..k];
      out := out + bytes;
    }
    assert packets[..|packets|] == packets;
  }

  /** The samples of all signal packets in a row. */
  method AllSamples(packets: seq<ParsedPacket>) returns (all: seq<IQSample>)
    requires forall p :: p in packets ==> p.kind == SignalData || p.samples == []
    ensures all == SamplesOf(packets)
  {
    all := [];
    for k := 0 to |packets|
      invariant all == SamplesOf(packets[..k])
    {
      assert packets[..k + 1] == packets[..k] + [packets[k]];
      SamplesOfAppend(packets[..k], [packets[k]]);
      assert SamplesOf([packets[k]]) == packets[k].samples + [];
      if packets[k].kind == SignalData { all := all + packets[k].samples; }
    }
    assert packets[..|packets|] == packets;
  }

  /** The largest difference in either component; zero exactly for equal samples. */
  method MaxError(a: seq<IQSample>, b: seq<IQSample>) returns (maxErr: real)
    requires |a| == |b|
    ensures maxErr == 0.0 <==> a == b
    ensures forall i :: 0 <= i < |a| ==> S.Abs(a[i].re - b[i].re) <= maxErr && S.Abs(a[i].im - b[i].im) <= maxErr
  {
    maxErr := 0.0;
    for i := 0 to |a|
      invariant maxErr >= 0.0 && (a[..i] == b[..i] ==> maxErr == 0.0)
      invariant forall k :: 0 <= k < i ==> S.Abs(a[k].re - b[k].re) <= maxErr && S.Abs(a[k].im - b[k].im) <= maxErr
    {
      var eI, eQ := S.Abs(a[i].re - b[i].re), S.Abs(a[i].im - b[i].im);
      if eI > maxErr { maxErr := eI; }
      if eQ > maxErr { maxErr := eQ; }
      assert a[..i + 1] == a[..i] + [a[i]] && b[..i + 1] == b[..i] + [b[i]];
    }
    assert a[..|a|] == a && b[..|b|] == b;
    assert maxErr == 0.0 ==> forall k :: 0 <= k < |a| ==> a[k].re == b[k].re && a[k].im == b[k].im;
  }

  /** Decodes the re-encoded bytes and compares sample by sample. */
  method Verdict(codec: Codec, packets: seq<ParsedPacket>, reEncoded: seq<byte>) returns (perfect: bool)
    requires codec.scaleFactor != 0.0 && forall p :: p in packets ==> p.kind == SignalData || p.samples == []
    ensures perfect <==>
              SamplesOf(ParseStream(reEncoded, codec.scaleFactor, codec.byteOrder)) == SamplesOf(packets)
  {
    hide ParseStream, SamplesOf, S.RequantisedAll;
    var packets2 := codec.ParseAll(reEncoded);
    StreamSettled(reEncoded, codec.scaleFactor, codec.byteOrder);
    var allSamples1 := AllSamples(packets);
    var allSamples2 := AllSamples(packets2);
    if |allSamples1| != |allSamples2| { return false; }
    var maxErr := MaxError(allSamples1, allSamples2);
    return maxErr == 0.0;
  }

  lemma NothingReEncoded(scale: real, o: ByteOrder)
    ensures ReEncode([], scale, o) == []
  {
  }

  /** None: the file is empty, or no packet was decoded. Otherwise the re-encoded bytes, and
      whether the tool finds the round trip perfect, which it always does. */
  method DoRoundTrip(data: seq<byte>) returns (reEncoded: Option<seq<byte>>, perfect: bool)
    requires StreamCastsBack(data, DEFAULT_SCALE_FACTOR, BigEndian)
    ensures AllEncodable(ParseStream(data, DEFAULT_SCALE_FACTOR, BigEndian))
    ensures reEncoded ==
              if ParseStream(data, DEFAULT_SCALE_FACTOR, BigEndian) == [] then None
              else Some(ReEncode(ParseStream(data, DEFAULT_SCALE_FACTOR, BigEndian), DEFAULT_SCALE_FACTOR, BigEndian))
    ensures reEncoded == Some(data) <==> data != [] && CanonicalStream(data, BigEndian)
    ensures perfect <==> reEncoded.Some?
  {
    hide ParseStream, AllEncodable, StreamCastsBack, CanonicalStream, Consumed, SamplesOf, ReEncode, S.RequantisedAll;
    EmptyParses(DEFAULT_SCALE_FACTOR, BigEndian);
    FileRoundTripIff(data, DEFAULT_SCALE_FACTOR, BigEndian);
    NothingReEncoded(DEFAULT_SCALE_FACTOR, BigEndian);
    if data == [] { return None, false; }
    var codec := new Codec(BigEndian, DEFAULT_SCALE_FACTOR);
    var packets := codec.ParseAll(data);
    if packets == [] { return None, false; }
    var out := ReEncodeAll(codec, packets);
    StreamSettled(data, DEFAULT_SCALE_FACTOR, BigEndian);
    SamplesSurvive(data, DEFAULT_SCALE_FACTOR, BigEndian);
    perfect := Verdict(codec, packets, out);
    return Some(out), perfect;
  }
}
