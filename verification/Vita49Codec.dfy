/** The stream codec: splitting samples over packets, and parsing concatenated packets
    (src/libs/Vita49_2/Vita49Codec.cpp). */
module Vita49Codec {
  import opened ByteSwap
  import opened BitVectors
  import opened Vita49Types
  import opened Wrappers
  import opened PacketHeaderCodec
  import opened Chunking
  import S = SignalDataPacket
  import C = ContextPacket

  datatype PacketKind = SignalData | Context | Unknown

  datatype ParsedPacket = ParsedPacket(
    kind: PacketKind, header: PacketHeader, samples: seq<IQSample>, contextFields: ContextFields)

  /** Default-constructed header and fields. */
  const NO_HEADER := PacketHeader(IF_DATA_WITH_STREAM_ID, false, false, TSI_NONE, TSF_NONE, 0, 0,
                                  None, None, None, None, None, None)
  const NO_FIELDS := ContextFields(false, None, None, None, None, None, None, None, None, None, None)

  datatype Parsed = Parsed(packet: ParsedPacket, bytesConsumed: nat)

  // ---- one packet ----

  function ParsePacket(d: seq<byte>, scale: real, o: ByteOrder): (r: Option<Parsed>)
    ensures r.Some? ==> 4 <= r.value.bytesConsumed <= |d|
  {
    if |d| < 4 then None
    else
      var word0 := WordAt(d, 0, o);
      var t: PacketType := word0 / 0x1000_0000;
      if IsDataPacket(t) then
        var r := S.DecodeSignal(d, scale, o);
        if r.None? then None
        else Some(Parsed(ParsedPacket(SignalData, r.value.header, r.value.samples, NO_FIELDS), r.value.bytesConsumed))
      else if IsContextPacket(t) then
        var r := C.DecodeContext(d, o);
        if r.None? then None
        else Some(Parsed(ParsedPacket(Context, r.value.header, [], r.value.fields), r.value.bytesConsumed))
      else
        var bytes := word0 % 0x1_0000 * 4;
        if bytes == 0 || bytes > |d| then None
        else Some(Parsed(ParsedPacket(Unknown, NO_HEADER, [], NO_FIELDS), bytes))
  }

  /** A context packet at the front of d, if it is one, has frequencies that cast back. */
  predicate ContextCastsBack(d: seq<byte>, o: ByteOrder) {
    var p := ParseHeader(d, o);
    p.Some? && p.value.bytes + 4 <= |d| ==>
      C.CastsBack(d, p.value.bytes + 4, ToBits(WordAt(d, p.value.bytes, o)), o)
  }

  /** Which packets are accepted, and as what, by the numbers of ANSI/VITA 49.2: types 0 to 3 are
      signal data, 4 and 5 context, the others are skipped by their size. */
  lemma PacketKinds(d: seq<byte>, scale: real, o: ByteOrder)
    requires |d| >= 4
    ensures var w, p, r := WordAt(d, 0, o), ParseHeader(d, o), ParsePacket(d, scale, o);
            var t, bytes := w / 0x1000_0000, w % 0x1_0000 * 4;
            && (r.Some? ==>
                  && r.value.bytesConsumed == bytes
                  && (r.value.packet.kind.SignalData? <==> t <= 3)
                  && (r.value.packet.kind.Context? <==> t == 4 || t == 5)
                  && (r.value.packet.kind.Unknown? <==> t >= 6)
                  && (t <= 5 ==> p.Some? && r.value.packet.header == p.value.header)
                  && (t >= 4 ==> r.value.packet.samples == []))
            && (t <= 3 ==> (r.Some? <==>
                  scale != 0.0 && p.Some? && p.value.bytes + (if w / 0x400_0000 % 2 == 1 then 4 else 0) <= bytes))
            && (t == 4 || t == 5 ==> (r.Some? <==>
                  && p.Some? && p.value.bytes + 4 <= bytes
                  && p.value.bytes + 4 + C.AnnouncedBytes(ToBits(WordAt(d, p.value.bytes, o))) <= bytes))
            && (t >= 6 ==> (r.Some? <==> 0 < bytes <= |d|))
  {
    HeaderLayout(d, o);
    hide WordAt, ParseHeader, C.AnnouncedBytes, C.Fields, ToBits, S.SampleAt;
  }

  /** The samples of a data packet: every payload word between the header and the trailer, I in
      its first two bytes and Q in its last two, as signed numbers over the scale factor. */
  lemma DecodedSamples(d: seq<byte>, scale: real, o: ByteOrder)
    requires |d| >= 4 && WordAt(d, 0, o) / 0x1000_0000 <= 3 && ParsePacket(d, scale, o).Some?
    ensures scale != 0.0 && ParseHeader(d, o).Some?
    ensures var w, start := WordAt(d, 0, o), ParseHeader(d, o).value.bytes;
            var s := ParsePacket(d, scale, o).value.packet.samples;
            && |s| == (w % 0x1_0000 * 4 - start - (if w / 0x400_0000 % 2 == 1 then 4 else 0)) / 4
            && start + 4 * |s| <= |d|
            && forall i :: 0 <= i < |s| ==>
                 && s[i].re == SignedOf16(U16At(d, start + 4 * i, o)) as real / scale
                 && s[i].im == SignedOf16(U16At(d, start + 4 * i + 2, o)) as real / scale
  {
    HeaderLayout(d, o);
    hide WordAt, ParseHeader, U16At, SignedOf16;
  }

  /** A data packet with one sample, byte by byte: stream 7, and (0.5, -1.0) at the default scale. */
  lemma OneSamplePacket()
    ensures var d: seq<byte> := [0x10, 0, 0, 3, 0, 0, 0, 7, 0x40, 0, 0x80, 0];
            var r := ParsePacket(d, DEFAULT_SCALE_FACTOR, BigEndian);
            && r.Some? && r.value.bytesConsumed == 12
            && r.value.packet.kind == SignalData && r.value.packet.header.streamId == Some(7)
            && r.value.packet.samples == [IQSample(0.5, -1.0)]
  {
    var d: seq<byte> := [0x10, 0, 0, 3, 0, 0, 0, 7, 0x40, 0, 0x80, 0];
    assert WordAt(d, 0, BigEndian) == 0x1000_0003 && WordAt(d, 4, BigEndian) == 7;
    assert U16At(d, 8, BigEndian) == 0x4000 && U16At(d, 10, BigEndian) == 0x8000;
    PacketKinds(d, DEFAULT_SCALE_FACTOR, BigEndian);
    HeaderLayout(d, BigEndian);
    hide ParsePacket, ParseHeader, WordAt, U16At;
    DecodedSamples(d, DEFAULT_SCALE_FACTOR, BigEndian);
  }

  lemma DecodedFieldsInRange(d: seq<byte>, o: ByteOrder)
    requires C.DecodeContext(d, o).Some?
    ensures C.InRange(C.DecodeContext(d, o).value.fields) <==> ContextCastsBack(d, o)
  {
    hide ParseHeader, C.Fields, C.InRange, WordAt, C.AnnouncedBytes, C.CastsBack;
    var start := ParseHeader(d, o).value.bytes;
    C.DecodedInRange(d, start + 4, ToBits(WordAt(d, start, o)), o);
  }

  lemma WholeWords(d: seq<byte>, scale: real, o: ByteOrder)
    requires ParsePacket(d, scale, o).Some?
    ensures ParsePacket(d, scale, o).value.bytesConsumed % 4 == 0
  {
    hide S.DecodeSignal, C.DecodeContext, WordAt;
    var words := ParsePacket(d, scale, o).value.bytesConsumed / 4;
    assert ParsePacket(d, scale, o).value.bytesConsumed == words * 4;
  }

  /** Every step moves by whole words, and what a context packet held can be encoded again exactly
      when its frequencies cast back. */
  lemma ParsedWhole(d: seq<byte>, scale: real, o: ByteOrder)
    requires ParsePacket(d, scale, o).Some?
    ensures var p := ParsePacket(d, scale, o).value;
            && p.bytesConsumed % 4 == 0
            && (p.packet.kind.Context? ==> (C.InRange(p.packet.contextFields) <==> ContextCastsBack(d, o)))
  {
    hide S.DecodeSignal, C.DecodeContext, C.InRange, WordAt, ContextCastsBack;
    WholeWords(d, scale, o);
    if ParsePacket(d, scale, o).value.packet.kind.Context? {
      DecodedFieldsInRange(d, o);
    }
  }

  /** A packet's parse depends only on the bytes that it reports as consumed. */
  lemma ParsePacketLocal(d: seq<byte>, e: seq<byte>, scale: real, o: ByteOrder)
    requires ParsePacket(d, scale, o).Some?
    requires Agree(d, e, ParsePacket(d, scale, o).value.bytesConsumed)
    ensures ParsePacket(e, scale, o) == ParsePacket(d, scale, o)
  {
    hide S.DecodeSignal, C.DecodeContext, C.InRange;
    WordLocal(d, e, ParsePacket(d, scale, o).value.bytesConsumed, 0, o);
    hide WordAt;
    var t: PacketType := WordAt(d, 0, o) / 0x1000_0000;
    if IsDataPacket(t) {
      S.DecodeSignalLocal(d, e, scale, o);
    } else if IsContextPacket(t) {
      C.DecodeContextLocal(d, e, o);
    }
  }

  // ---- streams ----

  function ParseStream(d: seq<byte>, scale: real, o: ByteOrder): seq<ParsedPacket>
    decreases |d|
  {
    var r := ParsePacket(d, scale, o);
    if r.None? then [] else [r.value.packet] + ParseStream(d[r.value.bytesConsumed..], scale, o)
  }

  /** How far into the buffer the packets reach. */
  function Consumed(d: seq<byte>, scale: real, o: ByteOrder): (n: nat)
    ensures n <= |d|
    decreases |d|
  {
    var r := ParsePacket(d, scale, o);
    if r.None? then 0 else r.value.bytesConsumed + Consumed(d[r.value.bytesConsumed..], scale, o)
  }

  /** A stream is its first packet and the stream behind it, or nothing. */
  lemma StreamStep(d: seq<byte>, scale: real, o: ByteOrder)
    ensures var r := ParsePacket(d, scale, o);
            if r.None? then ParseStream(d, scale, o) == [] && Consumed(d, scale, o) == 0
            else
              var rest := d[r.value.bytesConsumed..];
              && ParseStream(d, scale, o) == [r.value.packet] + ParseStream(rest, scale, o)
              && Consumed(d, scale, o) == r.value.bytesConsumed + Consumed(rest, scale, o)
  {
    hide ParsePacket;
  }

  /** One packet at the front of a buffer is parsed the same whatever follows it. */
  lemma PacketThenRest(a: seq<byte>, b: seq<byte>, scale: real, o: ByteOrder)
    requires ParsePacket(a, scale, o).Some?
    ensures var n := ParsePacket(a, scale, o).value.bytesConsumed;
            && ParsePacket(a + b, scale, o) == ParsePacket(a, scale, o)
            && (a + b)[n..] == a[n..] + b
  {
    hide ParsePacket;
    ParsePacketLocal(a, a + b, scale, o);
  }

  /** Behind a fully consumed buffer, parsing starts afresh: streams concatenate. */
  lemma {:induction false} StreamCompositional(a: seq<byte>, b: seq<byte>, scale: real, o: ByteOrder)
    requires Consumed(a, scale, o) == |a|
    ensures ParseStream(a + b, scale, o) == ParseStream(a, scale, o) + ParseStream(b, scale, o)
    ensures Consumed(a + b, scale, o) == |a| + Consumed(b, scale, o)
    decreases |a|
  {
    hide ParsePacket, ParseStream, Consumed;
    StreamStep(a, scale, o);
    var r := ParsePacket(a, scale, o);
    if r.None? {
      assert a == [] && a + b == b;
      assert [] + ParseStream(b, scale, o) == ParseStream(b, scale, o);
    } else {
      var rest := a[r.value.bytesConsumed..];
      PacketThenRest(a, b, scale, o);
      StreamStep(a + b, scale, o);
      StreamCompositional(rest, b, scale, o);
    }
  }

  lemma EmptyParses(scale: real, o: ByteOrder)
    ensures ParseStream([], scale, o) == [] && Consumed([], scale, o) == 0
  {
  }

  /** Fully consumed buffers in a row, whatever mix of packets each holds, are parsed one after
      the other. */
  lemma {:induction false} StreamsConcatenate(ds: seq<seq<byte>>, scale: real, o: ByteOrder)
    requires forall d :: d in ds ==> Consumed(d, scale, o) == |d|
    ensures Consumed(Flatten(ds), scale, o) == |Flatten(ds)|
    ensures ParseStream(Flatten(ds), scale, o)
         == Flatten(seq(|ds|, i requires 0 <= i < |ds| => ParseStream(ds[i], scale, o)))
  {
    hide ParseStream, Consumed;
    var parses := seq(|ds|, i requires 0 <= i < |ds| => ParseStream(ds[i], scale, o));
    if ds == [] {
      EmptyParses(scale, o);
    } else {
      StreamsConcatenate(ds[1..], scale, o);
      StreamCompositional(ds[0], Flatten(ds[1..]), scale, o);
      assert parses[1..] == seq(|ds[1..]|, i requires 0 <= i < |ds[1..]| => ParseStream(ds[1..][i], scale, o));
    }
  }

  /** Cutting a buffer anywhere yields a prefix of its packets, and the longest one that fits:
      the next packet of the whole buffer, if there is one, reaches beyond the cut. */
  lemma {:induction false} TruncationPrefix(d: seq<byte>, cut: nat, scale: real, o: ByteOrder)
    requires cut <= |d|
    ensures ParseStream(d[..cut], scale, o) <= ParseStream(d, scale, o)
    ensures Consumed(d[..cut], scale, o) <= Consumed(d, scale, o)
    ensures var n := Consumed(d[..cut], scale, o);
            var next := ParsePacket(d[n..], scale, o);
            next.Some? ==> n + next.value.bytesConsumed > cut
    decreases |d|
  {
    hide ParsePacket, ParseStream, Consumed;
    StreamStep(d[..cut], scale, o);
    StreamStep(d, scale, o);
    var r := ParsePacket(d[..cut], scale, o);
    if r.None? {
      assert d[0..] == d;
      var next := ParsePacket(d, scale, o);
      if next.Some? && next.value.bytesConsumed <= cut {
        ParsePacketLocal(d, d[..cut], scale, o);
      }
    } else {
      assert d == d[..cut] + d[cut..];
      PacketThenRest(d[..cut], d[cut..], scale, o);
      var n := r.value.bytesConsumed;
      assert d[..cut][n..] == d[n..][..cut - n];
      TruncationPrefix(d[n..], cut - n, scale, o);
      var m := Consumed(d[n..][..cut - n], scale, o);
      assert d[n..][m..] == d[n + m..];
    }
  }

  // ---- encoding samples of any number ----

  function MaxPerPacket(a: Prologue, trailer: bool): (n: nat)
    ensures 65500 <= n <= 65533
  {
    S.MaxSamplesPerPacket(a.tsiType, a.tsfType, false, trailer)
  }

  function NextCount(a: Prologue): Prologue { a.(packetCount := (a.packetCount + 1) % 16) }

  /** One packet per chunk, with consecutive packet counts. */
  function EncodeChunks(a: Prologue, chunks: seq<seq<IQSample>>, trailer: bool, scale: real, o: ByteOrder): seq<byte>
    decreases |chunks|
  {
    if chunks == [] then []
    else S.EncodeSignal(a, chunks[0], trailer, scale, o) + EncodeChunks(NextCount(a), chunks[1..], trailer, scale, o)
  }

  /** An empty vector still makes one packet. */
  function SampleChunks(a: Prologue, s: seq<IQSample>, trailer: bool): seq<seq<IQSample>> {
    if s == [] then [[]] else Chunks(s, MaxPerPacket(a, trailer))
  }

  function EncodeSignalData(a: Prologue, s: seq<IQSample>, trailer: bool, scale: real, o: ByteOrder): seq<byte> {
    EncodeChunks(a, SampleChunks(a, s, trailer), trailer, scale, o)
  }

  /** The i-th packet that a decoder gets back. */
  function SignalPacket(a: Prologue, chunk: seq<IQSample>, trailer: bool, scale: real): ParsedPacket
    requires scale != 0.0 && |chunk| <= MaxPerPacket(a, trailer)
  {
    ParsedPacket(SignalData, S.DataHeader(a, trailer, S.SignalWords(a, |chunk|, trailer)),
                 S.RequantisedAll(chunk, scale), NO_FIELDS)
  }

  lemma ZeroScaleRefused(d: seq<byte>, o: ByteOrder)
    ensures S.DecodeSignal(d, 0.0, o) == None
  {
  }

  lemma FirstWord(h: PacketHeader, tail: seq<byte>, o: ByteOrder)
    requires WellFormed(h)
    ensures var d := HeaderBytes(h, o) + tail; |d| >= 4 && WordAt(d, 0, o) / 0x1000_0000 == h.packetType
  {
    hide HeaderBytes, WordAt, Word0;
    SectionsReadBack(h, tail, o);
    Word0Type(h);
  }

  lemma EncodedSignalType(a: Prologue, chunk: seq<IQSample>, trailer: bool, scale: real, o: ByteOrder, rest: seq<byte>)
    requires |chunk| <= MaxPerPacket(a, trailer)
    ensures var d := S.EncodeSignal(a, chunk, trailer, scale, o) + rest;
            |d| >= 4 && WordAt(d, 0, o) / 0x1000_0000 == IF_DATA_WITH_STREAM_ID
  {
    hide HeaderBytes, S.PayloadBytes, WordAt, Word0, S.TrailerBytes;
    var h := S.DataHeader(a, trailer, S.SignalWords(a, |chunk|, trailer));
    var tail := S.PayloadBytes(chunk, scale, o) + S.TrailerBytes(trailer) + rest;
    assert S.EncodeSignal(a, chunk, trailer, scale, o) + rest == HeaderBytes(h, o) + tail;
    hide S.EncodeSignal, S.SignalWords;
    FirstWord(h, tail, o);
  }

  lemma EncodedSignalParses(a: Prologue, chunk: seq<IQSample>, trailer: bool, scale: real, o: ByteOrder,
                            rest: seq<byte>)
    requires |chunk| <= MaxPerPacket(a, trailer)
    ensures var bytes := S.EncodeSignal(a, chunk, trailer, scale, o);
            && bytes != []
            && ParsePacket(bytes + rest, scale, o) ==
                 if scale == 0.0 then None else Some(Parsed(SignalPacket(a, chunk, trailer, scale), |bytes|))
  {
    hide S.DecodeSignal, S.RequantisedAll;
    var d := S.EncodeSignal(a, chunk, trailer, scale, o) + rest;
    S.EncodeEmptyIff(a, chunk, trailer, scale, o);
    EncodedSignalType(a, chunk, trailer, scale, o, rest);
    hide S.EncodeSignal, WordAt;
    if scale == 0.0 {
      ZeroScaleRefused(d, o);
    } else {
      S.SignalRoundTrip(a, chunk, trailer, scale, o, rest);
    }
  }

  function SignalPackets(a: Prologue, chunks: seq<seq<IQSample>>, trailer: bool, scale: real): seq<ParsedPacket>
    requires scale != 0.0 && forall c :: c in chunks ==> |c| <= MaxPerPacket(a, trailer)
    decreases |chunks|
  {
    if chunks == [] then []
    else [SignalPacket(a, chunks[0], trailer, scale)] + SignalPackets(NextCount(a), chunks[1..], trailer, scale)
  }

  lemma {:induction false} ChunksParse(a: Prologue, chunks: seq<seq<IQSample>>, trailer: bool, scale: real,
                                       o: ByteOrder)
    requires scale != 0.0 && forall c :: c in chunks ==> |c| <= MaxPerPacket(a, trailer)
    ensures var d := EncodeChunks(a, chunks, trailer, scale, o);
            && Consumed(d, scale, o) == |d|
            && ParseStream(d, scale, o) == SignalPackets(a, chunks, trailer, scale)
    decreases |chunks|
  {
    hide ParsePacket, S.EncodeSignal, SignalPacket;
    if chunks == [] {
      EmptyParses(scale, o);
    } else {
      var rest := EncodeChunks(NextCount(a), chunks[1..], trailer, scale, o);
      EncodedSignalParses(a, chunks[0], trailer, scale, o, rest);
      ChunksParse(NextCount(a), chunks[1..], trailer, scale, o);
      var bytes := S.EncodeSignal(a, chunks[0], trailer, scale, o);
      assert (bytes + rest)[|bytes|..] == rest;
    }
  }

  function SamplesOf(ps: seq<ParsedPacket>): seq<IQSample> {
    if ps == [] then [] else ps[0].samples + SamplesOf(ps[1..])
  }

  lemma {:induction false} SignalPacketsSamples(a: Prologue, chunks: seq<seq<IQSample>>, trailer: bool, scale: real)
    requires scale != 0.0 && forall c :: c in chunks ==> |c| <= MaxPerPacket(a, trailer)
    ensures SamplesOf(SignalPackets(a, chunks, trailer, scale)) == S.RequantisedAll(Flatten(chunks), scale)
    decreases |chunks|
  {
    if chunks == [] {
    } else {
      SignalPacketsSamples(NextCount(a), chunks[1..], trailer, scale);
      var ps := SignalPackets(a, chunks, trailer, scale);
      assert ps[1..] == SignalPackets(NextCount(a), chunks[1..], trailer, scale);
      assert S.RequantisedAll(chunks[0] + Flatten(chunks[1..]), scale)
          == S.RequantisedAll(chunks[0], scale) + S.RequantisedAll(Flatten(chunks[1..]), scale);
    }
  }

  lemma CountStep(c: nat, i: nat)
    requires i > 0
    ensures ((c + 1) % 16 + (i - 1)) % 16 == (c + i) % 16
  {
  }

  lemma {:induction false} SignalPacketsLength(a: Prologue, chunks: seq<seq<IQSample>>, trailer: bool, scale: real)
    requires scale != 0.0 && forall c :: c in chunks ==> |c| <= MaxPerPacket(a, trailer)
    ensures |SignalPackets(a, chunks, trailer, scale)| == |chunks|
    decreases |chunks|
  {
    hide SignalPacket;
    if chunks == [] {
    } else {
      SignalPacketsLength(NextCount(a), chunks[1..], trailer, scale);
    }
  }

  lemma CountModulo(a: Prologue, chunk: seq<IQSample>, trailer: bool, scale: real)
    requires scale != 0.0 && |chunk| <= MaxPerPacket(a, trailer)
    ensures SignalPacket(a, chunk, trailer, scale)
         == SignalPacket(a.(packetCount := a.packetCount % 16), chunk, trailer, scale)
  {
  }

  /** Packet i carries chunk i, the caller's stream id and timestamps, and count start + i mod 16. */
  lemma {:induction false} SignalPacketAt(a: Prologue, chunks: seq<seq<IQSample>>, trailer: bool, scale: real, i: nat)
    requires scale != 0.0 && forall c :: c in chunks ==> |c| <= MaxPerPacket(a, trailer)
    requires i < |chunks|
    ensures var ps := SignalPackets(a, chunks, trailer, scale);
            && |ps| == |chunks|
            && ps[i] == SignalPacket(a.(packetCount := (a.packetCount + i) % 16), chunks[i], trailer, scale)
    decreases |chunks|
  {
    hide SignalPacket;
    SignalPacketsLength(a, chunks, trailer, scale);
    if i == 0 {
      CountModulo(a, chunks[0], trailer, scale);
    } else {
      SignalPacketAt(NextCount(a), chunks[1..], trailer, scale, i - 1);
      CountStep(a.packetCount, i);
    }
  }

  lemma SampleChunksFit(a: Prologue, s: seq<IQSample>, trailer: bool)
    ensures Flatten(SampleChunks(a, s, trailer)) == s
    ensures forall c :: c in SampleChunks(a, s, trailer) ==> |c| <= MaxPerPacket(a, trailer)
    ensures |SampleChunks(a, s, trailer)| == if s == [] then 1 else CeilDiv(|s|, MaxPerPacket(a, trailer))
  {
    var max := MaxPerPacket(a, trailer);
    hide MaxPerPacket, CeilDiv;
    if s != [] {
      ChunksRebuild(s, max);
      ChunksCount(s, max);
      forall c | c in Chunks(s, max)
        ensures |c| <= max
      {
        var i :| 0 <= i < |Chunks(s, max)| && Chunks(s, max)[i] == c;
        ChunksFull(s, max, i);
      }
    } else {
      assert Flatten([s]) == s;
    }
  }

  /** A signal packet with the stream id, timestamps, trailer flag and count of a. */
  ghost predicate CarriesPrologue(p: ParsedPacket, a: Prologue, trailer: bool) {
    && p.kind == SignalData && p.header.packetType == 1
    && p.header.streamId == Some(a.streamId)
    && p.header.tsiType == a.tsiType && p.header.tsfType == a.tsfType
    && p.header.integerTimestamp == (if a.tsiType != TSI_NONE then Some(a.intTimestamp) else None)
    && p.header.fractionalTimestamp == (if a.tsfType != TSF_NONE then Some(a.fracTimestamp) else None)
    && p.header.trailerPresent == trailer
    && p.header.packetCount == a.packetCount
  }

  lemma SignalPacketHeader(a: Prologue, chunk: seq<IQSample>, trailer: bool, scale: real)
    requires scale != 0.0 && |chunk| <= MaxPerPacket(a, trailer) && a.packetCount < 16
    ensures CarriesPrologue(SignalPacket(a, chunk, trailer, scale), a, trailer)
  {
  }

  lemma MaxIgnoresCount(a: Prologue, trailer: bool)
    ensures forall c: byte :: MaxPerPacket(a.(packetCount := c), trailer) == MaxPerPacket(a, trailer)
  {
  }

  /** The round trip of a split stream, for any number of samples: everything is consumed; there
      are ceil(n / max) signal packets (one when n = 0), packet i with the caller's stream id,
      timestamp types and count start + i mod 16; and their samples in a row are the input's,
      quantised. */
  lemma SignalStreamRoundTrip(a: Prologue, s: seq<IQSample>, trailer: bool, scale: real, o: ByteOrder)
    requires scale != 0.0
    ensures var d := EncodeSignalData(a, s, trailer, scale, o);
            var ps := ParseStream(d, scale, o);
            && Consumed(d, scale, o) == |d|
            && |ps| == (if s == [] then 1 else CeilDiv(|s|, MaxPerPacket(a, trailer)))
            && SamplesOf(ps) == S.RequantisedAll(s, scale)
            && forall i :: 0 <= i < |ps| ==>
                 CarriesPrologue(ps[i], a.(packetCount := (a.packetCount + i) % 16), trailer)
  {
    hide SignalPackets, SignalPacket, SampleChunks, EncodeChunks, ParseStream, Consumed, MaxPerPacket, CeilDiv,
         S.RequantisedAll, S.SignalWords, SamplesOf;
    var chunks := SampleChunks(a, s, trailer);
    SampleChunksFit(a, s, trailer);
    ChunksParse(a, chunks, trailer, scale, o);
    SignalPacketsSamples(a, chunks, trailer, scale);
    SignalPacketsLength(a, chunks, trailer, scale);
    MaxIgnoresCount(a, trailer);
    var ps := SignalPackets(a, chunks, trailer, scale);
    forall i | 0 <= i < |ps|
      ensures ps[i] == SignalPacket(a.(packetCount := (a.packetCount + i) % 16), chunks[i], trailer, scale)
      ensures CarriesPrologue(ps[i], a.(packetCount := (a.packetCount + i) % 16), trailer)
    {
      SignalPacketAt(a, chunks, trailer, scale, i);
      SignalPacketHeader(a.(packetCount := (a.packetCount + i) % 16), chunks[i], trailer, scale);
    }
  }

  lemma ChunksNonempty<T>(s: seq<T>, n: nat)
    requires n > 0 && s != []
    ensures Chunks(s, n) != []
  {
  }

  /** The condition is needed: a zero scale still encodes, but nothing of it parses. */
  lemma ZeroScaleLosesStream(a: Prologue, s: seq<IQSample>, trailer: bool, o: ByteOrder)
    ensures EncodeSignalData(a, s, trailer, 0.0, o) != []
    ensures ParseStream(EncodeSignalData(a, s, trailer, 0.0, o), 0.0, o) == []
  {
    hide ParsePacket, S.EncodeSignal, SignalPacket, MaxPerPacket;
    var chunks := SampleChunks(a, s, trailer);
    SampleChunksFit(a, s, trailer);
    if s != [] { ChunksNonempty(s, MaxPerPacket(a, trailer)); }
    EncodedSignalParses(a, chunks[0], trailer, 0.0, o, EncodeChunks(NextCount(a), chunks[1..], trailer, 0.0, o));
  }

  // ---- the codec object ----

  lemma ShortParses(d: seq<byte>, scale: real, o: ByteOrder)
    requires |d| < 4
    ensures ParseStream(d, scale, o) == [] && Consumed(d, scale, o) == 0
  {
  }

  lemma ChunksStep<T>(s: seq<T>, offset: nat, count: nat, n: nat)
    requires n > 0 && offset < |s|
    requires count == if n <= |s| - offset then n else |s| - offset
    ensures Chunks(s[offset..], n) == [s[offset..offset + count]] + Chunks(s[offset + count..], n)
  {
    assert s[offset..][count..] == s[offset + count..];
    assert s[offset..][..count] == s[offset..offset + count];
    if |s| - offset <= n {
      assert s[offset..offset + count] == s[offset..];
      assert Chunks(s[offset + count..], n) == [];
    }
  }

  lemma EncodeChunksCons(a: Prologue, chunk: seq<IQSample>, tail: seq<seq<IQSample>>, trailer: bool, scale: real,
                         o: ByteOrder)
    ensures EncodeChunks(a, [chunk] + tail, trailer, scale, o)
         == S.EncodeSignal(a, chunk, trailer, scale, o) + EncodeChunks(NextCount(a), tail, trailer, scale, o)
  {
  }

  lemma NothingLeft(a: Prologue, s: seq<IQSample>, n: nat, trailer: bool, scale: real, o: ByteOrder)
    requires n > 0
    ensures EncodeChunks(a, Chunks(s[|s|..], n), trailer, scale, o) == []
  {
  }

  lemma SameMax(a: Prologue, b: Prologue, trailer: bool)
    requires b == a.(packetCount := b.packetCount)
    ensures MaxPerPacket(b, trailer) == MaxPerPacket(a, trailer)
         == S.MaxSamplesPerPacket(b.tsiType, b.tsfType, false, trailer)
  {
  }

  lemma OneChunk(a: Prologue, s: seq<IQSample>, trailer: bool, scale: real, o: ByteOrder)
    requires |s| <= MaxPerPacket(a, trailer)
    ensures EncodeSignalData(a, s, trailer, scale, o) == S.EncodeSignal(a, s, trailer, scale, o)
  {
    hide S.EncodeSignal, MaxPerPacket;
    var cs := SampleChunks(a, s, trailer);
    assert cs == [s] && cs[1..] == [];
    var e := S.EncodeSignal(a, s, trailer, scale, o);
    assert EncodeChunks(NextCount(a), cs[1..], trailer, scale, o) == [];
    assert EncodeChunks(a, cs, trailer, scale, o) == e + [] == e;
  }

  class Codec {
    var byteOrder: ByteOrder
    var scaleFactor: real

    constructor (order: ByteOrder, scale: real)
      ensures byteOrder == order && scaleFactor == scale
    {
      byteOrder := order;
      scaleFactor := scale;
    }

    method SetByteOrder(order: ByteOrder)
      modifies this`byteOrder
      ensures byteOrder == order
    {
      byteOrder := order;
    }

    method SetScaleFactor(factor: real)
      modifies this`scaleFactor
      ensures scaleFactor == factor
    {
      scaleFactor := factor;
    }

    method ParseOne(d: seq<byte>) returns (r: Option<Parsed>)
      ensures r == ParsePacket(d, scaleFactor, byteOrder)
    {
      hide S.DecodeSignal, C.DecodeContext;
      if |d| < 4 { return None; }
      var word0 := WordAt(d, 0, byteOrder);
      var packetType: PacketType := word0 / 0x1000_0000;
      hide WordAt;
      if IsDataPacket(packetType) {
        var decoded := S.Decode(d, scaleFactor, byteOrder);
        if decoded.None? { return None; }
        var v := decoded.value;
        return Some(Parsed(ParsedPacket(SignalData, v.header, v.samples, NO_FIELDS), v.bytesConsumed));
      } else if IsContextPacket(packetType) {
        var decoded := C.Decode(d, byteOrder);
        if decoded.None? { return None; }
        var v := decoded.value;
        return Some(Parsed(ParsedPacket(Context, v.header, [], v.fields), v.bytesConsumed));
      } else {
        var packetSize := word0 % 0x1_0000;
        var packetBytes := packetSize * 4;
        if packetSize == 0 || packetBytes > |d| { return None; }
        return Some(Parsed(ParsedPacket(Unknown, NO_HEADER, [], NO_FIELDS), packetBytes));
      }
    }

    method ParseAll(d: seq<byte>) returns (results: seq<ParsedPacket>)
      ensures results == ParseStream(d, scaleFactor, byteOrder)
    {
      hide ParsePacket;
      results := [];
      if |d| == 0 {
        EmptyParses(scaleFactor, byteOrder);
        return;
      }
      var offset := 0;
      while offset < |d|
        invariant offset <= |d|
        invariant results + ParseStream(d[offset..], scaleFactor, byteOrder) == ParseStream(d, scaleFactor, byteOrder)
      {
        var remaining := |d| - offset;
        if remaining < 4 {
          ShortParses(d[offset..], scaleFactor, byteOrder);
          return;
        }
        var packet := ParseOne(d[offset..]);
        if packet.None? || packet.value.bytesConsumed == 0 { return; }
        results := results + [packet.value.packet];
        assert d[offset..][packet.value.bytesConsumed..] == d[offset + packet.value.bytesConsumed..];
        offset := offset + packet.value.bytesConsumed;
      }
      EmptyParses(scaleFactor, byteOrder);
      assert d[offset..] == [];
    }

    method EncodeSamples(a: Prologue, samples: seq<IQSample>, trailer: bool) returns (result: seq<byte>)
      ensures result == EncodeSignalData(a, samples, trailer, scaleFactor, byteOrder)
    {
      hide S.EncodeSignal, Chunks, EncodeChunks;
      var maxPerPacket := S.MaxSamples(a.tsiType, a.tsfType, false, trailer);
      var trailerWords := if trailer then 1 else 0;
      assert SizeInWords(S.DataHeader(a, trailer, 0)) + maxPerPacket + trailerWords == MAX_PACKET_SIZE_WORDS;
      assert maxPerPacket == MaxPerPacket(a, trailer);
      hide MaxPerPacket;
      result := [];
      var offset, now := 0, a;
      assert samples[0..] == samples;
      while offset < |samples|
        invariant offset <= |samples|
        invariant now == a.(packetCount := now.packetCount)
        invariant samples != [] ==>
                    result + EncodeChunks(now, Chunks(samples[offset..], maxPerPacket), trailer, scaleFactor, byteOrder)
                    == EncodeSignalData(a, samples, trailer, scaleFactor, byteOrder)
      {
        var count := if maxPerPacket <= |samples| - offset then maxPerPacket else |samples| - offset;
        var chunk := samples[offset..offset + count];
        ChunksStep(samples, offset, count, maxPerPacket);
        EncodeChunksCons(now, chunk, Chunks(samples[offset + count..], maxPerPacket), trailer, scaleFactor, byteOrder);
        var packet := S.Encode(now, chunk, trailer, scaleFactor, byteOrder);
        SameMax(a, now, trailer);
        S.EncodeEmptyIff(now, chunk, trailer, scaleFactor, byteOrder);
        if packet == [] {
          assert false;  // the source breaks here; a chunk never exceeds the maximum
        }
        result := result + packet;
        offset := offset + count;
        now := NextCount(now);
      }
      NothingLeft(now, samples, maxPerPacket, trailer, scaleFactor, byteOrder);
      if samples == [] {
        result := S.Encode(a, samples, trailer, scaleFactor, byteOrder);
        OneChunk(a, samples, trailer, scaleFactor, byteOrder);
      }
    }

    method EncodeFields(a: Prologue, f: ContextFields) returns (bytes: seq<byte>)
      requires C.InRange(f)
      ensures bytes == C.EncodeContext(a, f, byteOrder)
    {
      bytes := C.Encode(a, f, byteOrder);
    }
  }
}
