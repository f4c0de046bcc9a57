/** Packets in the form that the encoders produce, told from their bytes alone. */
module CanonicalPackets {
  import opened ByteSwap
  import opened BitVectors
  import opened Doubles
  import opened Vita49Types
  import opened Wrappers
  import opened PacketHeaderCodec
  import opened Vita49Codec
  import S = SignalDataPacket
  import C = ContextPacket

  /** The values that survive decoding: nothing at the bits that are not decoded, no data outside
      the level's and the gain's half words, and frequencies that a double holds. */
  predicate CanonicalValues(e: seq<byte>, base: nat, cif0: bv32, o: ByteOrder) {
    && cif0 & 0x1F_FFFF == 0
    && (Bit(cif0, 24) ==> C.FieldWord(e, base + C.FieldOffset(cif0, 24), o) % 0x1_0000 == 0)
    && (Bit(cif0, 23) ==> C.FieldWord(e, base + C.FieldOffset(cif0, 23), o) / 0x1_0000 == 0)
    && forall bit :: 15 <= bit <= 30 && C.HoldsFreq(bit) && Bit(cif0, bit) ==>
         Exact(SignedOf64(C.FieldDWord(e, base + C.FieldOffset(cif0, bit), o)))
  }

  /** CIF0 announces exactly what the packet holds, with canonical values. */
  predicate CanonicalFields(e: seq<byte>, start: nat, o: ByteOrder)
    requires start + 4 <= |e|
  {
    var cif0, base := ToBits(WordAt(e, start, o)), start + 4;
    base + C.AnnouncedBytes(cif0) == |e| && CanonicalValues(e, base, cif0, o)
  }

  /** A whole packet without class id and reserved bits: signal data with a stream id and, if
      there is a trailer, a zero one; or an IF context packet with canonical fields. */
  predicate CanonicalPacket(e: seq<byte>, o: ByteOrder) {
    |e| >= 4
    && var w := WordAt(e, 0, o);
       var h := HeaderOfWord0(w);
       var start := SizeInBytes(h);
       && h.packetSize * 4 == |e| && !h.classIdPresent && w / 0x100_0000 % 4 == 0
       && (|| (h.packetType == IF_DATA_WITH_STREAM_ID
               && start + (if h.trailerPresent then 4 else 0) <= |e|
               && (h.trailerPresent ==> WordAt(e, |e| - 4, o) == 0))
           || (h.packetType == IF_CONTEXT && w / 0x400_0000 % 2 == 0
               && start + 4 <= |e| && CanonicalFields(e, start, o)))
  }

  /** The encoder arguments that can be read off a parsed header. */
  function PrologueOf(h: PacketHeader): Prologue {
    Prologue(h.streamId.GetOr(0), h.packetCount, h.tsiType, h.tsfType,
             h.integerTimestamp.GetOr(0), h.fractionalTimestamp.GetOr(0))
  }

  // ---- canonical bytes are what the encoder writes: header ----

  lemma ThreePieces(b: seq<byte>, e: seq<byte>, k: nat)
    requires 4 <= k <= |b| <= |e| && b[..4] == e[..4] && b[4..k] == e[4..k] && b[k..] == e[k..|b|]
    ensures b == e[..|b|]
  {
    assert b == b[..4] + b[4..k] + b[k..];
    assert e[..|b|] == e[..4] + e[4..k] + e[k..|b|];
  }

  lemma SameFirstWord(a: seq<byte>, b: seq<byte>, o: ByteOrder)
    requires |a| >= 4 && |b| >= 4 && WordAt(a, 0, o) == WordAt(b, 0, o)
    ensures a[..4] == b[..4]
  {
    hide WordAt, WordBytes;
    WordWriteBack(a, 0, o);
    WordWriteBack(b, 0, o);
  }

  lemma HeaderUnchanged(e: seq<byte>, o: ByteOrder)
    requires |e| >= 4
    requires var h := HeaderOfWord0(WordAt(e, 0, o));
             && h.packetSize * 4 == |e| && SizeInBytes(h) <= |e| && !h.classIdPresent
             && ClearReserved(WordAt(e, 0, o)) == WordAt(e, 0, o)
    ensures ParseHeader(e, o).Some?
    ensures var p := ParseHeader(e, o).value;
            && p.header == WithSections(HeaderOfWord0(WordAt(e, 0, o)), e, o) && WellFormed(p.header)
            && p.bytes == SizeInBytes(p.header) && HeaderBytes(p.header, o) == e[..p.bytes]
  {
    hide HeaderBytes, ClearReserved, WellFormed, WordAt, DWordAt;
    HeaderCanonical(e, o);
    var p := ParseHeader(e, o).value;
    hide ParseHeader;
    SameFirstWord(HeaderBytes(p.header, o), e, o);
    ThreePieces(HeaderBytes(p.header, o), e, ClassIdAt(p.header));
  }

  lemma NothingReserved(w: u32)
    requires w / 0x100_0000 % 4 == 0
    requires IsDataPacket(w / 0x1000_0000) || w / 0x400_0000 % 2 == 0
    ensures ClearReserved(w) == w
  {
  }

  // ---- signal packets ----

  lemma U16WriteBack(d: seq<byte>, off: nat, o: ByteOrder)
    requires off + 2 <= |d|
    ensures U16Bytes(U16At(d, off, o), o) == d[off..off + 2]
  {
  }

  lemma SampleWriteBack(d: seq<byte>, off: nat, scale: real, o: ByteOrder)
    requires off + 4 <= |d| && scale != 0.0
    ensures S.SampleBytes(S.SampleAt(d, off, scale, o), scale, o) == d[off..off + 4]
  {
    var i, q := U16At(d, off, o), U16At(d, off + 2, o);
    U16WriteBack(d, off, o);
    U16WriteBack(d, off + 2, o);
    hide U16At, U16Bytes, S.Quantise;
    S.QuantiseInverse(SignedOf16(i), scale);
    S.QuantiseInverse(SignedOf16(q), scale);
    assert UnsignedOf16(SignedOf16(i)) == i && UnsignedOf16(SignedOf16(q)) == q;
    assert d[off..off + 4] == d[off..off + 2] + d[off + 2..off + 4];
  }

  lemma {:induction false} PayloadWriteBack(d: seq<byte>, off: nat, n: nat, scale: real, o: ByteOrder)
    requires off + 4 * n <= |d| && scale != 0.0
    ensures S.PayloadBytes(S.SamplesAt(d, off, n, scale, o), scale, o) == d[off..off + 4 * n]
  {
    hide S.SampleAt, S.SampleBytes;
    if n == 0 {
    } else {
      PayloadWriteBack(d, off, n - 1, scale, o);
      SampleWriteBack(d, off + 4 * (n - 1), scale, o);
      var s := S.SamplesAt(d, off, n, scale, o);
      assert s[..|s| - 1] == S.SamplesAt(d, off, n - 1, scale, o);
      assert d[off..off + 4 * n] == d[off..off + 4 * (n - 1)] + d[off + 4 * (n - 1)..off + 4 * n];
    }
  }

  lemma ZeroTrailer(d: seq<byte>, off: nat, o: ByteOrder)
    requires off + 4 <= |d|
    ensures WordAt(d, off, o) == 0 <==> d[off..off + 4] == [0, 0, 0, 0]
  {
    if WordAt(d, off, o) == 0 {
      WordWriteBack(d, off, o);
    }
    assert d[off..off + 4] == [d[off], d[off + 1], d[off + 2], d[off + 3]];
  }

  lemma RebuiltDataHeader(h: PacketHeader)
    requires WellFormed(h) && h.packetType == IF_DATA_WITH_STREAM_ID && !h.classIdPresent
    ensures S.DataHeader(PrologueOf(h), h.trailerPresent, h.packetSize) == h
    ensures forall n :: S.SignalWords(PrologueOf(h), n, h.trailerPresent)
                     == SizeInWords(h) + n + if h.trailerPresent then 1 else 0
    ensures MaxPerPacket(PrologueOf(h), h.trailerPresent)
         == MAX_PACKET_SIZE_WORDS - SizeInWords(h) - if h.trailerPresent then 1 else 0
  {
  }

  lemma SignalRebuilt(e: seq<byte>, h: PacketHeader, start: nat, n: nat, scale: real, o: ByteOrder)
    requires scale != 0.0 && WellFormed(h) && h.packetType == IF_DATA_WITH_STREAM_ID && !h.classIdPresent
    requires start == SizeInBytes(h) && |e| == h.packetSize * 4 == start + 4 * n + if h.trailerPresent then 4 else 0
    requires HeaderBytes(h, o) == e[..start]
    requires h.trailerPresent ==> WordAt(e, |e| - 4, o) == 0
    ensures n <= MaxPerPacket(PrologueOf(h), h.trailerPresent)
    ensures S.EncodeSignal(PrologueOf(h), S.SamplesAt(e, start, n, scale, o), h.trailerPresent, scale, o) == e
  {
    hide S.PayloadBytes, HeaderBytes, WordAt, S.DataHeader, WellFormed, SizeInWords, MaxPerPacket, S.SignalWords,
         PrologueOf, S.SampleAt;
    RebuiltDataHeader(h);
    PayloadWriteBack(e, start, n, scale, o);
    if h.trailerPresent { ZeroTrailer(e, |e| - 4, o); }
    var mid := start + 4 * n;
    assert e == e[..start] + e[start..mid] + e[mid..];
  }

  lemma SignalReEncoded(e: seq<byte>, h: PacketHeader, start: nat, scale: real, o: ByteOrder)
    requires scale != 0.0 && ParseHeader(e, o) == Some(ParsedHeader(h, start))
    requires WellFormed(h) && h.packetType == IF_DATA_WITH_STREAM_ID && !h.classIdPresent
    requires start == SizeInBytes(h) && start + (if h.trailerPresent then 4 else 0) <= |e| == h.packetSize * 4
    requires HeaderBytes(h, o) == e[..start]
    requires h.trailerPresent ==> WordAt(e, |e| - 4, o) == 0
    ensures S.DecodeSignal(e, scale, o).Some?
    ensures var r := S.DecodeSignal(e, scale, o).value;
            && r.header == h && r.bytesConsumed == |e|
            && |r.samples| <= MaxPerPacket(PrologueOf(h), h.trailerPresent)
            && S.EncodeSignal(PrologueOf(h), r.samples, h.trailerPresent, scale, o) == e
  {
    hide HeaderBytes, ParseHeader, WordAt, S.EncodeSignal, MaxPerPacket, WellFormed, S.DecodeSignal, PrologueOf;
    var n := (|e| - start - if h.trailerPresent then 4 else 0) / 4;
    assert start % 4 == 0;
    hide SizeInWords;
    S.DecodesAs(e, h, start, n, scale, o);
    SignalRebuilt(e, h, start, n, scale, o);
  }

  lemma CanonicalSignalHeader(e: seq<byte>, o: ByteOrder)
    requires CanonicalPacket(e, o) && HeaderOfWord0(WordAt(e, 0, o)).packetType == IF_DATA_WITH_STREAM_ID
    ensures ParseHeader(e, o).Some?
    ensures var h, start := ParseHeader(e, o).value.header, ParseHeader(e, o).value.bytes;
            && WellFormed(h) && h.packetType == IF_DATA_WITH_STREAM_ID && !h.classIdPresent
            && start == SizeInBytes(h) && start + (if h.trailerPresent then 4 else 0) <= |e| == h.packetSize * 4
            && HeaderBytes(h, o) == e[..start]
            && (h.trailerPresent ==> WordAt(e, |e| - 4, o) == 0)
  {
    NothingReserved(WordAt(e, 0, o));
    hide CanonicalFields, HeaderBytes, ParseHeader, ClearReserved, WordAt;
    HeaderUnchanged(e, o);
  }

  /** What the encoder makes of the parsed header and samples is the packet itself. */
  lemma CanonicalSignal(e: seq<byte>, scale: real, o: ByteOrder)
    requires scale != 0.0 && CanonicalPacket(e, o)
    requires HeaderOfWord0(WordAt(e, 0, o)).packetType == IF_DATA_WITH_STREAM_ID
    ensures S.DecodeSignal(e, scale, o).Some?
    ensures var r := S.DecodeSignal(e, scale, o).value;
            && r.bytesConsumed == |e|
            && |r.samples| <= MaxPerPacket(PrologueOf(r.header), r.header.trailerPresent)
            && S.EncodeSignal(PrologueOf(r.header), r.samples, r.header.trailerPresent, scale, o) == e
  {
    CanonicalSignalHeader(e, o);
    hide CanonicalPacket, HeaderBytes, ParseHeader, WordAt, S.EncodeSignal, MaxPerPacket, WellFormed, S.DecodeSignal,
         PrologueOf, SizeInBytes;
    SignalReEncoded(e, ParseHeader(e, o).value.header, ParseHeader(e, o).value.bytes, scale, o);
  }

  // ---- context packets ----

  lemma FlagsWhole(c: bv32)
    requires c & 0x1F_FFFF == 0
    ensures C.OrFlags(Bit(c, 31), Bit(c, 30), Bit(c, 29), Bit(c, 28), Bit(c, 27), Bit(c, 26), Bit(c, 25),
                      Bit(c, 24), Bit(c, 23), Bit(c, 22), Bit(c, 21)) == c
  {
  }

  lemma NoLowFlags(b31: bool, b30: bool, b29: bool, b28: bool, b27: bool, b26: bool, b25: bool, b24: bool,
                   b23: bool, b22: bool, b21: bool)
    ensures C.OrFlags(b31, b30, b29, b28, b27, b26, b25, b24, b23, b22, b21) & 0x1F_FFFF == 0
  {
  }

  /** A canonical CIF0 is the one the encoder computes from the decoded fields. */
  lemma SameCif0(d: seq<byte>, base: nat, cif0: bv32, o: ByteOrder)
    requires cif0 & 0x1F_FFFF == 0
    ensures C.Cif0Of(C.Fields(d, base, cif0, o)) == cif0
  {
    FlagsWhole(cif0);
    hide C.OrFlags, Bit, C.FieldOffset, C.FieldWord, C.FreqAt, C.RefLevelFromFixed, C.GainFromFixed;
  }

  lemma FreqInverse(raw: u64)
    requires Exact(SignedOf64(raw))
    ensures C.FreqFits(C.FreqFromFixed(SignedOf64(raw)))
    ensures UnsignedOf64(C.FreqToFixed(C.FreqFromFixed(SignedOf64(raw)))) == raw
  {
    hide Exact, ToDouble;
    ToDoubleExact(SignedOf64(raw));
    RoundExact(SignedOf64(raw), C.FreqFromFixed(SignedOf64(raw)), FREQ_RADIX);
  }

  lemma LevelInverse(raw: u32)
    ensures C.LevelFits(C.RefLevelFromFixed(raw)) && C.LevelFits(C.GainFromFixed(raw))
    ensures C.RefLevelToFixed(C.RefLevelFromFixed(raw)) == raw / 0x1_0000 * 0x1_0000
    ensures C.GainToFixed(C.GainFromFixed(raw)) == raw % 0x1_0000
  {
    RoundExact(SignedOf16(raw / 0x1_0000), C.RefLevelFromFixed(raw), GAIN_RADIX);
    RoundExact(SignedOf16(raw % 0x1_0000), C.GainFromFixed(raw), GAIN_RADIX);
  }

  lemma FreqRaw(x: Option<real>, raw: u64)
    requires x == Some(C.FreqFromFixed(SignedOf64(raw))) && Exact(SignedOf64(raw))
    ensures C.FreqFits(x.value) && C.RawFreq(x) == C.TwoWords(raw)
  {
    hide C.FreqFits, C.FreqFromFixed, C.FreqToFixed, SignedOf64, UnsignedOf64;
    FreqInverse(raw);
  }

  lemma LevelRaw(x: Option<real>, raw: u32)
    requires x == Some(C.RefLevelFromFixed(raw)) && raw % 0x1_0000 == 0
    ensures C.LevelFits(x.value) && C.RawLevel(x) == C.OneWord(raw)
  {
    hide C.LevelFits, C.RefLevelFromFixed, C.RefLevelToFixed;
    LevelInverse(raw);
  }

  lemma GainRaw(x: Option<real>, raw: u32)
    requires x == Some(C.GainFromFixed(raw)) && raw / 0x1_0000 == 0
    ensures C.LevelFits(x.value) && C.RawGain(x) == C.OneWord(raw)
  {
    hide C.LevelFits, C.GainFromFixed, C.GainToFixed;
    LevelInverse(raw);
  }

  lemma NotLow(c: bv32, bit: int)
    requires c & 0x1F_FFFF == 0 && 15 <= bit <= 30 && Bit(c, bit)
    ensures bit >= 21
  {
  }

  /** What stands behind CIF0 for a bit, as a raw value. */
  function RawAt(e: seq<byte>, base: nat, cif0: bv32, bit: int, o: ByteOrder): C.RawField
    requires 15 <= bit <= 30
  {
    var pos := base + C.FieldOffset(cif0, bit);
    if C.Cif0FieldSizeWords(bit) == 1 then C.OneWord(C.FieldWord(e, pos, o)) else C.TwoWords(C.FieldDWord(e, pos, o))
  }

  lemma HighRawIs(e: seq<byte>, base: nat, cif0: bv32, bit: int, o: ByteOrder)
    requires 26 <= bit <= 30 && Bit(cif0, bit) && C.InRange(C.Fields(e, base, cif0, o))
    requires CanonicalValues(e, base, cif0, o)
    ensures C.RawOf(C.Fields(e, base, cif0, o), bit) == RawAt(e, base, cif0, bit, o)
  {
    hide C.FieldWord, C.FieldDWord, C.FieldOffset, Bit, C.FreqFits, C.LevelFits, C.FreqFromFixed, C.FreqToFixed,
         C.RefLevelFromFixed, C.RefLevelToFixed, C.GainFromFixed, C.GainToFixed, SignedOf64, UnsignedOf64, C.InRange,
         C.RawFreq, C.RawLevel, C.RawGain;
    var f, pos := C.Fields(e, base, cif0, o), base + C.FieldOffset(cif0, bit);
    match bit
    case 30 =>
    case 29 => FreqRaw(f.bandwidth, C.FieldDWord(e, pos, o));
    case 28 => FreqRaw(f.ifRefFrequency, C.FieldDWord(e, pos, o));
    case 27 => FreqRaw(f.rfFrequency, C.FieldDWord(e, pos, o));
    case 26 => FreqRaw(f.rfFreqOffset, C.FieldDWord(e, pos, o));
  }

  lemma LowRawIs(e: seq<byte>, base: nat, cif0: bv32, bit: int, o: ByteOrder)
    requires 21 <= bit <= 25 && Bit(cif0, bit) && C.InRange(C.Fields(e, base, cif0, o))
    requires CanonicalValues(e, base, cif0, o)
    ensures C.RawOf(C.Fields(e, base, cif0, o), bit) == RawAt(e, base, cif0, bit, o)
  {
    hide C.FieldWord, C.FieldDWord, C.FieldOffset, Bit, C.FreqFits, C.LevelFits, C.FreqFromFixed, C.FreqToFixed,
         C.RefLevelFromFixed, C.RefLevelToFixed, C.GainFromFixed, C.GainToFixed, SignedOf64, UnsignedOf64, C.InRange,
         C.RawFreq, C.RawLevel, C.RawGain;
    var f, pos := C.Fields(e, base, cif0, o), base + C.FieldOffset(cif0, bit);
    match bit
    case 25 => FreqRaw(f.ifBandOffset, C.FieldDWord(e, pos, o));
    case 24 => LevelRaw(f.referenceLevel, C.FieldWord(e, pos, o));
    case 23 => GainRaw(f.gain, C.FieldWord(e, pos, o));
    case 22 =>
    case 21 => FreqRaw(f.sampleRate, C.FieldDWord(e, pos, o));
  }

  /** A decoded field turns into the raw value it was decoded from. */
  lemma RawIs(e: seq<byte>, base: nat, cif0: bv32, bit: int, o: ByteOrder)
    requires 15 <= bit <= 30 && Bit(cif0, bit) && CanonicalValues(e, base, cif0, o)
    requires C.InRange(C.Fields(e, base, cif0, o))
    ensures C.RawOf(C.Fields(e, base, cif0, o), bit) == RawAt(e, base, cif0, bit, o)
  {
    NotLow(cif0, bit);
    hide C.RawOf, C.Fields, RawAt, C.InRange;
    if bit >= 26 {
      HighRawIs(e, base, cif0, bit, o);
    } else {
      LowRawIs(e, base, cif0, bit, o);
    }
  }

  /** The decoded fields of a canonical CIF0, set bit by set bit, encode to the bytes behind it. */
  lemma RawWriteBack(e: seq<byte>, base: nat, cif0: bv32, bit: int, o: ByteOrder)
    requires 15 <= bit <= 30 && base + C.AnnouncedBytes(cif0) <= |e| && CanonicalValues(e, base, cif0, o)
    requires C.InRange(C.Fields(e, base, cif0, o))
    ensures base <= base + C.FieldOffset(cif0, bit) <= base + C.FieldOffset(cif0, bit - 1) <= |e|
    ensures C.RawBytes(C.RawOf(C.Fields(e, base, cif0, o), bit), o)
         == e[base + C.FieldOffset(cif0, bit)..base + C.FieldOffset(cif0, bit - 1)]
  {
    var f, pos := C.Fields(e, base, cif0, o), base + C.FieldOffset(cif0, bit);
    C.OffsetStep(cif0, bit);
    assert cif0 & 0x1F_FFFF == 0;
    SameCif0(e, base, cif0, o);
    C.BitPresent(f, bit);
    hide C.Fields, C.RawOf, Bit, C.WordsAbove, C.InRange, WordAt, DWordAt, WordBytes, DWordBytes, CanonicalValues;
    if Bit(cif0, bit) {
      RawIs(e, base, cif0, bit, o);
      if C.Cif0FieldSizeWords(bit) == 1 {
        WordWriteBack(e, pos, o);
      } else {
        DWordWriteBack(e, pos, o);
      }
    }
  }

  lemma {:induction false} FieldsWriteBack(e: seq<byte>, base: nat, cif0: bv32, lowest: int, o: ByteOrder)
    requires 15 <= lowest <= 31 && base + C.AnnouncedBytes(cif0) <= |e| && CanonicalValues(e, base, cif0, o)
    requires C.InRange(C.Fields(e, base, cif0, o))
    ensures base <= base + C.FieldOffset(cif0, lowest - 1) <= |e|
    ensures C.FieldData(C.Fields(e, base, cif0, o), lowest, o) == e[base..base + C.FieldOffset(cif0, lowest - 1)]
    decreases 31 - lowest
  {
    hide C.Fields, C.RawOf, C.RawBytes, Bit, C.InRange, C.FieldWord, CanonicalValues, C.AnnouncedBytes;
    if lowest == 31 {
    } else {
      FieldsWriteBack(e, base, cif0, lowest + 1, o);
      RawWriteBack(e, base, cif0, lowest, o);
      hide C.FieldOffset;
      JoinSlices(e, base, base + C.FieldOffset(cif0, lowest), base + C.FieldOffset(cif0, lowest - 1));
    }
  }

  lemma RebuiltContextHeader(h: PacketHeader)
    requires WellFormed(h) && h.packetType == IF_CONTEXT && !h.classIdPresent
    ensures C.ContextHeader(PrologueOf(h), h.packetSize) == h
    ensures SizeInWords(C.ContextHeader(PrologueOf(h), 0)) == SizeInWords(h)
  {
  }

  lemma CanonicalContextHeader(e: seq<byte>, o: ByteOrder)
    requires CanonicalPacket(e, o) && HeaderOfWord0(WordAt(e, 0, o)).packetType == IF_CONTEXT
    ensures ParseHeader(e, o).Some?
    ensures var h, start := ParseHeader(e, o).value.header, ParseHeader(e, o).value.bytes;
            && WellFormed(h) && h.packetType == IF_CONTEXT && !h.classIdPresent
            && start == SizeInBytes(h) && start + 4 <= |e| == h.packetSize * 4
            && HeaderBytes(h, o) == e[..start]
            && CanonicalFields(e, start, o)
  {
    NothingReserved(WordAt(e, 0, o));
    hide CanonicalFields, HeaderBytes, ParseHeader, ClearReserved, WordAt;
    HeaderUnchanged(e, o);
  }

  lemma ContextRebuilt(e: seq<byte>, h: PacketHeader, start: nat, cif0: bv32, f: ContextFields, o: ByteOrder)
    requires WellFormed(h) && h.packetType == IF_CONTEXT && !h.classIdPresent
    requires start == SizeInBytes(h) && start + 4 <= |e| == h.packetSize * 4 && HeaderBytes(h, o) == e[..start]
    requires ToBits(WordAt(e, start, o)) == cif0 && C.InRange(f) && C.Cif0Of(f) == cif0
    requires C.FieldData(f, 15, o) == e[start + 4..]
    ensures C.EncodeContext(PrologueOf(h), f, o) == e
  {
    hide C.FieldData, C.InRange, HeaderBytes, WordAt, WordBytes, C.Cif0Of, C.ContextHeader, WellFormed, PrologueOf,
         FromBits, ToBits;
    RebuiltContextHeader(h);
    BitsForth(WordAt(e, start, o));
    WordWriteBack(e, start, o);
    assert C.ContextWords(PrologueOf(h), f, o) == h.packetSize;
    assert e == e[..start] + e[start..start + 4] + e[start + 4..];
  }

  lemma CanonicalInRange(e: seq<byte>, base: nat, cif0: bv32, o: ByteOrder)
    requires CanonicalValues(e, base, cif0, o)
    ensures C.InRange(C.Fields(e, base, cif0, o))
  {
    hide Bit, C.FieldOffset, C.FieldDWord, C.FieldWord, C.InRange, C.Fields, Exact, ToDouble, SignedOf64;
    forall bit | 15 <= bit <= 30 && C.HoldsFreq(bit) && Bit(cif0, bit)
      ensures SignedOf64(C.FieldDWord(e, base + C.FieldOffset(cif0, bit), o)) < C.MAX_CAST_BACK
    {
      var raw := SignedOf64(C.FieldDWord(e, base + C.FieldOffset(cif0, bit), o));
      ToDoubleExact(raw);
      CastBackIff(raw);
    }
    C.DecodedInRange(e, base, cif0, o);
  }

  lemma ContextReEncoded(e: seq<byte>, h: PacketHeader, start: nat, o: ByteOrder)
    requires ParseHeader(e, o) == Some(ParsedHeader(h, start))
    requires WellFormed(h) && h.packetType == IF_CONTEXT && !h.classIdPresent
    requires start == SizeInBytes(h) && start + 4 <= |e| == h.packetSize * 4
    requires HeaderBytes(h, o) == e[..start] && CanonicalFields(e, start, o)
    ensures C.DecodeContext(e, o).Some?
    ensures var r := C.DecodeContext(e, o).value;
            && r.header == h && r.bytesConsumed == |e| && C.InRange(r.fields)
            && C.EncodeContext(PrologueOf(h), r.fields, o) == e
  {
    hide HeaderBytes, ParseHeader, WordAt, C.EncodeContext, WellFormed, C.DecodeContext, PrologueOf, SizeInBytes,
         C.Fields, C.InRange, C.FieldData, ToBits, C.Cif0Of, C.FieldOffset, C.FieldWord, Bit;
    var cif0, base := ToBits(WordAt(e, start, o)), start + 4;
    var f := C.Fields(e, base, cif0, o);
    C.ContextDecodesAs(e, h, start, cif0, o);
    CanonicalInRange(e, base, cif0, o);
    SameCif0(e, base, cif0, o);
    FieldsWriteBack(e, base, cif0, 15, o);
    ContextRebuilt(e, h, start, cif0, f, o);
  }

  /** What the encoder makes of the parsed header and fields is the packet itself. */
  lemma CanonicalContext(e: seq<byte>, o: ByteOrder)
    requires CanonicalPacket(e, o) && HeaderOfWord0(WordAt(e, 0, o)).packetType == IF_CONTEXT
    ensures C.DecodeContext(e, o).Some?
    ensures var r := C.DecodeContext(e, o).value;
            && r.bytesConsumed == |e| && C.InRange(r.fields)
            && C.EncodeContext(PrologueOf(r.header), r.fields, o) == e
  {
    CanonicalContextHeader(e, o);
    hide CanonicalPacket, HeaderBytes, ParseHeader, WordAt, C.EncodeContext, WellFormed, C.DecodeContext,
         PrologueOf, SizeInBytes, C.InRange, CanonicalFields;
    ContextReEncoded(e, ParseHeader(e, o).value.header, ParseHeader(e, o).value.bytes, o);
  }

  // ---- what the encoders write is canonical ----

  lemma Word0Packed(h: PacketHeader)
    requires h.packetCount < 16
    ensures Word0(h) == Packed(TopBits(h), 0, h.tsiType, h.tsfType, h.packetCount, h.packetSize)
  {
  }

  lemma EncodedFlags(h: PacketHeader)
    requires WellFormed(h) && HasStreamId(h.packetType) && !h.classIdPresent
    ensures var w := Word0(h);
            var g := HeaderOfWord0(w);
            && g.packetType == h.packetType && g.trailerPresent == h.trailerPresent && !g.classIdPresent
            && g.packetSize == h.packetSize && SizeInBytes(g) == SizeInBytes(h)
            && w / 0x100_0000 % 4 == 0
            && (h.packetType == IF_CONTEXT ==> w / 0x400_0000 % 2 == 0)
  {
    hide Word0, HeaderOfWord0, Packed;
    assert Word0(h) == Packed(TopBits(h), 0, h.tsiType, h.tsfType, h.packetCount, h.packetSize) by { Word0Packed(h); }
    Pack(Word0(h), TopBits(h), 0, h.tsiType, h.tsfType, h.packetCount, h.packetSize);
    Word0RoundTrip(h);
  }

  lemma EncodedWord0(h: PacketHeader, rest: seq<byte>, o: ByteOrder)
    requires WellFormed(h) && HasStreamId(h.packetType) && !h.classIdPresent
    ensures var e := HeaderBytes(h, o) + rest;
            && |e| == SizeInBytes(h) + |rest| && |e| >= 4
            && var w := WordAt(e, 0, o);
               var g := HeaderOfWord0(w);
               && g.packetType == h.packetType && g.trailerPresent == h.trailerPresent && !g.classIdPresent
               && g.packetSize == h.packetSize && SizeInBytes(g) == SizeInBytes(h)
               && w / 0x100_0000 % 4 == 0
               && (h.packetType == IF_CONTEXT ==> w / 0x400_0000 % 2 == 0)
  {
    hide WordAt, HeaderBytes, Word0, HeaderOfWord0, WellFormed, Holds;
    EncodedFlags(h);
    SectionsReadBack(h, rest, o);
  }

  lemma EncodedSignalCanonical(a: Prologue, s: seq<IQSample>, trailer: bool, scale: real, o: ByteOrder)
    requires |s| <= MaxPerPacket(a, trailer)
    ensures CanonicalPacket(S.EncodeSignal(a, s, trailer, scale, o), o)
  {
    hide WordAt, HeaderBytes, S.PayloadBytes;
    var h := S.DataHeader(a, trailer, S.SignalWords(a, |s|, trailer));
    var e := S.EncodeSignal(a, s, trailer, scale, o);
    var rest := S.PayloadBytes(s, scale, o) + S.TrailerBytes(trailer);
    assert e == HeaderBytes(h, o) + rest;
    EncodedWord0(h, rest, o);
    if trailer {
      assert e[|e| - 4..] == [0, 0, 0, 0];
      ZeroTrailer(e, |e| - 4, o);
    }
  }

  lemma RawFreqExact(x: Option<real>)
    requires x.Some? ==> C.FreqFits(x.value)
    ensures C.RawFreq(x).TwoWords? ==> Exact(SignedOf64(C.RawFreq(x).dword))
  {
    hide Exact;
  }

  lemma EncodedFreqExact(f: ContextFields, bit: int, e: seq<byte>, base: nat, o: ByteOrder)
    requires C.InRange(f) && C.DataAt(e, base, f, o) && 15 <= bit <= 30 && C.HoldsFreq(bit) && Bit(C.Cif0Of(f), bit)
    ensures Exact(SignedOf64(C.FieldDWord(e, base + C.FieldOffset(C.Cif0Of(f), bit), o)))
  {
    hide C.Cif0Of, Bit, C.FieldOffset, C.FieldDWord, C.FieldWord, C.DataAt, C.FreqFits, C.LevelFits, C.RawFreq, Exact,
         SignedOf64;
    C.BitPresent(f, bit);
    C.FieldReadBack(f, bit, e, base, o);
    match bit
    case 29 => RawFreqExact(f.bandwidth);
    case 28 => RawFreqExact(f.ifRefFrequency);
    case 27 => RawFreqExact(f.rfFrequency);
    case 26 => RawFreqExact(f.rfFreqOffset);
    case 25 => RawFreqExact(f.ifBandOffset);
    case 21 => RawFreqExact(f.sampleRate);
  }

  lemma EncodedValuesCanonical(f: ContextFields, e: seq<byte>, base: nat, o: ByteOrder)
    requires C.InRange(f) && C.DataAt(e, base, f, o)
    ensures CanonicalValues(e, base, C.Cif0Of(f), o)
  {
    NoLowFlags(f.changeIndicator, f.referencePointId.Some?, f.bandwidth.Some?, f.ifRefFrequency.Some?,
               f.rfFrequency.Some?, f.rfFreqOffset.Some?, f.ifBandOffset.Some?, f.referenceLevel.Some?,
               f.gain.Some?, f.overRangeCount.Some?, f.sampleRate.Some?);
    hide C.OrFlags, Bit, C.FieldOffset, C.FieldWord, C.FieldDWord, C.DataAt, C.FreqFits, C.LevelFits, C.RawFreq,
         C.RawWord, Exact;
    C.BitPresent(f, 24);
    C.BitPresent(f, 23);
    C.FieldReadBack(f, 24, e, base, o);
    C.FieldReadBack(f, 23, e, base, o);
    forall bit | 15 <= bit <= 30 && C.HoldsFreq(bit) && Bit(C.Cif0Of(f), bit)
      ensures Exact(SignedOf64(C.FieldDWord(e, base + C.FieldOffset(C.Cif0Of(f), bit), o)))
    {
      EncodedFreqExact(f, bit, e, base, o);
    }
  }

  lemma EncodedContextCanonical(a: Prologue, f: ContextFields, o: ByteOrder)
    requires C.InRange(f)
    ensures var e := C.EncodeContext(a, f, o);
            CanonicalPacket(e, o) && |e| >= 4 && WordAt(e, 0, o) / 0x1000_0000 == IF_CONTEXT
  {
    hide WordAt, HeaderBytes, WordBytes, C.FieldData, C.InRange, C.Cif0Of, ToBits, FromBits, CanonicalValues,
         C.AnnouncedBytes;
    C.ContextSize(a, f, o);
    var h := C.ContextHeader(a, C.ContextWords(a, f, o));
    var hb, cif0, fd := HeaderBytes(h, o), C.Cif0Of(f), C.FieldData(f, 15, o);
    var rest := WordBytes(FromBits(cif0), o) + fd;
    var e := C.EncodeContext(a, f, o);
    assert e == hb + rest;
    EncodedWord0(h, rest, o);
    C.ContextCif0(hb, cif0, fd, [], o);
    assert e == hb + WordBytes(FromBits(cif0), o) + fd + [];
    assert |hb| == SizeInBytes(h);
    C.DataBehind(hb, WordBytes(FromBits(cif0), o), fd, []);
    assert C.DataAt(e, |hb| + 4, f, o);
    EncodedValuesCanonical(f, e, |hb| + 4, o);
  }
}
