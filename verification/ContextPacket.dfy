/** Context packets: fields announced by the CIF0 bitmask (src/libs/Vita49_2/ContextPacket.cpp;
    ANSI/VITA 49.2-2017 section 9.1). CIF0 itself is a bit-vector. */
module ContextPacket {
  import opened ByteSwap
  import opened ByteVectors
  import opened Vita49Types
  import opened Wrappers
  import opened BitVectors
  import opened Doubles
  import opened PacketHeaderCodec

  // ---- fixed point ----

  /** The fixed-point value of a double, which is an int64 and itself a double (FreqFitsIff). */
  predicate FreqFits(hz: real) {
    var raw := Round(hz * FREQ_RADIX);
    -0x8000_0000_0000_0000 <= raw < 0x8000_0000_0000_0000 && Exact(raw)
  }

  predicate LevelFits(dB: real) { -0x8000 <= Round(dB * GAIN_RADIX) < 0x8000 }

  /** The cast to double rounds beyond 53 bits; the division by a power of two is exact. */
  function FreqFromFixed(raw: i64): real { ToDouble(raw) as real / FREQ_RADIX }

  function FreqToFixed(hz: real): i64
    requires FreqFits(hz)
  {
    Round(hz * FREQ_RADIX)
  }

  /** The level is a signed 16-bit number in the upper half word. */
  function RefLevelFromFixed(raw: u32): real { SignedOf16(raw / 0x1_0000) as real / GAIN_RADIX }

  function RefLevelToFixed(dBm: real): u32
    requires LevelFits(dBm)
  {
    UnsignedOf16(Round(dBm * GAIN_RADIX)) * 0x1_0000
  }

  /** Stage 1 of the gain is a signed 16-bit number in the lower half word. */
  function GainFromFixed(raw: u32): real { SignedOf16(raw % 0x1_0000) as real / GAIN_RADIX }

  function GainToFixed(dB: real): u32
    requires LevelFits(dB)
  {
    UnsignedOf16(Round(dB * GAIN_RADIX))
  }

  function Distance(x: real, y: real): real { if x >= y then x - y else y - x }

  function RoundedFreq(hz: real): real
    requires FreqFits(hz)
  {
    FreqFromFixed(SignedOf64(UnsignedOf64(FreqToFixed(hz))))
  }

  function RoundedLevel(dB: real): real
    requires LevelFits(dB)
  {
    Round(dB * GAIN_RADIX) as real / GAIN_RADIX
  }

  /** A frequency comes back within 2^-21 Hz, and comes back unchanged the second time. */
  lemma FreqError(hz: real)
    requires FreqFits(hz)
    ensures -1.0 / 2097152.0 <= RoundedFreq(hz) - hz <= 1.0 / 2097152.0
    ensures FreqFits(RoundedFreq(hz)) && FreqToFixed(RoundedFreq(hz)) == FreqToFixed(hz)
  {
    hide Exact, ToDouble;
    ToDoubleExact(Round(hz * FREQ_RADIX));
    assert SignedOf64(UnsignedOf64(FreqToFixed(hz))) == FreqToFixed(hz);
    RoundExact(FreqToFixed(hz), RoundedFreq(hz), FREQ_RADIX);
  }

  /** A double in range fits: its product with 2^20 is m * 2^e with m of at most 53 bits, or has
      a fraction and is smaller than 2^53. */
  lemma FreqFitsIff(hz: real, m: int, e: nat)
    requires || (hz * FREQ_RADIX == (m * Pow2(e)) as real && Abs(m) <= SIGNIFICANDS)
             || -(SIGNIFICANDS as real) < hz * FREQ_RADIX < SIGNIFICANDS as real
    ensures FreqFits(hz) <==> -0x8000_0000_0000_0000 <= Round(hz * FREQ_RADIX) < 0x8000_0000_0000_0000
  {
    hide Exact, Pow2;
    var raw := Round(hz * FREQ_RADIX);
    if -(SIGNIFICANDS as real) < hz * FREQ_RADIX < SIGNIFICANDS as real {
      PowZero();
      SignificandExact(Abs(raw), 0);
    } else {
      assert raw == m * Pow2(e);
      SignificandExact(Abs(m), e);
      if m < 0 { assert -((-m) * Pow2(e)) == m * Pow2(e); }
    }
  }

  /** A level or gain comes back within 2^-8 dB, and comes back unchanged the second time. */
  lemma LevelError(dB: real)
    requires LevelFits(dB)
    ensures -1.0 / 256.0 <= RoundedLevel(dB) - dB <= 1.0 / 256.0
    ensures LevelFits(RoundedLevel(dB)) && Round(RoundedLevel(dB) * GAIN_RADIX) == Round(dB * GAIN_RADIX)
  {
  }

  // ---- CIF0 ----

  /** Words of data behind a CIF0 bit; -1 where the size is unknown or variable. */
  function Cif0FieldSizeWords(bit: int): (words: int)
    ensures 15 <= bit <= 30 ==> 1 <= words <= 2
  {
    match bit
    case 31 => 0
    case 30 => 1
    case 29 => 2
    case 28 => 2
    case 27 => 2
    case 26 => 2
    case 25 => 2
    case 24 => 1
    case 23 => 1
    case 22 => 1
    case 21 => 2
    case 20 => 2
    case 19 => 1
    case 18 => 1
    case 17 => 2
    case 16 => 1
    case 15 => 2
    case _ => -1
  }

  /** The words of data that the set bits above `bit` announce. */
  function WordsAbove(cif0: bv32, bit: int): nat
    requires 14 <= bit <= 30
    decreases 30 - bit
  {
    if bit == 30 then 0
    else WordsAbove(cif0, bit + 1) + if Bit(cif0, bit + 1) then Cif0FieldSizeWords(bit + 1) else 0
  }

  /** Where the data of `bit` starts behind CIF0. */
  function FieldOffset(cif0: bv32, bit: int): nat
    requires 14 <= bit <= 30
  {
    4 * WordsAbove(cif0, bit)
  }

  /** All field data that CIF0 announces in its fixed-size bits 30 to 15. */
  function AnnouncedBytes(cif0: bv32): nat { FieldOffset(cif0, 14) }

  lemma WordsAboveMonotone(cif0: bv32, bit: int, lower: int)
    requires 14 <= lower <= bit <= 30
    ensures WordsAbove(cif0, bit) <= WordsAbove(cif0, lower)
    ensures lower < bit && Bit(cif0, bit) ==>
              WordsAbove(cif0, bit) + Cif0FieldSizeWords(bit) <= WordsAbove(cif0, lower)
    decreases bit - lower
  {
    hide Bit;
    if lower == bit {
    } else {
      WordsAboveMonotone(cif0, bit, lower + 1);
    }
  }

  // ---- decoding ----

  function FieldWord(d: seq<byte>, pos: nat, o: ByteOrder): u32 {
    if pos + 4 <= |d| then WordAt(d, pos, o) else 0
  }

  function FieldDWord(d: seq<byte>, pos: nat, o: ByteOrder): u64 {
    if pos + 8 <= |d| then DWordAt(d, pos, o) else 0
  }

  function FreqAt(d: seq<byte>, pos: nat, o: ByteOrder): real {
    FreqFromFixed(SignedOf64(FieldDWord(d, pos, o)))
  }

  function Announced<T>(present: bool, v: T): Option<T> { if present then Some(v) else None }

  /** The fields at bits 31 down to `lowest`, each read at its own offset behind `base`. */
  function FieldsDownTo(d: seq<byte>, base: nat, cif0: bv32, o: ByteOrder, lowest: int): ContextFields {
    ContextFields(
      Bit(cif0, 31),
      Announced(lowest <= 30 && Bit(cif0, 30), FieldWord(d, base + FieldOffset(cif0, 30), o)),
      Announced(lowest <= 29 && Bit(cif0, 29), FreqAt(d, base + FieldOffset(cif0, 29), o)),
      Announced(lowest <= 28 && Bit(cif0, 28), FreqAt(d, base + FieldOffset(cif0, 28), o)),
      Announced(lowest <= 27 && Bit(cif0, 27), FreqAt(d, base + FieldOffset(cif0, 27), o)),
      Announced(lowest <= 26 && Bit(cif0, 26), FreqAt(d, base + FieldOffset(cif0, 26), o)),
      Announced(lowest <= 25 && Bit(cif0, 25), FreqAt(d, base + FieldOffset(cif0, 25), o)),
      Announced(lowest <= 24 && Bit(cif0, 24), RefLevelFromFixed(FieldWord(d, base + FieldOffset(cif0, 24), o))),
      Announced(lowest <= 23 && Bit(cif0, 23), GainFromFixed(FieldWord(d, base + FieldOffset(cif0, 23), o))),
      Announced(lowest <= 22 && Bit(cif0, 22), FieldWord(d, base + FieldOffset(cif0, 22), o)),
      Announced(lowest <= 21 && Bit(cif0, 21), FreqAt(d, base + FieldOffset(cif0, 21), o)))
  }

  function Fields(d: seq<byte>, base: nat, cif0: bv32, o: ByteOrder): ContextFields {
    FieldsDownTo(d, base, cif0, o, 15)
  }

  datatype DecodedContext = DecodedContext(header: PacketHeader, fields: ContextFields, bytesConsumed: nat)

  /** Accepted iff the header is, the packet is a context packet and it has room for CIF0 and
      for everything that CIF0 announces. */
  function DecodeContext(d: seq<byte>, o: ByteOrder): (r: Option<DecodedContext>)
    ensures r.Some? ==> 4 <= r.value.bytesConsumed == r.value.header.packetSize * 4 <= |d|
  {
    var p := ParseHeader(d, o);
    if p.None? || !IsContextPacket(p.value.header.packetType) then None
    else
      var h, start := p.value.header, p.value.bytes;
      if start + 4 > h.packetSize * 4 then None
      else
        var cif0 := ToBits(WordAt(d, start, o));
        if start + 4 + AnnouncedBytes(cif0) > h.packetSize * 4 then None
        else Some(DecodedContext(h, Fields(d, start + 4, cif0, o), h.packetSize * 4))
  }

  function WithField(f: ContextFields, bit: int, d: seq<byte>, pos: nat, o: ByteOrder): ContextFields {
    match bit
    case 30 => f.(referencePointId := Some(FieldWord(d, pos, o)))
    case 29 => f.(bandwidth := Some(FreqAt(d, pos, o)))
    case 28 => f.(ifRefFrequency := Some(FreqAt(d, pos, o)))
    case 27 => f.(rfFrequency := Some(FreqAt(d, pos, o)))
    case 26 => f.(rfFreqOffset := Some(FreqAt(d, pos, o)))
    case 25 => f.(ifBandOffset := Some(FreqAt(d, pos, o)))
    case 24 => f.(referenceLevel := Some(RefLevelFromFixed(FieldWord(d, pos, o))))
    case 23 => f.(gain := Some(GainFromFixed(FieldWord(d, pos, o))))
    case 22 => f.(overRangeCount := Some(FieldWord(d, pos, o)))
    case 21 => f.(sampleRate := Some(FreqAt(d, pos, o)))
    case _ => f
  }

  /** One field of the decoder's switch. */
  method SetField(fields: ContextFields, bit: int, d: seq<byte>, offset: nat, o: ByteOrder) returns (r: ContextFields)
    requires 15 <= bit <= 30 && offset + 4 * Cif0FieldSizeWords(bit) <= |d|
    ensures r == WithField(fields, bit, d, offset, o)
  {
    r := fields;
    match bit
    case 30 => r := r.(referencePointId := Some(WordAt(d, offset, o)));
    case 29 => r := r.(bandwidth := Some(FreqFromFixed(SignedOf64(DWordAt(d, offset, o)))));
    case 28 => r := r.(ifRefFrequency := Some(FreqFromFixed(SignedOf64(DWordAt(d, offset, o)))));
    case 27 => r := r.(rfFrequency := Some(FreqFromFixed(SignedOf64(DWordAt(d, offset, o)))));
    case 26 => r := r.(rfFreqOffset := Some(FreqFromFixed(SignedOf64(DWordAt(d, offset, o)))));
    case 25 => r := r.(ifBandOffset := Some(FreqFromFixed(SignedOf64(DWordAt(d, offset, o)))));
    case 24 => r := r.(referenceLevel := Some(RefLevelFromFixed(WordAt(d, offset, o))));
    case 23 => r := r.(gain := Some(GainFromFixed(WordAt(d, offset, o))));
    case 22 => r := r.(overRangeCount := Some(WordAt(d, offset, o)));
    case 21 => r := r.(sampleRate := Some(FreqFromFixed(SignedOf64(DWordAt(d, offset, o)))));
    case _ =>
  }

  lemma FieldsStep(d: seq<byte>, base: nat, cif0: bv32, o: ByteOrder, bit: int)
    requires 15 <= bit <= 30
    ensures var f := FieldsDownTo(d, base, cif0, o, bit + 1);
            FieldsDownTo(d, base, cif0, o, bit) ==
              if Bit(cif0, bit) then WithField(f, bit, d, base + FieldOffset(cif0, bit), o) else f
  {
    hide Bit, FieldOffset, FieldWord, FreqAt, RefLevelFromFixed, GainFromFixed;
  }

  lemma NoFieldsYet(d: seq<byte>, base: nat, cif0: bv32, o: ByteOrder)
    ensures FieldsDownTo(d, base, cif0, o, 31)
         == ContextFields(Bit(cif0, 31), None, None, None, None, None, None, None, None, None, None)
    ensures FieldOffset(cif0, 30) == 0 && FieldOffset(cif0, 14) == AnnouncedBytes(cif0)
  {
  }

  lemma OffsetStep(cif0: bv32, bit: int)
    requires 15 <= bit <= 30
    ensures FieldOffset(cif0, bit - 1) == FieldOffset(cif0, bit)
              + if Bit(cif0, bit) then 4 * Cif0FieldSizeWords(bit) else 0
    ensures FieldOffset(cif0, bit - 1) <= AnnouncedBytes(cif0)
  {
    WordsAboveMonotone(cif0, bit - 1, 14);
  }

  method Decode(d: seq<byte>, o: ByteOrder) returns (r: Option<DecodedContext>)
    ensures r == DecodeContext(d, o)
  {
    hide ParseHeader, FieldsDownTo, WordAt, WithField, Bit, Cif0FieldSizeWords, WordsAbove, FieldOffset, AnnouncedBytes;
    if |d| < 4 { return None; }
    var p := Parse(d, o);
    if p.None? { return None; }
    var header, headerBytes := p.value.header, p.value.bytes;
    if !IsContextPacket(header.packetType) { return None; }
    var packetBytes := header.packetSize * 4;
    var offset := headerBytes;
    if offset + 4 > packetBytes { return None; }
    var cif0 := ToBits(WordAt(d, offset, o));
    offset := offset + 4;
    ghost var base := offset;
    var fields := ContextFields(Bit(cif0, 31), None, None, None, None, None, None, None, None, None, None);
    NoFieldsYet(d, base, cif0, o);
    for bit := 31 downto 15
      invariant fields == FieldsDownTo(d, base, cif0, o, bit)
      invariant offset == base + FieldOffset(cif0, bit - 1) <= packetBytes
    {
      FieldsStep(d, base, cif0, o, bit);
      OffsetStep(cif0, bit);
      if Bit(cif0, bit) {
        var fieldBytes := Cif0FieldSizeWords(bit) * 4;
        if offset + fieldBytes > packetBytes { return None; }
        fields := SetField(fields, bit, d, offset, o);
        offset := offset + fieldBytes;
      }
    }
    return Some(DecodedContext(header, fields, packetBytes));
  }

  lemma FieldLocal(d: seq<byte>, e: seq<byte>, n: nat, pos: nat, o: ByteOrder)
    requires Agree(d, e, n) && pos + 4 <= n
    ensures FieldWord(d, pos, o) == FieldWord(e, pos, o)
    ensures pos + 8 <= n ==> FieldDWord(d, pos, o) == FieldDWord(e, pos, o)
  {
  }

  lemma FieldsLocal(d: seq<byte>, e: seq<byte>, n: nat, base: nat, cif0: bv32, o: ByteOrder)
    requires Agree(d, e, n) && base + AnnouncedBytes(cif0) <= n
    ensures Fields(d, base, cif0, o) == Fields(e, base, cif0, o)
  {
    hide Bit, WordsAbove, FieldWord, FieldDWord, RefLevelFromFixed, GainFromFixed, FreqFromFixed, Agree;
    forall bit | 15 <= bit <= 30 && Bit(cif0, bit)
      ensures FieldWord(d, base + FieldOffset(cif0, bit), o) == FieldWord(e, base + FieldOffset(cif0, bit), o)
      ensures Cif0FieldSizeWords(bit) == 2 ==>
                FieldDWord(d, base + FieldOffset(cif0, bit), o) == FieldDWord(e, base + FieldOffset(cif0, bit), o)
    {
      WordsAboveMonotone(cif0, bit, 14);
      FieldLocal(d, e, n, base + FieldOffset(cif0, bit), o);
    }
  }

  /** Decoding sees only the bytes it reports as consumed. */
  lemma DecodeContextLocal(d: seq<byte>, e: seq<byte>, o: ByteOrder)
    requires DecodeContext(d, o).Some?
    requires Agree(d, e, DecodeContext(d, o).value.bytesConsumed)
    ensures DecodeContext(e, o) == DecodeContext(d, o)
  {
    hide Fields;
    ParseHeaderLocal(d, e, o);
    hide ParseHeader;
    var p, n := ParseHeader(d, o).value, DecodeContext(d, o).value.bytesConsumed;
    WordLocal(d, e, n, p.bytes, o);
    hide WordAt;
    FieldsLocal(d, e, n, p.bytes + 4, ToBits(WordAt(d, p.bytes, o)), o);
  }

  // ---- the bytes of a context packet, in numbers ----

  lemma HighMasks(c: bv32)
    ensures Bit(c, 31) == (c & 0x8000_0000 != 0)
    ensures Bit(c, 30) == (c & 0x4000_0000 != 0)
    ensures Bit(c, 29) == (c & 0x2000_0000 != 0)
    ensures Bit(c, 28) == (c & 0x1000_0000 != 0)
    ensures Bit(c, 27) == (c & 0x0800_0000 != 0)
  {
  }

  lemma MiddleMasks(c: bv32)
    ensures Bit(c, 26) == (c & 0x0400_0000 != 0)
    ensures Bit(c, 25) == (c & 0x0200_0000 != 0)
    ensures Bit(c, 24) == (c & 0x0100_0000 != 0)
    ensures Bit(c, 23) == (c & 0x0080_0000 != 0)
  {
  }

  lemma LowMasks(c: bv32)
    ensures Bit(c, 22) == (c & 0x0040_0000 != 0)
    ensures Bit(c, 21) == (c & 0x0020_0000 != 0)
    ensures Bit(c, 20) == (c & 0x0010_0000 != 0)
    ensures Bit(c, 19) == (c & 0x0008_0000 != 0)
  {
  }

  lemma SkippedMasks(c: bv32)
    ensures Bit(c, 18) == (c & 0x0004_0000 != 0)
    ensures Bit(c, 17) == (c & 0x0002_0000 != 0)
    ensures Bit(c, 16) == (c & 0x0001_0000 != 0)
    ensures Bit(c, 15) == (c & 0x0000_8000 != 0)
  {
  }

  lemma BitMasks(c: bv32)
    ensures Bit(c, 31) == (c & 0x8000_0000 != 0)
    ensures Bit(c, 30) == (c & 0x4000_0000 != 0)
    ensures Bit(c, 29) == (c & 0x2000_0000 != 0)
    ensures Bit(c, 28) == (c & 0x1000_0000 != 0)
    ensures Bit(c, 27) == (c & 0x0800_0000 != 0)
    ensures Bit(c, 26) == (c & 0x0400_0000 != 0)
    ensures Bit(c, 25) == (c & 0x0200_0000 != 0)
    ensures Bit(c, 24) == (c & 0x0100_0000 != 0)
    ensures Bit(c, 23) == (c & 0x0080_0000 != 0)
    ensures Bit(c, 22) == (c & 0x0040_0000 != 0)
    ensures Bit(c, 21) == (c & 0x0020_0000 != 0)
    ensures Bit(c, 20) == (c & 0x0010_0000 != 0)
    ensures Bit(c, 19) == (c & 0x0008_0000 != 0)
    ensures Bit(c, 18) == (c & 0x0004_0000 != 0)
    ensures Bit(c, 17) == (c & 0x0002_0000 != 0)
    ensures Bit(c, 16) == (c & 0x0001_0000 != 0)
    ensures Bit(c, 15) == (c & 0x0000_8000 != 0)
  {
    hide Bit;
    HighMasks(c);
    MiddleMasks(c);
    LowMasks(c);
    SkippedMasks(c);
  }

  lemma NothingAbove30(c: bv32)
    ensures FieldOffset(c, 30) == 0
  {
  }

  /** The data of a CIF0 bit stands behind the data of all higher bits; a set bit takes one or two
      words, the bits 20 to 15 too, whose data is skipped. */
  lemma OffsetTable(c: bv32)
    ensures FieldOffset(c, 30) == 0
    ensures FieldOffset(c, 29) == FieldOffset(c, 30) + if c & 0x4000_0000 != 0 then 4 else 0
    ensures FieldOffset(c, 28) == FieldOffset(c, 29) + if c & 0x2000_0000 != 0 then 8 else 0
    ensures FieldOffset(c, 27) == FieldOffset(c, 28) + if c & 0x1000_0000 != 0 then 8 else 0
    ensures FieldOffset(c, 26) == FieldOffset(c, 27) + if c & 0x0800_0000 != 0 then 8 else 0
    ensures FieldOffset(c, 25) == FieldOffset(c, 26) + if c & 0x0400_0000 != 0 then 8 else 0
    ensures FieldOffset(c, 24) == FieldOffset(c, 25) + if c & 0x0200_0000 != 0 then 8 else 0
    ensures FieldOffset(c, 23) == FieldOffset(c, 24) + if c & 0x0100_0000 != 0 then 4 else 0
    ensures FieldOffset(c, 22) == FieldOffset(c, 23) + if c & 0x0080_0000 != 0 then 4 else 0
    ensures FieldOffset(c, 21) == FieldOffset(c, 22) + if c & 0x0040_0000 != 0 then 4 else 0
    ensures FieldOffset(c, 20) == FieldOffset(c, 21) + if c & 0x0020_0000 != 0 then 8 else 0
    ensures FieldOffset(c, 19) == FieldOffset(c, 20) + if c & 0x0010_0000 != 0 then 8 else 0
    ensures FieldOffset(c, 18) == FieldOffset(c, 19) + if c & 0x0008_0000 != 0 then 4 else 0
    ensures FieldOffset(c, 17) == FieldOffset(c, 18) + if c & 0x0004_0000 != 0 then 4 else 0
    ensures FieldOffset(c, 16) == FieldOffset(c, 17) + if c & 0x0002_0000 != 0 then 8 else 0
    ensures FieldOffset(c, 15) == FieldOffset(c, 16) + if c & 0x0001_0000 != 0 then 4 else 0
    ensures AnnouncedBytes(c) == FieldOffset(c, 15) + if c & 0x0000_8000 != 0 then 8 else 0
  {
    BitMasks(c);
    hide Bit, WordsAbove;
    NothingAbove30(c);
    OffsetStep(c, 30);
    OffsetStep(c, 29);
    OffsetStep(c, 28);
    OffsetStep(c, 27);
    OffsetStep(c, 26);
    OffsetStep(c, 25);
    OffsetStep(c, 24);
    OffsetStep(c, 23);
    OffsetStep(c, 22);
    OffsetStep(c, 21);
    OffsetStep(c, 20);
    OffsetStep(c, 19);
    OffsetStep(c, 18);
    OffsetStep(c, 17);
    OffsetStep(c, 16);
    OffsetStep(c, 15);
  }

  /** A packet that announces just one of the skipped bits 20 to 15 carries that many bytes for it;
      bits 31 and 14 to 0 carry none. */
  lemma SkippedSizes()
    ensures AnnouncedBytes(0x10_0000) == 8 && AnnouncedBytes(0x8_0000) == 4 && AnnouncedBytes(0x4_0000) == 4
    ensures AnnouncedBytes(0x2_0000) == 8 && AnnouncedBytes(0x1_0000) == 4 && AnnouncedBytes(0x8000) == 8
    ensures AnnouncedBytes(0x8000_7FFF) == 0
  {
    hide FieldOffset, AnnouncedBytes;
    OffsetTable(0x10_0000);
    OffsetTable(0x8_0000);
    OffsetTable(0x4_0000);
    OffsetTable(0x2_0000);
    OffsetTable(0x1_0000);
    OffsetTable(0x8000);
    OffsetTable(0x8000_7FFF);
  }

  predicate WordRead(x: Option<u32>, present: bool, d: seq<byte>, pos: nat, o: ByteOrder) {
    if present then pos + 4 <= |d| && x == Some(WordAt(d, pos, o)) else x == None
  }

  /** A signed 64-bit number of 2^-20 Hz steps. */
  predicate FreqRead(x: Option<real>, present: bool, d: seq<byte>, pos: nat, o: ByteOrder) {
    if present then pos + 8 <= |d| && x == Some(ToDouble(SignedOf64(DWordAt(d, pos, o))) as real / 1048576.0)
    else x == None
  }

  /** A signed number of 1/128 dB steps in the upper half word. */
  predicate LevelRead(x: Option<real>, present: bool, d: seq<byte>, pos: nat, o: ByteOrder) {
    if present then pos + 4 <= |d| && x == Some(SignedOf16(WordAt(d, pos, o) / 0x1_0000) as real / 128.0)
    else x == None
  }

  /** The same in the lower half word. */
  predicate GainRead(x: Option<real>, present: bool, d: seq<byte>, pos: nat, o: ByteOrder) {
    if present then pos + 4 <= |d| && x == Some(SignedOf16(WordAt(d, pos, o) % 0x1_0000) as real / 128.0)
    else x == None
  }

  /** The fields by their CIF0 bits: which bit announces a field, and where it stands. */
  predicate ValuesAt(f: ContextFields, d: seq<byte>, base: nat, c: bv32, o: ByteOrder) {
    && f.changeIndicator == (c & 0x8000_0000 != 0)
    && WordRead(f.referencePointId, c & 0x4000_0000 != 0, d, base + FieldOffset(c, 30), o)
    && FreqRead(f.bandwidth, c & 0x2000_0000 != 0, d, base + FieldOffset(c, 29), o)
    && FreqRead(f.ifRefFrequency, c & 0x1000_0000 != 0, d, base + FieldOffset(c, 28), o)
    && FreqRead(f.rfFrequency, c & 0x0800_0000 != 0, d, base + FieldOffset(c, 27), o)
    && FreqRead(f.rfFreqOffset, c & 0x0400_0000 != 0, d, base + FieldOffset(c, 26), o)
    && FreqRead(f.ifBandOffset, c & 0x0200_0000 != 0, d, base + FieldOffset(c, 25), o)
    && LevelRead(f.referenceLevel, c & 0x0100_0000 != 0, d, base + FieldOffset(c, 24), o)
    && GainRead(f.gain, c & 0x0080_0000 != 0, d, base + FieldOffset(c, 23), o)
    && WordRead(f.overRangeCount, c & 0x0040_0000 != 0, d, base + FieldOffset(c, 22), o)
    && FreqRead(f.sampleRate, c & 0x0020_0000 != 0, d, base + FieldOffset(c, 21), o)
  }

  /** A field that the packet holds is read from the bytes at its place. */
  lemma AnnouncedRead(d: seq<byte>, base: nat, c: bv32, bit: int, o: ByteOrder)
    requires 15 <= bit <= 30 && base + AnnouncedBytes(c) <= |d|
    ensures var pos, p := base + FieldOffset(c, bit), Bit(c, bit);
            && (Cif0FieldSizeWords(bit) == 1 ==>
                  && WordRead(Announced(p, FieldWord(d, pos, o)), p, d, pos, o)
                  && LevelRead(Announced(p, RefLevelFromFixed(FieldWord(d, pos, o))), p, d, pos, o)
                  && GainRead(Announced(p, GainFromFixed(FieldWord(d, pos, o))), p, d, pos, o))
            && (Cif0FieldSizeWords(bit) == 2 ==> FreqRead(Announced(p, FreqAt(d, pos, o)), p, d, pos, o))
  {
    hide Bit, WordsAbove, WordAt, DWordAt, SignedOf16, SignedOf64, ToDouble;
    WordsAboveMonotone(c, bit, 14);
  }

  lemma ValuesRead(d: seq<byte>, base: nat, c: bv32, o: ByteOrder)
    requires base + AnnouncedBytes(c) <= |d|
    ensures ValuesAt(Fields(d, base, c, o), d, base, c, o)
  {
    hide Bit, FieldOffset, FieldWord, FreqAt, RefLevelFromFixed, GainFromFixed, Announced, AnnouncedBytes,
         WordRead, FreqRead, LevelRead, GainRead;
    BitMasks(c);
    AnnouncedRead(d, base, c, 30, o);
    AnnouncedRead(d, base, c, 29, o);
    AnnouncedRead(d, base, c, 28, o);
    AnnouncedRead(d, base, c, 27, o);
    AnnouncedRead(d, base, c, 26, o);
    AnnouncedRead(d, base, c, 25, o);
    AnnouncedRead(d, base, c, 24, o);
    AnnouncedRead(d, base, c, 23, o);
    AnnouncedRead(d, base, c, 22, o);
    AnnouncedRead(d, base, c, 21, o);
  }

  /** What an accepted context packet decodes to, field by field: which CIF0 bit announces it,
      where it stands and what its bytes mean. */
  lemma DecodedValues(d: seq<byte>, o: ByteOrder)
    requires DecodeContext(d, o).Some?
    ensures ParseHeader(d, o).Some? && ParseHeader(d, o).value.bytes + 4 <= |d|
    ensures var base := ParseHeader(d, o).value.bytes + 4;
            ValuesAt(DecodeContext(d, o).value.fields, d, base, ToBits(WordAt(d, base - 4, o)), o)
  {
    hide ParseHeader, WordAt, ToBits, AnnouncedBytes, Fields, ValuesAt;
    var start := ParseHeader(d, o).value.bytes;
    ValuesRead(d, start + 4, ToBits(WordAt(d, start, o)), o);
  }

  lemma LevelGainOffsets()
    ensures var c: bv32 := 0x180_0000;
            && c & 0x2000_0000 == 0 && c & 0x100_0000 != 0 && c & 0x80_0000 != 0
            && FieldOffset(c, 24) == 0 && FieldOffset(c, 23) == 4 && AnnouncedBytes(c) == 8
  {
    hide FieldOffset, AnnouncedBytes;
    OffsetTable(0x180_0000);
  }

  lemma LevelGainCif0()
    ensures ToBits(0x180_0000) == 0x180_0000
  {
    BitsBack(0x180_0000);
    assert FromBits(0x180_0000) == 0x180_0000;
  }

  lemma LevelGainDecodes(d: seq<byte>)
    requires |d| == 20 && WordAt(d, 0, BigEndian) == 0x4000_0005 && WordAt(d, 8, BigEndian) == 0x180_0000
    requires WordAt(d, 12, BigEndian) == 0x100_0000 && WordAt(d, 16, BigEndian) == 0xFF80
    ensures var r := DecodeContext(d, BigEndian);
            && r.Some? && r.value.bytesConsumed == 20
            && r.value.fields.referenceLevel == Some(2.0) && r.value.fields.gain == Some(-1.0)
            && r.value.fields.bandwidth == None
  {
    hide ParseHeader, WordAt, DWordAt, ToBits, FieldOffset, AnnouncedBytes, Fields, ToDouble;
    HeaderLayout(d, BigEndian);
    LevelGainOffsets();
    LevelGainCif0();
    DecodedValues(d, BigEndian);
  }

  /** A context packet byte by byte: a reference level of 2 dBm and a gain of -1 dB. */
  lemma LevelGainPacket()
    ensures var d: seq<byte> := [0x40, 0, 0, 5, 0, 0, 0, 7, 0x01, 0x80, 0, 0, 0x01, 0, 0, 0, 0, 0, 0xFF, 0x80];
            var r := DecodeContext(d, BigEndian);
            && r.Some? && r.value.bytesConsumed == 20
            && r.value.fields.referenceLevel == Some(2.0) && r.value.fields.gain == Some(-1.0)
            && r.value.fields.bandwidth == None
  {
    hide DecodeContext;
    LevelGainDecodes([0x40, 0, 0, 5, 0, 0, 0, 7, 0x01, 0x80, 0, 0, 0x01, 0, 0, 0, 0, 0, 0xFF, 0x80]);
  }

  // ---- encoding ----

  /** What a field occupies behind CIF0. */
  datatype RawField = NoData | OneWord(word: u32) | TwoWords(dword: u64)

  function RawBytes(r: RawField, o: ByteOrder): (s: seq<byte>)
    ensures |s| == if r.NoData? then 0 else if r.OneWord? then 4 else 8
  {
    match r
    case NoData => []
    case OneWord(w) => WordBytes(w, o)
    case TwoWords(v) => DWordBytes(v, o)
  }

  /** Every value survives its conversion to fixed point without overflow. */
  predicate InRange(f: ContextFields) {
    && (f.bandwidth.Some? ==> FreqFits(f.bandwidth.value))
    && (f.ifRefFrequency.Some? ==> FreqFits(f.ifRefFrequency.value))
    && (f.rfFrequency.Some? ==> FreqFits(f.rfFrequency.value))
    && (f.rfFreqOffset.Some? ==> FreqFits(f.rfFreqOffset.value))
    && (f.ifBandOffset.Some? ==> FreqFits(f.ifBandOffset.value))
    && (f.referenceLevel.Some? ==> LevelFits(f.referenceLevel.value))
    && (f.gain.Some? ==> LevelFits(f.gain.value))
    && (f.sampleRate.Some? ==> FreqFits(f.sampleRate.value))
  }

  function RawWord(x: Option<u32>): (r: RawField)
    ensures if x.Some? then r.OneWord? else r.NoData?
  {
    if x.Some? then OneWord(x.value) else NoData
  }

  function RawFreq(x: Option<real>): (r: RawField)
    requires x.Some? ==> FreqFits(x.value)
    ensures if x.Some? then r.TwoWords? else r.NoData?
  {
    if x.Some? then TwoWords(UnsignedOf64(FreqToFixed(x.value))) else NoData
  }

  function RawLevel(x: Option<real>): (r: RawField)
    requires x.Some? ==> LevelFits(x.value)
    ensures if x.Some? then r.OneWord? else r.NoData?
  {
    if x.Some? then OneWord(RefLevelToFixed(x.value)) else NoData
  }

  function RawGain(x: Option<real>): (r: RawField)
    requires x.Some? ==> LevelFits(x.value)
    ensures if x.Some? then r.OneWord? else r.NoData?
  {
    if x.Some? then OneWord(GainToFixed(x.value)) else NoData
  }

  function RawOf(f: ContextFields, bit: int): RawField
    requires InRange(f)
  {
    match bit
    case 30 => RawWord(f.referencePointId)
    case 29 => RawFreq(f.bandwidth)
    case 28 => RawFreq(f.ifRefFrequency)
    case 27 => RawFreq(f.rfFrequency)
    case 26 => RawFreq(f.rfFreqOffset)
    case 25 => RawFreq(f.ifBandOffset)
    case 24 => RawLevel(f.referenceLevel)
    case 23 => RawGain(f.gain)
    case 22 => RawWord(f.overRangeCount)
    case 21 => RawFreq(f.sampleRate)
    case _ => NoData
  }

  /** The data of bits 30 down to `lowest`, most significant bit first. */
  function FieldData(f: ContextFields, lowest: int, o: ByteOrder): seq<byte>
    requires InRange(f) && 15 <= lowest <= 31
    decreases 31 - lowest
  {
    if lowest == 31 then [] else FieldData(f, lowest + 1, o) + RawBytes(RawOf(f, lowest), o)
  }

  function Flag(present: bool, mask: bv32): bv32 { if present then mask else 0 }

  function OrFlags(b31: bool, b30: bool, b29: bool, b28: bool, b27: bool, b26: bool, b25: bool, b24: bool,
                   b23: bool, b22: bool, b21: bool): bv32
  {
    Flag(b31, 1 << 31) | Flag(b30, 1 << 30) | Flag(b29, 1 << 29) | Flag(b28, 1 << 28)
    | Flag(b27, 1 << 27) | Flag(b26, 1 << 26) | Flag(b25, 1 << 25) | Flag(b24, 1 << 24)
    | Flag(b23, 1 << 23) | Flag(b22, 1 << 22) | Flag(b21, 1 << 21)
  }

  function Cif0Of(f: ContextFields): bv32 {
    OrFlags(f.changeIndicator, f.referencePointId.Some?, f.bandwidth.Some?, f.ifRefFrequency.Some?,
            f.rfFrequency.Some?, f.rfFreqOffset.Some?, f.ifBandOffset.Some?, f.referenceLevel.Some?,
            f.gain.Some?, f.overRangeCount.Some?, f.sampleRate.Some?)
  }

  lemma HighFlags(b31: bool, b30: bool, b29: bool, b28: bool, b27: bool, b26: bool, b25: bool, b24: bool,
                  b23: bool, b22: bool, b21: bool)
    ensures var w := OrFlags(b31, b30, b29, b28, b27, b26, b25, b24, b23, b22, b21);
            && Bit(w, 31) == b31 && Bit(w, 30) == b30 && Bit(w, 29) == b29 && Bit(w, 28) == b28
            && Bit(w, 27) == b27 && Bit(w, 26) == b26
  {
  }

  lemma MiddleFlags(b31: bool, b30: bool, b29: bool, b28: bool, b27: bool, b26: bool, b25: bool, b24: bool,
                    b23: bool, b22: bool, b21: bool)
    ensures var w := OrFlags(b31, b30, b29, b28, b27, b26, b25, b24, b23, b22, b21);
            && Bit(w, 25) == b25 && Bit(w, 24) == b24 && Bit(w, 23) == b23 && Bit(w, 22) == b22 && Bit(w, 21) == b21
  {
  }

  lemma NoLowFlags(b31: bool, b30: bool, b29: bool, b28: bool, b27: bool, b26: bool, b25: bool, b24: bool,
                   b23: bool, b22: bool, b21: bool)
    ensures var w := OrFlags(b31, b30, b29, b28, b27, b26, b25, b24, b23, b22, b21);
            && !Bit(w, 20) && !Bit(w, 19) && !Bit(w, 18) && !Bit(w, 17) && !Bit(w, 16) && !Bit(w, 15)
  {
  }

  /** Bit k of CIF0 is set exactly when the field that belongs to bit k has a value. */
  lemma Cif0Bits(f: ContextFields)
    ensures Bit(Cif0Of(f), 31) == f.changeIndicator
    ensures Bit(Cif0Of(f), 30) == f.referencePointId.Some? && Bit(Cif0Of(f), 29) == f.bandwidth.Some?
    ensures Bit(Cif0Of(f), 28) == f.ifRefFrequency.Some? && Bit(Cif0Of(f), 27) == f.rfFrequency.Some?
    ensures Bit(Cif0Of(f), 26) == f.rfFreqOffset.Some? && Bit(Cif0Of(f), 25) == f.ifBandOffset.Some?
    ensures Bit(Cif0Of(f), 24) == f.referenceLevel.Some? && Bit(Cif0Of(f), 23) == f.gain.Some?
    ensures Bit(Cif0Of(f), 22) == f.overRangeCount.Some? && Bit(Cif0Of(f), 21) == f.sampleRate.Some?
    ensures !Bit(Cif0Of(f), 20) && !Bit(Cif0Of(f), 19) && !Bit(Cif0Of(f), 18)
    ensures !Bit(Cif0Of(f), 17) && !Bit(Cif0Of(f), 16) && !Bit(Cif0Of(f), 15)
  {
    hide OrFlags, Bit;
    var b31, b30, b29, b28 := f.changeIndicator, f.referencePointId.Some?, f.bandwidth.Some?, f.ifRefFrequency.Some?;
    var b27, b26, b25 := f.rfFrequency.Some?, f.rfFreqOffset.Some?, f.ifBandOffset.Some?;
    var b24, b23, b22, b21 := f.referenceLevel.Some?, f.gain.Some?, f.overRangeCount.Some?, f.sampleRate.Some?;
    HighFlags(b31, b30, b29, b28, b27, b26, b25, b24, b23, b22, b21);
    MiddleFlags(b31, b30, b29, b28, b27, b26, b25, b24, b23, b22, b21);
    NoLowFlags(b31, b30, b29, b28, b27, b26, b25, b24, b23, b22, b21);
  }

  lemma ChangeBit(f: ContextFields)
    ensures Bit(Cif0Of(f), 31) == f.changeIndicator
  {
  }

  lemma BitPresent(f: ContextFields, bit: int)
    requires InRange(f) && 15 <= bit <= 30
    ensures Bit(Cif0Of(f), bit) == !RawOf(f, bit).NoData?
  {
    Cif0Bits(f);
    hide Cif0Of, Bit, RawFreq, RawWord, RawLevel, RawGain, InRange;
  }

  lemma RawSize(f: ContextFields, bit: int, o: ByteOrder)
    requires InRange(f) && 15 <= bit <= 30
    ensures |RawBytes(RawOf(f, bit), o)| == if Bit(Cif0Of(f), bit) then 4 * Cif0FieldSizeWords(bit) else 0
  {
    BitPresent(f, bit);
    hide Cif0Of, Bit, RawFreq, RawWord, RawLevel, RawGain, InRange, RawBytes;
  }

  function ContextHeader(a: Prologue, size: u16): PacketHeader {
    PacketHeader(
      IF_CONTEXT, false, false, a.tsiType, a.tsfType, a.packetCount % 16, size,
      Some(a.streamId), None, None, None,
      if a.tsiType != TSI_NONE then Some(a.intTimestamp) else None,
      if a.tsfType != TSF_NONE then Some(a.fracTimestamp) else None)
  }

  function ContextWords(a: Prologue, f: ContextFields, o: ByteOrder): (n: nat)
    requires InRange(f)
  {
    SizeInWords(ContextHeader(a, 0)) + 1 + |FieldData(f, 15, o)| / 4
  }

  function EncodeContext(a: Prologue, f: ContextFields, o: ByteOrder): seq<byte>
    requires InRange(f)
  {
    var total := ContextWords(a, f, o);
    if total > MAX_PACKET_SIZE_WORDS then []
    else HeaderBytes(ContextHeader(a, total), o) + WordBytes(FromBits(Cif0Of(f)), o) + FieldData(f, 15, o)
  }

  // ---- the encoder's layout meets the decoder's offsets ----

  /** The data above a bit is as long as the decoder's offset of that bit. */
  lemma {:induction false} FieldDataLength(f: ContextFields, bit: int, o: ByteOrder)
    requires InRange(f) && 14 <= bit <= 30
    ensures |FieldData(f, bit + 1, o)| == FieldOffset(Cif0Of(f), bit)
    decreases 30 - bit
  {
    hide Bit, Cif0Of, InRange, RawOf, RawBytes, Cif0FieldSizeWords;
    if bit == 30 {
    } else {
      FieldDataLength(f, bit + 1, o);
      RawSize(f, bit + 1, o);
    }
  }

  lemma {:induction false} FieldDataSplit(f: ContextFields, bit: int, lowest: int, o: ByteOrder)
      returns (below: seq<byte>)
    requires InRange(f) && 15 <= lowest <= bit <= 30
    ensures FieldData(f, lowest, o) == FieldData(f, bit + 1, o) + RawBytes(RawOf(f, bit), o) + below
    decreases bit - lowest
  {
    hide RawOf, RawBytes, InRange;
    if lowest == bit {
      below := [];
    } else {
      var b := FieldDataSplit(f, bit, lowest + 1, o);
      below := b + RawBytes(RawOf(f, lowest), o);
    }
  }

  /** f's data stands at d[base..]. */
  ghost predicate DataAt(d: seq<byte>, base: nat, f: ContextFields, o: ByteOrder)
    requires InRange(f)
  {
    base + |FieldData(f, 15, o)| <= |d| && d[base..base + |FieldData(f, 15, o)|] == FieldData(f, 15, o)
  }

  lemma DataBehind(hb: seq<byte>, cb: seq<byte>, fd: seq<byte>, rest: seq<byte>)
    ensures var d, base := hb + cb + fd + rest, |hb| + |cb|;
            base + |fd| <= |d| && d[base..base + |fd|] == fd
  {
  }

  lemma RawReadBack(raw: RawField, pre: seq<byte>, above: seq<byte>, below: seq<byte>, rest: seq<byte>, o: ByteOrder)
    ensures var d, pos := pre + (above + RawBytes(raw, o) + below) + rest, |pre| + |above|;
            && (raw.OneWord? ==> FieldWord(d, pos, o) == raw.word)
            && (raw.TwoWords? ==> FieldDWord(d, pos, o) == raw.dword)
  {
    hide WordAt, DWordAt, WordBytes, DWordBytes;
    var d := pre + (above + RawBytes(raw, o) + below) + rest;
    assert d == (pre + above) + RawBytes(raw, o) + (below + rest);
    match raw
    case NoData =>
    case OneWord(w) => WordReadBack(pre + above, w, below + rest, o);
    case TwoWords(v) => DWordReadBack(pre + above, v, below + rest, o);
  }

  /** Each field's raw value is where the decoder looks for it. */
  lemma FieldReadBack(f: ContextFields, bit: int, d: seq<byte>, base: nat, o: ByteOrder)
    requires InRange(f) && 15 <= bit <= 30 && DataAt(d, base, f, o)
    ensures var pos, raw := base + FieldOffset(Cif0Of(f), bit), RawOf(f, bit);
            && (raw.OneWord? ==> FieldWord(d, pos, o) == raw.word)
            && (raw.TwoWords? ==> FieldDWord(d, pos, o) == raw.dword)
  {
    hide RawOf, Cif0Of, InRange, FieldData, WordsAbove, FieldWord, FieldDWord;
    var below := FieldDataSplit(f, bit, 15, o);
    FieldDataLength(f, bit, o);
    var end := base + |FieldData(f, 15, o)|;
    assert d == d[..base] + d[base..end] + d[end..];
    RawReadBack(RawOf(f, bit), d[..base], FieldData(f, bit + 1, o), below, d[end..], o);
  }

  function MapFreq(x: Option<real>): Option<real>
    requires x.Some? ==> FreqFits(x.value)
  {
    if x.Some? then Some(RoundedFreq(x.value)) else None
  }

  function MapLevel(x: Option<real>): Option<real>
    requires x.Some? ==> LevelFits(x.value)
  {
    if x.Some? then Some(RoundedLevel(x.value)) else None
  }

  /** The fields after a trip through fixed point: presence, ids, counts and the change
      indicator are untouched, every real is the nearest representable one (FreqError,
      LevelError). */
  function RoundedFields(f: ContextFields): ContextFields
    requires InRange(f)
  {
    ContextFields(f.changeIndicator, f.referencePointId, MapFreq(f.bandwidth), MapFreq(f.ifRefFrequency),
                  MapFreq(f.rfFrequency), MapFreq(f.rfFreqOffset), MapFreq(f.ifBandOffset),
                  MapLevel(f.referenceLevel), MapLevel(f.gain), f.overRangeCount, MapFreq(f.sampleRate))
  }

  lemma LevelConversions(dB: real)
    requires LevelFits(dB)
    ensures RefLevelFromFixed(RefLevelToFixed(dB)) == RoundedLevel(dB)
    ensures GainFromFixed(GainToFixed(dB)) == RoundedLevel(dB)
  {
  }

  lemma FreqReadBack(f: ContextFields, x: Option<real>, bit: int, d: seq<byte>, base: nat, o: ByteOrder)
    requires InRange(f) && 15 <= bit <= 30 && DataAt(d, base, f, o)
    requires x.Some? ==> FreqFits(x.value)
    requires RawOf(f, bit) == RawFreq(x)
    ensures Announced(Bit(Cif0Of(f), bit), FreqAt(d, base + FieldOffset(Cif0Of(f), bit), o)) == MapFreq(x)
  {
    hide Bit, FieldOffset, FieldDWord, FieldWord, DataAt, Cif0Of, FreqFits, SignedOf64, UnsignedOf64, FreqToFixed,
         FreqFromFixed, RawOf, InRange;
    BitPresent(f, bit);
    FieldReadBack(f, bit, d, base, o);
  }

  lemma WordFieldReadBack(f: ContextFields, x: Option<u32>, bit: int, d: seq<byte>, base: nat, o: ByteOrder)
    requires InRange(f) && 15 <= bit <= 30 && DataAt(d, base, f, o)
    requires RawOf(f, bit) == RawWord(x)
    ensures Announced(Bit(Cif0Of(f), bit), FieldWord(d, base + FieldOffset(Cif0Of(f), bit), o)) == x
  {
    hide Bit, FieldOffset, FieldWord, FieldDWord, DataAt, Cif0Of, RawOf, InRange;
    BitPresent(f, bit);
    FieldReadBack(f, bit, d, base, o);
  }

  lemma LevelsReadBack(f: ContextFields, d: seq<byte>, base: nat, o: ByteOrder)
    requires InRange(f) && DataAt(d, base, f, o)
    ensures var cif0 := Cif0Of(f);
            && Announced(Bit(cif0, 24), RefLevelFromFixed(FieldWord(d, base + FieldOffset(cif0, 24), o)))
                 == MapLevel(f.referenceLevel)
            && Announced(Bit(cif0, 23), GainFromFixed(FieldWord(d, base + FieldOffset(cif0, 23), o)))
                 == MapLevel(f.gain)
  {
    hide Bit, FieldOffset, FieldWord, FieldDWord, DataAt, Cif0Of, RefLevelFromFixed, RefLevelToFixed, GainFromFixed,
         GainToFixed, RoundedLevel, LevelFits, FreqFits, RawFreq;
    BitPresent(f, 24);
    FieldReadBack(f, 24, d, base, o);
    if f.referenceLevel.Some? { LevelConversions(f.referenceLevel.value); }
    BitPresent(f, 23);
    FieldReadBack(f, 23, d, base, o);
    if f.gain.Some? { LevelConversions(f.gain.value); }
  }

  lemma HighFieldsReadBack(f: ContextFields, d: seq<byte>, base: nat, o: ByteOrder)
    requires InRange(f) && DataAt(d, base, f, o)
    ensures var r := Fields(d, base, Cif0Of(f), o);
            && r.changeIndicator == f.changeIndicator && r.referencePointId == f.referencePointId
            && r.bandwidth == MapFreq(f.bandwidth) && r.ifRefFrequency == MapFreq(f.ifRefFrequency)
            && r.rfFrequency == MapFreq(f.rfFrequency)
  {
    hide Bit, FieldOffset, FieldWord, FreqAt, DataAt, Cif0Of, RefLevelFromFixed, GainFromFixed, Announced,
         FreqFits, LevelFits, MapFreq, MapLevel, RawFreq, RawLevel, RawGain, RawWord;
    ChangeBit(f);
    WordFieldReadBack(f, f.referencePointId, 30, d, base, o);
    FreqReadBack(f, f.bandwidth, 29, d, base, o);
    FreqReadBack(f, f.ifRefFrequency, 28, d, base, o);
    FreqReadBack(f, f.rfFrequency, 27, d, base, o);
  }

  lemma LowFieldsReadBack(f: ContextFields, d: seq<byte>, base: nat, o: ByteOrder)
    requires InRange(f) && DataAt(d, base, f, o)
    ensures var r := Fields(d, base, Cif0Of(f), o);
            && r.rfFreqOffset == MapFreq(f.rfFreqOffset) && r.ifBandOffset == MapFreq(f.ifBandOffset)
            && r.referenceLevel == MapLevel(f.referenceLevel) && r.gain == MapLevel(f.gain)
            && r.overRangeCount == f.overRangeCount && r.sampleRate == MapFreq(f.sampleRate)
  {
    hide Bit, FieldOffset, FieldWord, FreqAt, DataAt, Cif0Of, RefLevelFromFixed, GainFromFixed, Announced,
         FreqFits, LevelFits, MapFreq, MapLevel, RawFreq, RawLevel, RawGain, RawWord;
    FreqReadBack(f, f.rfFreqOffset, 26, d, base, o);
    FreqReadBack(f, f.ifBandOffset, 25, d, base, o);
    LevelsReadBack(f, d, base, o);
    WordFieldReadBack(f, f.overRangeCount, 22, d, base, o);
    FreqReadBack(f, f.sampleRate, 21, d, base, o);
  }

  lemma FieldsRoundTrip(f: ContextFields, d: seq<byte>, base: nat, o: ByteOrder)
    requires InRange(f) && DataAt(d, base, f, o)
    ensures Fields(d, base, Cif0Of(f), o) == RoundedFields(f)
  {
    hide Fields, DataAt, Cif0Of, MapFreq, MapLevel, FreqFits, LevelFits;
    HighFieldsReadBack(f, d, base, o);
    LowFieldsReadBack(f, d, base, o);
  }

  lemma WordsAboveBound(cif0: bv32, bit: int)
    requires 14 <= bit <= 30
    ensures WordsAbove(cif0, bit) <= 2 * (30 - bit)
    decreases 30 - bit
  {
    hide Cif0FieldSizeWords, Bit;
    if bit == 30 {
    } else {
      WordsAboveBound(cif0, bit + 1);
    }
  }

  lemma ContextSize(a: Prologue, f: ContextFields, o: ByteOrder)
    requires InRange(f)
    ensures |FieldData(f, 15, o)| == AnnouncedBytes(Cif0Of(f)) == 4 * (|FieldData(f, 15, o)| / 4)
    ensures 3 <= ContextWords(a, f, o) <= 38
  {
    hide FieldData, Cif0Of, InRange, WordsAbove;
    FieldDataLength(f, 14, o);
    WordsAboveBound(Cif0Of(f), 14);
  }

  lemma ContextCif0(hb: seq<byte>, cif0: bv32, fd: seq<byte>, rest: seq<byte>, o: ByteOrder)
    ensures var cb := WordBytes(FromBits(cif0), o);
            var d := hb + cb + fd + rest;
            && d == hb + (cb + fd + rest) == (hb + cb) + fd + rest
            && ToBits(WordAt(d, |hb|, o)) == cif0
  {
    hide WordAt, WordBytes;
    var cb := WordBytes(FromBits(cif0), o);
    assert hb + cb + fd + rest == hb + cb + (fd + rest);
    WordReadBack(hb, FromBits(cif0), fd + rest, o);
    BitsBack(cif0);
  }

  lemma ContextDecodesAs(d: seq<byte>, h: PacketHeader, start: nat, cif0: bv32, o: ByteOrder)
    requires ParseHeader(d, o) == Some(ParsedHeader(h, start)) && IsContextPacket(h.packetType)
    requires start + 4 + AnnouncedBytes(cif0) <= h.packetSize * 4 <= |d| && ToBits(WordAt(d, start, o)) == cif0
    ensures DecodeContext(d, o) == Some(DecodedContext(h, Fields(d, start + 4, cif0, o), h.packetSize * 4))
  {
  }

  /** Encode, then decode, whatever follows: the whole packet is consumed and the fields come
      back rounded to fixed point. */
  lemma ContextRoundTrip(a: Prologue, f: ContextFields, o: ByteOrder, rest: seq<byte>)
    requires InRange(f)
    ensures |EncodeContext(a, f, o)| == 4 * ContextWords(a, f, o)
    ensures DecodeContext(EncodeContext(a, f, o) + rest, o)
         == Some(DecodedContext(ContextHeader(a, ContextWords(a, f, o)), RoundedFields(f), 4 * ContextWords(a, f, o)))
  {
    hide Fields, RoundedFields, FieldData, Cif0Of, InRange, FieldOffset, DecodeContext, HeaderBytes, ParseHeader;
    var fd, cif0 := FieldData(f, 15, o), Cif0Of(f);
    ContextSize(a, f, o);
    var h := ContextHeader(a, ContextWords(a, f, o));
    var hb, cb := HeaderBytes(h, o), WordBytes(FromBits(cif0), o);
    SerializedSize(h, o);
    var d := EncodeContext(a, f, o) + rest;
    ContextCif0(hb, cif0, fd, rest, o);
    HeaderRoundTrip(h, cb + fd + rest, o);
    DataBehind(hb, cb, fd, rest);
    assert DataAt(d, |hb| + 4, f, o);
    FieldsRoundTrip(f, d, |hb| + 4, o);
    ContextDecodesAs(d, h, |hb|, cif0, o);
  }

  // ---- the bytes that the encoder writes, in numbers ----

  predicate WordWritten(x: Option<u32>, e: seq<byte>, pos: nat, o: ByteOrder) {
    x.Some? ==> pos + 4 <= |e| && WordAt(e, pos, o) == x.value
  }

  predicate FreqWritten(x: Option<real>, e: seq<byte>, pos: nat, o: ByteOrder) {
    x.Some? ==> pos + 8 <= |e| && SignedOf64(DWordAt(e, pos, o)) == Round(x.value * 1048576.0)
  }

  predicate LevelWritten(x: Option<real>, e: seq<byte>, pos: nat, o: ByteOrder) {
    x.Some? ==>
      && pos + 4 <= |e| && WordAt(e, pos, o) % 0x1_0000 == 0
      && SignedOf16(WordAt(e, pos, o) / 0x1_0000) == Round(x.value * 128.0)
  }

  predicate GainWritten(x: Option<real>, e: seq<byte>, pos: nat, o: ByteOrder) {
    x.Some? ==>
      && pos + 4 <= |e| && WordAt(e, pos, o) / 0x1_0000 == 0
      && SignedOf16(WordAt(e, pos, o) % 0x1_0000) == Round(x.value * 128.0)
  }

  /** The fields by their CIF0 bits, as the encoder writes them. */
  predicate ValuesWritten(f: ContextFields, e: seq<byte>, base: nat, c: bv32, o: ByteOrder) {
    && WordWritten(f.referencePointId, e, base + FieldOffset(c, 30), o)
    && FreqWritten(f.bandwidth, e, base + FieldOffset(c, 29), o)
    && FreqWritten(f.ifRefFrequency, e, base + FieldOffset(c, 28), o)
    && FreqWritten(f.rfFrequency, e, base + FieldOffset(c, 27), o)
    && FreqWritten(f.rfFreqOffset, e, base + FieldOffset(c, 26), o)
    && FreqWritten(f.ifBandOffset, e, base + FieldOffset(c, 25), o)
    && LevelWritten(f.referenceLevel, e, base + FieldOffset(c, 24), o)
    && GainWritten(f.gain, e, base + FieldOffset(c, 23), o)
    && WordWritten(f.overRangeCount, e, base + FieldOffset(c, 22), o)
    && FreqWritten(f.sampleRate, e, base + FieldOffset(c, 21), o)
  }

  lemma RawFreqWritten(x: Option<real>, raw: RawField, e: seq<byte>, pos: nat, o: ByteOrder)
    requires (x.Some? ==> FreqFits(x.value)) && raw == RawFreq(x)
    requires raw.TwoWords? ==> pos + 8 <= |e| && DWordAt(e, pos, o) == raw.dword
    ensures FreqWritten(x, e, pos, o)
  {
    hide DWordAt, Exact;
  }

  lemma RawLevelWritten(x: Option<real>, raw: RawField, e: seq<byte>, pos: nat, o: ByteOrder)
    requires x.Some? ==> LevelFits(x.value)
    requires raw.OneWord? ==> pos + 4 <= |e| && WordAt(e, pos, o) == raw.word
    ensures raw == RawLevel(x) ==> LevelWritten(x, e, pos, o)
    ensures raw == RawGain(x) ==> GainWritten(x, e, pos, o)
  {
    hide WordAt;
  }

  lemma FieldWritten(f: ContextFields, bit: int, e: seq<byte>, base: nat, o: ByteOrder)
    requires InRange(f) && 15 <= bit <= 30 && DataAt(e, base, f, o) && base + AnnouncedBytes(Cif0Of(f)) <= |e|
    ensures var pos, raw := base + FieldOffset(Cif0Of(f), bit), RawOf(f, bit);
            && (raw.OneWord? ==> pos + 4 <= |e| && WordAt(e, pos, o) == raw.word)
            && (raw.TwoWords? ==> pos + 8 <= |e| && DWordAt(e, pos, o) == raw.dword)
  {
    hide Cif0Of, InRange, DataAt, Bit, WordsAbove, RawOf, WordAt, DWordAt;
    FieldReadBack(f, bit, e, base, o);
    BitPresent(f, bit);
    RawSize(f, bit, o);
    WordsAboveMonotone(Cif0Of(f), bit, 14);
  }

  lemma FieldsWritten(f: ContextFields, e: seq<byte>, base: nat, o: ByteOrder)
    requires InRange(f) && DataAt(e, base, f, o) && base + AnnouncedBytes(Cif0Of(f)) <= |e|
    ensures ValuesWritten(f, e, base, Cif0Of(f), o)
  {
    hide Cif0Of, DataAt, FieldOffset, RawFreq, RawLevel, RawGain, FreqWritten, LevelWritten, GainWritten, FreqFits,
         LevelFits, WordAt, DWordAt, AnnouncedBytes;
    var c := Cif0Of(f);
    FieldWritten(f, 30, e, base, o);
    FieldWritten(f, 29, e, base, o);
    RawFreqWritten(f.bandwidth, RawOf(f, 29), e, base + FieldOffset(c, 29), o);
    FieldWritten(f, 28, e, base, o);
    RawFreqWritten(f.ifRefFrequency, RawOf(f, 28), e, base + FieldOffset(c, 28), o);
    FieldWritten(f, 27, e, base, o);
    RawFreqWritten(f.rfFrequency, RawOf(f, 27), e, base + FieldOffset(c, 27), o);
    FieldWritten(f, 26, e, base, o);
    RawFreqWritten(f.rfFreqOffset, RawOf(f, 26), e, base + FieldOffset(c, 26), o);
    FieldWritten(f, 25, e, base, o);
    RawFreqWritten(f.ifBandOffset, RawOf(f, 25), e, base + FieldOffset(c, 25), o);
    FieldWritten(f, 24, e, base, o);
    RawLevelWritten(f.referenceLevel, RawOf(f, 24), e, base + FieldOffset(c, 24), o);
    FieldWritten(f, 23, e, base, o);
    RawLevelWritten(f.gain, RawOf(f, 23), e, base + FieldOffset(c, 23), o);
    FieldWritten(f, 22, e, base, o);
    FieldWritten(f, 21, e, base, o);
    RawFreqWritten(f.sampleRate, RawOf(f, 21), e, base + FieldOffset(c, 21), o);
  }

  /** Word 0 of a context header. */
  lemma ContextWord0(a: Prologue, n: u16)
    ensures Word0(ContextHeader(a, n))
         == 0x4000_0000 + a.tsiType * 0x40_0000 + a.tsfType * 0x10_0000 + a.packetCount % 16 * 0x1_0000 + n
  {
  }

  /** The bytes of an encoded context packet: type 4, timestamp types, count and size in word 0,
      then the stream id, the timestamps, CIF0, and every field at its place. */
  lemma EncodedContextLayout(a: Prologue, f: ContextFields, o: ByteOrder)
    requires InRange(f)
    ensures var e, c := EncodeContext(a, f, o), Cif0Of(f);
            var base := 12 + (if a.tsiType != 0 then 4 else 0) + (if a.tsfType != 0 then 8 else 0);
            && |e| == base + AnnouncedBytes(c)
            && WordAt(e, 0, o)
                 == 0x4000_0000 + a.tsiType * 0x40_0000 + a.tsfType * 0x10_0000 + a.packetCount % 16 * 0x1_0000
                    + |e| / 4
            && WordAt(e, 4, o) == a.streamId
            && (a.tsiType != 0 ==> WordAt(e, 8, o) == a.intTimestamp)
            && (a.tsfType != 0 ==> DWordAt(e, base - 12, o) == a.fracTimestamp)
            && WordAt(e, base - 4, o) == FromBits(c)
            && ValuesWritten(f, e, base, c, o)
  {
    hide FieldData, HeaderBytes, Word0, WordAt, DWordAt, InRange, Cif0Of, WordBytes, FromBits, ValuesWritten,
         AnnouncedBytes;
    ContextSize(a, f, o);
    var n := ContextWords(a, f, o);
    var h := ContextHeader(a, n);
    var hb, cb, fd := HeaderBytes(h, o), WordBytes(FromBits(Cif0Of(f)), o), FieldData(f, 15, o);
    var e := EncodeContext(a, f, o);
    assert e == hb + (cb + fd);
    SectionsReadBack(h, cb + fd, o);
    ContextWord0(a, n);
    WordReadBack(hb, FromBits(Cif0Of(f)), fd, o);
    DataBehind(hb, cb, fd, []);
    assert e == hb + cb + fd + [];
    assert DataAt(e, |hb| + 4, f, o);
    FieldsWritten(f, e, |hb| + 4, o);
  }

  // ---- re-encoding what was decoded ----

  lemma MapFreqStable(x: Option<real>)
    requires x.Some? ==> FreqFits(x.value)
    ensures var y := MapFreq(x); (y.Some? ==> FreqFits(y.value)) && RawFreq(y) == RawFreq(x)
  {
    hide FreqFits, FreqToFixed, RoundedFreq;
    if x.Some? { FreqError(x.value); }
  }

  lemma MapLevelStable(x: Option<real>)
    requires x.Some? ==> LevelFits(x.value)
    ensures var y := MapLevel(x);
            (y.Some? ==> LevelFits(y.value)) && RawLevel(y) == RawLevel(x) && RawGain(y) == RawGain(x)
  {
  }

  lemma FreqMapped(x: Option<real>)
    requires x.Some? ==> FreqFits(x.value)
    ensures var y := MapFreq(x);
            (y.Some? <==> x.Some?) && (y.Some? ==> FreqFits(y.value)) && RawFreq(y) == RawFreq(x)
  {
    hide FreqFits, RawFreq, RoundedFreq;
    MapFreqStable(x);
  }

  lemma LevelMapped(x: Option<real>)
    requires x.Some? ==> LevelFits(x.value)
    ensures var y := MapLevel(x);
            && (y.Some? <==> x.Some?) && (y.Some? ==> LevelFits(y.value))
            && RawLevel(y) == RawLevel(x) && RawGain(y) == RawGain(x)
  {
    hide LevelFits, RawLevel, RawGain, RoundedLevel;
    MapLevelStable(x);
  }

  lemma RoundedFits(f: ContextFields)
    requires InRange(f)
    ensures InRange(RoundedFields(f)) && Cif0Of(RoundedFields(f)) == Cif0Of(f)
  {
    hide FreqFits, LevelFits, MapFreq, MapLevel, RawFreq, RawLevel, RawGain, OrFlags;
    FreqMapped(f.bandwidth);
    FreqMapped(f.ifRefFrequency);
    FreqMapped(f.rfFrequency);
    FreqMapped(f.rfFreqOffset);
    FreqMapped(f.ifBandOffset);
    FreqMapped(f.sampleRate);
    LevelMapped(f.referenceLevel);
    LevelMapped(f.gain);
  }

  lemma RoundedInRange(f: ContextFields)
    requires InRange(f)
    ensures InRange(RoundedFields(f)) && Cif0Of(RoundedFields(f)) == Cif0Of(f)
    ensures forall bit :: RawOf(RoundedFields(f), bit) == RawOf(f, bit)
  {
    hide FreqFits, LevelFits, MapFreq, MapLevel, RawFreq, RawLevel, RawGain, Cif0Of;
    RoundedFits(f);
    FreqMapped(f.bandwidth);
    FreqMapped(f.ifRefFrequency);
    FreqMapped(f.rfFrequency);
    FreqMapped(f.rfFreqOffset);
    FreqMapped(f.ifBandOffset);
    FreqMapped(f.sampleRate);
    LevelMapped(f.referenceLevel);
    LevelMapped(f.gain);
  }

  lemma {:induction false} SameFieldData(f: ContextFields, g: ContextFields, lowest: int, o: ByteOrder)
    requires InRange(f) && InRange(g) && 15 <= lowest <= 31
    requires forall bit :: RawOf(g, bit) == RawOf(f, bit)
    ensures FieldData(g, lowest, o) == FieldData(f, lowest, o)
    decreases 31 - lowest
  {
    hide InRange, RawOf, RawBytes;
    if lowest == 31 {
    } else {
      SameFieldData(f, g, lowest + 1, o);
    }
  }

  /** Decoded fields re-encode to the bytes they came from. */
  lemma ContextStable(a: Prologue, f: ContextFields, o: ByteOrder)
    requires InRange(f)
    ensures InRange(RoundedFields(f)) && EncodeContext(a, RoundedFields(f), o) == EncodeContext(a, f, o)
  {
    RoundedInRange(f);
    SameFieldData(f, RoundedFields(f), 15, o);
  }

  /** Beyond this the cast of the rounded value back to int64 overflows. */
  const MAX_CAST_BACK: int := 0x7FFF_FFFF_FFFF_FE00

  lemma FixedFreqInRange(raw: i64)
    ensures FreqFits(FreqFromFixed(raw)) <==> raw < MAX_CAST_BACK
  {
    hide Exact, ToDouble;
    ToDoubleExact(raw);
    CastBackIff(raw);
    RoundExact(ToDouble(raw), FreqFromFixed(raw), FREQ_RADIX);
  }

  /** A decoded frequency is a double nearest to the field's value, and is that value exactly if it
      is a double. */
  lemma FreqDecodedNearest(raw: i64, other: int)
    requires Exact(other)
    ensures var hz, exact := FreqFromFixed(raw), raw as real / FREQ_RADIX;
            && Distance(hz, exact) <= Distance(other as real / FREQ_RADIX, exact)
            && (hz == exact <==> Exact(raw))
  {
    hide Exact, ToDouble;
    ToDoubleExact(raw);
    ToDoubleIsNearest(raw, other);
  }

  lemma FixedLevelInRange(raw: u32)
    ensures LevelFits(RefLevelFromFixed(raw)) && LevelFits(GainFromFixed(raw))
  {
  }

  /** The bits whose field is a 64-bit frequency or rate. */
  predicate HoldsFreq(bit: int) { 25 <= bit <= 29 || bit == 21 }

  /** No announced frequency is so large that it cannot be encoded again. */
  predicate CastsBack(d: seq<byte>, base: nat, cif0: bv32, o: ByteOrder) {
    forall bit :: 15 <= bit <= 30 && HoldsFreq(bit) && Bit(cif0, bit) ==>
      SignedOf64(FieldDWord(d, base + FieldOffset(cif0, bit), o)) < MAX_CAST_BACK
  }

  /** The decoded values of a context packet can be encoded again exactly when its frequencies
      cast back. */
  lemma DecodedInRange(d: seq<byte>, base: nat, cif0: bv32, o: ByteOrder)
    ensures InRange(Fields(d, base, cif0, o)) <==> CastsBack(d, base, cif0, o)
  {
    hide Bit, FieldOffset, FieldWord, FieldDWord, FreqFits, LevelFits, FreqFromFixed, RefLevelFromFixed, GainFromFixed,
         SignedOf64;
    forall bit | 15 <= bit <= 30
      ensures FreqFits(FreqAt(d, base + FieldOffset(cif0, bit), o)) <==>
                SignedOf64(FieldDWord(d, base + FieldOffset(cif0, bit), o)) < MAX_CAST_BACK
      ensures LevelFits(RefLevelFromFixed(FieldWord(d, base + FieldOffset(cif0, bit), o)))
      ensures LevelFits(GainFromFixed(FieldWord(d, base + FieldOffset(cif0, bit), o)))
    {
      FixedFreqInRange(SignedOf64(FieldDWord(d, base + FieldOffset(cif0, bit), o)));
      FixedLevelInRange(FieldWord(d, base + FieldOffset(cif0, bit), o));
    }
  }

  // ---- indicator bits that carry nothing for the caller ----

  lemma {:induction false} SameWordsAbove(c: bv32, c': bv32, bit: int)
    requires 14 <= bit <= 30
    requires forall k :: bit < k <= 30 ==> Bit(c, k) == Bit(c', k)
    ensures WordsAbove(c, bit) == WordsAbove(c', bit)
    decreases 30 - bit
  {
    hide Bit, Cif0FieldSizeWords;
    if bit == 30 {
    } else {
      SameWordsAbove(c, c', bit + 1);
    }
  }

  lemma LowBitsSameFields(d: seq<byte>, base: nat, c: bv32, c': bv32, o: ByteOrder)
    requires forall bit :: 21 <= bit <= 31 ==> Bit(c, bit) == Bit(c', bit)
    ensures Fields(d, base, c, o) == Fields(d, base, c', o)
  {
    hide Bit, FieldWord, FreqAt, RefLevelFromFixed, GainFromFixed, WordsAbove;
    forall bit | 20 <= bit <= 30
      ensures WordsAbove(c, bit) == WordsAbove(c', bit)
    {
      SameWordsAbove(c, c', bit);
    }
  }

  lemma FieldShift(d: seq<byte>, base: nat, pos: nat, o: ByteOrder)
    requires base <= |d|
    ensures FieldWord(d, base + pos, o) == FieldWord(d[base..], pos, o)
    ensures FieldDWord(d, base + pos, o) == FieldDWord(d[base..], pos, o)
  {
  }

  /** The fields are a function of what stands behind CIF0. */
  lemma FieldsShift(d: seq<byte>, base: nat, cif0: bv32, o: ByteOrder)
    requires base <= |d|
    ensures Fields(d, base, cif0, o) == Fields(d[base..], 0, cif0, o)
  {
    hide Bit, WordsAbove, FieldWord, FieldDWord, RefLevelFromFixed, GainFromFixed, FreqFromFixed;
    forall bit | 15 <= bit <= 30
      ensures FieldWord(d, base + FieldOffset(cif0, bit), o) == FieldWord(d[base..], 0 + FieldOffset(cif0, bit), o)
      ensures FieldDWord(d, base + FieldOffset(cif0, bit), o) == FieldDWord(d[base..], 0 + FieldOffset(cif0, bit), o)
    {
      FieldShift(d, base, FieldOffset(cif0, bit), o);
    }
  }

  lemma SameHeaderBytes(d: seq<byte>, e: seq<byte>, o: ByteOrder)
    requires ParseHeader(d, o).Some? && |d| == |e|
    requires d[..ParseHeader(d, o).value.bytes] == e[..ParseHeader(d, o).value.bytes]
    ensures ParseHeader(e, o) == ParseHeader(d, o)
  {
    hide ParseHeader;
    var start := ParseHeader(d, o).value.bytes;
    assert forall i :: 0 <= i < start ==> d[i] == d[..start][i] && e[i] == e[..start][i];
    ParseHeaderLocal(d, e, o);
  }

  /** Two buffers that differ only in the CIF0 word of a context packet, and there only in bits
      20 to 0: whenever both are accepted they decode alike. If they differ only in bits 14 to 0,
      one is accepted exactly when the other is. */
  lemma LowBitsIgnored(d: seq<byte>, e: seq<byte>, o: ByteOrder)
    requires ParseHeader(d, o).Some? && |d| == |e|
    requires var start := ParseHeader(d, o).value.bytes;
             && start + 4 <= |d| && d[..start] == e[..start] && d[start + 4..] == e[start + 4..]
             && forall bit :: 21 <= bit <= 31 ==>
                  Bit(ToBits(WordAt(d, start, o)), bit) == Bit(ToBits(WordAt(e, start, o)), bit)
    ensures ParseHeader(e, o) == ParseHeader(d, o)
    ensures DecodeContext(d, o).Some? && DecodeContext(e, o).Some? ==> DecodeContext(d, o) == DecodeContext(e, o)
    ensures var start := ParseHeader(d, o).value.bytes;
            (forall bit :: 15 <= bit <= 20 ==>
               Bit(ToBits(WordAt(d, start, o)), bit) == Bit(ToBits(WordAt(e, start, o)), bit))
            ==> (DecodeContext(d, o).Some? <==> DecodeContext(e, o).Some?)
  {
    hide Bit, ToBits, WordAt, ParseHeader, Fields, WordsAbove;
    var start := ParseHeader(d, o).value.bytes;
    SameHeaderBytes(d, e, o);
    var c, c' := ToBits(WordAt(d, start, o)), ToBits(WordAt(e, start, o));
    FieldsShift(d, start + 4, c, o);
    FieldsShift(e, start + 4, c', o);
    LowBitsSameFields(d[start + 4..], 0, c, c', o);
    if forall bit :: 15 <= bit <= 20 ==> Bit(c, bit) == Bit(c', bit) { SameWordsAbove(c, c', 14); }
  }

  // ---- the encoder ----

  method AppendFreq(x: Option<real>, mask: bv32, cif0: bv32, fieldData: ByteVector, o: ByteOrder)
    returns (cif0': bv32)
    requires x.Some? ==> FreqFits(x.value)
    modifies fieldData
    ensures cif0' == cif0 | Flag(x.Some?, mask)
    ensures fieldData.bytes == old(fieldData.bytes) + RawBytes(RawFreq(x), o)
  {
    cif0' := cif0;
    if x.Some? {
      cif0' := cif0' | mask;
      fieldData.AppendDWord(UnsignedOf64(FreqToFixed(x.value)), o);
    }
  }

  method AppendField(x: Option<u32>, mask: bv32, cif0: bv32, fieldData: ByteVector, o: ByteOrder)
    returns (cif0': bv32)
    modifies fieldData
    ensures cif0' == cif0 | Flag(x.Some?, mask)
    ensures fieldData.bytes == old(fieldData.bytes) + RawBytes(RawWord(x), o)
  {
    cif0' := cif0;
    if x.Some? {
      cif0' := cif0' | mask;
      fieldData.AppendWord(x.value, o);
    }
  }

  lemma FlagIs(present: bool, mask: bv32)
    ensures Flag(present, mask) == if present then mask else 0
  {
  }

  method BuildHighFields(f: ContextFields, fieldData: ByteVector, o: ByteOrder) returns (cif0: bv32)
    requires InRange(f) && fieldData.bytes == []
    modifies fieldData
    ensures cif0 == Flag(f.changeIndicator, 1 << 31) | Flag(f.referencePointId.Some?, 1 << 30)
                    | Flag(f.bandwidth.Some?, 1 << 29) | Flag(f.ifRefFrequency.Some?, 1 << 28)
                    | Flag(f.rfFrequency.Some?, 1 << 27) | Flag(f.rfFreqOffset.Some?, 1 << 26)
                    | Flag(f.ifBandOffset.Some?, 1 << 25)
    ensures fieldData.bytes == FieldData(f, 25, o)
  {
    hide RawBytes, RawFreq, RawWord, Flag, FreqFits, LevelFits;
    cif0 := if f.changeIndicator then 1 << 31 else 0;
    assert cif0 == Flag(f.changeIndicator, 1 << 31) by { FlagIs(f.changeIndicator, 1 << 31); }
    cif0 := AppendField(f.referencePointId, 1 << 30, cif0, fieldData, o);
    assert fieldData.bytes == FieldData(f, 30, o);
    cif0 := AppendFreq(f.bandwidth, 1 << 29, cif0, fieldData, o);
    assert fieldData.bytes == FieldData(f, 29, o);
    cif0 := AppendFreq(f.ifRefFrequency, 1 << 28, cif0, fieldData, o);
    assert fieldData.bytes == FieldData(f, 28, o);
    cif0 := AppendFreq(f.rfFrequency, 1 << 27, cif0, fieldData, o);
    assert fieldData.bytes == FieldData(f, 27, o);
    cif0 := AppendFreq(f.rfFreqOffset, 1 << 26, cif0, fieldData, o);
    assert fieldData.bytes == FieldData(f, 26, o);
    cif0 := AppendFreq(f.ifBandOffset, 1 << 25, cif0, fieldData, o);
  }

  method BuildLevels(f: ContextFields, high: bv32, fieldData: ByteVector, o: ByteOrder) returns (cif0: bv32)
    requires InRange(f) && fieldData.bytes == FieldData(f, 25, o)
    modifies fieldData
    ensures cif0 == high | Flag(f.referenceLevel.Some?, 1 << 24) | Flag(f.gain.Some?, 1 << 23)
    ensures fieldData.bytes == FieldData(f, 23, o)
  {
    var level := if f.referenceLevel.Some? then Some(RefLevelToFixed(f.referenceLevel.value)) else None;
    assert RawWord(level) == RawOf(f, 24);
    var gain := if f.gain.Some? then Some(GainToFixed(f.gain.value)) else None;
    assert RawWord(gain) == RawOf(f, 23);
    hide RawBytes, RawFreq, RawLevel, RawGain, RawWord, Flag, FreqFits, LevelFits, RefLevelToFixed, GainToFixed;
    cif0 := AppendField(level, 1 << 24, high, fieldData, o);
    assert fieldData.bytes == FieldData(f, 24, o);
    cif0 := AppendField(gain, 1 << 23, cif0, fieldData, o);
  }

  method BuildLowFields(f: ContextFields, high: bv32, fieldData: ByteVector, o: ByteOrder) returns (cif0: bv32)
    requires InRange(f) && fieldData.bytes == FieldData(f, 25, o)
    modifies fieldData
    ensures cif0 == high | Flag(f.referenceLevel.Some?, 1 << 24) | Flag(f.gain.Some?, 1 << 23)
                    | Flag(f.overRangeCount.Some?, 1 << 22) | Flag(f.sampleRate.Some?, 1 << 21)
    ensures fieldData.bytes == FieldData(f, 21, o)
  {
    hide RawBytes, RawFreq, RawLevel, RawGain, RawWord, Flag, FreqFits, LevelFits;
    cif0 := BuildLevels(f, high, fieldData, o);
    cif0 := AppendField(f.overRangeCount, 1 << 22, cif0, fieldData, o);
    assert fieldData.bytes == FieldData(f, 22, o);
    cif0 := AppendFreq(f.sampleRate, 1 << 21, cif0, fieldData, o);
  }

  lemma NothingBelow21(f: ContextFields, o: ByteOrder)
    requires InRange(f)
    ensures FieldData(f, 15, o) == FieldData(f, 21, o)
  {
    hide InRange;
    assert FieldData(f, 20, o) == FieldData(f, 21, o);
    assert FieldData(f, 19, o) == FieldData(f, 21, o);
    assert FieldData(f, 18, o) == FieldData(f, 21, o);
    assert FieldData(f, 17, o) == FieldData(f, 21, o);
    assert FieldData(f, 16, o) == FieldData(f, 21, o);
  }

  method Encode(a: Prologue, f: ContextFields, o: ByteOrder) returns (bytes: seq<byte>)
    requires InRange(f)
    ensures bytes == EncodeContext(a, f, o)
  {
    hide InRange, HeaderBytes, FieldData, Flag, WordBytes, SizeInWords;
    var fieldData := new ByteVector();
    var cif0 := BuildHighFields(f, fieldData, o);
    cif0 := BuildLowFields(f, cif0, fieldData, o);
    assert cif0 == Cif0Of(f);
    NothingBelow21(f, o);
    hide Cif0Of;
    var header := ContextHeader(a, 0);
    var totalWords := SizeInWords(header) + 1 + |fieldData.bytes| / 4;
    if totalWords > MAX_PACKET_SIZE_WORDS { return []; }
    header := header.(packetSize := totalWords);
    assert header == ContextHeader(a, totalWords);
    var out := new ByteVector();
    Serialize(header, o, out);
    out.AppendWord(FromBits(cif0), o);
    out.Append(fieldData.bytes);
    bytes := out.bytes;
  }
}
