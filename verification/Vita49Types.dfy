/** Packet types, header and context records and size limits
    (src/libs/Vita49_2/Vita49Types.h). Floating point values are exact reals. */
module Vita49Types {
  import opened ByteSwap
  import opened Wrappers

  /** The four header bits; 6 to 15 have no enumerator but reach the parser. */
  type PacketType = t: nat | t < 16
  const IF_DATA_WITHOUT_STREAM_ID: PacketType := 0
  const IF_DATA_WITH_STREAM_ID: PacketType := 1
  const EXT_DATA_WITHOUT_STREAM_ID: PacketType := 2
  const EXT_DATA_WITH_STREAM_ID: PacketType := 3
  const IF_CONTEXT: PacketType := 4
  const EXT_CONTEXT: PacketType := 5

  /** Integer timestamp type: 0 None, 1 UTC, 2 GPS, 3 Other. */
  type TSI = t: nat | t < 4
  const TSI_NONE: TSI := 0

  /** Fractional timestamp type: 0 None, 1 sample count, 2 real time, 3 free running. */
  type TSF = t: nat | t < 4
  const TSF_NONE: TSF := 0

  datatype PacketHeader = PacketHeader(
    packetType: PacketType,
    classIdPresent: bool,
    trailerPresent: bool,
    tsiType: TSI,
    tsfType: TSF,
    packetCount: byte,
    packetSize: u16,
    streamId: Option<u32>,
    classIdOUI: Option<u32>,
    informationClassCode: Option<u16>,
    packetClassCode: Option<u16>,
    integerTimestamp: Option<u32>,
    fractionalTimestamp: Option<u64>)

  datatype ContextFields = ContextFields(
    changeIndicator: bool,
    referencePointId: Option<u32>,
    bandwidth: Option<real>,
    ifRefFrequency: Option<real>,
    rfFrequency: Option<real>,
    rfFreqOffset: Option<real>,
    ifBandOffset: Option<real>,
    referenceLevel: Option<real>,
    gain: Option<real>,
    overRangeCount: Option<u32>,
    sampleRate: Option<real>)

  /** std::complex<float> */
  datatype IQSample = IQSample(re: real, im: real)

  /** The arguments that both packet encoders share: stream, 4-bit counter and timestamps. */
  datatype Prologue = Prologue(
    streamId: u32, packetCount: byte, tsiType: TSI, tsfType: TSF,
    intTimestamp: u32, fracTimestamp: u64)

  const DEFAULT_SCALE_FACTOR := 32768.0
  const MAX_PACKET_SIZE_WORDS: nat := 65535
  const FREQ_RADIX := 1048576.0
  const GAIN_RADIX := 128.0

  predicate HasStreamId(t: PacketType) {
    t == IF_DATA_WITH_STREAM_ID || t == EXT_DATA_WITH_STREAM_ID || t == IF_CONTEXT || t == EXT_CONTEXT
  }

  predicate IsDataPacket(t: PacketType) {
    || t == IF_DATA_WITHOUT_STREAM_ID || t == IF_DATA_WITH_STREAM_ID
    || t == EXT_DATA_WITHOUT_STREAM_ID || t == EXT_DATA_WITH_STREAM_ID
  }

  predicate IsContextPacket(t: PacketType) {
    t == IF_CONTEXT || t == EXT_CONTEXT
  }

  // ---- std::round and std::lround on exact reals: to nearest, halves away from zero ----

  function Round(x: real): int {
    if x >= 0.0 then (x + 0.5).Floor else -((-x + 0.5).Floor)
  }

  lemma RoundIsNearest(x: real)
    ensures -0.5 <= Round(x) as real - x <= 0.5
    ensures Round(-x) == -Round(x)
  {
  }

  /** Halves go away from zero. */
  lemma RoundHalves(n: nat)
    ensures Round(n as real + 0.5) == n + 1 && Round(-(n as real) - 0.5) == -(n + 1)
  {
  }

  /** What a fixed-point field holds comes back through the division and the rounding. */
  lemma RoundExact(n: int, x: real, scale: real)
    requires scale != 0.0 && x == n as real / scale
    ensures Round(x * scale) == n
  {
  }
}
