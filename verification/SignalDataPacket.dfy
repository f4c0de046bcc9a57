/** Signal data packets: 16-bit I/Q pairs behind the prologue
    (src/libs/Vita49_2/SignalDataPacket.cpp). */
module SignalDataPacket {
  import opened ByteSwap
  import opened ByteVectors
  import opened Vita49Types
  import opened Wrappers
  import opened PacketHeaderCodec

  // ---- quantisation ----

  /** The narrowing static_cast<int> of lround's result: wraps modulo 2^32. */
  function ToInt32(v: int): int { (v + 0x8000_0000) % 0x1_0000_0000 - 0x8000_0000 }

  function Clamp16(v: int): i16 { if v < -0x8000 then -0x8000 else if v > 0x7FFF then 0x7FFF else v }

  function Quantise(x: real, scale: real): i16 { Clamp16(ToInt32(Round(x * scale))) }

  function Dequantise(q: i16, scale: real): real
    requires scale != 0.0
  {
    q as real / scale
  }

  predicate InIntRange(v: int) { -0x8000_0000 <= v < 0x8000_0000 }

  function Abs(x: real): real { if x >= 0.0 then x else -x }

  lemma NearestInt16(v: int, y: real, r: i16)
    requires -0.5 <= v as real - y <= 0.5
    ensures Abs(Clamp16(v) as real - y) <= Abs(r as real - y)
  {
    if r < v { assert r as real <= v as real - 1.0; }
    if r > v { assert r as real >= v as real + 1.0; }
  }

  lemma HalfStep(q: real, x: real, scale: real)
    requires scale > 0.0 && -0.5 <= q - x * scale <= 0.5
    ensures Abs(q / scale - x) <= 1.0 / (2.0 * scale)
  {
  }

  /** While the rounded product fits an int, quantisation picks a nearest int16 (so it
      saturates), and is off by at most half a step when it does not clamp. */
  lemma QuantiseIsNearest(x: real, scale: real, r: i16)
    requires scale > 0.0 && InIntRange(Round(x * scale))
    ensures var q := Quantise(x, scale);
            && Abs(q as real - x * scale) <= Abs(r as real - x * scale)
            && (-0x8000 <= Round(x * scale) <= 0x7FFF ==> Abs(Dequantise(q, scale) - x) <= 1.0 / (2.0 * scale))
            && (Round(x * scale) > 0x7FFF ==> q == 0x7FFF)
            && (Round(x * scale) < -0x8000 ==> q == -0x8000)
  {
    var v, y := Round(x * scale), x * scale;
    RoundIsNearest(y);
    assert ToInt32(v) == v;
    NearestInt16(v, y, r);
    if -0x8000 <= v <= 0x7FFF {
      HalfStep(v as real, x, scale);
    }
  }

  /** The narrowed value, from the low 32 bits. */
  lemma WrapOf(v: int)
    ensures var low := v % 0x1_0000_0000; ToInt32(v) == if low < 0x8000_0000 then low else low - 0x1_0000_0000
    ensures InIntRange(v) ==> ToInt32(v) == v
  {
    var low, high := v % 0x1_0000_0000, v / 0x1_0000_0000;
    assert v + 0x8000_0000 == high * 0x1_0000_0000 + (low + 0x8000_0000);
  }

  /** Beyond int the narrowing comes before the clamp: for every product that lround can return
      as a long, the result is the saturated one exactly when the product fits an int or its low
      32 bits stand for a value beyond the same end of int16. */
  lemma QuantiseSaturatesIff(x: real, scale: real)
    requires -0x8000_0000_0000_0000 <= Round(x * scale) < 0x8000_0000_0000_0000
    ensures var v := Round(x * scale);
            Quantise(x, scale) == Clamp16(v) <==>
              || InIntRange(v)
              || (v > 0 && 0x7FFF <= v % 0x1_0000_0000 < 0x8000_0000)
              || (v < 0 && 0x8000_0000 <= v % 0x1_0000_0000 <= 0xFFFF_8000)
  {
    WrapOf(Round(x * scale));
  }

  /** A loud sample at the default scale comes out with the opposite sign. */
  lemma LoudSampleFlips()
    ensures Quantise(65536.0, DEFAULT_SCALE_FACTOR) == -0x8000
    ensures Clamp16(Round(65536.0 * DEFAULT_SCALE_FACTOR)) == 0x7FFF
  {
  }

  lemma QuantiseOf(q: i16, x: real, scale: real)
    requires Round(x * scale) == q
    ensures Quantise(x, scale) == q
  {
  }

  /** Encoding a decoded int16 gives it back unchanged. */
  lemma QuantiseInverse(q: i16, scale: real)
    requires scale != 0.0
    ensures Quantise(Dequantise(q, scale), scale) == q
  {
    RoundExact(q, Dequantise(q, scale), scale);
    QuantiseOf(q, Dequantise(q, scale), scale);
  }

  lemma DivideByInverse(v: real, scale: real)
    requires scale != 0.0
    ensures v * (1.0 / scale) == v / scale
  {
    var inv, q := 1.0 / scale, v / scale;
    assert inv * scale == 1.0 && q * scale == v;
    assert v * inv == q * (scale * inv);
  }

  // ---- payload ----

  function SampleBytes(s: IQSample, scale: real, o: ByteOrder): (r: seq<byte>)
    ensures |r| == 4
  {
    U16Bytes(UnsignedOf16(Quantise(s.re, scale)), o) + U16Bytes(UnsignedOf16(Quantise(s.im, scale)), o)
  }

  function PayloadBytes(s: seq<IQSample>, scale: real, o: ByteOrder): (r: seq<byte>)
    ensures |r| == 4 * |s|
  {
    if s == [] then [] else PayloadBytes(s[..|s| - 1], scale, o) + SampleBytes(s[|s| - 1], scale, o)
  }

  function SampleAt(d: seq<byte>, off: nat, scale: real, o: ByteOrder): IQSample
    requires off + 4 <= |d| && scale != 0.0
  {
    IQSample(Dequantise(SignedOf16(U16At(d, off, o)), scale), Dequantise(SignedOf16(U16At(d, off + 2, o)), scale))
  }

  function SamplesAt(d: seq<byte>, off: nat, n: nat, scale: real, o: ByteOrder): seq<IQSample>
    requires off + 4 * n <= |d| && scale != 0.0
  {
    seq(n, i requires 0 <= i < n => SampleAt(d, off + 4 * i, scale, o))
  }

  /** The sample that survives a trip through 16 bits. */
  function Requantised(s: IQSample, scale: real): IQSample
    requires scale != 0.0
  {
    IQSample(Dequantise(Quantise(s.re, scale), scale), Dequantise(Quantise(s.im, scale), scale))
  }

  function RequantisedAll(s: seq<IQSample>, scale: real): (r: seq<IQSample>)
    requires scale != 0.0
    ensures |r| == |s|
  {
    seq(|s|, i requires 0 <= i < |s| => Requantised(s[i], scale))
  }

  lemma SampleReadBack(pre: seq<byte>, s: IQSample, post: seq<byte>, scale: real, o: ByteOrder)
    requires scale != 0.0
    ensures SampleAt(pre + SampleBytes(s, scale, o) + post, |pre|, scale, o) == Requantised(s, scale)
  {
  }

  /** Where I and Q stand in a payload word: in the upper half word only in big-endian order
      (or when they are equal); little-endian packets have them the other way round. */
  lemma SampleWord(pre: seq<byte>, s: IQSample, post: seq<byte>, scale: real, o: ByteOrder)
    ensures var w := WordAt(pre + SampleBytes(s, scale, o) + post, |pre|, o);
            var i, q := UnsignedOf16(Quantise(s.re, scale)), UnsignedOf16(Quantise(s.im, scale));
            && w == (if o.BigEndian? then i * 0x1_0000 + q else q * 0x1_0000 + i)
            && (w / 0x1_0000 == i <==> o.BigEndian? || i == q)
  {
  }

  lemma {:induction false} PayloadReadBack(pre: seq<byte>, s: seq<IQSample>, post: seq<byte>, scale: real, o: ByteOrder)
    requires scale != 0.0
    ensures SamplesAt(pre + PayloadBytes(s, scale, o) + post, |pre|, |s|, scale, o) == RequantisedAll(s, scale)
  {
    hide SampleAt, SampleBytes, Requantised;
    if s == [] {
    } else {
      var init, last := s[..|s| - 1], s[|s| - 1];
      var p, b := PayloadBytes(init, scale, o), SampleBytes(last, scale, o);
      var d := pre + PayloadBytes(s, scale, o) + post;
      assert d == pre + p + (b + post);
      PayloadReadBack(pre, init, b + post, scale, o);
      assert d == (pre + p) + b + post;
      SampleReadBack(pre + p, last, post, scale, o);
      var r := SamplesAt(d, |pre|, |s|, scale, o);
      assert r == SamplesAt(d, |pre|, |init|, scale, o) + [SampleAt(d, |pre + p|, scale, o)];
      assert RequantisedAll(s, scale) == RequantisedAll(init, scale) + [Requantised(last, scale)];
    }
  }

  // ---- packets ----

  /** The header an encoder builds from its arguments. */
  function DataHeader(a: Prologue, trailer: bool, size: u16): PacketHeader {
    PacketHeader(
      IF_DATA_WITH_STREAM_ID, false, trailer, a.tsiType, a.tsfType, a.packetCount % 16, size,
      Some(a.streamId), None, None, None,
      if a.tsiType != TSI_NONE then Some(a.intTimestamp) else None,
      if a.tsfType != TSF_NONE then Some(a.fracTimestamp) else None)
  }

  function SignalWords(a: Prologue, n: nat, trailer: bool): nat {
    SizeInWords(DataHeader(a, trailer, 0)) + n + if trailer then 1 else 0
  }

  function TrailerBytes(trailer: bool): seq<byte> { if trailer then [0, 0, 0, 0] else [] }

  function EncodeSignal(a: Prologue, s: seq<IQSample>, trailer: bool, scale: real, o: ByteOrder): seq<byte> {
    var total := SignalWords(a, |s|, trailer);
    if total > MAX_PACKET_SIZE_WORDS then []
    else HeaderBytes(DataHeader(a, trailer, total), o) + PayloadBytes(s, scale, o) + TrailerBytes(trailer)
  }

  function MaxSamplesPerPacket(tsi: TSI, tsf: TSF, classId: bool, trailer: bool): int {
    var overhead := 2 + (if classId then 2 else 0) + (if tsi != TSI_NONE then 1 else 0)
                      + (if tsf != TSF_NONE then 2 else 0) + if trailer then 1 else 0;
    if overhead >= MAX_PACKET_SIZE_WORDS then 0 else MAX_PACKET_SIZE_WORDS - overhead
  }

  /** The two duplicated size calculations agree: a chunk is refused exactly when it is
      longer than the advertised maximum; otherwise the packet fills the words it announces. */
  lemma EncodeEmptyIff(a: Prologue, s: seq<IQSample>, trailer: bool, scale: real, o: ByteOrder)
    ensures EncodeSignal(a, s, trailer, scale, o) == [] <==>
              |s| > MaxSamplesPerPacket(a.tsiType, a.tsfType, false, trailer)
    ensures |s| <= MaxSamplesPerPacket(a.tsiType, a.tsfType, false, trailer) ==>
              |EncodeSignal(a, s, trailer, scale, o)| == 4 * SignalWords(a, |s|, trailer)
  {
  }

  datatype DecodedSignal = DecodedSignal(header: PacketHeader, samples: seq<IQSample>, bytesConsumed: nat)

  function DecodeSignal(d: seq<byte>, scale: real, o: ByteOrder): (r: Option<DecodedSignal>)
    ensures r.Some? ==> 4 <= r.value.bytesConsumed == r.value.header.packetSize * 4 <= |d|
  {
    var p := ParseHeader(d, o);
    if scale == 0.0 || p.None? || !IsDataPacket(p.value.header.packetType) then None
    else
      var h, start := p.value.header, p.value.bytes;
      var payload := h.packetSize * 4 - start - if h.trailerPresent then 4 else 0;
      if payload < 0 then None
      else Some(DecodedSignal(h, SamplesAt(d, start, payload / 4, scale, o), h.packetSize * 4))
  }

  lemma TrailerLength(trailer: bool)
    ensures |TrailerBytes(trailer)| == if trailer then 4 else 0
  {
  }

  lemma DecodesAs(d: seq<byte>, h: PacketHeader, start: nat, n: nat, scale: real, o: ByteOrder)
    requires scale != 0.0 && ParseHeader(d, o) == Some(ParsedHeader(h, start)) && IsDataPacket(h.packetType)
    requires h.packetSize * 4 == start + 4 * n + if h.trailerPresent then 4 else 0
    ensures DecodeSignal(d, scale, o) == Some(DecodedSignal(h, SamplesAt(d, start, n, scale, o), h.packetSize * 4))
  {
  }

  /** An encoded packet decodes to its header and its requantised samples, whatever follows it. */
  lemma SignalRoundTrip(a: Prologue, s: seq<IQSample>, trailer: bool, scale: real, o: ByteOrder, rest: seq<byte>)
    requires scale != 0.0
    requires |s| <= MaxSamplesPerPacket(a.tsiType, a.tsfType, false, trailer)
    ensures DecodeSignal(EncodeSignal(a, s, trailer, scale, o) + rest, scale, o)
         == Some(DecodedSignal(DataHeader(a, trailer, SignalWords(a, |s|, trailer)), RequantisedAll(s, scale),
                               4 * SignalWords(a, |s|, trailer)))
  {
    hide ParseHeader, HeaderBytes, DecodeSignal, PayloadBytes, SamplesAt, RequantisedAll, TrailerBytes;
    assert |TrailerBytes(trailer)| == if trailer then 4 else 0 by { TrailerLength(trailer); }
    var h := DataHeader(a, trailer, SignalWords(a, |s|, trailer));
    var hb, pb, tb := HeaderBytes(h, o), PayloadBytes(s, scale, o), TrailerBytes(trailer);
    var d := EncodeSignal(a, s, trailer, scale, o) + rest;
    assert d == hb + (pb + tb + rest);
    SerializedSize(h, o);
    HeaderRoundTrip(h, pb + tb + rest, o);
    assert d == hb + pb + (tb + rest);
    PayloadReadBack(hb, s, tb + rest, scale, o);
    DecodesAs(d, h, |hb|, |s|, scale, o);
  }

  lemma SamplesLocal(d: seq<byte>, e: seq<byte>, m: nat, off: nat, n: nat, scale: real, o: ByteOrder)
    requires scale != 0.0 && Agree(d, e, m) && off + 4 * n <= m
    ensures SamplesAt(d, off, n, scale, o) == SamplesAt(e, off, n, scale, o)
  {
  }

  lemma {:induction false} PayloadAt(s: seq<IQSample>, i: nat, scale: real, o: ByteOrder)
    requires i < |s|
    ensures PayloadBytes(s, scale, o)[4 * i..4 * i + 4] == SampleBytes(s[i], scale, o)
  {
    hide SampleBytes;
    if i == |s| - 1 {
    } else {
      var init := s[..|s| - 1];
      PayloadAt(init, i, scale, o);
      assert PayloadBytes(s, scale, o)[4 * i..4 * i + 4] == PayloadBytes(init, scale, o)[4 * i..4 * i + 4];
    }
  }

  lemma SamplesInPlace(hb: seq<byte>, s: seq<IQSample>, tb: seq<byte>, scale: real, o: ByteOrder)
    ensures var e := hb + (PayloadBytes(s, scale, o) + tb);
            forall i :: 0 <= i < |s| ==> e[|hb| + 4 * i..|hb| + 4 * i + 4] == SampleBytes(s[i], scale, o)
  {
    hide PayloadBytes, SampleBytes;
    var pb := PayloadBytes(s, scale, o);
    var e := hb + (pb + tb);
    forall i | 0 <= i < |s|
      ensures e[|hb| + 4 * i..|hb| + 4 * i + 4] == SampleBytes(s[i], scale, o)
    {
      PayloadAt(s, i, scale, o);
      assert e[|hb| + 4 * i..|hb| + 4 * i + 4] == pb[4 * i..4 * i + 4];
    }
  }

  /** Word 0 of a data header with a stream id and no class id. */
  lemma DataWord0(a: Prologue, trailer: bool, n: u16)
    ensures Word0(DataHeader(a, trailer, n))
         == 0x1000_0000 + (if trailer then 0x400_0000 else 0) + a.tsiType * 0x40_0000 + a.tsfType * 0x10_0000
            + a.packetCount % 16 * 0x1_0000 + n
  {
  }

  /** The bytes of an encoded packet: type 1, the flags, timestamp types and count in the upper
      half of word 0 and the packet's words in the lower one; then the stream id; I and Q of each
      sample at its place behind the timestamps; and four zero bytes at the end for a trailer. */
  lemma EncodedSignalLayout(a: Prologue, s: seq<IQSample>, trailer: bool, scale: real, o: ByteOrder)
    requires EncodeSignal(a, s, trailer, scale, o) != []
    ensures var e := EncodeSignal(a, s, trailer, scale, o);
            var start := 8 + (if a.tsiType != 0 then 4 else 0) + (if a.tsfType != 0 then 8 else 0);
            && |e| == start + 4 * |s| + (if trailer then 4 else 0)
            && WordAt(e, 0, o)
                 == 0x1000_0000 + (if trailer then 0x400_0000 else 0) + a.tsiType * 0x40_0000 + a.tsfType * 0x10_0000
                    + a.packetCount % 16 * 0x1_0000 + |e| / 4
            && WordAt(e, 4, o) == a.streamId
            && (a.tsiType != 0 ==> WordAt(e, 8, o) == a.intTimestamp)
            && (a.tsfType != 0 ==> DWordAt(e, start - 8, o) == a.fracTimestamp)
            && (forall i :: 0 <= i < |s| ==> e[start + 4 * i..start + 4 * i + 4] == SampleBytes(s[i], scale, o))
            && (trailer ==> e[|e| - 4..] == [0, 0, 0, 0])
  {
    hide PayloadBytes, HeaderBytes, Word0, WordAt, DWordAt, SampleBytes;
    EncodeEmptyIff(a, s, trailer, scale, o);
    var h := DataHeader(a, trailer, SignalWords(a, |s|, trailer));
    var hb, pb, tb := HeaderBytes(h, o), PayloadBytes(s, scale, o), TrailerBytes(trailer);
    var e := EncodeSignal(a, s, trailer, scale, o);
    assert e == hb + (pb + tb);
    SectionsReadBack(h, pb + tb, o);
    DataWord0(a, trailer, SignalWords(a, |s|, trailer));
    SamplesInPlace(hb, s, tb, scale, o);
    assert |hb| == SizeInBytes(h) && |tb| == (if trailer then 4 else 0);
    assert trailer ==> e[|e| - 4..] == tb;
  }

  /** Decoding sees only the bytes it reports as consumed. */
  lemma DecodeSignalLocal(d: seq<byte>, e: seq<byte>, scale: real, o: ByteOrder)
    requires DecodeSignal(d, scale, o).Some?
    requires Agree(d, e, DecodeSignal(d, scale, o).value.bytesConsumed)
    ensures DecodeSignal(e, scale, o) == DecodeSignal(d, scale, o)
  {
    ParseHeaderLocal(d, e, o);
    hide ParseHeader, SampleAt;
    var r, start := DecodeSignal(d, scale, o).value, ParseHeader(d, o).value.bytes;
    SamplesLocal(d, e, r.bytesConsumed, start, |r.samples|, scale, o);
  }

  // ---- the methods ----

  /** n samples behind a header with a stream id and these flags, with the trailer, fill the
      largest packet exactly; and the encoder refuses precisely what is longer than n. */
  method MaxSamples(tsi: TSI, tsf: TSF, classIdPresent: bool, includeTrailer: bool) returns (n: int)
    ensures forall h: PacketHeader ::
              h.packetType == IF_DATA_WITH_STREAM_ID && h.classIdPresent == classIdPresent
              && h.tsiType == tsi && h.tsfType == tsf ==>
                SizeInWords(h) + n + (if includeTrailer then 1 else 0) == MAX_PACKET_SIZE_WORDS
    ensures !classIdPresent ==>
              forall a: Prologue, s: seq<IQSample>, scale: real, o: ByteOrder ::
                a.tsiType == tsi && a.tsfType == tsf ==>
                  (EncodeSignal(a, s, includeTrailer, scale, o) == [] <==> |s| > n)
  {
    var headerWords := 2;
    if classIdPresent { headerWords := headerWords + 2; }
    if tsi != TSI_NONE { headerWords := headerWords + 1; }
    if tsf != TSF_NONE { headerWords := headerWords + 2; }
    var overhead := headerWords + if includeTrailer then 1 else 0;
    n := if overhead >= MAX_PACKET_SIZE_WORDS then 0 else MAX_PACKET_SIZE_WORDS - overhead;
    if !classIdPresent {
      assert n == MaxSamplesPerPacket(tsi, tsf, false, includeTrailer);
      forall a: Prologue, s: seq<IQSample>, scale: real, o: ByteOrder | a.tsiType == tsi && a.tsfType == tsf
        ensures EncodeSignal(a, s, includeTrailer, scale, o) == [] <==> |s| > n
      {
        EncodeEmptyIff(a, s, includeTrailer, scale, o);
      }
    }
  }

  method ReadSample(d: seq<byte>, off: nat, scale: real, invScale: real, o: ByteOrder) returns (s: IQSample)
    requires off + 4 <= |d| && scale != 0.0 && invScale == 1.0 / scale
    ensures s == SampleAt(d, off, scale, o)
  {
    hide U16At, SignedOf16;
    var iVal, qVal := SignedOf16(U16At(d, off, o)), SignedOf16(U16At(d, off + 2, o));
    DivideByInverse(iVal as real, scale);
    DivideByInverse(qVal as real, scale);
    s := IQSample(iVal as real * invScale, qVal as real * invScale);
  }

  method Decode(d: seq<byte>, scale: real, o: ByteOrder) returns (r: Option<DecodedSignal>)
    ensures r == DecodeSignal(d, scale, o)
  {
    hide ParseHeader, SampleAt;
    if |d| < 4 || scale == 0.0 { return None; }
    var p := Parse(d, o);
    if p.None? { return None; }
    var header, headerBytes := p.value.header, p.value.bytes;
    if !IsDataPacket(header.packetType) { return None; }
    var packetBytes := header.packetSize * 4;
    var trailerBytes := if header.trailerPresent then 4 else 0;
    if headerBytes + trailerBytes > packetBytes { return None; }
    var numSamples := (packetBytes - headerBytes - trailerBytes) / 4;
    var samples: seq<IQSample> := [];
    var invScale := 1.0 / scale;
    for i := 0 to numSamples
      invariant samples == SamplesAt(d, headerBytes, i, scale, o)
    {
      var sample := ReadSample(d, headerBytes + i * 4, scale, invScale, o);
      samples := samples + [sample];
    }
    return Some(DecodedSignal(header, samples, packetBytes));
  }

  method AppendPayload(samples: seq<IQSample>, scale: real, o: ByteOrder, out: ByteVector)
    modifies out
    ensures out.bytes == old(out.bytes) + PayloadBytes(samples, scale, o)
  {
    for k := 0 to |samples|
      invariant out.bytes == old(out.bytes) + PayloadBytes(samples[..k], scale, o)
    {
      var i16, q16 := Quantise(samples[k].re, scale), Quantise(samples[k].im, scale);
      assert samples[..k + 1][..k] == samples[..k];
      out.Append(U16Bytes(UnsignedOf16(i16), o) + U16Bytes(UnsignedOf16(q16), o));
    }
    assert samples[..|samples|] == samples;
  }

  method Encode(a: Prologue, samples: seq<IQSample>, trailer: bool, scale: real, o: ByteOrder)
    returns (bytes: seq<byte>)
    ensures bytes == EncodeSignal(a, samples, trailer, scale, o)
  {
    hide HeaderBytes, PayloadBytes;
    var header := DataHeader(a, trailer, 0);
    var totalWords := SizeInWords(header) + |samples| + if trailer then 1 else 0;
    if totalWords > MAX_PACKET_SIZE_WORDS { return []; }
    header := header.(packetSize := totalWords);
    assert header == DataHeader(a, trailer, totalWords);
    var out := new ByteVector();
    Serialize(header, o, out);
    AppendPayload(samples, scale, o, out);
    if trailer { out.Append([0, 0, 0, 0]); }
    bytes := out.bytes;
  }
}
