/** The packet prologue (src/libs/Vita49_2/PacketHeader.cpp; ANSI/VITA 49.2-2017 section 5.1):
    word 0, then an optional stream id, class id, integer and fractional timestamp. */
module PacketHeaderCodec {
  import opened ByteSwap
  import opened ByteVectors
  import opened Vita49Types
  import opened Wrappers

  // ---- size ----

  function SizeInWords(h: PacketHeader): nat {
    1 + (if HasStreamId(h.packetType) then 1 else 0) + (if h.classIdPresent then 2 else 0)
      + (if h.tsiType != TSI_NONE then 1 else 0) + (if h.tsfType != TSF_NONE then 2 else 0)
  }

  function SizeInBytes(h: PacketHeader): nat { SizeInWords(h) * 4 }

  // ---- layout: where each section starts ----

  function ClassIdAt(h: PacketHeader): nat { if HasStreamId(h.packetType) then 8 else 4 }

  function IntTimestampAt(h: PacketHeader): nat { ClassIdAt(h) + if h.classIdPresent then 8 else 0 }

  function FracTimestampAt(h: PacketHeader): nat {
    IntTimestampAt(h) + if h.tsiType != TSI_NONE then 4 else 0
  }

  // ---- serialisation ----

  /** The 32-bit word whose bits are, from the top: t (6 bits), r (2), i (2), f (2), n (4), z (16). */
  function Packed(t: int, r: int, i: int, f: int, n: int, z: int): (w: u32)
    requires 0 <= t < 64 && 0 <= r < 4 && 0 <= i < 4 && 0 <= f < 4 && 0 <= n < 16 && 0 <= z < 0x1_0000
  {
    t * 0x400_0000 + r * 0x100_0000 + i * 0x40_0000 + f * 0x10_0000 + n * 0x1_0000 + z
  }

  /** Type, C bit and trailer bit: the top six bits of word 0. */
  function TopBits(h: PacketHeader): int {
    h.packetType * 4 + (if h.classIdPresent then 2 else 0)
    + (if IsDataPacket(h.packetType) && h.trailerPresent then 1 else 0)
  }

  function Word0(h: PacketHeader): u32 {
    Packed(TopBits(h), 0, h.tsiType, h.tsfType, h.packetCount % 16, h.packetSize)
  }

  function StreamIdBytes(h: PacketHeader, o: ByteOrder): seq<byte> {
    if HasStreamId(h.packetType) && h.streamId.Some? then WordBytes(h.streamId.value, o) else []
  }

  function ClassIdBytes(h: PacketHeader, o: ByteOrder): seq<byte> {
    if h.classIdPresent && h.classIdOUI.Some? then
      WordBytes(h.classIdOUI.value % 0x100_0000, o)
      + WordBytes(h.informationClassCode.GetOr(0) * 0x1_0000 + h.packetClassCode.GetOr(0), o)
    else []
  }

  function IntTimestampBytes(h: PacketHeader, o: ByteOrder): seq<byte> {
    if h.tsiType != TSI_NONE && h.integerTimestamp.Some? then WordBytes(h.integerTimestamp.value, o) else []
  }

  function FracTimestampBytes(h: PacketHeader, o: ByteOrder): seq<byte> {
    if h.tsfType != TSF_NONE && h.fractionalTimestamp.Some? then DWordBytes(h.fractionalTimestamp.value, o) else []
  }

  function HeaderBytes(h: PacketHeader, o: ByteOrder): seq<byte> {
    WordBytes(Word0(h), o) + StreamIdBytes(h, o) + ClassIdBytes(h, o)
    + IntTimestampBytes(h, o) + FracTimestampBytes(h, o)
  }

  /** Every optional section that type and flags call for has its value. */
  predicate SectionsFilled(h: PacketHeader) {
    && (HasStreamId(h.packetType) ==> h.streamId.Some?)
    && (h.classIdPresent ==> h.classIdOUI.Some?)
    && (h.tsiType != TSI_NONE ==> h.integerTimestamp.Some?)
    && (h.tsfType != TSF_NONE ==> h.fractionalTimestamp.Some?)
  }

  /** The size that the packet encoders put in word 0 is the size that serialisation
      produces exactly when the sections are filled. */
  lemma SerializedSize(h: PacketHeader, o: ByteOrder)
    ensures |HeaderBytes(h, o)| <= SizeInBytes(h)
    ensures |HeaderBytes(h, o)| == SizeInBytes(h) <==> SectionsFilled(h)
  {
  }

  /** A header that announces a class id without an OUI: a size of three words, one of them written. */
  lemma UnfilledClassId(o: ByteOrder)
    ensures var h := PacketHeader(IF_DATA_WITHOUT_STREAM_ID, true, false, TSI_NONE, TSF_NONE, 0, 0,
                                  None, None, None, None, None, None);
            SizeInBytes(h) == 12 && |HeaderBytes(h, o)| == 4
  {
  }

  // ---- parsing ----

  /** The fields that word 0 carries. */
  function HeaderOfWord0(w: u32): PacketHeader {
    var packetType: PacketType := w / 0x1000_0000;
    PacketHeader(
      packetType,
      w / 0x800_0000 % 2 == 1,
      IsDataPacket(packetType) && w / 0x400_0000 % 2 == 1,
      w / 0x40_0000 % 4,
      w / 0x10_0000 % 4,
      w / 0x1_0000 % 16,
      w % 0x1_0000,
      None, None, None, None, None, None)
  }

  datatype ParsedHeader = ParsedHeader(header: PacketHeader, bytes: nat)

  /** Reads the optional sections that h's type and flags announce. */
  function WithSections(h: PacketHeader, d: seq<byte>, o: ByteOrder): PacketHeader
    requires SizeInBytes(h) <= |d|
  {
    h.(streamId := if HasStreamId(h.packetType) then Some(WordAt(d, 4, o)) else None,
       classIdOUI := if h.classIdPresent then Some(WordAt(d, ClassIdAt(h), o) % 0x100_0000) else None,
       informationClassCode := if h.classIdPresent then Some(WordAt(d, ClassIdAt(h) + 4, o) / 0x1_0000) else None,
       packetClassCode := if h.classIdPresent then Some(WordAt(d, ClassIdAt(h) + 4, o) % 0x1_0000) else None,
       integerTimestamp := if h.tsiType != TSI_NONE then Some(WordAt(d, IntTimestampAt(h), o)) else None,
       fractionalTimestamp := if h.tsfType != TSF_NONE then Some(DWordAt(d, FracTimestampAt(h), o)) else None)
  }

  /** A header is accepted iff word 0 announces a packet that is nonempty, lies within the
      buffer and holds the whole prologue. */
  function ParseHeader(d: seq<byte>, o: ByteOrder): (r: Option<ParsedHeader>)
    ensures r.Some? ==> 4 <= r.value.bytes == SizeInBytes(r.value.header) <= r.value.header.packetSize * 4 <= |d|
  {
    if |d| < 4 then None
    else
      var h := HeaderOfWord0(WordAt(d, 0, o));
      if h.packetSize == 0 || |d| < h.packetSize * 4 || h.packetSize * 4 < SizeInBytes(h) then None
      else Some(ParsedHeader(WithSections(h, d, o), SizeInBytes(h)))
  }

  /** The type, flags, counts and sizes in the bits of word 0, and every section at its place; the
      stream id belongs to types 1, 3, 4 and 5. */
  lemma HeaderLayout(d: seq<byte>, o: ByteOrder)
    requires |d| >= 4
    ensures var w := WordAt(d, 0, o);
            var stream: nat := if w / 0x1000_0000 in {1, 3, 4, 5} then 4 else 0;
            var ids: nat := if w / 0x800_0000 % 2 == 1 then 8 else 0;
            var whole: nat := if w / 0x40_0000 % 4 != 0 then 4 else 0;
            var frac: nat := if w / 0x10_0000 % 4 != 0 then 8 else 0;
            var at := 4 + stream + ids + whole;
            var r := ParseHeader(d, o);
            && (r.Some? <==> 0 < w % 0x1_0000 * 4 <= |d| && at + frac <= w % 0x1_0000 * 4)
            && (r.Some? ==>
                  var h := r.value.header;
                  && r.value.bytes == at + frac
                  && h.packetType == w / 0x1000_0000 && h.packetCount == w / 0x1_0000 % 16
                  && h.packetSize == w % 0x1_0000
                  && h.classIdPresent == (ids == 8)
                  && h.trailerPresent == (w / 0x1000_0000 <= 3 && w / 0x400_0000 % 2 == 1)
                  && h.tsiType == w / 0x40_0000 % 4 && h.tsfType == w / 0x10_0000 % 4
                  && h.streamId == (if stream == 4 then Some(WordAt(d, 4, o)) else None)
                  && h.classIdOUI == (if ids == 8 then Some(WordAt(d, 4 + stream, o) % 0x100_0000) else None)
                  && h.informationClassCode == (if ids == 8 then Some(WordAt(d, 8 + stream, o) / 0x1_0000) else None)
                  && h.packetClassCode == (if ids == 8 then Some(WordAt(d, 8 + stream, o) % 0x1_0000) else None)
                  && h.integerTimestamp == (if whole == 4 then Some(WordAt(d, 4 + stream + ids, o)) else None)
                  && h.fractionalTimestamp == (if frac == 8 then Some(DWordAt(d, at, o)) else None))
  {
    hide WordAt, DWordAt;
  }

  /** Well-formed: the optionals are present exactly when type and flags call for them, and
      every field fits its bits. */
  predicate WellFormed(h: PacketHeader) {
    && h.packetCount < 16
    && (h.trailerPresent ==> IsDataPacket(h.packetType))
    && (h.streamId.Some? <==> HasStreamId(h.packetType))
    && (h.classIdOUI.Some? <==> h.classIdPresent)
    && (h.informationClassCode.Some? <==> h.classIdPresent)
    && (h.packetClassCode.Some? <==> h.classIdPresent)
    && (h.classIdOUI.Some? ==> h.classIdOUI.value < 0x100_0000)
    && (h.integerTimestamp.Some? <==> h.tsiType != TSI_NONE)
    && (h.fractionalTimestamp.Some? <==> h.tsfType != TSF_NONE)
  }

  // ---- round trip: serialise, then parse ----

  lemma Pack(w: u32, t: int, r: int, i: int, f: int, n: int, z: int)
    requires 0 <= t < 64 && 0 <= r < 4 && 0 <= i < 4 && 0 <= f < 4 && 0 <= n < 16 && 0 <= z < 0x1_0000
    requires w == Packed(t, r, i, f, n, z)
    ensures w / 0x400_0000 == t && w / 0x800_0000 == t / 2 && w / 0x1000_0000 == t / 4
    ensures w / 0x100_0000 % 4 == r && w / 0x40_0000 % 4 == i && w / 0x10_0000 % 4 == f
    ensures w / 0x1_0000 % 16 == n && w % 0x1_0000 == z
  {
    assert w / 0x100_0000 == t * 4 + r;
    assert w / 0x40_0000 == (t * 4 + r) * 4 + i;
    assert w / 0x10_0000 == ((t * 4 + r) * 4 + i) * 4 + f;
    assert w / 0x1_0000 == (((t * 4 + r) * 4 + i) * 4 + f) * 16 + n;
  }

  lemma Word0RoundTrip(h: PacketHeader)
    requires WellFormed(h)
    ensures HeaderOfWord0(Word0(h)) == h.(streamId := None, classIdOUI := None, informationClassCode := None,
              packetClassCode := None, integerTimestamp := None, fractionalTimestamp := None)
  {
    Pack(Word0(h), TopBits(h), 0, h.tsiType, h.tsfType, h.packetCount, h.packetSize);
  }

  lemma Word0Type(h: PacketHeader)
    requires WellFormed(h)
    ensures Word0(h) / 0x1000_0000 == h.packetType
  {
  }

  lemma Unpack(w: u32) returns (t: int, r: int, i: int, f: int, n: int, z: int)
    ensures 0 <= t < 64 && 0 <= r < 4 && 0 <= i < 4 && 0 <= f < 4 && 0 <= n < 16 && 0 <= z < 0x1_0000
    ensures w == Packed(t, r, i, f, n, z)
  {
    z := w % 0x1_0000;
    n := w / 0x1_0000 % 16;
    f := w / 0x10_0000 % 4;
    i := w / 0x40_0000 % 4;
    r := w / 0x100_0000 % 4;
    t := w / 0x400_0000;
    assert w / 0x1_0000 / 16 == w / 0x10_0000;
    assert w / 0x10_0000 / 4 == w / 0x40_0000;
    assert w / 0x40_0000 / 4 == w / 0x100_0000;
    assert w / 0x100_0000 / 4 == w / 0x400_0000;
  }

  /** Five sections and what follows them, split before and after each section. */
  lemma Regroup(w: seq<byte>, s: seq<byte>, c: seq<byte>, i: seq<byte>, f: seq<byte>, rest: seq<byte>)
    ensures var d := w + s + c + i + f + rest;
            && d == [] + w + (s + c + i + f + rest) == w + s + (c + i + f + rest)
            && d == (w + s) + c + (i + f + rest) == (w + s + c) + i + (f + rest)
            && d == (w + s + c + i) + f + rest
  {
  }

  lemma GroupAfter(b: seq<byte>, w: seq<byte>, s: seq<byte>, c: seq<byte>, i: seq<byte>, f: seq<byte>)
    ensures b + w + s + c + i + f == b + (w + s + c + i + f)
  {
  }

  lemma Slices(w: seq<byte>, s: seq<byte>, c: seq<byte>, t: seq<byte>)
    ensures var e, k := w + s + c + t, |w + s|;
            && e[|w|..k] == s && e[k..] == c + t
            && (|c| >= 4 ==> e[k + 4..] == c[4..] + t)
  {
  }

  lemma ClassIdReadBack(pre: seq<byte>, h: PacketHeader, post: seq<byte>, o: ByteOrder)
    requires WellFormed(h) && h.classIdPresent
    ensures var d := pre + ClassIdBytes(h, o) + post;
            && WordAt(d, |pre|, o) == h.classIdOUI.value
            && WordAt(d, |pre| + 4, o) == h.informationClassCode.value * 0x1_0000 + h.packetClassCode.value
  {
    var codes: u32 := h.informationClassCode.value * 0x1_0000 + h.packetClassCode.value;
    var oui := WordBytes(h.classIdOUI.value, o);
    var d := pre + ClassIdBytes(h, o) + post;
    assert d == pre + oui + (WordBytes(codes, o) + post);
    WordReadBack(pre, h.classIdOUI.value, WordBytes(codes, o) + post, o);
    assert d == (pre + oui) + WordBytes(codes, o) + post;
    WordReadBack(pre + oui, codes, post, o);
  }

  /** The sections of d, read where g's flags put them, are those of h. */
  ghost predicate Holds(d: seq<byte>, h: PacketHeader, o: ByteOrder)
    requires WellFormed(h) && SizeInBytes(h) <= |d|
  {
    && (HasStreamId(h.packetType) ==> WordAt(d, 4, o) == h.streamId.value)
    && (h.classIdPresent ==>
          && WordAt(d, ClassIdAt(h), o) == h.classIdOUI.value
          && WordAt(d, ClassIdAt(h) + 4, o) == h.informationClassCode.value * 0x1_0000 + h.packetClassCode.value)
    && (h.tsiType != TSI_NONE ==> WordAt(d, IntTimestampAt(h), o) == h.integerTimestamp.value)
    && (h.tsfType != TSF_NONE ==> DWordAt(d, FracTimestampAt(h), o) == h.fractionalTimestamp.value)
  }

  lemma SectionsReadBack(h: PacketHeader, rest: seq<byte>, o: ByteOrder)
    requires WellFormed(h)
    ensures |HeaderBytes(h, o)| == SizeInBytes(h)
    ensures WordAt(HeaderBytes(h, o) + rest, 0, o) == Word0(h)
    ensures Holds(HeaderBytes(h, o) + rest, h, o)
  {
    hide WordAt, WordBytes, DWordAt, DWordBytes, Word0;
    SerializedSize(h, o);
    var w, s, c, i, f := WordBytes(Word0(h), o), StreamIdBytes(h, o), ClassIdBytes(h, o),
                         IntTimestampBytes(h, o), FracTimestampBytes(h, o);
    Regroup(w, s, c, i, f, rest);
    WordReadBack([], Word0(h), s + c + i + f + rest, o);
    if HasStreamId(h.packetType) {
      WordReadBack(w, h.streamId.value, c + i + f + rest, o);
    }
    if h.classIdPresent {
      ClassIdReadBack(w + s, h, i + f + rest, o);
    }
    if h.tsiType != TSI_NONE {
      WordReadBack(w + s + c, h.integerTimestamp.value, f + rest, o);
    }
    if h.tsfType != TSF_NONE {
      DWordReadBack(w + s + c + i, h.fractionalTimestamp.value, rest, o);
    }
  }

  lemma SectionsAssemble(g: PacketHeader, h: PacketHeader, d: seq<byte>, o: ByteOrder)
    requires WellFormed(h) && SizeInBytes(h) <= |d| && Holds(d, h, o)
    requires g == h.(streamId := None, classIdOUI := None, informationClassCode := None,
                     packetClassCode := None, integerTimestamp := None, fractionalTimestamp := None)
    ensures WithSections(g, d, o) == h
  {
    hide WordAt, DWordAt;
    var r := WithSections(g, d, o);
    if h.classIdPresent {
      var hi: int, lo: int := h.informationClassCode.value, h.packetClassCode.value;
      assert (hi * 0x1_0000 + lo) / 0x1_0000 == hi && (hi * 0x1_0000 + lo) % 0x1_0000 == lo;
    }
    assert r.streamId == h.streamId && r.integerTimestamp == h.integerTimestamp;
    assert r.fractionalTimestamp == h.fractionalTimestamp;
    assert r.classIdOUI == h.classIdOUI;
    assert r.informationClassCode == h.informationClassCode && r.packetClassCode == h.packetClassCode;
  }

  /** A well-formed header followed by the rest of its packet is parsed back, field by field
      and with its length, in both byte orders. */
  lemma HeaderRoundTrip(h: PacketHeader, rest: seq<byte>, o: ByteOrder)
    requires WellFormed(h)
    requires SizeInBytes(h) <= h.packetSize * 4 <= |HeaderBytes(h, o)| + |rest|
    ensures |HeaderBytes(h, o)| == SizeInBytes(h)
    ensures ParseHeader(HeaderBytes(h, o) + rest, o) == Some(ParsedHeader(h, SizeInBytes(h)))
  {
    SectionsReadBack(h, rest, o);
    Word0RoundTrip(h);
    SectionsAssemble(HeaderOfWord0(Word0(h)), h, HeaderBytes(h, o) + rest, o);
  }

  // ---- canonicalisation: parse, then serialise ----

  /** Word 0 with its reserved bits cleared: bits 25-24, and bit 26 unless this is a data packet. */
  function ClearReserved(w: u32): int {
    w - w / 0x100_0000 % 4 * 0x100_0000
      - if IsDataPacket(w / 0x1000_0000) then 0 else w / 0x400_0000 % 2 * 0x400_0000
  }

  /** The canonical form of the prologue in d: its own bytes, except for the reserved bits of
      word 0 and the top byte of the OUI word. */
  ghost predicate IsCanonicalFormOf(e: seq<byte>, d: seq<byte>, h: PacketHeader, o: ByteOrder)
    requires SizeInBytes(h) <= |d|
  {
    && |e| == SizeInBytes(h)
    && WordAt(e, 0, o) == ClearReserved(WordAt(d, 0, o))
    && e[4..ClassIdAt(h)] == d[4..ClassIdAt(h)]
    && (h.classIdPresent ==>
          && WordAt(e, ClassIdAt(h), o) == WordAt(d, ClassIdAt(h), o) % 0x100_0000
          && e[ClassIdAt(h) + 4..] == d[ClassIdAt(h) + 4..|e|])
    && (!h.classIdPresent ==> e[ClassIdAt(h)..] == d[ClassIdAt(h)..|e|])
  }

  lemma TopSix(t: int)
    ensures t == t / 4 * 4 + t / 2 % 2 * 2 + t % 2
  {
  }

  lemma Repack(t: int, drop: int, r: int, i: int, f: int, n: int, z: int)
    requires 0 <= drop <= t < 64 && 0 <= r < 4 && 0 <= i < 4 && 0 <= f < 4 && 0 <= n < 16 && 0 <= z < 0x1_0000
    ensures Packed(t - drop, 0, i, f, n, z) == Packed(t, r, i, f, n, z) - r * 0x100_0000 - drop * 0x400_0000
  {
  }

  lemma Word0Canonical(w: u32)
    ensures Word0(HeaderOfWord0(w)) == ClearReserved(w)
  {
    var t, r, i, f, n, z := Unpack(w);
    Pack(w, t, r, i, f, n, z);
    var drop := if IsDataPacket(t / 4) then 0 else t % 2;
    assert TopBits(HeaderOfWord0(w)) == t - drop by { TopSix(t); }
    assert ClearReserved(w) == w - r * 0x100_0000 - drop * 0x400_0000;
    Repack(t, drop, r, i, f, n, z);
  }

  lemma ClassIdCanonical(d: seq<byte>, h: PacketHeader, k: nat, o: ByteOrder)
    requires k + 8 <= |d| && h.classIdPresent
    requires h.classIdOUI == Some(WordAt(d, k, o) % 0x100_0000)
    requires h.informationClassCode == Some(WordAt(d, k + 4, o) / 0x1_0000)
    requires h.packetClassCode == Some(WordAt(d, k + 4, o) % 0x1_0000)
    ensures ClassIdBytes(h, o) == WordBytes(h.classIdOUI.value, o) + d[k + 4..k + 8]
  {
    hide WordAt, WordBytes;
    var codes := WordAt(d, k + 4, o);
    assert codes / 0x1_0000 * 0x1_0000 + codes % 0x1_0000 == codes;
    WordWriteBack(d, k + 4, o);
  }

  lemma TimestampsCanonical(d: seq<byte>, h: PacketHeader, o: ByteOrder)
    requires SizeInBytes(h) <= |d|
    requires h.tsiType != TSI_NONE ==> h.integerTimestamp == Some(WordAt(d, IntTimestampAt(h), o))
    requires h.tsfType != TSF_NONE ==> h.fractionalTimestamp == Some(DWordAt(d, FracTimestampAt(h), o))
    ensures IntTimestampBytes(h, o) == d[IntTimestampAt(h)..FracTimestampAt(h)]
    ensures FracTimestampBytes(h, o) == d[FracTimestampAt(h)..SizeInBytes(h)]
  {
    if h.tsiType != TSI_NONE { WordWriteBack(d, IntTimestampAt(h), o); }
    if h.tsfType != TSF_NONE { DWordWriteBack(d, FracTimestampAt(h), o); }
  }

  /** e is w, s, c and t in a row; each of them is what d holds at the same place, up to
      reserved bits. */
  lemma TailCanonical(w: seq<byte>, s: seq<byte>, c: seq<byte>, t: seq<byte>, d: seq<byte>, h: PacketHeader,
                      o: ByteOrder)
    requires SizeInBytes(h) <= |d|
    requires |w| == 4 && WordAt(w, 0, o) == ClearReserved(WordAt(d, 0, o))
    requires s == d[4..ClassIdAt(h)]
    requires !h.classIdPresent ==> c == []
    requires h.classIdPresent ==>
               c == WordBytes(WordAt(d, ClassIdAt(h), o) % 0x100_0000, o) + d[ClassIdAt(h) + 4..ClassIdAt(h) + 8]
    requires t == d[IntTimestampAt(h)..SizeInBytes(h)]
    ensures IsCanonicalFormOf(w + s + c + t, d, h, o)
  {
    hide ClearReserved;
    var e, k, n := w + s + c + t, ClassIdAt(h), SizeInBytes(h);
    Slices(w, s, c, t);
    WordLocal(w, e, 4, 0, o);
    if h.classIdPresent {
      var v := WordAt(d, k, o) % 0x100_0000;
      assert c[4..] == d[k + 4..k + 8];
      assert d[k + 4..k + 8] + t == d[k + 4..n];
      assert e == (w + s) + WordBytes(v, o) + (c[4..] + t);
      WordReadBack(w + s, v, c[4..] + t, o);
    } else {
      assert c + t == t;
    }
  }

  lemma Reassociate(a: seq<byte>, b: seq<byte>, c: seq<byte>)
    ensures a + (b + c) == a + b + c
  {
  }

  lemma JoinSlices(d: seq<byte>, a: nat, b: nat, c: nat)
    requires a <= b <= c <= |d|
    ensures d[a..b] + d[b..c] == d[a..c]
  {
  }

  lemma SectionsCanonical(g: PacketHeader, d: seq<byte>, o: ByteOrder)
    requires SizeInBytes(g) <= |d|
    requires Word0(g) == ClearReserved(WordAt(d, 0, o))
    ensures var h := WithSections(g, d, o); IsCanonicalFormOf(HeaderBytes(h, o), d, h, o)
  {
    hide WordAt, WordBytes, DWordAt, DWordBytes, IsCanonicalFormOf, ClearReserved;
    var h := WithSections(g, d, o);
    var w, s, c, i, f := WordBytes(Word0(h), o), StreamIdBytes(h, o), ClassIdBytes(h, o),
                         IntTimestampBytes(h, o), FracTimestampBytes(h, o);
    assert WordAt(w, 0, o) == Word0(h) by { WordReadBack([], Word0(h), [], o); assert [] + w + [] == w; }
    assert s == d[4..ClassIdAt(h)] by { if HasStreamId(h.packetType) { WordWriteBack(d, 4, o); } }
    if h.classIdPresent { ClassIdCanonical(d, h, ClassIdAt(h), o); }
    TimestampsCanonical(d, h, o);
    var t := d[IntTimestampAt(h)..SizeInBytes(h)];
    JoinSlices(d, IntTimestampAt(h), FracTimestampAt(h), SizeInBytes(h));
    TailCanonical(w, d[4..ClassIdAt(h)], c, t, d, h, o);
    Reassociate(w + s + c, i, f);
  }

  /** Whatever bytes are accepted, the parsed header is well formed and serialises to the
      canonical form of those bytes. */
  lemma HeaderCanonical(d: seq<byte>, o: ByteOrder)
    requires ParseHeader(d, o).Some?
    ensures var p := ParseHeader(d, o).value;
            WellFormed(p.header) && IsCanonicalFormOf(HeaderBytes(p.header, o), d, p.header, o)
  {
    Word0Canonical(WordAt(d, 0, o));
    SectionsCanonical(HeaderOfWord0(WordAt(d, 0, o)), d, o);
  }

  /** Parse-then-serialise is idempotent: the canonical bytes parse to the same header. */
  lemma CanonicalIdempotent(d: seq<byte>, o: ByteOrder)
    requires ParseHeader(d, o).Some?
    ensures var p := ParseHeader(d, o).value;
            ParseHeader(HeaderBytes(p.header, o) + d[p.bytes..], o) == Some(p)
  {
    HeaderCanonical(d, o);
    var p := ParseHeader(d, o).value;
    HeaderRoundTrip(p.header, d[p.bytes..], o);
  }

  /** A header parse sees only the header's own bytes and whether the packet is there. */
  lemma ParseHeaderLocal(d: seq<byte>, e: seq<byte>, o: ByteOrder)
    requires ParseHeader(d, o).Some?
    requires Agree(d, e, ParseHeader(d, o).value.bytes) && ParseHeader(d, o).value.header.packetSize * 4 <= |e|
    ensures ParseHeader(e, o) == ParseHeader(d, o)
  {
    hide WordAt, DWordAt;
    var h, n := ParseHeader(d, o).value.header, ParseHeader(d, o).value.bytes;
    WordLocal(d, e, n, 0, o);
    if HasStreamId(h.packetType) { WordLocal(d, e, n, 4, o); }
    if h.classIdPresent {
      WordLocal(d, e, n, ClassIdAt(h), o);
      WordLocal(d, e, n, ClassIdAt(h) + 4, o);
    }
    if h.tsiType != TSI_NONE { WordLocal(d, e, n, IntTimestampAt(h), o); }
    if h.tsfType != TSF_NONE { DWordLocal(d, e, n, FracTimestampAt(h), o); }
  }

  // ---- the methods ----

  method Parse(d: seq<byte>, o: ByteOrder) returns (r: Option<ParsedHeader>)
    ensures r == ParseHeader(d, o)
  {
    hide WordAt, DWordAt;
    if |d| < 4 { return None; }
    var word0 := WordAt(d, 0, o);
    var header := HeaderOfWord0(word0);
    if header.packetSize == 0 || header.packetSize > MAX_PACKET_SIZE_WORDS { return None; }
    var packetBytes := header.packetSize * 4;
    if |d| < packetBytes { return None; }
    var offset := 4;
    if HasStreamId(header.packetType) {
      if offset + 4 > packetBytes { return None; }
      header := header.(streamId := Some(WordAt(d, offset, o)));
      offset := offset + 4;
    }
    if header.classIdPresent {
      if offset + 8 > packetBytes { return None; }
      var classWord1, classWord2 := WordAt(d, offset, o), WordAt(d, offset + 4, o);
      header := header.(classIdOUI := Some(classWord1 % 0x100_0000),
                        informationClassCode := Some(classWord2 / 0x1_0000),
                        packetClassCode := Some(classWord2 % 0x1_0000));
      offset := offset + 8;
    }
    if header.tsiType != TSI_NONE {
      if offset + 4 > packetBytes { return None; }
      header := header.(integerTimestamp := Some(WordAt(d, offset, o)));
      offset := offset + 4;
    }
    if header.tsfType != TSF_NONE {
      if offset + 8 > packetBytes { return None; }
      header := header.(fractionalTimestamp := Some(DWordAt(d, offset, o)));
      offset := offset + 8;
    }
    return Some(ParsedHeader(header, offset));
  }

  method BuildWord0(h: PacketHeader) returns (word0: u32)
    ensures word0 == Word0(h)
  {
    var w: int := h.packetType * 0x1000_0000;
    w := w + (if h.classIdPresent then 1 else 0) * 0x800_0000;
    if IsDataPacket(h.packetType) {
      w := w + (if h.trailerPresent then 1 else 0) * 0x400_0000;
    }
    w := w + h.tsiType * 0x40_0000;
    w := w + h.tsfType * 0x10_0000;
    w := w + h.packetCount % 16 * 0x1_0000;
    w := w + h.packetSize;
    word0 := w;
  }

  method SerializeClassId(h: PacketHeader, o: ByteOrder, out: ByteVector)
    modifies out
    ensures out.bytes == old(out.bytes) + ClassIdBytes(h, o)
  {
    if h.classIdPresent && h.classIdOUI.Some? {
      var classWord2: int := 0;
      if h.informationClassCode.Some? { classWord2 := classWord2 + h.informationClassCode.value * 0x1_0000; }
      if h.packetClassCode.Some? { classWord2 := classWord2 + h.packetClassCode.value; }
      out.AppendWord(h.classIdOUI.value % 0x100_0000, o);
      out.AppendWord(classWord2, o);
    }
  }

  lemma FiveAppends(b0: seq<byte>, b1: seq<byte>, b2: seq<byte>, b3: seq<byte>, b4: seq<byte>, b5: seq<byte>,
                    h: PacketHeader, o: ByteOrder)
    requires b1 == b0 + WordBytes(Word0(h), o) && b2 == b1 + StreamIdBytes(h, o) && b3 == b2 + ClassIdBytes(h, o)
    requires b4 == b3 + IntTimestampBytes(h, o) && b5 == b4 + FracTimestampBytes(h, o)
    ensures b5 == b0 + HeaderBytes(h, o)
  {
    GroupAfter(b0, WordBytes(Word0(h), o), StreamIdBytes(h, o), ClassIdBytes(h, o),
               IntTimestampBytes(h, o), FracTimestampBytes(h, o));
  }

  method Serialize(h: PacketHeader, o: ByteOrder, out: ByteVector)
    modifies out
    ensures out.bytes == old(out.bytes) + HeaderBytes(h, o)
  {
    var word0 := BuildWord0(h);
    ghost var b0 := out.bytes;
    out.AppendWord(word0, o);
    ghost var b1 := out.bytes;
    if HasStreamId(h.packetType) && h.streamId.Some? {
      out.AppendWord(h.streamId.value, o);
    }
    ghost var b2 := out.bytes;
    assert b2 == b1 + StreamIdBytes(h, o);
    SerializeClassId(h, o, out);
    ghost var b3 := out.bytes;
    if h.tsiType != TSI_NONE && h.integerTimestamp.Some? {
      out.AppendWord(h.integerTimestamp.value, o);
    }
    ghost var b4 := out.bytes;
    assert b4 == b3 + IntTimestampBytes(h, o);
    if h.tsfType != TSF_NONE && h.fractionalTimestamp.Some? {
      out.AppendDWord(h.fractionalTimestamp.value, o);
    }
    assert out.bytes == b4 + FracTimestampBytes(h, o);
    FiveAppends(b0, b1, b2, b3, b4, out.bytes, h, o);
  }
}
