/** Endian-aware 16/32/64-bit reads and writes (src/libs/Vita49_2/ByteSwap.h).
    Bytes and words are integers in range; a shift by k bits is a division or a
    multiplication by 2^k, and `|` of disjoint bit ranges is `+`. */
module ByteSwap {

  datatype ByteOrder = BigEndian | LittleEndian

  type byte = b: int | 0 <= b < 0x100
  type u16 = v: int | 0 <= v < 0x1_0000
  type u32 = v: int | 0 <= v < 0x1_0000_0000
  type u64 = v: int | 0 <= v < 0x1_0000_0000_0000_0000
  type i16 = v: int | -0x8000 <= v < 0x8000
  type i64 = v: int | -0x8000_0000_0000_0000 <= v < 0x8000_0000_0000_0000

  // ---- two's complement reinterpretation (static_cast between signed and unsigned) ----

  function SignedOf16(v: u16): i16 { if v < 0x8000 then v else v - 0x1_0000 }

  function UnsignedOf16(v: i16): u16 { if v >= 0 then v else v + 0x1_0000 }

  function SignedOf64(v: u64): i64 {
    if v < 0x8000_0000_0000_0000 then v else v - 0x1_0000_0000_0000_0000
  }

  function UnsignedOf64(v: i64): u64 { if v >= 0 then v else v + 0x1_0000_0000_0000_0000 }

  // ---- reads ----

  function U16At(d: seq<byte>, off: nat, o: ByteOrder): u16
    requires off + 2 <= |d|
  {
    var b0: int, b1: int := d[off], d[off + 1];
    if o.BigEndian? then b0 * 0x100 + b1 else b0 + b1 * 0x100
  }

  function WordAt(d: seq<byte>, off: nat, o: ByteOrder): u32
    requires off + 4 <= |d|
  {
    var b0: int, b1: int, b2: int, b3: int := d[off], d[off + 1], d[off + 2], d[off + 3];
    if o.BigEndian? then
      b0 * 0x100_0000 + b1 * 0x1_0000 + b2 * 0x100 + b3
    else
      b0 + b1 * 0x100 + b2 * 0x1_0000 + b3 * 0x100_0000
  }

  function DWordAt(d: seq<byte>, off: nat, o: ByteOrder): u64
    requires off + 8 <= |d|
  {
    var w0: int, w1: int := WordAt(d, off, o), WordAt(d, off + 4, o);
    if o.BigEndian? then w0 * 0x1_0000_0000 + w1 else w0 + w1 * 0x1_0000_0000
  }

  /** Which byte weighs what, in both orders. */
  lemma BytePositions(b0: byte, b1: byte, b2: byte, b3: byte, b4: byte, b5: byte, b6: byte, b7: byte)
    ensures U16At([b0, b1], 0, BigEndian) == b0 * 0x100 + b1
    ensures U16At([b0, b1], 0, LittleEndian) == b0 + b1 * 0x100
    ensures WordAt([b0, b1, b2, b3], 0, BigEndian) == b0 * 0x100_0000 + b1 * 0x1_0000 + b2 * 0x100 + b3
    ensures WordAt([b0, b1, b2, b3], 0, LittleEndian) == b0 + b1 * 0x100 + b2 * 0x1_0000 + b3 * 0x100_0000
    ensures DWordAt([b0, b1, b2, b3, b4, b5, b6, b7], 0, BigEndian)
         == b0 * 0x100_0000_0000_0000 + b1 * 0x1_0000_0000_0000 + b2 * 0x100_0000_0000 + b3 * 0x1_0000_0000
            + b4 * 0x100_0000 + b5 * 0x1_0000 + b6 * 0x100 + b7
    ensures DWordAt([b0, b1, b2, b3, b4, b5, b6, b7], 0, LittleEndian)
         == b0 + b1 * 0x100 + b2 * 0x1_0000 + b3 * 0x100_0000
            + b4 * 0x1_0000_0000 + b5 * 0x100_0000_0000 + b6 * 0x1_0000_0000_0000 + b7 * 0x100_0000_0000_0000
  {
  }

  /** Reads elsewhere see the slice under them. */
  lemma ReadsShift(d: seq<byte>, off: nat, o: ByteOrder)
    ensures off + 2 <= |d| ==> U16At(d, off, o) == U16At(d[off..off + 2], 0, o)
    ensures off + 4 <= |d| ==> WordAt(d, off, o) == WordAt(d[off..off + 4], 0, o)
    ensures off + 8 <= |d| ==> DWordAt(d, off, o) == DWordAt(d[off..off + 8], 0, o)
  {
  }

  /** The signed value is the one int of its width that is congruent to the bits. */
  lemma TwosComplement(v: u16, w: u64)
    ensures (SignedOf16(v) - v) % 0x1_0000 == 0 && (UnsignedOf16(SignedOf16(v)) == v)
    ensures (SignedOf64(w) - w) % 0x1_0000_0000_0000_0000 == 0 && UnsignedOf64(SignedOf64(w)) == w
  {
  }

  // ---- writes ----

  function U16Bytes(v: u16, o: ByteOrder): (r: seq<byte>)
    ensures |r| == 2
  {
    if o.BigEndian? then [v / 0x100, v % 0x100] else [v % 0x100, v / 0x100]
  }

  function WordBytes(v: u32, o: ByteOrder): (r: seq<byte>)
    ensures |r| == 4
  {
    if o.BigEndian? then
      [v / 0x100_0000, v / 0x1_0000 % 0x100, v / 0x100 % 0x100, v % 0x100]
    else
      [v % 0x100, v / 0x100 % 0x100, v / 0x1_0000 % 0x100, v / 0x100_0000]
  }

  function DWordBytes(v: u64, o: ByteOrder): (r: seq<byte>)
    ensures |r| == 8
  {
    if o.BigEndian? then
      WordBytes(v / 0x1_0000_0000, o) + WordBytes(v % 0x1_0000_0000, o)
    else
      WordBytes(v % 0x1_0000_0000, o) + WordBytes(v / 0x1_0000_0000, o)
  }

  // ---- a write followed by a read, anywhere in a buffer ----

  lemma U16ReadBack(pre: seq<byte>, v: u16, post: seq<byte>, o: ByteOrder)
    ensures U16At(pre + U16Bytes(v, o) + post, |pre|, o) == v
  {
  }

  lemma Recompose(v: u32)
    ensures v / 0x100_0000 * 0x100_0000 + v / 0x1_0000 % 0x100 * 0x1_0000 + v / 0x100 % 0x100 * 0x100 + v % 0x100 == v
  {
    var b3, high := v % 0x100, v / 0x100;
    var b2, top := high % 0x100, high / 0x100;
    assert v == high * 0x100 + b3 && high == top * 0x100 + b2;
    assert v / 0x1_0000 == top;
    assert v / 0x100_0000 == top / 0x100;
  }

  lemma WordReadBack(pre: seq<byte>, v: u32, post: seq<byte>, o: ByteOrder)
    ensures WordAt(pre + WordBytes(v, o) + post, |pre|, o) == v
  {
    var d, w, n := pre + WordBytes(v, o) + post, WordBytes(v, o), |pre|;
    assert d[n] == w[0] && d[n + 1] == w[1] && d[n + 2] == w[2] && d[n + 3] == w[3];
    Recompose(v);
  }

  lemma DWordReadBack(pre: seq<byte>, v: u64, post: seq<byte>, o: ByteOrder)
    ensures DWordAt(pre + DWordBytes(v, o) + post, |pre|, o) == v
  {
    var hi, lo := v / 0x1_0000_0000, v % 0x1_0000_0000;
    var (first, second) := if o.BigEndian? then (hi, lo) else (lo, hi);
    var d := pre + DWordBytes(v, o) + post;
    assert d == pre + WordBytes(first, o) + (WordBytes(second, o) + post);
    WordReadBack(pre, first, WordBytes(second, o) + post, o);
    assert d == (pre + WordBytes(first, o)) + WordBytes(second, o) + post;
    WordReadBack(pre + WordBytes(first, o), second, post, o);
  }

  // ---- a read followed by a write: the bytes come back ----

  lemma Digits(b0: byte, b1: byte, b2: byte, b3: byte)
    ensures var v: int := b0 * 0x100_0000 + b1 * 0x1_0000 + b2 * 0x100 + b3;
            && v / 0x100_0000 == b0 && v / 0x1_0000 % 0x100 == b1
            && v / 0x100 % 0x100 == b2 && v % 0x100 == b3
  {
    var v: int := b0 * 0x100_0000 + b1 * 0x1_0000 + b2 * 0x100 + b3;
    assert v / 0x100 == b0 * 0x1_0000 + b1 * 0x100 + b2;
    assert v / 0x1_0000 == b0 * 0x100 + b1;
    assert v / 0x100_0000 == b0;
  }

  lemma WordWriteBack(d: seq<byte>, off: nat, o: ByteOrder)
    requires off + 4 <= |d|
    ensures WordBytes(WordAt(d, off, o), o) == d[off..off + 4]
  {
    if o.BigEndian? {
      Digits(d[off], d[off + 1], d[off + 2], d[off + 3]);
    } else {
      Digits(d[off + 3], d[off + 2], d[off + 1], d[off]);
    }
  }

  lemma DWordWriteBack(d: seq<byte>, off: nat, o: ByteOrder)
    requires off + 8 <= |d|
    ensures DWordBytes(DWordAt(d, off, o), o) == d[off..off + 8]
  {
    WordWriteBack(d, off, o);
    WordWriteBack(d, off + 4, o);
    var w0: int, w1: int := WordAt(d, off, o), WordAt(d, off + 4, o);
    var (hi, lo) := if o.BigEndian? then (w0, w1) else (w1, w0);
    assert DWordAt(d, off, o) / 0x1_0000_0000 == hi && DWordAt(d, off, o) % 0x1_0000_0000 == lo;
    assert d[off..off + 8] == d[off..off + 4] + d[off + 4..off + 8];
  }

  // ---- locality: a read only sees the bytes under it ----

  /** The first n bytes of the two buffers exist and coincide. */
  ghost predicate Agree(a: seq<byte>, b: seq<byte>, n: nat) {
    && n <= |a| && n <= |b|
    && forall i :: 0 <= i < n ==> a[i] == b[i]
  }

  lemma WordLocal(a: seq<byte>, b: seq<byte>, n: nat, off: nat, o: ByteOrder)
    requires Agree(a, b, n) && off + 4 <= n
    ensures WordAt(a, off, o) == WordAt(b, off, o)
  {
  }

  lemma DWordLocal(a: seq<byte>, b: seq<byte>, n: nat, off: nat, o: ByteOrder)
    requires Agree(a, b, n) && off + 8 <= n
    ensures DWordAt(a, off, o) == DWordAt(b, off, o)
  {
  }

  // ---- stores through a pointer into a fixed buffer ----

  method WriteU16(p: array<byte>, off: nat, v: u16, o: ByteOrder)
    requires off + 2 <= p.Length
    modifies p
    ensures p[..] == old(p[..off]) + U16Bytes(v, o) + old(p[off + 2..])
  {
    if o.BigEndian? {
      p[off], p[off + 1] := v / 0x100, v % 0x100;
    } else {
      p[off], p[off + 1] := v % 0x100, v / 0x100;
    }
  }

  method WriteU32(p: array<byte>, off: nat, v: u32, o: ByteOrder)
    requires off + 4 <= p.Length
    modifies p
    ensures p[..] == old(p[..off]) + WordBytes(v, o) + old(p[off + 4..])
  {
    if o.BigEndian? {
      p[off], p[off + 1] := v / 0x100_0000, v / 0x1_0000 % 0x100;
      p[off + 2], p[off + 3] := v / 0x100 % 0x100, v % 0x100;
    } else {
      p[off], p[off + 1] := v % 0x100, v / 0x100 % 0x100;
      p[off + 2], p[off + 3] := v / 0x1_0000 % 0x100, v / 0x100_0000;
    }
  }

  /** memcpy of a whole byte string to p + off. */
  method CopyInto(p: array<byte>, off: nat, src: seq<byte>)
    requires off + |src| <= p.Length
    modifies p
    ensures p[..] == old(p[..off]) + src + old(p[off + |src|..])
  {
    for i := 0 to |src|
      invariant p[..off] == old(p[..off])
      invariant p[off..off + i] == src[..i]
      invariant p[off + |src|..] == old(p[off + |src|..])
    {
      p[off + i] := src[i];
    }
  }
}
