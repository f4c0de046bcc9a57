/** Words as bit-vectors and back. */
module BitVectors {
  import opened Arithmetic
  import opened ByteSwap

  predicate Bit(cif0: bv32, bit: int)
    requires 0 <= bit <= 31
  {
    cif0 & (1 << bit) != 0
  }

  function ToBits(w: u32): bv32 { w as bv32 }

  function FromBits(b: bv32): u32 { b as int }

  lemma BitsBack(b: bv32)
    ensures ToBits(FromBits(b)) == b
  {
  }

  /** 2^k */
  function Weight(k: nat): (p: nat)
    requires k <= 32
    ensures p > 0
  {
    match k
    case 0 => 1 case 1 => 2 case 2 => 4 case 3 => 8
    case 4 => 0x10 case 5 => 0x20 case 6 => 0x40 case 7 => 0x80
    case 8 => 0x100 case 9 => 0x200 case 10 => 0x400 case 11 => 0x800
    case 12 => 0x1000 case 13 => 0x2000 case 14 => 0x4000 case 15 => 0x8000
    case 16 => 0x1_0000 case 17 => 0x2_0000 case 18 => 0x4_0000 case 19 => 0x8_0000
    case 20 => 0x10_0000 case 21 => 0x20_0000 case 22 => 0x40_0000 case 23 => 0x80_0000
    case 24 => 0x100_0000 case 25 => 0x200_0000 case 26 => 0x400_0000 case 27 => 0x800_0000
    case 28 => 0x1000_0000 case 29 => 0x2000_0000 case 30 => 0x4000_0000 case 31 => 0x8000_0000
    case _ => 0x1_0000_0000
  }

  lemma WeightStep(k: nat)
    requires k < 32
    ensures Weight(k + 1) == 2 * Weight(k)
  {
  }

  lemma LowBit(w: u32, k: nat)
    requires k < 16
    ensures Bit(ToBits(w), k) <==> w / Weight(k) % 2 == 1
  {
    match k
    case 0 => case 1 => case 2 => case 3 => case 4 => case 5 => case 6 => case 7 =>
    case 8 => case 9 => case 10 => case 11 => case 12 => case 13 => case 14 => case 15 =>
  }

  lemma HighBit(w: u32, k: nat)
    requires 16 <= k < 32
    ensures Bit(ToBits(w), k) <==> w / Weight(k) % 2 == 1
  {
    match k
    case 16 => case 17 => case 18 => case 19 => case 20 => case 21 => case 22 => case 23 =>
    case 24 => case 25 => case 26 => case 27 => case 28 => case 29 => case 30 => case 31 =>
  }

  lemma HalfOf(w: nat, p: nat)
    requires p > 0
    ensures w / p == 2 * (w / (2 * p)) + w / p % 2
  {
    var q, r := w / p, w % p;
    assert w == q * p + r;
    var h, b := q / 2, q % 2;
    assert q * p == h * (2 * p) + b * p;
    assert b == 0 || b == 1;
    DivUnique(w, 2 * p, h, b * p + r);
  }

  lemma {:induction false} SameAbove(v: u32, w: u32, k: nat)
    requires k <= 32 && ToBits(v) == ToBits(w)
    ensures v / Weight(k) == w / Weight(k)
    decreases 32 - k
  {
    hide ToBits, Bit;
    if k == 32 {
    } else {
      hide Weight;
      WeightStep(k);
      SameAbove(v, w, k + 1);
      if k < 16 {
        LowBit(v, k);
        LowBit(w, k);
      } else {
        HighBit(v, k);
        HighBit(w, k);
      }
      HalfOf(v, Weight(k));
      HalfOf(w, Weight(k));
    }
  }

  /** A word is the number of its bits. */
  lemma BitsForth(w: u32)
    ensures FromBits(ToBits(w)) == w
  {
    var v := FromBits(ToBits(w));
    BitsBack(ToBits(w));
    hide ToBits, FromBits;
    SameAbove(v, w, 0);
  }
}
