/** Integers that a double holds, and the conversion of an integer to double: to nearest, ties
    to even (IEEE 754-2019, section 4.3.1). A double has a significand of 53 bits. */
module Doubles {
  import opened Arithmetic

  const SIGNIFICANDS: nat := 0x20_0000_0000_0000

  function Abs(n: int): nat { if n >= 0 then n else -n }

  function Pow2(k: nat): (p: nat)
    ensures p > 0
  {
    if k == 0 then 1 else 2 * Pow2(k - 1)
  }

  /** The distance between the doubles around n. */
  function Ulp(n: nat): (u: nat)
    ensures u > 0
  {
    if n < SIGNIFICANDS then 1 else 2 * Ulp(n / 2)
  }

  /** n is a double. */
  predicate Exact(n: int) { Abs(n) % Ulp(Abs(n)) == 0 }

  function NearestDouble(n: nat): (v: int)
    ensures v >= 0
  {
    var u := Ulp(n);
    var q, r := n / u, n % u;
    if 2 * r < u || (2 * r == u && q % 2 == 0) then q * u else (q + 1) * u
  }

  /** static_cast<double> of an integer. */
  function ToDouble(n: int): int { if n >= 0 then NearestDouble(n) else -NearestDouble(-n) }

  // ---- binades ----

  lemma {:induction false} UlpPower(n: nat) returns (k: nat)
    ensures Ulp(n) == Pow2(k)
  {
    if n < SIGNIFICANDS {
      k := 0;
    } else {
      var j := UlpPower(n / 2);
      k := j + 1;
    }
  }

  /** n has 53 significant bits at its own spacing. */
  lemma {:induction false} UlpBounds(n: nat)
    ensures n < SIGNIFICANDS * Ulp(n)
    ensures n >= SIGNIFICANDS ==> SIGNIFICANDS * Ulp(n) <= 2 * n
  {
    if n < SIGNIFICANDS {
    } else {
      UlpBounds(n / 2);
    }
  }

  lemma HalfBounds(n: nat, p: nat)
    requires p > 0 && SIGNIFICANDS * (2 * p) <= 2 * n && n < SIGNIFICANDS * (2 * p)
    ensures SIGNIFICANDS * p <= 2 * (n / 2) && n / 2 < SIGNIFICANDS * p && n >= SIGNIFICANDS
  {
    var z := SIGNIFICANDS / 2 * p;
    assert 2 * z <= n < 4 * z;
  }

  lemma {:induction false} UlpOfBinade(n: nat, k: nat)
    requires SIGNIFICANDS * Pow2(k) <= 2 * n && n < SIGNIFICANDS * Pow2(k)
    ensures Ulp(n) == Pow2(k)
  {
    if k == 0 {
    } else {
      HalfBounds(n, Pow2(k - 1));
      UlpOfBinade(n / 2, k - 1);
    }
  }

  lemma MultipleModulo(q: nat, p: nat)
    requires p > 0
    ensures q * p % p == 0 && q * p / p == q
  {
    DivUnique(q * p, p, q, 0);
  }

  /** A multiple of u = 2^k with at most 53 significant bits is a double. */
  lemma MultipleExact(q: nat, k: nat)
    requires SIGNIFICANDS <= 2 * q && q <= SIGNIFICANDS
    ensures Exact(q * Pow2(k))
    ensures q < SIGNIFICANDS ==> Ulp(q * Pow2(k)) == Pow2(k)
  {
    var n := q * Pow2(k);
    if q < SIGNIFICANDS {
      MultiplyLess(q, SIGNIFICANDS, Pow2(k));
      MultiplyLess(SIGNIFICANDS, 2 * q, Pow2(k));
      UlpOfBinade(n, k);
      MultipleModulo(q, Pow2(k));
    } else {
      UlpOfBinade(n, k + 1);
      assert n == SIGNIFICANDS / 2 * Pow2(k + 1);
      MultipleModulo(SIGNIFICANDS / 2, Pow2(k + 1));
    }
  }

  // ---- the conversion ----

  lemma QuotientBelow(n: nat, u: nat, b: nat)
    requires u > 0 && n < b * u
    ensures n / u < b
  {
    if n / u >= b { MultiplyLess(b, n / u, u); }
  }

  lemma QuotientAbove(n: nat, u: nat, b: nat)
    requires u > 0 && b * u <= n
    ensures b <= n / u
  {
    if n / u < b { MultiplyLess(n / u + 1, b, u); }
  }

  lemma ToDoubleParts(n: nat) returns (q: nat, r: nat, k: nat)
    ensures Ulp(n) == Pow2(k) && n == q * Pow2(k) + r && r < Pow2(k) && q < SIGNIFICANDS
    ensures n >= SIGNIFICANDS ==> SIGNIFICANDS <= 2 * q
    ensures n < SIGNIFICANDS ==> k == 0
    ensures NearestDouble(n) == (if 2 * r < Pow2(k) || (2 * r == Pow2(k) && q % 2 == 0) then q else q + 1) * Pow2(k)
    ensures Exact(n) <==> r == 0
  {
    k := UlpPower(n);
    if n < SIGNIFICANDS { k := 0; }
    var u := Ulp(n);
    UlpBounds(n);
    q, r := n / u, n % u;
    QuotientBelow(n, u, SIGNIFICANDS);
    if n >= SIGNIFICANDS { QuotientAbove(n, u, SIGNIFICANDS / 2); }
  }

  /** What the conversion gives is a double, and it leaves exactly the doubles as they are. */
  lemma ToDoubleExact(n: int)
    ensures Exact(ToDouble(n))
    ensures ToDouble(n) == n <==> Exact(n)
  {
    var q, r, k := ToDoubleParts(Abs(n));
    var p := Pow2(k);
    if Abs(n) < SIGNIFICANDS {
    } else {
      MultipleExact(q, k);
      MultipleExact(q + 1, k);
      assert (q + 1) * p == q * p + p;
    }
  }

  /** From the binade of q * 2^k on, doubles are multiples of 2^k. */
  lemma NeighboursAbove(m: nat, q: nat, k: nat)
    requires Exact(m) && SIGNIFICANDS * Pow2(k) <= 2 * m && q < SIGNIFICANDS
    ensures m <= q * Pow2(k) || (q + 1) * Pow2(k) <= m
  {
    var p := Pow2(k);
    if m < SIGNIFICANDS * p {
      UlpOfBinade(m, k);
      var x := m / p;
      assert m == x * p;
      if x <= q { MultiplyLess(x, q, p); } else { MultiplyLess(q + 1, x, p); }
    } else {
      MultiplyLess(q + 1, SIGNIFICANDS, p);
    }
  }

  lemma PickNearer(n: nat, a: nat, r: nat, p: nat, v: nat, m: nat)
    requires n == a + r && r < p && (m <= a || a + p <= m)
    requires if 2 * r < p then v == a else v == a + p || (2 * r == p && v == a)
    ensures Abs(v - n) <= Abs(m - n)
  {
  }

  lemma PowZero()
    ensures Pow2(0) == 1
  {
  }

  lemma Successor(q: nat, p: nat)
    ensures (q + 1) * p == q * p + p
  {
  }

  lemma BelowBinade(m: nat, q: nat, p: nat)
    requires SIGNIFICANDS <= 2 * q && p > 0 && 2 * m < SIGNIFICANDS * p
    ensures m <= q * p
  {
    MultiplyLess(SIGNIFICANDS / 2, q, p);
  }

  lemma NearestIsNearest(n: nat, m: nat)
    requires Exact(m)
    ensures Abs(NearestDouble(n) - n) <= Abs(m - n)
  {
    hide NearestDouble, Ulp, Pow2, Exact;
    var q, r, k := ToDoubleParts(n);
    PowZero();
    Successor(q, Pow2(k));
    if n < SIGNIFICANDS {
      assert NearestDouble(n) == n;
    } else {
      if SIGNIFICANDS * Pow2(k) <= 2 * m { NeighboursAbove(m, q, k); } else { BelowBinade(m, q, Pow2(k)); }
      PickNearer(n, q * Pow2(k), r, Pow2(k), NearestDouble(n), m);
    }
  }

  /** The conversion picks a double nearest to n. */
  lemma ToDoubleIsNearest(n: int, m: int)
    requires Exact(m)
    ensures Abs(ToDouble(n) - n) <= Abs(m - n)
  {
    hide NearestDouble;
    NearestIsNearest(Abs(n), Abs(m));
    NearestIsNearest(Abs(n), 0);
  }

  /** Every number with a significand of 53 bits is a double. */
  lemma {:induction false} SignificandExact(m: nat, e: nat)
    requires m <= SIGNIFICANDS
    ensures Exact(m * Pow2(e)) && Exact(-(m * Pow2(e)))
    decreases e
  {
    if 2 * m >= SIGNIFICANDS {
      MultipleExact(m, e);
    } else if e == 0 {
      assert m * Pow2(0) == m;
    } else {
      assert 2 * m * Pow2(e - 1) == m * Pow2(e);
      hide Exact;
      SignificandExact(2 * m, e - 1);
    }
  }

  // ---- 64-bit integers ----

  lemma {:induction false} PowMonotone(j: nat, k: nat)
    requires j <= k
    ensures Pow2(j) <= Pow2(k)
    decreases k
  {
    if j == k {
    } else {
      PowMonotone(j, k - 1);
    }
  }

  lemma SmallPowers()
    ensures Pow2(9) == 0x200 && Pow2(10) == 0x400 && Pow2(11) == 0x800
  {
    assert Pow2(3) == 8;
    assert Pow2(6) == 64;
    assert Pow2(9) == 0x200;
  }

  lemma LowBinade(q: nat, r: nat, p: nat)
    requires q < SIGNIFICANDS && r < p <= 0x200
    ensures q * p + r < q * p + p == (q + 1) * p <= 0x4000_0000_0000_0000
  {
    assert (q + 1) * p == q * p + p;
    MultiplyLess(q + 1, SIGNIFICANDS, p);
  }

  lemma TopBinade(q: nat, r: nat, p: nat)
    requires SIGNIFICANDS <= 2 * q && q * p + r < 0x8000_0000_0000_0000
    ensures p < 0x800
  {
    if p >= 0x800 {
      MultiplyLess(0x800, p, q);
    }
  }

  /** The magnitude of an int64 that is not the most negative one. */
  lemma ToDoubleRange(n: nat)
    requires n < 0x8000_0000_0000_0000
    ensures NearestDouble(n) <= 0x8000_0000_0000_0000
    ensures NearestDouble(n) < 0x8000_0000_0000_0000 <==> n < 0x7FFF_FFFF_FFFF_FE00
  {
    hide NearestDouble, Ulp, Exact, Pow2;
    var q, r, k := ToDoubleParts(n);
    SmallPowers();
    if n < SIGNIFICANDS {
      PowZero();
    } else if k <= 9 {
      PowMonotone(k, 9);
      LowBinade(q, r, Pow2(k));
    } else {
      TopBinade(q, r, Pow2(k));
      if k >= 11 { PowMonotone(11, k); }
    }
  }

  /** static_cast of the double back to int64 is defined exactly below 2^63 - 512: from there
      on the conversion rounds up to 2^63. */
  lemma CastBackIff(n: int)
    requires -0x8000_0000_0000_0000 <= n < 0x8000_0000_0000_0000
    ensures -0x8000_0000_0000_0000 <= ToDouble(n)
    ensures ToDouble(n) < 0x8000_0000_0000_0000 <==> n < 0x7FFF_FFFF_FFFF_FE00
  {
    hide NearestDouble;
    if Abs(n) < 0x8000_0000_0000_0000 {
      ToDoubleRange(Abs(n));
    } else {
      SmallPowers();
      MultipleExact(SIGNIFICANDS / 2, 11);
      ToDoubleExact(n);
    }
  }
}
