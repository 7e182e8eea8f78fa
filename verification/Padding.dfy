/** Bit operations on unsigned words, one bit at a time. */
module Words {
  import opened Basics

  const WORD: nat := 0x1_0000_0000

  /** `a >> k` */
  function Shr(a: nat, k: nat): nat
  {
    if k == 0 then a else Shr(a / 2, k - 1)
  }

  /** `a | b` */
  function Or(a: nat, b: nat): nat
  {
    if a == 0 && b == 0 then 0
    else 2 * Or(a / 2, b / 2) + if a % 2 == 1 || b % 2 == 1 then 1 else 0
  }

  /** `a & ~b` */
  function AndNot(a: nat, b: nat): nat
  {
    if a == 0 then 0
    else 2 * AndNot(a / 2, b / 2) + if a % 2 == 1 && b % 2 == 0 then 1 else 0
  }

  lemma {:induction false} PowAdds(j: nat, k: nat)
    ensures Pow2(j + k) == Pow2(j) * Pow2(k)
    decreases j
  {
    if j > 0 {
      PowAdds(j - 1, k);
      assert Pow2(j) * Pow2(k) == 2 * (Pow2(j - 1) * Pow2(k));
    }
  }

  lemma {:induction false} PowGrows(j: nat, k: nat)
    requires j < k
    ensures Pow2(j) < Pow2(k)
    decreases k
  {
    if j < k - 1 { PowGrows(j, k - 1); }
  }

  /** A number is its high part and its low `k` bits. */
  lemma {:induction false} ShrSplits(a: nat, k: nat)
    ensures Pow2(k) * Shr(a, k) <= a < Pow2(k) * Shr(a, k) + Pow2(k)
    decreases k
  {
    if k > 0 {
      ShrSplits(a / 2, k - 1);
      assert Pow2(k) * Shr(a, k) == 2 * (Pow2(k - 1) * Shr(a, k));
    }
  }

  lemma MulCancel(d: nat, x: nat, y: nat)
    requires d * x < d * y
    ensures x < y
  {
    if x >= y { MulGrows(d, y, x); }
  }

  lemma MulGrows(d: nat, x: nat, y: nat)
    requires x <= y
    ensures d * x <= d * y
  {
  }

  lemma ShrBetween(a: nat, k: nat, x: nat, y: nat)
    requires Pow2(k) * x <= a < Pow2(k) * y
    ensures x <= Shr(a, k) < y
  {
    ShrSplits(a, k);
    MulCancel(Pow2(k), Shr(a, k), y);
    assert Pow2(k) * (Shr(a, k) + 1) == Pow2(k) * Shr(a, k) + Pow2(k);
    MulCancel(Pow2(k), x, Shr(a, k) + 1);
  }

  lemma {:induction false} ShrTwice(a: nat, j: nat, k: nat)
    ensures Shr(Shr(a, j), k) == Shr(a, j + k)
    decreases j
  {
    if j > 0 { ShrTwice(a / 2, j - 1, k); }
  }

  /** `or` works on high and low parts apart. */
  lemma {:induction false} OrShifts(a: nat, b: nat, j: nat)
    ensures Shr(Or(a, b), j) == Or(Shr(a, j), Shr(b, j))
    decreases j
  {
    if j > 0 {
      assert Or(a, b) / 2 == Or(a / 2, b / 2);
      OrShifts(a / 2, b / 2, j - 1);
    }
  }

  lemma {:induction false} OrBounds(a: nat, b: nat, k: nat)
    requires a < Pow2(k) && b < Pow2(k)
    ensures a <= Or(a, b) < Pow2(k)
    decreases k
  {
    if a != 0 || b != 0 {
      OrBounds(a / 2, b / 2, k - 1);
    }
  }

  /** A mask of ones, one bit shorter. */
  lemma MaskStep(a: nat, m: nat)
    ensures Or(a, 2 * m + 1) == 2 * Or(a / 2, m) + 1
    ensures AndNot(a, 2 * m + 1) == 2 * AndNot(a / 2, m)
  {
    assert (2 * m + 1) / 2 == m && (2 * m + 1) % 2 == 1;
  }

  lemma TimesTwo(p: nat, s: nat)
    ensures (2 * p) * s == 2 * (p * s)
  {
  }

  /** Setting the low `k` bits. */
  lemma {:induction false} OrOnes(a: nat, k: nat)
    ensures Or(a, Pow2(k) - 1) == Pow2(k) * Shr(a, k) + Pow2(k) - 1
    decreases k
  {
    hide Or;
    if k == 0 {
      OrZero(a);
    } else {
      OrOnes(a / 2, k - 1);
      MaskStep(a, Pow2(k - 1) - 1);
      TimesTwo(Pow2(k - 1), Shr(a / 2, k - 1));
    }
  }

  lemma {:induction false} OrZero(a: nat)
    ensures Or(a, 0) == a
  {
    if a > 0 { OrZero(a / 2); }
  }

  /** Clearing the low `k` bits. */
  lemma {:induction false} AndNotOnes(a: nat, k: nat)
    ensures AndNot(a, Pow2(k) - 1) == Pow2(k) * Shr(a, k)
    decreases k
  {
    hide AndNot;
    if k == 0 {
      AndNotZero(a);
    } else {
      AndNotOnes(a / 2, k - 1);
      MaskStep(a, Pow2(k - 1) - 1);
      TimesTwo(Pow2(k - 1), Shr(a / 2, k - 1));
    }
  }

  lemma {:induction false} AndNotZero(a: nat)
    ensures AndNot(a, 0) == a
  {
    if a > 0 { AndNotZero(a / 2); }
  }
}

/** The NIP-44 padded length (src/nip44.c), on 32-bit words. */
module Padding {
  import opened Basics
  import opened Words

  /** One smearing step, `v |= v >> k`. */
  function Smear(v: nat, k: nat): nat
  {
    Or(v, Shr(v, k))
  }

  /** `next_pow2_32` */
  function NextPow2(v: nat): nat
  {
    if v <= 1 then 1
    else (Smear(Smear(Smear(Smear(Smear(v - 1, 1), 2), 4), 8), 16) + 1) % WORD
  }

  /** The top `m` of `v`'s `bits` bits are set, so it is within 2^(bits-m) of 2^bits. */
  ghost predicate TopOnes(v: nat, bits: nat, m: nat)
  {
    v < Pow2(bits) && v + Pow2(bits - if m < bits then m else bits) >= Pow2(bits)
  }

  /** Shifting away the low `k` of `t` bits, the rest being ones. */
  lemma ShrOfOnes(a: nat, t: nat, k: nat)
    requires k <= t && Pow2(t) <= a + Pow2(k) && a < Pow2(t)
    ensures Shr(a, k) == Pow2(t - k) - 1
  {
    PowAdds(k, t - k);
    assert Pow2(k) * (Pow2(t - k) - 1) == Pow2(t) - Pow2(k);
    ShrBetween(a, k, Pow2(t - k) - 1, Pow2(t - k));
  }

  lemma MulMinus(p: nat, q: nat)
    ensures p * (q - 1) == p * q - p
  {
  }

  lemma PowAtMost(j: nat, k: nat)
    requires j <= k
    ensures Pow2(j) <= Pow2(k)
  {
    if j < k { PowGrows(j, k); }
  }

  /** The case of at most 2m bits: all of them become ones. */
  lemma SmearFills(a: nat, t: nat, m: nat)
    requires 0 < m <= t <= 2 * m && TopOnes(a, t, m)
    ensures Or(a, Shr(a, m)) == Pow2(t) - 1
  {
    hide Pow2, Shr, Or;
    PowAtMost(t - m, m);
    ShrOfOnes(a, t, m);
    ShrOfOnes(a, t, t - m);
    OrOnes(a, t - m);
    PowAdds(t - m, m);
    assert t - (t - m) == m;
    MulMinus(Pow2(t - m), Pow2(m));
  }

  lemma TopOfTop(v: nat, bits: nat, m: nat, low: nat)
    requires TopOnes(v, bits, m) && m + low <= bits
    ensures TopOnes(Shr(v, low), bits - low, m)
  {
    hide Pow2, Shr, Or;
    var t := bits - low;
    PowAdds(low, t);
    PowAdds(low, t - m);
    PowAtMost(t - m, t);
    assert Pow2(low) * (Pow2(t) - Pow2(t - m)) == Pow2(bits) - Pow2(bits - m);
    ShrBetween(v, low, Pow2(t) - Pow2(t - m), Pow2(t));
  }

  lemma ShrShrinks(v: nat, k: nat)
    ensures Shr(v, k) <= v
  {
    ShrSplits(v, k);
    MulGrows(Shr(v, k), 1, Pow2(k));
  }

  /** Smearing by `m` doubles the run of ones at the top. */
  lemma SmearDoubles(v: nat, bits: nat, m: nat)
    requires 0 < m && TopOnes(v, bits, m)
    ensures TopOnes(Smear(v, m), bits, 2 * m)
  {
    hide Pow2, Shr, Or;
    ShrShrinks(v, m);
    OrBounds(v, Shr(v, m), bits);
    if m < bits {
      var low := if 2 * m < bits then bits - 2 * m else 0;
      var t := bits - low;
      TopOfTop(v, bits, m, low);
      SmearFills(Shr(v, low), t, m);
      ShrTwice(v, low, m);
      ShrTwice(v, m, low);
      OrShifts(v, Shr(v, m), low);
      ShrSplits(Smear(v, m), low);
      PowAdds(low, t);
      assert Pow2(low) * (Pow2(t) - 1) == Pow2(bits) - Pow2(low);
    }
  }

  /** How many bits `v` needs. */
  function Bits(v: nat): nat
  {
    if v == 0 then 0 else 1 + Bits(v / 2)
  }

  lemma {:induction false} BitsBound(v: nat)
    ensures v < Pow2(Bits(v))
    ensures v > 0 ==> Bits(v) > 0 && Pow2(Bits(v) - 1) <= v
  {
    if v > 0 {
      BitsBound(v / 2);
      if v / 2 == 0 { assert v == 1; }
    }
  }

  lemma BitsMonotone(v: nat, k: nat)
    requires v < Pow2(k)
    ensures Bits(v) <= k
  {
    BitsBound(v);
    PowDoubles(k, Bits(v));
  }

  lemma PowDoubles(j: nat, k: nat)
    ensures j < k ==> 2 * Pow2(j) <= Pow2(k)
  {
    if j < k { PowAtMost(j + 1, k); }
  }

  ghost predicate IsLeastPower(p: nat, v: nat)
  {
    && (exists k :: p == Pow2(k)) && v <= p
    && forall j :: v <= Pow2(j) ==> p <= Pow2(j)
  }

  lemma Pow32()
    ensures Pow2(32) == WORD && Pow2(31) == WORD / 2
  {
    assert Pow2(8) == 256;
    PowAdds(8, 8);
    PowAdds(16, 16);
  }

  lemma SmearedIsOnes(u: nat, b: nat)
    requires TopOnes(u, b, 1) && b <= 32
    ensures Smear(Smear(Smear(Smear(Smear(u, 1), 2), 4), 8), 16) == Pow2(b) - 1
  {
    hide TopOnes, Smear;
    SmearDoubles(u, b, 1);
    var s2 := Smear(u, 1);
    SmearDoubles(s2, b, 2);
    var s4 := Smear(s2, 2);
    SmearDoubles(s4, b, 4);
    var s8 := Smear(s4, 4);
    SmearDoubles(s8, b, 8);
    var s16 := Smear(s8, 8);
    SmearDoubles(s16, b, 16);
    AllOnes(Smear(s16, 16), b, 32);
  }

  lemma AllOnes(v: nat, b: nat, m: nat)
    requires TopOnes(v, b, m) && b <= m
    ensures v == Pow2(b) - 1
  {
    assert Pow2(0) == 1;
  }

  lemma TopBit(u: nat, b: nat)
    requires b > 0 && Pow2(b - 1) <= u < Pow2(b)
    ensures TopOnes(u, b, 1)
  {
    assert Pow2(b) == 2 * Pow2(b - 1);
    assert b == 1 ==> Pow2(0) == 1;
  }

  /** The smearing computes 2^bits, but for the wrap of the last increment. */
  lemma NextPow2Value(v: nat)
    requires 2 <= v <= WORD
    ensures NextPow2(v) == Pow2(Bits(v - 1)) % WORD
  {
    hide TopOnes, Smear, Pow2, Bits;
    Pow32();
    BitsBound(v - 1);
    BitsMonotone(v - 1, 32);
    TopBit(v - 1, Bits(v - 1));
    SmearedIsOnes(v - 1, Bits(v - 1));
  }

  lemma LeastPower(v: nat)
    requires v >= 2
    ensures IsLeastPower(Pow2(Bits(v - 1)), v)
  {
    BitsBound(v - 1);
    forall j | v <= Pow2(j) ensures Pow2(Bits(v - 1)) <= Pow2(j) {
      BitsMonotone(v - 1, j);
      PowAtMost(Bits(v - 1), j);
    }
  }

  /** `next_pow2_32` is the least power of two from its argument on exactly up to
      2^31; beyond that it wraps to 0. */
  lemma NextPow2IsLeastIff(v: nat)
    requires 0 < v < WORD
    ensures IsLeastPower(NextPow2(v), v) <==> v <= WORD / 2
    ensures v > WORD / 2 ==> NextPow2(v) == 0
  {
    hide Pow2, Bits, IsLeastPower, NextPow2;
    ZeroAndOne(v);
    if v > 1 {
      NextPow2Value(v);
      LeastPower(v);
      BitsRange(v);
    }
  }

  lemma ZeroAndOne(v: nat)
    requires v > 0
    ensures NextPow2(1) == 1 && IsLeastPower(1, 1) && !IsLeastPower(0, v)
  {
    assert 1 == Pow2(0);
  }

  lemma BitsRange(v: nat)
    requires 1 < v < WORD
    ensures if v <= WORD / 2 then Pow2(Bits(v - 1)) < WORD else Pow2(Bits(v - 1)) == WORD
  {
    Pow32();
    BitsBound(v - 1);
    BitsMonotone(v - 1, 32);
    hide Pow2, Bits;
    PowDoubles(Bits(v - 1), 32);
    if v <= WORD / 2 {
      BitsMonotone(v - 1, 31);
      PowAtMost(Bits(v - 1), 31);
    }
  }

  // ---- the padded length ----

  /** `calc_padded_len` */
  function CalcPaddedLen(n: nat): nat
  {
    if n <= 32 then 32
    else
      var chunk := if n <= 256 then 32 else Shr(NextPow2(n), 3);
      var mask := (chunk + WORD - 1) % WORD;
      AndNot((n + mask) % WORD, mask)
  }

  /** `calc_padded_len` as NIP-44 version 2 gives it. */
  function SpecPaddedLen(n: nat): nat
    requires n > 0
  {
    if n <= 32 then 32
    else
      var nextPower := Pow2(Bits(n - 1));
      var chunk := if nextPower <= 256 then 32 else nextPower / 8;
      chunk * ((n - 1) / chunk + 1)
  }

  /** Rounding up to a multiple of 2^k by adding and masking. */
  lemma RoundsUp(n: nat, k: nat)
    requires n > 0
    ensures AndNot(n + Pow2(k) - 1, Pow2(k) - 1) == Pow2(k) * ((n - 1) / Pow2(k) + 1)
  {
    hide AndNot, Shr, Pow2;
    var p, q := Pow2(k), (n - 1) / Pow2(k);
    AndNotOnes(n + p - 1, k);
    assert n - 1 == p * q + (n - 1) % p;
    assert p * (q + 1) == p * q + p && p * (q + 2) == p * q + 2 * p;
    ShrBetween(n + p - 1, k, q + 1, q + 2);
  }

  lemma RoundsUpBounds(n: nat, d: nat)
    requires n > 0 && d > 0
    ensures n <= d * ((n - 1) / d + 1) < n + d
  {
    var q := (n - 1) / d;
    assert n - 1 == d * q + (n - 1) % d;
    assert d * (q + 1) == d * q + d;
  }

  lemma ShrPower(b: nat)
    requires b >= 3
    ensures Shr(Pow2(b), 3) == Pow2(b - 3) && Pow2(b) == 8 * Pow2(b - 3)
  {
    assert Pow2(b) == 2 * Pow2(b - 1) && Pow2(b - 1) == 2 * Pow2(b - 2) && Pow2(b - 2) == 2 * Pow2(b - 3);
    assert Shr(Pow2(b), 3) == Shr(Pow2(b - 1), 2) == Shr(Pow2(b - 2), 1) == Pow2(b - 3);
  }

  /** The chunk above 256 bytes is an eighth of the next power of two. */
  lemma ChunkValue(n: nat)
    requires 256 < n <= WORD / 2
    ensures var b := Bits(n - 1);
      && b >= 3 && Pow2(b) > 256 && Shr(NextPow2(n), 3) == Pow2(b - 3)
      && Pow2(b) == 8 * Pow2(b - 3) && Pow2(b) < WORD
  {
    hide Pow2, Bits, NextPow2, Shr;
    BigBits(n);
    BitsRange(n);
    NextPow2Value(n);
    ShrPower(Bits(n - 1));
  }

  lemma BigBits(n: nat)
    requires 256 < n
    ensures Bits(n - 1) >= 9 && Pow2(Bits(n - 1)) > 256
  {
    assert Pow2(8) == 256;
    BitsBound(n - 1);
    hide Pow2, Bits;
    PowDoubles(Bits(n - 1), 9);
    PowDoubles(8, Bits(n - 1));
    if Bits(n - 1) <= 8 { PowAtMost(Bits(n - 1), 8); }
  }

  lemma SmallBits(n: nat)
    requires 32 < n <= 256
    ensures Pow2(5) == 32 && Pow2(Bits(n - 1)) <= 256
  {
    assert Pow2(8) == 256;
    hide Bits;
    BitsMonotone(n - 1, 8);
    PowAtMost(Bits(n - 1), 8);
  }

  lemma WrappedLen(n: nat)
    requires WORD / 2 < n < WORD
    ensures CalcPaddedLen(n) == 0
  {
    hide Pow2, Bits, AndNot, NextPow2;
    NextPow2IsLeastIff(n);
    assert Shr(0, 3) == 0;
    hide Shr;
    Pow32();
    AndNotOnes(n - 1, 32);
    ShrSplits(n - 1, 32);
  }

  /** The chunk both lengths use is 2^k. */
  ghost predicate ChunkIs(n: nat, k: nat)
  {
    32 < n <= WORD / 2 && if n <= 256 then k == 5 else k + 3 == Bits(n - 1)
  }

  lemma CalcValue(n: nat, k: nat)
    requires ChunkIs(n, k)
    ensures CalcPaddedLen(n) == AndNot(n + Pow2(k) - 1, Pow2(k) - 1)
  {
    hide Pow2, Bits, AndNot, NextPow2, Shr;
    if n <= 256 { SmallBits(n); } else { ChunkValue(n); }
    var chunk := Pow2(k);
    assert (chunk + WORD - 1) % WORD == chunk - 1 && (n + (chunk - 1)) % WORD == n + (chunk - 1);
  }

  lemma SpecValue(n: nat, k: nat)
    requires ChunkIs(n, k)
    ensures SpecPaddedLen(n) == Pow2(k) * ((n - 1) / Pow2(k) + 1)
  {
    hide Pow2, Bits, NextPow2, Shr;
    if n <= 256 { SmallBits(n); } else { ChunkValue(n); }
  }

  /** The 32-bit arithmetic gives the padded length of NIP-44 exactly up to 2^31. */
  lemma PaddedLenIsSpecIff(n: nat)
    requires 0 < n < WORD
    ensures CalcPaddedLen(n) == SpecPaddedLen(n) <==> n <= WORD / 2
    ensures n <= SpecPaddedLen(n)
  {
    hide Pow2, Bits, AndNot, NextPow2, Shr;
    if n > 32 { SpecCovers(n); }
    if n > WORD / 2 {
      WrappedLen(n);
    } else if n > 32 {
      if n > 256 { ChunkValue(n); }
      var k := if n <= 256 then 5 else Bits(n - 1) - 3;
      CalcValue(n, k);
      SpecValue(n, k);
      RoundsUp(n, k);
    }
  }

  lemma SpecCovers(n: nat)
    requires n > 32
    ensures n <= SpecPaddedLen(n)
  {
    hide Bits;
    RoundsUpBounds(n, if Pow2(Bits(n - 1)) <= 256 then 32 else Pow2(Bits(n - 1)) / 8);
  }
}
