/**
 * How many blocks a request takes (membuff.c): the align-up macro with its bit mask, the
 * machine-word wrap-around under it, and the cast of the quotient to a 32-bit int.
 */
module BlockSize {
  import opened Division

  const HEADER: nat := 16
  const TWO31: nat := 0x8000_0000
  const TWO32: nat := 0x1_0000_0000
  const TWO64: nat := 0x1_0000_0000_0000_0000

  /** 2 to the word width: 64-bit words on 64-bit targets, 32-bit words otherwise. */
  function Modulus(W: nat): nat {
    if W == 32 then TWO32 else TWO64
  }

  /** x & ~m */
  function AndNot(x: nat, m: nat): (r: nat)
    ensures r <= x
  {
    if x == 0 then 0 else 2 * AndNot(x / 2, m / 2) + (if m % 2 == 1 then 0 else x % 2)
  }

  function Pow2(k: nat): (r: nat)
    ensures r > 0
  {
    if k == 0 then 1 else 2 * Pow2(k - 1)
  }

  predicate IsPow2(m: nat) {
    m == 1 || (m > 0 && m % 2 == 0 && IsPow2(m / 2))
  }

  /** MBUF_AlignUpSize(size, M) in words of the given modulus. */
  function AlignUpSize(modulus: nat, size: nat, M: nat): nat
    requires M > 0 && modulus > 0
  {
    if size == 0 then M else AndNot((size + M - 1) % modulus, M - 1)
  }

  /** (int) of a non-negative value. */
  function ToInt32(x: nat): int {
    (x + TWO31) % TWO32 - TWO31
  }

  /** The bitCount membuff_alloc computes. */
  function BlockCount(modulus: nat, M: nat, sizeBytes: nat): int
    requires M > 0 && modulus > 0
  {
    ToInt32(AlignUpSize(modulus, (sizeBytes + HEADER) % modulus, M) / M)
  }

  /** The number of blocks of M bytes that hold a header and sizeBytes. */
  function Need(M: nat, sizeBytes: nat): (n: nat)
    requires M > 0
    ensures M * n >= sizeBytes + HEADER && M * (n - 1) < sizeBytes + HEADER
  {
    var total := sizeBytes + HEADER + M - 1;
    assert M * (total / M) == total - total % M;
    total / M
  }

  lemma {:induction false} Pow2Facts(m: nat) returns (k: nat)
    requires IsPow2(m)
    ensures m == Pow2(k)
  {
    if m == 1 {
      k := 0;
    } else {
      var j := Pow2Facts(m / 2);
      k := j + 1;
    }
  }

  /** Masking off the low k bits rounds down to a multiple of 2^k. */
  lemma {:induction false} AndNotRounds(x: nat, k: nat)
    ensures AndNot(x, Pow2(k) - 1) == Pow2(k) * (x / Pow2(k))
  {
    if k == 0 {
      AndNotZero(x);
      DivUnique(x, 1, x, 0);
    } else if x > 0 {
      var h := Pow2(k - 1);
      AndNotRounds(x / 2, k - 1);
      HalfMask(x, h);
      HalfDiv(x, h);
      Assoc(h, (x / 2) / h);
    } else {
      DivUnique(0, Pow2(k), 0, 0);
    }
  }

  lemma HalfMask(x: nat, h: nat)
    requires x > 0 && h > 0
    ensures AndNot(x, 2 * h - 1) == 2 * AndNot(x / 2, h - 1)
  {
    assert (2 * h - 1) / 2 == h - 1 && (2 * h - 1) % 2 == 1;
  }

  lemma Assoc(h: nat, q: nat)
    ensures 2 * (h * q) == (2 * h) * q
  {
  }

  lemma HalfDiv(x: nat, h: nat)
    requires h > 0
    ensures x / (2 * h) == (x / 2) / h
  {
    var q, r := (x / 2) / h, (x / 2) % h;
    assert x / 2 == h * q + r;
    assert x == (2 * h) * q + (2 * r + x % 2) && 2 * r + x % 2 < 2 * h;
    DivUnique(x, 2 * h, q, 2 * r + x % 2);
  }

  lemma {:induction false} AndNotZero(x: nat)
    ensures AndNot(x, 0) == x
  {
    if x > 0 {
      AndNotZero(x / 2);
    }
  }

  lemma {:induction false} AndNotSelf(x: nat)
    ensures AndNot(x, x) == 0
  {
    if x > 0 {
      AndNotSelf(x / 2);
    }
  }

  function LowBit(m: nat): (r: nat)
    requires m > 0
    ensures 1 <= r <= m
  {
    if m % 2 == 1 then 1 else 2 * LowBit(m / 2)
  }

  lemma {:induction false} LowBitIsPow2(m: nat)
    requires m > 0
    ensures LowBit(m) == m <==> IsPow2(m)
  {
    if m % 2 == 0 {
      LowBitIsPow2(m / 2);
    }
  }

  /** Rounding up a size of at most the lowest set bit of m gives just that bit. */
  lemma {:induction false} AndNotLowBit(m: nat, r: nat)
    requires m > 0 && r < LowBit(m)
    ensures AndNot(m + r, m - 1) == LowBit(m)
  {
    if m % 2 == 1 {
      AndNotSelf(m / 2);
      assert (m - 1) / 2 == m / 2;
    } else {
      AndNotLowBit(m / 2, r / 2);
      assert (m + r) / 2 == m / 2 + r / 2 && (m - 1) / 2 == m / 2 - 1;
    }
  }

  lemma LowBitTwice(m: nat)
    requires m > 0
    ensures LowBit(2 * m) == 2 * LowBit(m)
  {
    assert (2 * m) % 2 == 0 && (2 * m) / 2 == m;
  }

  lemma Swap(q: nat, h: nat)
    ensures q * (2 * h) == 2 * (q * h)
  {
  }

  lemma {:induction false} LowBitOfProduct(q: nat, k: nat)
    requires q > 0
    ensures q * Pow2(k) > 0 && LowBit(q * Pow2(k)) >= Pow2(k)
  {
    if k > 0 {
      LowBitOfProduct(q, k - 1);
      var m := q * Pow2(k - 1);
      Swap(q, Pow2(k - 1));
      LowBitTwice(m);
    }
  }

  lemma LowBitOfMultiple(m: nat)
    requires m > 0 && m % 128 == 0
    ensures LowBit(m) >= 128
  {
    var q := m / 128;
    assert Pow2(4) == 16 && Pow2(7) == 128;
    assert m == q * 128;
    LowBitOfProduct(q, 7);
  }

  predicate BlockBytes(M: nat) {
    128 <= M <= 4096 && M % 128 == 0
  }

  lemma SmallMod(x: nat, modulus: nat)
    requires x < modulus
    ensures x % modulus == x
  {
  }

  lemma AlignExact(modulus: nat, size: nat, M: nat)
    requires IsPow2(M) && 0 < size && size + M - 1 < modulus
    ensures AlignUpSize(modulus, size, M) == M * ((size + M - 1) / M)
    ensures AlignUpSize(modulus, size, M) / M == (size + M - 1) / M
  {
    var k := Pow2Facts(M);
    SmallMod(size + M - 1, modulus);
    AndNotRounds(size + M - 1, k);
    DivUnique(M * ((size + M - 1) / M), M, (size + M - 1) / M, 0);
  }

  /** Without wrap-around the computed count is the true one, up to the cast. */
  lemma CountUnwrapped(modulus: nat, M: nat, sizeBytes: nat)
    requires IsPow2(M) && sizeBytes + HEADER + M - 1 < modulus
    ensures BlockCount(modulus, M, sizeBytes) == ToInt32(Need(M, sizeBytes))
  {
    SmallMod(sizeBytes + HEADER, modulus);
    AlignExact(modulus, sizeBytes + HEADER, M);
  }

  /** With wrap-around it is 0 or 1. */
  lemma CountWrapped(modulus: nat, M: nat, sizeBytes: nat)
    requires IsPow2(M) && 128 <= M <= 4096 && 8192 <= modulus
    requires sizeBytes < modulus <= sizeBytes + HEADER + M - 1
    ensures BlockCount(modulus, M, sizeBytes) <= 1
  {
    var size := sizeBytes + HEADER;
    if size < modulus {
      SmallMod(size, modulus);
      SumWraps(modulus, M, size);
    } else {
      WrapSub(size, modulus);
      OneBlock(modulus, M, size - modulus);
    }
    ToInt32Exact(AlignUpSize(modulus, size % modulus, M) / M);
  }

  lemma SumWraps(modulus: nat, M: nat, size: nat)
    requires IsPow2(M) && 0 < size < modulus <= size + M - 1 && M <= modulus
    ensures AlignUpSize(modulus, size, M) / M == 0
  {
    var k := Pow2Facts(M);
    var x := size + M - 1 - modulus;
    WrapSub(size + M - 1, modulus);
    AndNotRounds(x, k);
    DivUnique(x, M, 0, x);
    DivUnique(0, M, 0, 0);
  }

  lemma OneBlock(modulus: nat, M: nat, t: nat)
    requires IsPow2(M) && t < HEADER <= M && 2 * M <= modulus
    ensures AlignUpSize(modulus, t, M) / M == 1
  {
    if t > 0 {
      AlignExact(modulus, t, M);
      DivUnique(t + M - 1, M, 1, t - 1);
    } else {
      DivUnique(M, M, 1, 0);
    }
  }

  lemma ToInt32Exact(n: nat)
    ensures ToInt32(n) == n <==> n < TWO31
    ensures ToInt32(n) < TWO31
  {
  }

  /**
   * With a power-of-two block size the count is right exactly when it fits an int and the
   * rounding does not wrap the machine word.
   */
  lemma CountExact(W: nat, M: nat, sizeBytes: nat)
    requires (W == 32 || W == 64) && BlockBytes(M) && IsPow2(M) && sizeBytes < Modulus(W)
    ensures BlockCount(Modulus(W), M, sizeBytes) == Need(M, sizeBytes)
            <==> Need(M, sizeBytes) < TWO31 && sizeBytes + HEADER + M - 1 < Modulus(W)
  {
    if sizeBytes + HEADER + M - 1 < Modulus(W) {
      CountUnwrapped(Modulus(W), M, sizeBytes);
      ToInt32Exact(Need(M, sizeBytes));
    } else {
      CountWrapped(Modulus(W), M, sizeBytes);
      NeedLarge(M, sizeBytes);
    }
  }

  lemma WrapSub(x: nat, modulus: nat)
    requires modulus <= x < 2 * modulus
    ensures x % modulus == x - modulus
  {
  }

  lemma NeedLarge(M: nat, sizeBytes: nat)
    requires 0 < M <= sizeBytes
    ensures Need(M, sizeBytes) > 1
  {
    if Need(M, sizeBytes) <= 1 {
      AtMost(M, Need(M, sizeBytes));
    }
  }

  lemma AtMost(M: nat, n: nat)
    requires n <= 1
    ensures M * n <= M
  {
  }

  /** A block size that is not a power of two breaks the smallest requests: they count 0 blocks. */
  lemma SmallRequestUncounted(W: nat, M: nat)
    requires (W == 32 || W == 64) && BlockBytes(M) && !IsPow2(M)
    ensures BlockCount(Modulus(W), M, 0) == 0
  {
    OddRound(Modulus(W), M);
    SmallMod(HEADER, Modulus(W));
    ToInt32Exact(0);
  }

  lemma OddRound(modulus: nat, M: nat)
    requires BlockBytes(M) && !IsPow2(M) && HEADER + M - 1 < modulus
    ensures AlignUpSize(modulus, HEADER, M) / M == 0
  {
    LowBitOfMultiple(M);
    LowBitIsPow2(M);
    AndNotLowBit(M, HEADER - 1);
    SmallMod(HEADER + M - 1, modulus);
    DivUnique(LowBit(M), M, 0, LowBit(M));
  }

  /** The counts of all requests up to 16 megabytes are right exactly when the block size is a power of two. */
  lemma CountsRightIffPow2(W: nat, M: nat)
    requires (W == 32 || W == 64) && BlockBytes(M)
    ensures (forall size: nat :: size <= 0x100_0000 ==> BlockCount(Modulus(W), M, size) == Need(M, size)) <==> IsPow2(M)
  {
    if IsPow2(M) {
      forall size: nat | size <= 0x100_0000
        ensures BlockCount(Modulus(W), M, size) == Need(M, size)
      {
        CountUnwrapped(Modulus(W), M, size);
        NeedAtMost(M, size);
        ToInt32Exact(Need(M, size));
      }
    } else {
      SmallRequestUncounted(W, M);
    }
  }

  lemma NeedAtMost(M: nat, size: nat)
    requires M >= 1
    ensures Need(M, size) <= size + HEADER
  {
    var n := Need(M, size);
    if n > 1 {
      MulAtLeast(M, n - 1);
    }
  }

  /** A 512-gigabyte request on a 64-bit target: 2^32 + 1 blocks are needed, the int cast says 1. */
  lemma HugeRequestCountsOne()
    ensures BlockCount(TWO64, 128, 0x80_0000_0070) == 1 && Need(128, 0x80_0000_0070) == TWO32 + 1
  {
    assert IsPow2(4) && IsPow2(16) && IsPow2(64) && IsPow2(128);
    DivUnique(0x80_0000_0070 + HEADER + 127, 128, TWO32 + 1, 127);
    CountUnwrapped(TWO64, 128, 0x80_0000_0070);
  }

  lemma DoubleMask(y: nat, g: nat)
    requires y > 0 && g > 0
    ensures AndNot(2 * y, 2 * g - 1) == 2 * AndNot(y, g - 1)
  {
    HalfMask(2 * y, g);
    assert 2 * y / 2 == y;
  }

  lemma PositiveProduct(x: nat, p: nat)
    requires x > 0 && p > 0
    ensures x * p > 0
  {
  }

  /** Doubling both sides of a mask operation doubles the result. */
  lemma {:induction false} AndNotScales(x: nat, h: nat, k: nat)
    requires x > 0 && h > 0
    ensures x * Pow2(k) > 0 && h * Pow2(k) > 0
    ensures AndNot(x * Pow2(k), h * Pow2(k) - 1) == AndNot(x, h - 1) * Pow2(k)
  {
    if k > 0 {
      var p := Pow2(k - 1);
      AndNotScales(x, h, k - 1);
      Swap(x, p);
      Swap(h, p);
      Swap(AndNot(x, h - 1), p);
      DoubleMask(x * p, h * p);
    }
    PositiveProduct(x, Pow2(k));
    PositiveProduct(h, Pow2(k));
  }

  lemma AndNotSmall()
    ensures AndNot(6, 2) == 4
  {
    assert AndNot(3, 1) == 2;
  }

  /** A 384-byte block size gives a request for 369 bytes one block of 384, one byte short. */
  lemma OddBlockSizeFallsShort()
    ensures BlockCount(TWO64, 384, 369) == 1 && Need(384, 369) == 2
  {
    assert Pow2(7) == 128;
    AndNotSmall();
    AndNotScales(6, 3, 7);
    SmallMod(768, TWO64);
    SmallMod(385, TWO64);
    DivUnique(512, 384, 1, 128);
    DivUnique(768, 384, 2, 0);
    ToInt32Exact(1);
  }
}
