/** The exact 128-bit product out of 32-bit halves, and the comparison of products built on it (cgtypes.h). */
module WideMul {
  import opened Division

  const HALF: nat := 0x1_0000_0000
  const FULL: nat := 0x1_0000_0000_0000_0000

  type Uint64 = x: int | 0 <= x < 0x1_0000_0000_0000_0000
  type Int64 = x: int | -0x8000_0000_0000_0000 <= x < 0x8000_0000_0000_0000

  datatype Uint128 = Uint128(result: Uint64, carry: Uint64)

  function LoDword(x: Uint64): (r: Uint64)
    ensures r < HALF
  {
    x % HALF
  }

  function HiDword(x: Uint64): (r: Uint64)
    ensures r < HALF && x == r * HALF + LoDword(x)
  {
    x / HALF
  }

  /** The largest a product of two halves and one more half can be. */
  lemma HalfProduct(a: nat, b: nat, c: nat)
    requires a < HALF && b < HALF && c < HALF
    ensures 0 <= a * b && a * b + c < FULL && a * b <= (HALF - 1) * (HALF - 1)
  {
    ProductLe(a, HALF - 1, b);
    ProductLe(0, a, b);
  }

  /** The four partial products add up. */
  lemma Assemble(hia: nat, loa: nat, hib: nat, lob: nat,
                 x1: nat, h1: nat, l1: nat, x2: nat, h2: nat, l2: nat, x3: nat, h3: nat, l3: nat)
    requires x1 == loa * lob && x1 == h1 * HALF + l1
    requires x2 == hia * lob + h1 && x2 == h2 * HALF + l2
    requires x3 == loa * hib + l2 && x3 == h3 * HALF + l3
    ensures (hia * hib + h2 + h3) * FULL + (l3 * HALF + l1) == (hia * HALF + loa) * (hib * HALF + lob)
  {
    assert (hia * HALF + loa) * (hib * HALF + lob) == (hia * hib) * FULL + (hia * lob + loa * hib) * HALF + loa * lob by {
      Distribute(hia, loa, hib, lob);
    }
  }

  lemma Distribute(hia: nat, loa: nat, hib: nat, lob: nat)
    ensures (hia * HALF + loa) * (hib * HALF + lob) == (hia * hib) * FULL + (hia * lob + loa * hib) * HALF + loa * lob
  {
    var y := hib * HALF + lob;
    assert (hia * HALF + loa) * y == HALF * (hia * y) + loa * y;
    assert hia * y == hia * hib * HALF + hia * lob && loa * y == loa * hib * HALF + loa * lob;
  }

  /** CG_Uint64Multiply: carry and result are the whole product, and no step leaves 64 bits. */
  method Uint64Multiply(a: Uint64, b: Uint64) returns (product: Uint128)
    ensures product.carry * 0x1_0000_0000_0000_0000 + product.result == a * b
  {
    var loa, lob := LoDword(a), LoDword(b);
    var hia, hib := HiDword(a), HiDword(b);
    HalfProduct(loa, lob, 0);
    var x1: Uint64 := loa * lob;
    HalfProduct(hia, lob, HiDword(x1));
    var x2: Uint64 := hia * lob + HiDword(x1);
    HalfProduct(loa, hib, LoDword(x2));
    var x3: Uint64 := loa * hib + LoDword(x2);
    HalfProduct(hia, hib, 0);
    var result: Uint64, carry: Uint64 := LoDword(x3) * HALF + LoDword(x1), hia * hib + HiDword(x2) + HiDword(x3);
    product := Uint128(result, carry);
    Assemble(hia, loa, hib, lob, x1, HiDword(x1), LoDword(x1), x2, HiDword(x2), LoDword(x2), x3, HiDword(x3), LoDword(x3));
  }

  /** CG_TriSign */
  function TriSign(x: int): int {
    if x > 0 then 1 else if x < 0 then -1 else 0
  }

  function Abs(x: int): nat {
    if x < 0 then -x else x
  }

  /** Signs and magnitudes multiply separately. */
  lemma SignAndMagnitude(a: int, b: int)
    ensures TriSign(a) * TriSign(b) == TriSign(a * b) && Abs(a) * Abs(b) == Abs(a * b)
  {
    var x: int, y: int := Abs(a), Abs(b);
    if a != 0 && b != 0 {
      ProductLe(1, x, y);
    }
    assert (-x) * y == -(x * y) && x * (-y) == -(x * y) && (-x) * (-y) == x * y;
  }

  /** Equal products have equal signs and equal magnitudes, and the other way round. */
  lemma ProductsEqual(a: int, b: int, c: int, d: int)
    ensures a * b == c * d <==>
              TriSign(a) * TriSign(b) == TriSign(c) * TriSign(d) && Abs(a) * Abs(b) == Abs(c) * Abs(d)
  {
    SignAndMagnitude(a, b);
    SignAndMagnitude(c, d);
  }

  /**
   * CG_Int64ProductEqual, the branch without a 128-bit integer type: true exactly when the
   * products are equal as integers.  The sign times the least 64-bit number is taken modulo
   * 2^64, as two's complement machines do.
   */
  method Int64ProductEqual(a: Int64, b: Int64, c: Int64, d: Int64) returns (equal: bool)
    ensures equal <==> a * b == c * d
  {
    var ua: Uint64 := Magnitude(a);
    var ub: Uint64 := Magnitude(b);
    var uc: Uint64 := Magnitude(c);
    var ud: Uint64 := Magnitude(d);
    var Uab := Uint64Multiply(ua, ub);
    var Ucd := Uint64Multiply(uc, ud);
    if TriSign(a) * TriSign(b) == TriSign(c) * TriSign(d) {
      equal := Uab.result == Ucd.result && Uab.carry == Ucd.carry;
    } else {
      equal := false;
    }
    SameWords(Uab, Ucd);
    ProductsEqual(a, b, c, d);
  }

  /** CG_TriSign(a) * a as an unsigned 64-bit number. */
  function Magnitude(a: Int64): (u: Uint64)
    ensures u == Abs(a)
  {
    (TriSign(a) * a) % FULL
  }

  lemma SameWords(x: Uint128, y: Uint128)
    ensures x == y <==> x.carry * FULL + x.result == y.carry * FULL + y.result
  {
  }
}
