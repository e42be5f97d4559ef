/** Jumping ahead in the linear congruential generator (randctx.h). */
module Lcg {
  import opened Division

  const A: nat := 1103515245
  const C: nat := 12345
  const M: nat := 0x7FFF_FFFF

  type Uint32 = x: int | 0 <= x < 0x1_0000_0000
  type Uint64 = x: int | 0 <= x < 0x1_0000_0000_0000_0000

  /** One step of the generator. */
  function Step(x: nat): nat {
    (A * x + C) % M
  }

  /** n steps. */
  function Iterate(x: nat, n: nat): nat {
    if n == 0 then x else Step(Iterate(x, n - 1))
  }

  /** The recurrence the numbers follow. */
  lemma Recurrence(x: nat, n: nat)
    ensures Iterate(x, 0) == x && Iterate(x, n + 1) == (1103515245 * Iterate(x, n) + 12345) % 2147483647
  {
  }

  function Pow(a: nat, n: nat): nat {
    if n == 0 then 1 else a * Pow(a, n - 1)
  }

  /** 1 + a + ... + a^(n-1) */
  function Geo(a: nat, n: nat): nat {
    if n == 0 then 0 else a * Geo(a, n - 1) + 1
  }

  // ---------------------------------------------------------------- remainders

  lemma AddMultiple(x: int, k: int, m: nat)
    requires m > 0
    ensures (x + k * m) % m == x % m
  {
    assert x + k * m == (x / m + k) * m + x % m;
    DivUnique(x + k * m, m, x / m + k, x % m);
  }

  lemma Parts(a: nat, b: nat, c: nat, r: nat, s: nat, t: nat, m: nat)
    requires m > 0
    ensures ((a * m + r) * (b * m + s) + (c * m + t)) % m == (r * s + t) % m
  {
    Expand(a, b, c, r, s, t, m);
    AddMultiple(r * s + t, a * b * m + a * s + b * r + c, m);
  }

  lemma Split(x: nat, m: nat)
    requires m > 0
    ensures x == (x / m) * m + x % m
  {
  }

  /** Remainders may be taken early. */
  lemma ModLinear(x: nat, y: nat, z: nat, m: nat)
    requires m > 0
    ensures ((x % m) * (y % m) + z % m) % m == (x * y + z) % m
  {
    var a, b, c, r, s, t := x / m, y / m, z / m, x % m, y % m, z % m;
    Split(x, m);
    Split(y, m);
    Split(z, m);
    Parts(a, b, c, r, s, t, m);
    assert (a * m + r) * (b * m + s) + (c * m + t) == x * y + z;
  }

  lemma Expand(a: nat, b: nat, c: nat, r: nat, s: nat, t: nat, m: nat)
    ensures (a * m + r) * (b * m + s) + (c * m + t) == r * s + t + (a * b * m + a * s + b * r + c) * m
  {
    assert (a * m + r) * (b * m + s) == (a * m) * (b * m) + (a * m) * s + r * (b * m) + r * s;
    assert (a * m) * (b * m) == a * b * m * m && (a * m) * s == a * s * m && r * (b * m) == b * r * m;
    assert (a * b * m + a * s + b * r + c) * m == a * b * m * m + a * s * m + b * r * m + c * m;
  }

  lemma ModProduct(x: nat, y: nat, m: nat)
    requires m > 0
    ensures ((x % m) * (y % m)) % m == (x * y) % m
  {
    ModLinear(x, y, 0, m);
    DivUnique(0, m, 0, 0);
  }

  // ---------------------------------------------------------------- powers and geometric sums

  lemma {:induction false} PowAdd(a: nat, r: nat, k: nat)
    ensures Pow(a, r + k) == Pow(a, r) * Pow(a, k)
  {
    if r > 0 {
      PowAdd(a, r - 1, k);
      Assoc(a, Pow(a, r - 1), Pow(a, k));
    }
  }

  lemma Assoc(a: int, b: int, c: int)
    ensures a * (b * c) == (a * b) * c
  {
  }

  lemma {:induction false} GeoAdd(a: nat, r: nat, k: nat)
    ensures Geo(a, r + k) == Geo(a, r) * Pow(a, k) + Geo(a, k)
  {
    if k == 0 {
    } else {
      var g, p, h := Geo(a, r), Pow(a, k - 1), Geo(a, k - 1);
      GeoAdd(a, r, k - 1);
      assert Geo(a, r + k) == a * (g * p + h) + 1;
      assert a * (g * p + h) == a * (g * p) + a * h;
      Assoc(a, g, p);
      Assoc(g, a, p);
      assert a * g == g * a;
    }
  }

  /** Doubling: the sum of 2k powers is the sum of k powers times a^k + 1. */
  lemma GeoDouble(a: nat, k: nat)
    ensures Geo(a, 2 * k) == Geo(a, k) * (Pow(a, k) + 1)
  {
    GeoAdd(a, k, k);
  }

  /** n steps in closed form. */
  lemma {:induction false} Closed(x: nat, n: nat)
    requires n > 0
    ensures Iterate(x, n) == (Pow(A, n) * x + C * Geo(A, n)) % M
  {
    if n == 1 {
      assert Pow(A, 1) == A * Pow(A, 0) && Geo(A, 1) == A * Geo(A, 0) + 1;
      assert Iterate(x, 1) == Step(Iterate(x, 0));
    } else {
      var p, g := Pow(A, n - 1), Geo(A, n - 1);
      Closed(x, n - 1);
      StepClosed(p * x + C * g);
      Distribute(x, p, g);
    }
  }

  lemma StepClosed(y: nat)
    ensures Step(y % M) == (A * y + C) % M
  {
    var q := y / M;
    assert A * (y % M) + C + (A * q) * M == A * y + C;
    AddMultiple(A * (y % M) + C, A * q, M);
  }

  lemma Distribute(x: nat, p: nat, g: nat)
    ensures A * (p * x + C * g) + C == (A * p) * x + C * (A * g + 1)
  {
    assert A * (p * x + C * g) == A * (p * x) + A * (C * g);
    Assoc(A, p, x);
  }

  // ---------------------------------------------------------------- the two functions

  /** random_uint32_safe */
  method RandomSafe(seed: Uint32, loops: Uint32) returns (r: Uint32)
    ensures r == (if loops == 0 then seed % M else Iterate(seed, loops)) && r < M
  {
    if loops == 0 {
      return seed % M;
    }
    r := seed;
    for i := 0 to loops
      invariant r == Iterate(seed, i) && (i > 0 ==> r < M)
    {
      var wide: Uint64 := A * r + C;
      r := wide % M;
    }
  }

  /** What the loop of random_uint32_fast knows: r steps are in, the current power is a^k. */
  ghost predicate Jumped(r: nat, k: nat, a_pow: int, c_sum: int, curr_a: int, curr_c: int) {
    && a_pow == Pow(A, r) % M && c_sum == Geo(A, r) % M
    && curr_a == Pow(A, k) % M && curr_c == Geo(A, k) % M
  }

  lemma TakeBit(r: nat, k: nat, a_pow: int, c_sum: int, curr_a: int, curr_c: int)
    requires Jumped(r, k, a_pow, c_sum, curr_a, curr_c)
    ensures Jumped(r + k, k, (a_pow * curr_a) % M, (c_sum * curr_a + curr_c) % M, curr_a, curr_c)
  {
    PowAdd(A, r, k);
    GeoAdd(A, r, k);
    ModProduct(Pow(A, r), Pow(A, k), M);
    ModLinear(Geo(A, r), Pow(A, k), Geo(A, k), M);
  }

  lemma Square(r: nat, k: nat, a_pow: int, c_sum: int, curr_a: int, curr_c: int)
    requires Jumped(r, k, a_pow, c_sum, curr_a, curr_c)
    ensures Jumped(r, 2 * k, a_pow, c_sum, (curr_a * curr_a) % M, (curr_c * (curr_a + 1)) % M)
  {
    PowAdd(A, k, k);
    ModProduct(Pow(A, k), Pow(A, k), M);
    GeoDouble(A, k);
    ModSuccProduct(Geo(A, k), Pow(A, k), M);
  }

  lemma ModSuccProduct(g: nat, p: nat, m: nat)
    requires m > 0
    ensures ((g % m) * (p % m + 1)) % m == (g * (p + 1)) % m
  {
    var r, s := g % m, p % m;
    ModLinear(g, p, g, m);
    TimesSucc(r, s);
    TimesSucc(g, p);
    SameMod(r * (s + 1), r * s + r, g * (p + 1), g * p + g, m);
  }

  lemma SameMod(a: nat, b: nat, c: nat, d: nat, m: nat)
    requires m > 0 && a == b && c == d && b % m == d % m
    ensures a % m == c % m
  {
  }

  lemma TimesSucc(x: nat, y: nat)
    ensures x * (y + 1) == x * y + x
  {
  }

  lemma Finish(loops: nat, seed: nat)
    requires loops > 0
    ensures ((Pow(A, loops) % M) * seed + C * (Geo(A, loops) % M)) % M == Iterate(seed, loops)
  {
    Closed(seed, loops);
    LinearMod(Pow(A, loops), Geo(A, loops), seed);
  }

  lemma LinearMod(p: nat, g: nat, x: nat)
    ensures ((p % M) * x + C * (g % M)) % M == (p * x + C * g) % M
  {
    var a, b, r, s := p / M, g / M, p % M, g % M;
    Split(p, M);
    Split(g, M);
    Regroup(a, r, x);
    AddMultiple(r * x + C * s, a * x + C * b, M);
  }

  lemma Regroup(a: nat, r: nat, x: nat)
    ensures (a * M + r) * x == r * x + (a * x) * M
  {
  }

  /** Products of reduced numbers stay within 64 bits. */
  method Mul(x: Uint64, y: Uint64, z: Uint64) returns (w: Uint64)
    requires x < M && y <= M && z < M
    ensures w == x * y + z
  {
    ProductBound(x, y);
    w := x * y + z;
  }

  lemma ProductBound(x: nat, y: nat)
    requires x < M && y <= M
    ensures 0 <= x * y < M * M
  {
    ProductLe(x, M - 1, y);
    ProductLe(0, x, y);
  }

  /** One round of the loop of random_uint32_fast. */
  method Round(odd: bool, a_pow: Uint64, c_sum: Uint64, curr_a: Uint64, curr_c: Uint64, ghost done: nat, ghost k: nat)
    returns (a_pow': Uint64, c_sum': Uint64, curr_a': Uint64, curr_c': Uint64)
    requires Jumped(done, k, a_pow, c_sum, curr_a, curr_c)
    ensures Jumped(if odd then done + k else done, 2 * k, a_pow', c_sum', curr_a', curr_c')
  {
    a_pow', c_sum' := a_pow, c_sum;
    if odd {
      TakeBit(done, k, a_pow, c_sum, curr_a, curr_c);
      a_pow' := Mul(a_pow, curr_a, 0);
      a_pow' := a_pow' % M;
      c_sum' := Mul(c_sum, curr_a, curr_c);
      c_sum' := c_sum' % M;
    }
    Square(if odd then done + k else done, k, a_pow', c_sum', curr_a, curr_c);
    curr_c' := Mul(curr_c, curr_a + 1, 0);
    curr_c' := curr_c' % M;
    curr_a' := Mul(curr_a, curr_a, 0);
    curr_a' := curr_a' % M;
  }

  /** The last sum stays within 64 bits too. */
  method Last(a_pow: Uint64, seed: Uint32, c_sum: Uint64) returns (w: Uint64)
    requires a_pow < M && c_sum < M
    ensures w == a_pow * seed + C * c_sum
  {
    ProductLe(a_pow, M, seed);
    ProductLe(0, a_pow, seed);
    w := a_pow * seed + C * c_sum;
  }

  /** random_uint32_fast: the same number as the step-by-step form; no intermediate leaves 64 bits. */
  method RandomFast(seed: Uint32, loops: Uint32) returns (r: Uint32)
    ensures r == (if loops == 0 then seed % M else Iterate(seed, loops)) && r < M
  {
    if loops == 0 {
      return seed % M;
    }
    var a_pow: Uint64, c_sum: Uint64, curr_a: Uint64, curr_c: Uint64 := 1, 0, A, 1;
    var n := loops;
    ghost var done: nat, k: nat := 0, 1;
    Start();
    while n > 0
      invariant 0 <= n && loops == done + n * k
      invariant Jumped(done, k, a_pow, c_sum, curr_a, curr_c)
    {
      HalfOf(n, k);
      a_pow, c_sum, curr_a, curr_c := Round(n % 2 == 1, a_pow, c_sum, curr_a, curr_c, done, k);
      done := if n % 2 == 1 then done + k else done;
      n, k := n / 2, 2 * k;
    }
    Finish(loops, seed);
    var wide := Last(a_pow, seed, c_sum);
    r := wide % M;
  }

  lemma Start()
    ensures Jumped(0, 1, 1, 0, A, 1)
  {
    assert Pow(A, 1) == A * Pow(A, 0) && Geo(A, 1) == A * Geo(A, 0) + 1;
  }

  lemma HalfOf(n: nat, k: nat)
    ensures n * k == (n / 2) * (2 * k) + (if n % 2 == 1 then k else 0)
  {
    var h := n / 2;
    assert n == 2 * h + n % 2;
    assert n * k == (2 * h) * k + (n % 2) * k;
  }
}
