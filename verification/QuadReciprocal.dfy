/** The reciprocal stage of quad-precision division: five 64-bit Newton-Raphson
    steps, the guard decrement, one 128-bit step and the final `-= 2`.
    Machine words are naturals; every truncation and wrap-around is written out. */
module QuadReciprocal {
  import opened Basics

  const P15: int := 0x8000
  const P49: int := 0x2_0000_0000_0000
  const P62: int := 0x4000_0000_0000_0000
  const P63: int := 0x8000_0000_0000_0000
  const P112: int := 0x1_0000_0000_0000_0000_0000_0000_0000
  const P113: int := 0x2_0000_0000_0000_0000_0000_0000_0000
  const P126: int := 0x4000_0000_0000_0000_0000_0000_0000_0000
  const P127: int := 0x8000_0000_0000_0000_0000_0000_0000_0000
  const P128: int := 0x1_0000_0000_0000_0000_0000_0000_0000_0000
  const P191: int := 0x8000_0000_0000_0000_0000_0000_0000_0000_0000_0000_0000_0000
  const P252: int := 0x1000_0000_0000_0000_0000_0000_0000_0000_0000_0000_0000_0000_0000_0000_0000_0000
  const P254: int := 0x4000_0000_0000_0000_0000_0000_0000_0000_0000_0000_0000_0000_0000_0000_0000_0000
  const P382: int := P254 * P128

  /** 3/4 + 1/sqrt(2), less one, as a Q64 number. */
  const SEED: int := 0x7504_F333_F9DE_6484

  /** Two's complement negation of an n-bit word, where `modulus` is 2^n. */
  function Negate(x: nat, modulus: nat): (r: nat)
    requires x < modulus
    ensures r < modulus && (r + x) % modulus == 0
  {
    if x == 0 then 0 else modulus - x
  }

  /** A significand with its implicit bit set: a number in [1, 2) scaled by 2^112. */
  predicate IsSignificand(s: nat) {
    P112 <= s < P113
  }

  /** The high 64 bits of b as a Q63 number in [1, 2). */
  function HighWord(b: nat): (q: nat)
    requires IsSignificand(b)
    ensures P63 <= q < P64
  {
    b / P49
  }

  function Seed64(q: nat): (r: nat)
    requires P63 <= q < P64
    ensures r < P64 && r + q == SEED + P64
  {
    SEED + P64 - q
  }

  function Correction64(r: nat, q: nat): (c: nat)
    requires r < P64 && q < P64
    ensures c < P64
  {
    ProductHighFits(r, q);
    assert r * q >= 0;
    Negate(r * q / P64, P64)
  }

  /** A product of two words, shifted right. */
  function ShiftedProduct(a: nat, b: nat, unit: int): (p: nat)
    requires unit > 0
    ensures p * unit <= a * b < p * unit + unit
  {
    assert a * b >= 0;
    a * b / unit
  }

  /** One 64-bit step before its result is cut back to 64 bits. */
  function NewtonWide(r: nat, q: nat): (w: nat)
    requires r < P64 && q < P64
  {
    ShiftedProduct(r, Correction64(r, q), P63)
  }

  function Newton64(r: nat, q: nat): (r': nat)
    requires r < P64 && q < P64
    ensures r' < P64
  {
    NewtonWide(r, q) % P64
  }

  /** Five Newton steps and `recip64--`. */
  function Recip64(q: nat): (r: nat)
    requires P63 <= q < P64
    ensures r < P64
  {
    var r1 := Newton64(Seed64(q), q);
    var r2 := Newton64(r1, q);
    var r3 := Newton64(r2, q);
    var r4 := Newton64(r3, q);
    var r5 := Newton64(r4, q);
    (r5 + P64 - 1) % P64
  }

  /** The high 128 bits of a 64-by-128-bit product, from two 64-by-64 partial products. */
  function ProductHigh(r: nat, hi: nat, lo: nat): (p: nat)
    ensures p < P128
  {
    (r * hi + r * lo / P64) % P128
  }

  /** The full-width last step. */
  function Recip128(r: nat, b: nat): (x: nat)
    requires r < P64 && IsSignificand(b)
    ensures x < P128
  {
    var c := Negate(ProductHigh(r, HighWord(b), b * P15 % P64), P128);
    ProductHigh(r, c / P64, c % P64)
  }

  /** The 128-bit reciprocal estimate, adjusted by `reciprocal -= 2`. */
  function Reciprocal(b: nat): (x: nat)
    requires IsSignificand(b)
    ensures x < P128
  {
    (Recip128(Recip64(HighWord(b)), b) + P128 - 2) % P128
  }

  // ----- arithmetic helpers -----

  lemma MulMono(a: int, b: int, c: int)
    requires a <= b && 0 <= c
    ensures a * c <= b * c
  {
    assert (b - a) * c >= 0;
  }

  lemma ProductHighFits(r: nat, q: nat)
    requires r < P64 && q < P64
    ensures r * q < P64 * P64
    ensures r * q / P64 < P64
  {
    MulMono(r, P64, q);
  }

  lemma SquareAtMost(d: int, e: int)
    requires -e <= d <= e
    ensures 0 <= d * d <= e * e
  {
    assert e * e - d * d == (e - d) * (e + d);
  }

  // ----- the 64-bit steps -----

  /** How far r is from the reciprocal of q: zero when r * q is exactly 1.0. */
  ghost function Deficit(r: nat, q: nat): int {
    P127 - r * q
  }

  /** The state between 64-bit steps: an estimate within e, or a word that
      overflowed to zero, which happens only next to b == 1.0. */
  ghost predicate Estimate(r: nat, q: nat, e: int) {
    && r < P64
    && if r == 0 then q <= P63 + 1 else -e <= Deficit(r, q) <= e
  }

  /** An error of at most e becomes, after one step, an error of at most e'. */
  ghost predicate Budget(e: int, e': int) {
    0 <= e <= E0 && e * e + P191 + P191 / 8 <= e' * P127 && e' < P127
  }

  const E0: int := 11 * 0x100_0000_0000_0000_0000_0000_0000_0000
  const E1: int := 0x100_0000_0000_0000_0000_0000_0000_0000
  const E2: int := 0x4_0000_0000_0000_0000_0000_0000_0000
  const E3: int := 0x40_0000_0000_0000_0000_0000_0000
  const E4: int := 0x4000_0000_0000_0000_0000
  const E5: int := 5 * P62

  lemma Budgets()
    ensures Budget(E0, E1) && Budget(E1, E2) && Budget(E2, E3) && Budget(E3, E4) && Budget(E4, E5)
  {
  }

  /** The seed is within 11/128 of the reciprocal: e = 1 - x*b for the linear
      approximation x lies between -0.0616 and 0.0858 over [1, 2). */
  lemma SeedIsClose(q: nat)
    requires P63 <= q < P64
    ensures Estimate(Seed64(q), q, E0)
    ensures Seed64(q) > 0
  {
    var s := SEED + P64;
    var r := Seed64(q);
    // Vertex of the parabola: 4 * (s - q) * q == s^2 - (2*q - s)^2.
    var m: int := 2 * q - s;
    assert 4 * (r * q) == s * s - m * m;
    SquareAtMost(m, 2 * P64 - s);
  }

  /** One step squares the error and adds at most 9/8 * 2^64 of truncation. */
  lemma NewtonSquaresError(r: nat, q: nat, e: int, e': int)
    requires P63 <= q < P64
    requires 0 < r && Estimate(r, q, e) && Budget(e, e')
    ensures -e' <= Deficit(NewtonWide(r, q), q) <= e'
    ensures NewtonWide(r, q) * q < P127 + 2 * q
  {
    var p := r * q;
    var d := Deficit(r, q);
    var h, rho := p / P64, p % P64;
    assert p == h * P64 + rho;
    ProductHighFits(r, q);
    var c := Correction64(r, q);
    assert c == P64 - h;
    var w, sigma := r * c / P63, r * c % P63;
    assert r * c == w * P63 + sigma;
    NewtonIdentity(r, q, rho, c, sigma, w);
    SquareAtMost(d, e);
    ErrorTerms(p, rho, sigma, q);
    MulMono(r, P64 - 1, q);
    WideUpperBound(w * q, p, q, d * d, p * rho, sigma * q * P64);
  }

  /** The error recurrence, exactly: e' = e*e - x*b*rho + sigma*b in scaled integers. */
  lemma NewtonIdentity(r: nat, q: nat, rho: nat, c: nat, sigma: nat, w: nat)
    requires c * P64 == P64 * P64 - r * q + rho
    requires r * c == w * P63 + sigma
    ensures (P127 - w * q) * P127
         == (P127 - r * q) * (P127 - r * q) - (r * q) * rho + sigma * q * P64
  {
    var p := r * q;
    calc {
      w * q * P127;
      (w * P63) * q * P64;
      (r * c - sigma) * q * P64;
      r * q * (c * P64) - sigma * q * P64;
      p * (P64 * P64 - p + rho) - sigma * q * P64;
    }
    assert (P127 - p) * (P127 - p) == P127 * P127 - p * (P64 * P64) + p * p;
  }

  lemma ErrorTerms(p: nat, rho: nat, sigma: nat, q: nat)
    requires p <= P127 + E0
    requires rho < P64 && sigma < P63 && q < P64
    ensures 0 <= p * rho <= p * P64 <= P191 + P191 / 8
    ensures 0 <= sigma * q * P64 <= P191
  {
    MulMono(rho, P64, p);
    MulMono(sigma, P63, q);
  }

  lemma WideUpperBound(wq: int, p: int, q: int, square: int, low: int, high: int)
    requires 0 < q && p <= (P64 - 1) * q
    requires 0 <= square && low <= p * P64 && 0 <= high
    requires (P127 - wq) * P127 == square - low + high
    ensures wq < P127 + 2 * q
  {
  }

  /** With b exactly 1.0 in its high word, the wide result stays below 2^64 + 1. */
  lemma WideAtOne(r: nat)
    requires r < P64
    ensures NewtonWide(r, P63) <= P64
  {
    var c := Correction64(r, P63);
    assert r * P63 / P64 == r / 2;
    var j := P63 - r / 2;
    if c != 0 {
      assert c == P63 + j;
      if r % 2 == 0 {
        assert r * c == (P64 - 2 * j) * (P63 + j) == P127 - 2 * (j * j);
      } else {
        assert r * c == (P64 - 2 * j + 1) * (P63 + j) == P127 + P63 - 2 * (j * j) + j;
        assert j * j >= j;
      }
    }
  }

  lemma OverflowBounds(w: int, q: int)
    requires P63 <= q && w * q < P127 + 2 * q
    ensures q > P63 ==> w <= P64
    ensures w >= P64 ==> q <= P63 + 1
  {
    if w >= P64 {
      MulMono(P64, w, q);
    }
    if w > P64 {
      MulMono(P64 + 1, w, q);
    }
  }

  /** A step that leaves 64 bits gives exactly 2^64, and only next to b == 1.0. */
  lemma OverflowIsExact(r: nat, q: nat, e: int, e': int)
    requires P63 <= q < P64 && 0 < r && Estimate(r, q, e) && Budget(e, e')
    ensures NewtonWide(r, q) <= P64 && (NewtonWide(r, q) == P64 ==> q <= P63 + 1)
  {
    hide NewtonWide, Estimate, Budget;
    EstimateFits(r, q, e);
    NewtonSquaresError(r, q, e, e');
    OverflowBounds(NewtonWide(r, q), q);
    if q == P63 {
      WideAtOne(r);
    }
  }

  lemma EstimateFits(r: nat, q: nat, e: int)
    requires Estimate(r, q, e)
    ensures r < P64
  {
  }

  /** A 64-bit step keeps the estimate, whether or not its result overflows. */
  lemma NewtonStep(r: nat, q: nat, e: int, e': int)
    requires P63 <= q < P64
    requires Estimate(r, q, e) && Budget(e, e')
    ensures Estimate(Newton64(r, q), q, e')
  {
    if r != 0 {
      var w := NewtonWide(r, q);
      NewtonSquaresError(r, q, e, e');
      OverflowIsExact(r, q, e, e');
      if w < P64 {
        assert w != 0;
        assert Newton64(r, q) == w;
      }
    }
  }

  /** The fifth 64-bit estimate. */
  ghost function FifthStep(q: nat): (r: nat)
    requires P63 <= q < P64
    ensures Estimate(r, q, E5)
    ensures Recip64(q) == (r + P64 - 1) % P64
  {
    Budgets();
    var r0 := Seed64(q);
    SeedIsClose(q);
    var r1 := Newton64(r0, q);
    NewtonStep(r0, q, E0, E1);
    var r2 := Newton64(r1, q);
    NewtonStep(r1, q, E1, E2);
    var r3 := Newton64(r2, q);
    NewtonStep(r2, q, E2, E3);
    var r4 := Newton64(r3, q);
    NewtonStep(r3, q, E3, E4);
    NewtonStep(r4, q, E4, E5);
    Newton64(r4, q)
  }

  lemma DecrementStaysClose(r: nat, q: nat)
    requires P63 <= q < P64 && Estimate(r, q, E5)
    ensures -9 * P62 <= Deficit((r + P64 - 1) % P64, q) <= 9 * P62
  {
    if r != 0 {
      assert (r - 1) * q == r * q - q;
    }
  }

  /** After the five steps and the decrement, the 64-bit estimate is within 9/4 * 2^-63. */
  lemma Recip64IsClose(q: nat)
    requires P63 <= q < P64
    ensures -9 * P62 <= Deficit(Recip64(q), q) <= 9 * P62
  {
    hide Recip64, FifthStep;
    DecrementStaysClose(FifthStep(q), q);
  }

  // ----- the 128-bit step -----

  /** The two halves add up to the truncated product, with no carry lost. */
  lemma ProductHighIsExact(r: nat, y: nat)
    requires r < P64 && y < P128
    ensures ProductHigh(r, y / P64, y % P64) == r * y / P64
  {
    var hi, lo := y / P64, y % P64;
    assert y == hi * P64 + lo;
    MulMono(r, P64, y);
    DistributeLimbs(r, y, hi, lo);
    AddLimbs(r * y, r * hi, r * lo);
  }

  lemma DistributeLimbs(r: int, y: int, hi: int, lo: int)
    requires y == hi * P64 + lo
    ensures r * y == (r * hi) * P64 + r * lo
  {
  }

  lemma AddLimbs(p: int, high: int, low: int)
    requires 0 <= p < P64 * P128 && p == high * P64 + low
    ensures (high + low / P64) % P128 == p / P64
  {
  }

  ghost predicate Close64(r: nat, b: nat) {
    && r < P64 && IsSignificand(b)
    && -9 * P62 <= Deficit(r, HighWord(b)) <= 9 * P62
  }

  /** How far r is from the reciprocal of b itself, given how far it is from that
      of b's high word. */
  lemma FullDeficit(r: nat, b: nat)
    requires Close64(r, b)
    ensures -13 * P126 <= P191 - r * (b * P15) <= 13 * P126
  {
    var q := HighWord(b);
    var lo := b * P15 % P64;
    assert b * P15 == q * P64 + lo;
    assert r * (b * P15) == (r * q) * P64 + r * lo;
    MulMono(lo, P64, r);
  }

  /** The two-limb arithmetic of the last step computes the plain truncated products. */
  lemma Recip128Plain(r: nat, b: nat)
    requires Close64(r, b)
    ensures var s := r * (b * P15) / P64;
            0 < s < P128 && Recip128(r, b) == r * (P128 - s) / P64
  {
    hide ProductHigh;
    var y := b * P15;
    assert y / P64 == HighWord(b);
    ProductHighIsExact(r, y);
    FullDeficit(r, b);
    ProductHighIsExact(r, P128 - r * y / P64);
  }

  /** The error recurrence of the last step, exactly, for a product p == r * y. */
  lemma LastStepIdentity(r: nat, y: nat, p: int, rho: int, c: int, sigma: int, x: int)
    requires p == r * y
    requires c * P64 == P128 * P64 - p + rho
    requires r * c == x * P64 + sigma
    ensures x * y * P128 == P382 - (P191 - p) * (P191 - p) + p * rho - (sigma * y) * P64
  {
    calc {
      x * y * P128;
      (x * P64) * y * P64;
      (r * c - sigma) * y * P64;
      p * (c * P64) - (sigma * y) * P64;
      p * (P128 * P64 - p + rho) - (sigma * y) * P64;
    }
    assert (P191 - p) * (P191 - p) == P191 * P191 - p * (P128 * P64) + p * p;
  }

  lemma LastStepBounds(xy: int, y: int, p: int, square: int, low: int, high: int)
    requires P127 <= y
    requires p <= P191 + 13 * P126
    requires 0 <= square <= 169 * P252
    requires 0 <= low <= P64 * p && 0 <= high <= P64 * y
    requires xy * P128 == P382 - square + low - high * P64
    ensures xy < P254 + 2 * P127 && P254 - xy < 23 * y
  {
  }

  /** The last step squares the error once more; truncation costs at most one unit
      above and one below. */
  lemma LastStepIsClose(r: nat, y: nat, s: int, x: int)
    requires P127 <= y && -13 * P126 <= P191 - r * y <= 13 * P126
    requires 0 < s < P128 && 0 <= r * y - s * P64 < P64
    requires 0 <= r * (P128 - s) - x * P64 < P64
    ensures x * y < P254 + 2 * P127 && P254 - x * y < 23 * y
  {
    var p := r * y;
    var rho := p - s * P64;
    var sigma := r * (P128 - s) - x * P64;
    LastStepIdentity(r, y, p, rho, P128 - s, sigma, x);
    SquareAtMost(P191 - p, 13 * P126);
    MulMono(rho, P64, p);
    MulMono(sigma, P64, y);
    LastStepBounds(x * y, y, p, (P191 - p) * (P191 - p), p * rho, sigma * y);
  }

  lemma Recip128IsClose(r: nat, b: nat)
    requires Close64(r, b)
    ensures var x, y := Recip128(r, b), b * P15;
            x * y < P254 + 2 * P127 && P254 - x * y < 23 * y
  {
    hide Recip128, Deficit, HighWord;
    Recip128Plain(r, b);
    FullDeficit(r, b);
    LastStepIsClose(r, b * P15, r * (b * P15) / P64, Recip128(r, b));
  }

  /** The adjusted reciprocal x of b (y is b as a Q127 number) is strictly below 1/b,
      within 25 units of 2^-127 of it, and in [0.5, 1.0); the subtraction of 2
      does not wrap. */
  lemma ReciprocalIsTight(b: nat)
    requires IsSignificand(b)
    ensures var x, y := Reciprocal(b), b * P15;
            && x * y < P254
            && P254 - x * y < 25 * y
            && P126 <= x < P127
  {
    hide Recip64, Recip128, HighWord, Deficit;
    var q := HighWord(b);
    var r := Recip64(q);
    Recip64IsClose(q);
    Recip128IsClose(r, b);
    AdjustedBounds(Recip128(r, b), b * P15);
  }

  lemma AdjustedBounds(w: int, y: int)
    requires w * y < P254 + 2 * P127 && P254 - w * y < 23 * y
    requires P127 <= y <= P128 - P15
    ensures P126 + 2 <= w && w - 2 < P127
    ensures (w - 2) * y < P254 && P254 - (w - 2) * y < 25 * y
  {
    assert (w - 2) * y == w * y - 2 * y;
    if w < P126 + 2 {
      MulMono(w, P126 + 1, y);
    }
    if w - 2 >= P127 {
      MulMono(P127 + 2, w, y);
    }
  }

  /** One step by its truncated products. */
  lemma NewtonValue(r: nat, q: nat, h: nat, w: nat)
    requires r < P64 && q < P64 && 0 < h < P64 && w < P64
    requires h * P64 <= r * q < (h + 1) * P64 && w * P63 <= r * (P64 - h) < (w + 1) * P63
    ensures Newton64(r, q) == w
  {
    var c := Correction64(r, q);
    assert r * q / P64 == h;
    assert c == P64 - h;
    assert r * c / P63 == w;
  }

  lemma Recip64AtExample()
    ensures Recip64(0x8000_0001_8000_0000) == 0xFFFF_FFFD_0000_0008
  {
    hide Newton64;
    var q := 0x8000_0001_8000_0000;
    assert Seed64(q) == 0xF504_F332_79DE_6484;
    NewtonValue(0xF504_F332_79DE_6484, q, 0x7A82_799A_AC76_9F0D, 0xFF87_6CCB_1655_039C);
    NewtonValue(0xFF87_6CCB_1655_039C, q, 0x7FC3_B667_0A75_A4FE, 0xFFFF_C732_AC91_E948);
    NewtonValue(0xFFFF_C732_AC91_E948, q, 0x7FFF_E39A_D648_9F70, 0xFFFF_FFFC_F366_DBA0);
    NewtonValue(0xFFFF_FFFC_F366_DBA0, q, 0x7FFF_FFFF_F9B3_6DCB, 0xFFFF_FFFD_0000_0009);
    NewtonValue(0xFFFF_FFFD_0000_0009, q, 0x8000_0000_0000_0000, 0xFFFF_FFFD_0000_0009);
  }

  lemma Recip128AtExample()
    ensures IsSignificand(0x1_0000_0003_0000_0000_0000_0000_0000)
    ensures Recip128(0xFFFF_FFFD_0000_0008, 0x1_0000_0003_0000_0000_0000_0000_0000)
         == 0x7FFF_FFFE_8000_0004_7FFF_FFF2_8000_0027
  {
    var r, b := 0xFFFF_FFFD_0000_0008, 0x1_0000_0003_0000_0000_0000_0000_0000;
    assert HighWord(b) == 0x8000_0001_8000_0000 && b * P15 % P64 == 0;
    assert ProductHigh(r, 0x8000_0001_8000_0000, 0) == 0x7FFF_FFFF_FFFF_FFFF_8000_000C_0000_0000;
    var c := 0x8000_0000_0000_0000_7FFF_FFF4_0000_0000;
    assert Negate(0x7FFF_FFFF_FFFF_FFFF_8000_000C_0000_0000, P128) == c;
    assert c / P64 == 0x8000_0000_0000_0000 && c % P64 == 0x7FFF_FFF4_0000_0000;
    assert ProductHigh(r, 0x8000_0000_0000_0000, 0x7FFF_FFF4_0000_0000) == 0x7FFF_FFFE_8000_0004_7FFF_FFF2_8000_0027;
  }

  /** The reciprocal of 1 + 3 * 2^-32. */
  lemma ReciprocalAtExample()
    ensures IsSignificand(0x1_0000_0003_0000_0000_0000_0000_0000)
    ensures Reciprocal(0x1_0000_0003_0000_0000_0000_0000_0000) == 0x7FFF_FFFE_8000_0004_7FFF_FFF2_8000_0025
  {
    hide Recip64, Recip128;
    var b := 0x1_0000_0003_0000_0000_0000_0000_0000;
    assert HighWord(b) == 0x8000_0001_8000_0000;
    Recip64AtExample();
    Recip128AtExample();
  }
}
