/** Quad-precision (IEEE 754 binary128) division on bit patterns. */
module QuadDivision {
  import opened Basics
  import opened QuadReciprocal
  import opened QuadMultiply

  type Rep = x: nat | x < P128 witness 0

  const MAX_EXPONENT: int := 0x7FFF
  const BIAS: int := 0x3FFF
  const P111: int := 0x8000_0000_0000_0000_0000_0000_0000
  const INFINITY: int := 0x7FFF_0000_0000_0000_0000_0000_0000_0000
  const QUIET_NAN: int := 0x7FFF_8000_0000_0000_0000_0000_0000_0000

  // ----- fields of a bit pattern -----

  predicate Negative(x: Rep) { x >= P127 }

  function Abs(x: Rep): (r: nat)
    ensures r < P127 && x == r + (if Negative(x) then P127 else 0)
  {
    if Negative(x) then x - P127 else x
  }

  function Exponent(x: Rep): (e: nat)
    ensures e <= MAX_EXPONENT
  {
    Abs(x) / P112
  }

  function Fraction(x: Rep): (f: nat)
    ensures f < P112 && Abs(x) == Exponent(x) * P112 + f
  {
    Abs(x) % P112
  }

  predicate IsFinite(x: Rep) { Exponent(x) < MAX_EXPONENT }

  predicate IsZero(x: Rep) { Abs(x) == 0 }

  predicate IsNaN(x: Rep) { Abs(x) > INFINITY }

  predicate IsInfinite(x: Rep) { Abs(x) == INFINITY }

  // ----- operands -----

  /** A finite nonzero operand: sig * 2^(exp - BIAS - 112), with sig in [2^112, 2^113). */
  datatype Operand = Operand(sig: nat, exp: int)

  /** Leading zeros of a nonzero 128-bit word. */
  function LeadingZeros(x: nat): (n: nat)
    requires 0 < x < P128
    decreases P128 - x
  {
    if x >= P127 then 0 else 1 + LeadingZeros(2 * x)
  }

  function ShiftLeft(x: nat, n: nat): (y: nat)
    decreases n
  {
    if n == 0 then x else ShiftLeft(2 * x, n - 1)
  }

  /** Shift a denormal significand up to the implicit bit. */
  function Normalize(s: nat): (r: Operand)
    requires 0 < s < P112
  {
    ZerosOfImplicitBit();
    ZerosAreMonotone(s, P112);
    var shift := LeadingZeros(s) - LeadingZeros(P112);
    Operand(ShiftLeft(s, shift), 1 - shift)
  }

  function Unpack(x: Rep): (r: Operand)
    requires IsFinite(x) && !IsZero(x)
  {
    if Exponent(x) == 0 then Normalize(Fraction(x)) else Operand(Fraction(x) + P112, Exponent(x))
  }

  // ----- the division -----

  /** The rounded significand of a quotient: `m` units of 2^-shift of aSig/bSig, where
      `m` is the truncated estimate plus the rounding increment. */
  datatype Rounded = Rounded(quotient: nat, shift: nat, round: bool)

  /** The 128-bit word `n - quotient * b`, where n is the shifted significand of a. */
  function Residual(n: nat, b: nat, quotient: nat): (r: nat)
    requires b < P128 && quotient < P128
    ensures r < P128
  {
    (n - WideMultiply(quotient, b).1) % P128
  }

  /** Estimate, residual and rounding decision for two significands. */
  function RoundedQuotient(a: nat, b: nat): (r: Rounded)
    requires IsSignificand(a) && IsSignificand(b)
  {
    var estimate := WideMultiply(4 * a, Reciprocal(b)).0;
    if estimate < P113 then
      Rounded(estimate, 113, 2 * Residual(a * P113, b, estimate) % P128 >= b)
    else
      Rounded(estimate / 2, 112, 2 * Residual(a * P112, b, estimate / 2) % P128 >= b)
  }

  function SignBit(a: Rep, b: Rep): (s: nat) {
    if Negative(a) != Negative(b) then P127 else 0
  }

  /** The biased exponent the result is written with. */
  function WrittenExponent(a: Operand, b: Operand): (e: int)
    requires IsSignificand(a.sig) && IsSignificand(b.sig)
  {
    a.exp - b.exp - (if RoundedQuotient(a.sig, b.sig).shift == 113 then 1 else 0) + BIAS
  }

  /** The final branch: overflow, flush, or insert exponent, round and sign. */
  function Assemble(a: Operand, b: Operand, sign: nat): (r: nat)
    requires IsSignificand(a.sig) && IsSignificand(b.sig)
  {
    var q := RoundedQuotient(a.sig, b.sig);
    var e := WrittenExponent(a, b);
    if e >= MAX_EXPONENT then INFINITY + sign
    else if e < 1 then sign
    else q.quotient % P112 + e * P112 + (if q.round then 1 else 0) + sign
  }

  function SetQuietBit(x: Rep): (r: nat)
    ensures r == x || r == x + P111
  {
    if x / P111 % 2 == 1 then x else x + P111
  }

  function Divide(a: Rep, b: Rep): (r: nat) {
    if IsNaN(a) then SetQuietBit(a)
    else if IsNaN(b) then SetQuietBit(b)
    else if IsInfinite(a) then
      if IsInfinite(b) then QUIET_NAN else INFINITY + SignBit(a, b)
    else if IsInfinite(b) then SignBit(a, b)
    else if IsZero(a) then
      if IsZero(b) then QUIET_NAN else SignBit(a, b)
    else if IsZero(b) then INFINITY + SignBit(a, b)
    else
      UnpackIsNormal(a);
      UnpackIsNormal(b);
      Assemble(Unpack(a), Unpack(b), SignBit(a, b))
  }

  // ----- operands are normalized -----

  lemma ZerosOfImplicitBit()
    ensures LeadingZeros(P112) == 15
  {
    assert LeadingZeros(P127) == 0;
    assert LeadingZeros(P126) == 1;
  }

  lemma {:induction false} ZerosAreMonotone(x: nat, y: nat)
    requires 0 < x <= y < P128
    ensures LeadingZeros(x) >= LeadingZeros(y)
    decreases P128 - x
  {
    if x < P127 && y < P127 {
      ZerosAreMonotone(2 * x, 2 * y);
    }
  }

  /** Shifting by n fewer places than there are leading zeros leaves n of them. */
  lemma {:induction false} ShiftLeavesZeros(x: nat, n: nat)
    requires 0 < x < P128 && n <= LeadingZeros(x)
    ensures 0 < ShiftLeft(x, n) < P128
    ensures LeadingZeros(ShiftLeft(x, n)) == LeadingZeros(x) - n
    decreases n
  {
    if n > 0 {
      ShiftLeavesZeros(2 * x, n - 1);
    }
  }

  lemma FifteenZeros(x: nat)
    requires 0 < x < P128 && LeadingZeros(x) == 15
    ensures IsSignificand(x)
  {
    ShiftLeavesZeros(x, 15);
    assert ShiftLeft(x, 15) == x * P15;
  }

  lemma UnpackIsNormal(x: Rep)
    requires IsFinite(x) && !IsZero(x)
    ensures IsSignificand(Unpack(x).sig)
  {
    if Exponent(x) == 0 {
      var s := Fraction(x);
      ZerosOfImplicitBit();
      ZerosAreMonotone(s, P112);
      ShiftLeavesZeros(s, LeadingZeros(s) - 15);
      FifteenZeros(ShiftLeft(s, LeadingZeros(s) - 15));
    }
  }

  // ----- the estimate is at most one too low -----

  const P239: int := 0x8000_0000_0000_0000_0000_0000_0000_0000_0000_0000_0000_0000_0000_0000_0000
  const P241: int := 0x2_0000_0000_0000_0000_0000_0000_0000_0000_0000_0000_0000_0000_0000_0000_0000

  /** What ReciprocalIsTight says about x, restated without the Q127 alignment of b. */
  lemma ReciprocalTimesB(b: nat)
    requires IsSignificand(b)
    ensures var x := Reciprocal(b); x * b < P239 && P239 - x * b < 25 * b
  {
    hide Reciprocal;
    ReciprocalIsTight(b);
    var x := Reciprocal(b);
    assert x * (b * P15) == (x * b) * P15;
  }

  lemma EstimateScaled(a: int, b: int, xb: int)
    requires 0 < a < P113 && 0 < b
    requires xb < P239 && P239 - xb < 25 * b
    ensures a * xb < a * P239
    ensures a * P239 - a * xb < a * (25 * b)
  {
    MulMono(xb + 1, P239, a);
    MulMono(P239 - xb + 1, 25 * b, a);
  }

  /** Truncation, and a carry lost in the wide multiply, leave the estimate within
      1.01 units below the true quotient a/b * 2^113, and strictly below it. */
  lemma EstimateBounds(a: nat, b: nat)
    requires IsSignificand(a) && IsSignificand(b)
    ensures var estimate := WideMultiply(4 * a, Reciprocal(b)).0;
            && estimate * b < a * P113
            && 100 * (a * P113 - estimate * b) < 101 * b
  {
    hide Reciprocal, WideMultiply, LosesCarry;
    var x := Reciprocal(b);
    ReciprocalTimesB(b);
    WideMultiplyValue(4 * a, x);
    var n := 4 * a * x;
    var estimate := WideMultiply(4 * a, x).0;
    assert estimate * P128 <= n < estimate * P128 + P128 + P64;
    EstimateTimesB(a, b, x, n, estimate);
  }

  lemma EstimateTimesB(a: int, b: int, x: int, n: int, estimate: int)
    requires 0 < a < P113 && 0 < b && x * b < P239 && P239 - x * b < 25 * b
    requires n == 4 * a * x && estimate * P128 <= n < estimate * P128 + P128 + P64
    ensures estimate * b < a * P113 && 100 * (a * P113 - estimate * b) < 101 * b
  {
    EstimateScaled(a, b, x * b);
    Regroup(a, x, b);
    TimesB(n, estimate, b);
    MulMono(a, P113, b);
    EstimateLinear(a, b, a * b, n * b, estimate * b);
  }

  lemma Regroup(a: int, x: int, b: int)
    ensures (4 * a * x) * b == 4 * (a * (x * b)) && a * (25 * b) == 25 * (a * b)
  {
  }

  lemma Distribute(u: int, v: int, b: int)
    ensures (u + v) * b == u * b + v * b
  {
  }

  lemma TimesB(n: int, estimate: int, b: int)
    requires 0 < b && estimate * P128 <= n < estimate * P128 + P128 + P64
    ensures (estimate * b) * P128 <= n * b <= (estimate * b) * P128 + (P128 + P64) * b
  {
    var u := estimate * P128;
    MulMono(u, n, b);
    MulMono(n, u + (P128 + P64), b);
    Distribute(u, P128 + P64, b);
    assert u * b == (estimate * b) * P128;
  }

  lemma EstimateLinear(a: int, b: int, ab: int, nb: int, eb: int)
    requires 0 < b && ab <= P113 * b
    requires nb < 4 * (a * P239) && 4 * (a * P239) - nb < 100 * ab
    requires eb * P128 <= nb <= eb * P128 + (P128 + P64) * b
    ensures eb < a * P113 && 100 * (a * P113 - eb) < 101 * b
  {
  }

  // ----- an exact tie is impossible -----

  lemma Exp2Values()
    ensures Exp2(112) == P112 && Exp2(113) == P113
  {
    assert Exp2(7) == 0x80;
    hide Exp2;
    Exp2Doubled(7, 0x80, 0x4000);
    Exp2Doubled(14, 0x4000, 0x1000_0000);
    Exp2Doubled(28, 0x1000_0000, 0x100_0000_0000_0000);
    Exp2Doubled(56, 0x100_0000_0000_0000, P112);
    Exp2Next(112);
  }

  lemma Exp2Doubled(n: nat, v: int, w: int)
    requires Exp2(n) == v && v * v == w
    ensures Exp2(n + n) == w
  {
    Exp2Adds(n, n);
  }

  lemma Exp2Next(n: nat)
    ensures Exp2(n + 1) == 2 * Exp2(n)
  {
  }

  lemma {:induction false} Exp2Adds(m: nat, n: nat)
    ensures Exp2(m + n) == Exp2(m) * Exp2(n)
    decreases n
  {
    if n > 0 {
      Exp2Adds(m, n - 1);
    }
  }

  lemma OddTimesOdd(k: nat, b: nat)
    requires k % 2 == 1 && b % 2 == 1
    ensures k * b % 2 == 1
  {
    assert k * b == 2 * (k / 2 * b) + b;
  }

  /** An odd factor cannot contribute to a power of two. */
  lemma {:induction false} OddFactor(k: nat, b: nat, c: nat, n: nat) returns (d: nat)
    requires k % 2 == 1 && k * b == c * Exp2(n)
    ensures b == d * Exp2(n)
  {
    if n == 0 {
      d := b;
    } else {
      var e, half := Exp2(n - 1), b / 2;
      assert c * Exp2(n) == 2 * (c * e);
      if b % 2 == 1 {
        OddTimesOdd(k, b);
      }
      assert b == 2 * half;
      assert k * b == 2 * (k * half);
      d := OddFactor(k, half, c, n - 1);
      assert 2 * (d * e) == d * Exp2(n);
    }
  }

  lemma NoTie(quotient: nat, b: nat, c: nat)
    requires 0 < b < P113
    ensures (2 * quotient + 1) * b != c * P113
  {
    if (2 * quotient + 1) * b == c * P113 {
      Exp2Values();
      var d := OddFactor(2 * quotient + 1, b, c, 113);
      NotAMultiple(b, d);
    }
  }

  lemma NotAMultiple(b: nat, d: nat)
    requires 0 < b < P113
    ensures b != d * P113
  {
    if d > 0 {
      MulMono(1, d, P113);
    }
  }

  // ----- the rounded significand is the nearest -----

  function Units(q: Rounded): (u: int) {
    if q.shift == 113 then P113 else P112
  }

  /** The significand after rounding. */
  function Significand(q: Rounded): (m: nat) {
    q.quotient + (if q.round then 1 else 0)
  }

  lemma ResidualIsExact(n: nat, b: nat, quotient: nat)
    requires b < P128 && quotient < P128
    requires 0 <= n - quotient * b < P127
    ensures Residual(n, b, quotient) == n - quotient * b
    ensures 2 * Residual(n, b, quotient) % P128 == 2 * (n - quotient * b)
  {
    hide WideMultiply, LosesCarry;
    WideMultiplyValue(quotient, b);
    ModDifference(n, quotient * b, WideMultiply(quotient, b).1);
  }

  lemma ModDifference(x: int, y: int, low: int)
    requires low == y % P128 && 0 <= x - y < P128
    ensures (x - low) % P128 == x - y
  {
    assert x - low == (x - y) + y / P128 * P128;
  }

  /** Halving an estimate that has one bit too many keeps it within 1.01 units. */
  lemma HalvedEstimate(n: int, b: int, estimate: nat, half: nat, eb: int, hb: int)
    requires half == estimate / 2 && eb == estimate * b && hb == half * b && 0 < b
    requires eb < 2 * n && 100 * (2 * n - eb) < 101 * b
    ensures hb < n && 100 * (n - hb) < 101 * b
  {
    var k := estimate % 2;
    assert estimate == 2 * half + k;
    assert (2 * half + k) * b == 2 * (half * b) + k * b;
  }

  /** Rounding an estimate within (0, 1.01) units below the true value picks the
      nearest integer, whether or not the estimate is one too low. */
  lemma RoundingRepairs(n: int, b: int, quotient: int, round: bool)
    requires quotient * b < n && 100 * (n - quotient * b) < 101 * b
    requires 2 * (n - quotient * b) != b
    requires round == (2 * (n - quotient * b) >= b)
    ensures var m := quotient + (if round then 1 else 0); -b < 2 * (n - m * b) < b
  {
    assert (quotient + 1) * b == quotient * b + b;
  }

  /** For all significands: the code's estimate, shift and rounding increment give the
      integer nearest to a/b * 2^shift; it has 113 bits, an exact tie never occurs,
      and rounding carries into the exponent exactly when the significands are equal. */
  lemma SignificandIsNearest(a: nat, b: nat)
    requires IsSignificand(a) && IsSignificand(b)
    ensures var q := RoundedQuotient(a, b);
            && P112 <= q.quotient < P113
            && q.quotient * b < a * Units(q)
            && (q.shift == 113 || q.shift == 112)
            && (q.shift == 113 <==> a <= b)
            && -(b as int) < 2 * (a * Units(q) - Significand(q) * b) < b
            && (Significand(q) == P113 <==> a == b)
  {
    hide WideMultiply, Reciprocal, Residual;
    var estimate := WideMultiply(4 * a, Reciprocal(b)).0;
    EstimateBounds(a, b);
    EstimateRange(a, b, estimate);
    if estimate < P113 {
      SignificandCase(a * P113, b, estimate, 2 * a);
      SignificandTop(a, b, Significand(RoundedQuotient(a, b)));
    } else {
      HalvedEstimate(a * P112, b, estimate, estimate / 2, estimate * b, estimate / 2 * b);
      SignificandCase(a * P112, b, estimate / 2, a);
      SignificandBelowTop(a, b, Significand(RoundedQuotient(a, b)));
    }
  }

  lemma EstimateRange(a: int, b: int, estimate: int)
    requires P112 <= a < P113 && P112 <= b < P113
    requires estimate * b < a * P113 && 100 * (a * P113 - estimate * b) < 101 * b
    ensures P112 <= estimate < 2 * P113
    ensures estimate < P113 <==> a <= b
  {
    if estimate < P112 {
      MulMono(estimate, P112 - 1, b);
    }
    if estimate >= 2 * P113 {
      MulMono(2 * P113, estimate, b);
    }
    if estimate < P113 {
      MulMono(estimate, P113 - 1, b);
    } else {
      MulMono(P113, estimate, b);
    }
  }

  lemma SignificandCase(n: nat, b: nat, quotient: nat, c: nat)
    requires IsSignificand(b) && quotient < P113
    requires 2 * n == c * P113
    requires quotient * b < n && 100 * (n - quotient * b) < 101 * b
    ensures var round := 2 * Residual(n, b, quotient) % P128 >= b;
            var m := quotient + (if round then 1 else 0);
            -(b as int) < 2 * (n - m * b) < b
  {
    hide Residual;
    ResidualIsExact(n, b, quotient);
    NoTie(quotient, b, c);
    assert (2 * quotient + 1) * b == 2 * (quotient * b) + b;
    RoundingRepairs(n, b, quotient, 2 * Residual(n, b, quotient) % P128 >= b);
  }

  lemma SignificandTop(a: int, b: int, m: int)
    requires P112 <= a <= b < P113
    requires -b < 2 * (a * P113 - m * b) < b
    ensures m == P113 <==> a == b
  {
    if a == b {
      assert 2 * (a * P113 - m * b) == 2 * (P113 - m) * b;
      if m > P113 {
        MulMono(2 * (P113 - m), -2, b);
      } else if m < P113 {
        MulMono(2, 2 * (P113 - m), b);
      }
    }
  }

  lemma SignificandBelowTop(a: int, b: int, m: int)
    requires P112 <= b < a < P113
    requires -b < 2 * (a * P112 - m * b)
    ensures m != P113
  {
  }

  // ----- special operands and signs -----

  lemma QuietNaN(x: Rep)
    requires IsNaN(x)
    ensures SetQuietBit(x) < P128 && IsNaN(SetQuietBit(x)) && SetQuietBit(x) / P111 % 2 == 1
  {
    var q := x / P111;
    assert x == q * P111 + x % P111 && q < 0x2_0000;
    if q % 2 == 0 {
      assert (x + P111) / P111 == q + 1;
      assert x + P111 < (q + 2) * P111 <= P128;
      if Negative(x) {
        assert x + P111 > P127;
      }
    }
  }

  lemma AssembledRange(a: Operand, b: Operand, sign: nat)
    requires IsSignificand(a.sig) && IsSignificand(b.sig)
    ensures sign <= Assemble(a, b, sign) <= INFINITY + sign
  {
    hide RoundedQuotient;
    var e := WrittenExponent(a, b);
    if 1 <= e < MAX_EXPONENT {
      assert e * P112 <= (MAX_EXPONENT - 1) * P112;
    }
  }

  /** A result is a NaN exactly for a NaN operand and for the two invalid quotients, it is then
      quiet, and every other result has the sign of the quotient. Apart from NaNs, infinity
      over anything and anything over zero are infinite, and the reverse are zero. */
  lemma SpecialResults(a: Rep, b: Rep)
    ensures Divide(a, b) < P128
    ensures IsNaN(Divide(a, b)) <==>
              IsNaN(a) || IsNaN(b) || (IsInfinite(a) && IsInfinite(b)) || (IsZero(a) && IsZero(b))
    ensures IsNaN(Divide(a, b)) ==> Divide(a, b) / P111 % 2 == 1
    ensures !IsNaN(Divide(a, b)) ==> (Negative(Divide(a, b)) <==> Negative(a) != Negative(b))
    ensures !IsNaN(Divide(a, b)) && (IsInfinite(a) || IsZero(b)) ==> IsInfinite(Divide(a, b))
    ensures !IsNaN(Divide(a, b)) && (IsZero(a) || IsInfinite(b)) ==> IsZero(Divide(a, b))
  {
    hide Assemble, Unpack, SetQuietBit;
    if IsNaN(a) {
      QuietNaN(a);
    } else if IsNaN(b) {
      QuietNaN(b);
    } else if IsFinite(a) && IsFinite(b) && !IsZero(a) && !IsZero(b) {
      UnpackIsNormal(a);
      UnpackIsNormal(b);
      AssembledRange(Unpack(a), Unpack(b), SignBit(a, b));
    }
  }

  /** The quotient estimate of the division can lose the carry too. */
  lemma EstimateCanLoseCarry()
    ensures var a, b := 0x1_6AB3_9276_1363_907A_35F5_3615_90AD, 0x1_0000_0003_0000_0000_0000_0000_0000;
      IsSignificand(a) && IsSignificand(b) && WideMultiply(4 * a, Reciprocal(b)).0 + 1 == 4 * a * Reciprocal(b) / P128
  {
    hide Reciprocal;
    ReciprocalAtExample();
    ExampleLosesCarry();
  }

  lemma ExampleLosesCarry()
    ensures WideMultiply(0x5_AACE_49D8_4D8E_41E8_D7D4_D856_42B4, 0x7FFF_FFFE_8000_0004_7FFF_FFF2_8000_0025).0 + 1
         == 0x5_AACE_49D8_4D8E_41E8_D7D4_D856_42B4 * 0x7FFF_FFFE_8000_0004_7FFF_FFF2_8000_0025 / P128
  {
    var n, x := 0x5_AACE_49D8_4D8E_41E8_D7D4_D856_42B4, 0x7FFF_FFFE_8000_0004_7FFF_FFF2_8000_0025;
    assert Split(n) == Words(0x5aace, 0x49d84d8e, 0x41e8d7d4, 0xd85642b4);
    assert Split(x) == Words(0x7ffffffe, 0x80000004, 0x7ffffff2, 0x80000025);
    var c := ProductColumns(n, x);
    assert c.s0 == 0x6c2b21794477a404 && c.s1 == 0x8d1f8d41b1ef8bcc;
    assert c.s2 == 0xb20bb41572e072be && c.s3 == 0xb20e896d4df44bea;
    WideMultiplyValue(n, x);
  }
}
