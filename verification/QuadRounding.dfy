/** What quad-precision division means: bit patterns as real numbers, and the quotient
    as the nearest representable number. */
module QuadRounding {
  import opened Basics
  import opened QuadReciprocal
  import opened QuadDivision

  // ----- powers of two -----

  function Pow2(e: int): (p: real)
    ensures p > 0.0
    decreases if e < 0 then -e else e
  {
    if e == 0 then 1.0 else if e > 0 then 2.0 * Pow2(e - 1) else Pow2(e + 1) / 2.0
  }

  lemma Pow2Succ(e: int)
    ensures Pow2(e + 1) == 2.0 * Pow2(e)
  {
  }

  lemma {:induction false} Pow2Adds(a: int, n: int)
    ensures Pow2(a + n) == Pow2(a) * Pow2(n)
    decreases if n < 0 then -n else n
  {
    hide Pow2;
    if n == 0 {
      Pow2Zero();
    } else if n > 0 {
      Pow2Adds(a, n - 1);
      Pow2Succ(a + n - 1);
      Pow2Succ(n - 1);
      DoubleFactor(Pow2(a), Pow2(n - 1));
    } else {
      Pow2Adds(a, n + 1);
      Pow2Succ(a + n);
      Pow2Succ(n);
      DoubleFactor(Pow2(a), Pow2(n));
    }
  }

  lemma Pow2Zero()
    ensures Pow2(0) == 1.0
  {
  }

  lemma DoubleFactor(x: real, y: real)
    ensures x * (2.0 * y) == 2.0 * (x * y)
  {
  }

  lemma {:induction false} Pow2IsExp2(n: nat)
    ensures Pow2(n) == Exp2(n) as real
  {
    if n > 0 {
      Pow2IsExp2(n - 1);
    }
  }

  // ----- the value of a bit pattern -----

  /** The weight of the last significand bit of numbers with biased exponent e. */
  ghost function Ulp(e: int): (u: real)
    ensures u > 0.0
  {
    Pow2(e - BIAS - 112)
  }

  ghost function StoredSignificand(x: Rep): nat {
    if Exponent(x) == 0 then Fraction(x) else Fraction(x) + P112
  }

  ghost function StoredExponent(x: Rep): int {
    if Exponent(x) == 0 then 1 else Exponent(x)
  }

  ghost function Magnitude(x: Rep): real {
    StoredSignificand(x) as real * Ulp(StoredExponent(x))
  }

  ghost function Value(x: Rep): real
    requires IsFinite(x)
  {
    if Negative(x) then -Magnitude(x) else Magnitude(x)
  }

  ghost function Distance(x: real, y: real): real {
    if x < y then y - x else x - y
  }

  /** r is finite and strictly closer to v than every number other than r. */
  ghost predicate IsNearest(v: real, r: Rep) {
    && IsFinite(r)
    && forall f: Rep | IsFinite(f) && Value(f) != Value(r) ::
         Distance(v, Value(r)) < Distance(v, Value(f))
  }

  lemma UlpScales(e: int, n: int)
    ensures Ulp(e + n) == Ulp(e) * Pow2(n)
  {
    hide Pow2;
    Pow2Adds(e - BIAS - 112, n);
    assert e - BIAS - 112 + n == e + n - BIAS - 112;
  }

  lemma {:induction false} ShiftLeftValue(x: nat, n: nat)
    ensures ShiftLeft(x, n) == x * Exp2(n)
    decreases n
  {
    if n > 0 {
      ShiftLeftValue(2 * x, n - 1);
      assert (2 * x) * Exp2(n - 1) == x * (2 * Exp2(n - 1));
    }
  }

  /** Unpacking, including the renormalization of denormals, keeps the value. */
  lemma UnpackKeepsValue(x: Rep)
    requires IsFinite(x) && !IsZero(x)
    ensures Magnitude(x) == Unpack(x).sig as real * Ulp(Unpack(x).exp)
  {
    if Exponent(x) == 0 {
      var s := Fraction(x);
      ZerosOfImplicitBit();
      ZerosAreMonotone(s, P112);
      var n := LeadingZeros(s) - 15;
      ShiftLeftValue(s, n);
      Pow2IsExp2(n);
      UlpScales(1 - n, n);
      assert (s * Exp2(n)) as real == s as real * Exp2(n) as real;
      assert s as real * Exp2(n) as real * Ulp(1 - n) == s as real * (Ulp(1 - n) * Exp2(n) as real);
    }
  }

  // ----- the exact quotient in units of the result's last place -----

  ghost predicate Divisible(a: Rep, b: Rep) {
    IsFinite(a) && IsFinite(b) && !IsZero(a) && !IsZero(b)
  }

  /** The magnitude of the exact quotient. */
  ghost function ExactQuotient(a: Rep, b: Rep): real
    requires Divisible(a, b)
  {
    MagnitudeIsPositive(b);
    Magnitude(a) / Magnitude(b)
  }

  ghost function RoundedOf(a: Rep, b: Rep): Rounded
    requires Divisible(a, b)
  {
    UnpackIsNormal(a);
    UnpackIsNormal(b);
    RoundedQuotient(Unpack(a).sig, Unpack(b).sig)
  }

  ghost function ExponentOf(a: Rep, b: Rep): int
    requires Divisible(a, b)
  {
    UnpackIsNormal(a);
    UnpackIsNormal(b);
    WrittenExponent(Unpack(a), Unpack(b))
  }

  ghost predicate EqualSignificands(a: Rep, b: Rep)
    requires Divisible(a, b)
  {
    Unpack(a).sig == Unpack(b).sig
  }

  lemma MagnitudeIsPositive(x: Rep)
    requires IsFinite(x) && !IsZero(x)
    ensures Magnitude(x) > 0.0
  {
    hide Ulp;
    assert StoredSignificand(x) > 0;
    PositiveProduct(StoredSignificand(x) as real, Ulp(StoredExponent(x)));
  }

  lemma PositiveProduct(x: real, y: real)
    requires x > 0.0 && y > 0.0
    ensures x * y > 0.0
  {
  }

  lemma UnitsValue(q: Rounded)
    requires q.shift == 112 || q.shift == 113
    ensures Units(q) as real == Pow2(q.shift)
  {
    hide Pow2, Exp2;
    Pow2IsExp2(q.shift);
    Exp2Values();
  }

  lemma RatioOfProducts(x: real, a: real, ua: real, b: real, ub: real, p: real)
    requires x * (b * ub) == a * ua && ua == ub * p && ub > 0.0
    ensures x * b == a * p
  {
    assert (x * b) * ub == (a * p) * ub;
    CancelFactor(x * b, a * p, ub);
  }

  lemma CancelFactor(x: real, y: real, u: real)
    requires x * u == y * u && u > 0.0
    ensures x == y
  {
    assert (x - y) * u == 0.0;
  }

  /** The exact quotient times b's significand, in units of the last place of the
      written exponent, is a's significand shifted left. */
  lemma QuotientInUlps(a: Rep, b: Rep)
    requires Divisible(a, b)
    ensures ExactQuotient(a, b) * Unpack(b).sig as real
         == (Unpack(a).sig * Units(RoundedOf(a, b))) as real * Ulp(ExponentOf(a, b))
  {
    hide Pow2, Exp2, Unpack, RoundedQuotient, Magnitude;
    var oa, ob, q := Unpack(a), Unpack(b), RoundedOf(a, b);
    UnpackIsNormal(a);
    UnpackIsNormal(b);
    SignificandIsNearest(oa.sig, ob.sig);
    UnpackKeepsValue(a);
    UnpackKeepsValue(b);
    MagnitudeIsPositive(b);
    var d := oa.exp - ob.exp;
    UlpScales(ob.exp, d);
    assert ob.exp + d == oa.exp;
    RatioOfProducts(ExactQuotient(a, b), oa.sig as real, Ulp(oa.exp), ob.sig as real, Ulp(ob.exp), Pow2(d));
    UnitsValue(q);
    Pow2Adds(d - q.shift, q.shift);
    assert ExponentOf(a, b) - BIAS - 112 == d - q.shift;
    assert d - q.shift + q.shift == d;
    RegroupUnits(oa.sig, Units(q), Pow2(d - q.shift), Pow2(q.shift), Pow2(d));
  }

  lemma RegroupUnits(sig: int, units: int, u: real, p: real, d: real)
    requires units as real == p && d == u * p
    ensures sig as real * d == (sig * units) as real * u
  {
    assert (sig * units) as real == sig as real * units as real;
  }

  // ----- the result is the nearest number -----

  /** The assembled bit pattern denotes the rounded significand at the written
      exponent, including when rounding carries into the exponent. */
  lemma ResultValue(a: Rep, b: Rep)
    requires Divisible(a, b)
    requires 1 <= ExponentOf(a, b) < MAX_EXPONENT
    requires EqualSignificands(a, b) ==> ExponentOf(a, b) < MAX_EXPONENT - 1
    ensures Divide(a, b) < P128 && IsFinite(Divide(a, b))
    ensures Negative(Divide(a, b)) == (Negative(a) != Negative(b))
    ensures Magnitude(Divide(a, b)) == Significand(RoundedOf(a, b)) as real * Ulp(ExponentOf(a, b))
  {
    hide Pow2, Unpack, RoundedQuotient;
    UnpackIsNormal(a);
    UnpackIsNormal(b);
    var q, e := RoundedOf(a, b), ExponentOf(a, b);
    SignificandIsNearest(Unpack(a).sig, Unpack(b).sig);
    var m := Significand(q);
    var r := Divide(a, b);
    assert q.quotient % P112 == q.quotient - P112;
    assert r == m - P112 + e * P112 + SignBit(a, b);
    if m == P113 {
      assert Exponent(r) == e + 1 && Fraction(r) == 0;
      UlpScales(e, 1);
      Pow2One();
      assert P112 as real * (Ulp(e) * 2.0) == P113 as real * Ulp(e);
    } else {
      assert Exponent(r) == e && Fraction(r) == m - P112;
    }
  }

  lemma Pow2One()
    ensures Pow2(1) == 2.0
  {
  }

  /** A finite number is a whole number of ulps of exponent e, or is below 2^112 of them. */
  lemma WholeUlpsOrSmall(f: Rep, e: int) returns (w: real, n: int)
    requires IsFinite(f)
    ensures Magnitude(f) == w * Ulp(e) && w >= 0.0
    ensures w == n as real || w < P112 as real
  {
    hide Pow2, Exp2;
    var sig, d := StoredSignificand(f), StoredExponent(f) - e;
    assert sig < P113;
    UlpScales(e, d);
    assert e + d == StoredExponent(f);
    w := sig as real * Pow2(d);
    assert sig as real * (Ulp(e) * Pow2(d)) == w * Ulp(e);
    if d >= 0 {
      Pow2IsExp2(d);
      n := sig * Exp2(d);
    } else {
      n := 0;
      Pow2BelowHalf(d);
      SmallProduct(sig, Pow2(d));
    }
  }

  lemma {:induction false} Pow2BelowHalf(d: int)
    requires d < 0
    ensures Pow2(d) <= 0.5
    decreases -d
  {
    if d < -1 {
      Pow2BelowHalf(d + 1);
    }
  }

  lemma SmallProduct(sig: nat, p: real)
    requires sig < P113 && 0.0 < p <= 0.5
    ensures 0.0 <= sig as real * p < P112 as real
  {
    assert sig as real * p <= sig as real * 0.5;
  }

  /** Of the candidates w, the whole number m within a half of t is the closest. */
  lemma ClosestCandidate(t: real, m: int, w: real, n: int)
    requires Distance(t, m as real) < 0.5 && t > P112 as real && m >= P112
    requires w == n as real || w < P112 as real
    requires w != m as real
    ensures Distance(t, m as real) < Distance(t, w)
  {
    if w == n as real {
      assert n <= m - 1 || n >= m + 1;
    }
  }

  lemma ScaledDistance(x: real, t: real, y: real, w: real, u: real)
    requires u > 0.0 && x == t * u && y == w * u
    ensures Distance(x, y) == Distance(t, w) * u
  {
    assert x - y == (t - w) * u;
    if t < w {
      PositiveProduct(w - t, u);
    } else if w < t {
      PositiveProduct(t - w, u);
    }
  }

  lemma OrderScales(x: real, y: real, u: real)
    requires x < y && u > 0.0
    ensures x * u < y * u
  {
    PositiveProduct(y - x, u);
    assert (y - x) * u == y * u - x * u;
  }

  lemma OrderOfProducts(p: real, q: real, x: real, y: real, u: real)
    requires x < y && u > 0.0 && p == x * u && q == y * u
    ensures p < q
  {
    OrderScales(x, y, u);
    assert x * u < y * u;
  }

  /** The exact quotient is t ulps, with t above 2^112 and within a half of the
      rounded significand; t reaches 2^113 exactly for equal significands. */
  lemma QuotientNearSignificand(a: Rep, b: Rep) returns (t: real)
    requires Divisible(a, b)
    ensures ExactQuotient(a, b) == t * Ulp(ExponentOf(a, b))
    ensures P112 as real < t <= P113 as real
    ensures t == P113 as real <==> EqualSignificands(a, b)
    ensures Significand(RoundedOf(a, b)) >= P112
    ensures Distance(t, Significand(RoundedOf(a, b)) as real) < 0.5
  {
    hide Ulp, Unpack, RoundedQuotient, ExactQuotient, ExponentOf;
    UnpackIsNormal(a);
    UnpackIsNormal(b);
    var sa, sb, q := Unpack(a).sig, Unpack(b).sig, RoundedOf(a, b);
    SignificandIsNearest(sa, sb);
    QuotientInUlps(a, b);
    t := RatioInUlps(ExactQuotient(a, b), sa * Units(q), sb, Ulp(ExponentOf(a, b)));
    RatioBounds(sa * Units(q), sb, q.quotient, Significand(q), t);
    if q.shift == 113 {
      TopRatio(sa, sb, t);
    } else {
      CancelLess(t, P113 as real, sb as real);
    }
  }

  lemma RatioInUlps(x: real, n: int, b: int, u: real) returns (t: real)
    requires b > 0 && x * b as real == n as real * u
    ensures t * b as real == n as real && x == t * u
  {
    t := n as real / b as real;
    assert (t * u) * b as real == (t * b as real) * u;
    CancelFactor(t * u, x, b as real);
  }

  lemma TopRatio(a: int, b: int, t: real)
    requires 0 < a <= b && t * b as real == (a * P113) as real
    ensures t <= P113 as real && (t == P113 as real <==> a == b)
  {
    var rb := b as real;
    if a == b {
      CancelFactor(t, P113 as real, rb);
    } else {
      CancelLess(t, P113 as real, rb);
    }
  }

  lemma CancelLess(x: real, y: real, u: real)
    requires x * u < y * u && u > 0.0
    ensures x < y
  {
    if y <= x {
      ScaleDown(y, x, u);
    }
  }

  lemma RatioBounds(n: int, b: int, quotient: int, m: int, t: real)
    requires 0 < b && t * b as real == n as real
    requires P112 <= quotient && quotient * b < n
    requires -b < 2 * (n - m * b) < b
    ensures t > P112 as real && Distance(t, m as real) < 0.5
  {
    var rb := b as real;
    MulMono(P112, quotient, b);
    assert P112 as real * rb == (P112 * b) as real;
    CancelLess(P112 as real, t, rb);
    var d := t - m as real;
    DifferenceTimes(t, m, b, n);
    var half := 0.5 * rb;
    assert -half < d * rb < half;
    CancelLess(d, 0.5, rb);
    CancelLess(-0.5, d, rb);
  }

  lemma DifferenceTimes(t: real, m: int, b: int, n: int)
    requires t * b as real == n as real
    ensures (t - m as real) * b as real == (n - m * b) as real
  {
    assert (m * b) as real == m as real * b as real;
  }

  lemma ScaleDown(x: real, y: real, u: real)
    requires x <= y && u > 0.0
    ensures x * u <= y * u
  {
    if x < y {
      OrderScales(x, y, u);
    }
  }

  /** A candidate magnitude of either sign is farther from the positive number x than
      m ulps are, where x is t ulps. */
  lemma FartherCandidate(x: real, t: real, m: int, nearest: real, f: Rep, e: int, same: bool)
    requires IsFinite(f)
    requires x == t * Ulp(e) && nearest == m as real * Ulp(e)
    requires Distance(t, m as real) < 0.5 && t > P112 as real && m >= P112
    requires same ==> Magnitude(f) != nearest
    requires nearest > 0.0
    ensures same ==> Distance(x, nearest) < Distance(x, Magnitude(f))
    ensures !same ==> Distance(x, nearest) < Distance(x, -Magnitude(f))
  {
    hide Ulp, Magnitude, Distance;
    var w, n := WholeUlpsOrSmall(f, e);
    if same {
      FartherScaled(x, t, nearest, m, Magnitude(f), w, n, Ulp(e));
    } else {
      NegativeIsSmall(w, Ulp(e));
      FartherScaled(x, t, nearest, m, -Magnitude(f), -w, n, Ulp(e));
    }
  }

  lemma NegativeIsSmall(w: real, u: real)
    requires w >= 0.0
    ensures -w < P112 as real && (-w) * u == -(w * u)
  {
  }

  lemma FartherScaled(x: real, t: real, nearest: real, m: int, y: real, w: real, n: int, u: real)
    requires u > 0.0 && x == t * u && nearest == m as real * u && y == w * u
    requires Distance(t, m as real) < 0.5 && t > P112 as real && m >= P112
    requires w == n as real || w < P112 as real
    requires y != nearest
    ensures Distance(x, nearest) < Distance(x, y)
  {
    var r := m as real;
    ClosestCandidate(t, m, w, n);
    ScaledDistance(x, t, nearest, r, u);
    ScaledDistance(x, t, y, w, u);
    OrderOfProducts(Distance(x, nearest), Distance(x, y), Distance(t, r), Distance(t, w), u);
  }

  /** Division of finite nonzero numbers, denormals included, returns the number nearest
      to the exact quotient whenever the written exponent is in range; no tie occurs. */
  lemma DivideIsNearest(a: Rep, b: Rep)
    requires Divisible(a, b)
    requires 1 <= ExponentOf(a, b) < MAX_EXPONENT
    requires EqualSignificands(a, b) ==> ExponentOf(a, b) < MAX_EXPONENT - 1
    ensures Divide(a, b) < P128
    ensures Value(b) != 0.0 && IsNearest(Value(a) / Value(b), Divide(a, b))
  {
    hide Ulp, Magnitude, Divide, Unpack, RoundedOf, ExponentOf, ExactQuotient;
    ResultValue(a, b);
    SignedQuotient(a, b);
    forall f: Rep | IsFinite(f) && Value(f) != Value(Divide(a, b))
      ensures Distance(Value(a) / Value(b), Value(Divide(a, b))) < Distance(Value(a) / Value(b), Value(f))
    {
      NearerThan(a, b, f);
    }
  }

  lemma NearerThan(a: Rep, b: Rep, f: Rep)
    requires Divisible(a, b)
    requires 1 <= ExponentOf(a, b) < MAX_EXPONENT
    requires EqualSignificands(a, b) ==> ExponentOf(a, b) < MAX_EXPONENT - 1
    requires Divide(a, b) < P128 && IsFinite(Divide(a, b))
    requires IsFinite(f) && Value(f) != Value(Divide(a, b))
    requires Value(b) != 0.0
    ensures Distance(Value(a) / Value(b), Value(Divide(a, b))) < Distance(Value(a) / Value(b), Value(f))
  {
    hide Ulp, Magnitude, Divide, Unpack, RoundedOf, ExponentOf, ExactQuotient, Distance;
    ResultValue(a, b);
    SignedQuotient(a, b);
    var t := QuotientNearSignificand(a, b);
    var x, r := ExactQuotient(a, b), Divide(a, b);
    var nearest, other := Magnitude(r), Magnitude(f);
    FartherCandidate(x, t, Significand(RoundedOf(a, b)), nearest, f, ExponentOf(a, b), Negative(f) == Negative(r));
    MirroredDistance(x, nearest);
    MirroredDistance(x, other);
    MirroredDistance(x, -other);
  }

  lemma MirroredDistance(x: real, y: real)
    ensures Distance(-x, -y) == Distance(x, y)
  {
  }

  lemma SignedQuotient(a: Rep, b: Rep)
    requires Divisible(a, b)
    ensures Value(b) != 0.0
    ensures Value(a) / Value(b)
         == if Negative(a) != Negative(b) then -ExactQuotient(a, b) else ExactQuotient(a, b)
  {
    hide Magnitude;
    MagnitudeIsPositive(b);
    NegatedDivision(Magnitude(a), Magnitude(b));
    NegatedDivision(-Magnitude(a), Magnitude(b));
  }

  lemma NegatedDivision(x: real, y: real)
    requires y > 0.0
    ensures (-x) / y == -(x / y) && x / (-y) == -(x / y)
  {
    assert (x / y) * y == x;
    assert ((-x) / y) * y == -x;
    assert (-(x / y)) * y == -x;
    CancelFactor((-x) / y, -(x / y), y);
    assert (x / (-y)) * (-y) == x;
    assert (-(x / (-y))) * y == x;
    CancelFactor(-(x / (-y)), x / y, y);
  }

  // ----- overflow and flushing -----

  /** Every finite number is below 2^113 ulps of the largest exponent. */
  lemma LargestFinite(f: Rep)
    requires IsFinite(f)
    ensures Magnitude(f) <= (P113 - 1) as real * Ulp(MAX_EXPONENT - 1)
  {
    hide Pow2;
    var e, top := StoredExponent(f), MAX_EXPONENT - 1;
    UlpGrows(e, top);
    var sig := StoredSignificand(f);
    assert sig as real * Ulp(e) <= sig as real * Ulp(top);
    ScaleDown(sig as real, (P113 - 1) as real, Ulp(top));
  }

  lemma {:induction false} UlpGrows(e: int, top: int)
    requires e <= top
    ensures Ulp(e) <= Ulp(top)
    decreases top - e
  {
    if e < top {
      UlpGrows(e + 1, top);
      Pow2Succ(e - BIAS - 112);
    }
  }

  lemma NextUlp(e: int)
    ensures P113 as real * Ulp(e) == P112 as real * Ulp(e + 1)
  {
    hide Pow2;
    Pow2Succ(e - BIAS - 112);
  }

  lemma UlpStrictlyGrows(e: int, top: int)
    requires e < top
    ensures P113 as real * Ulp(e) <= P112 as real * Ulp(top) < P113 as real * Ulp(top)
  {
    hide Ulp;
    NextUlp(e);
    UlpGrows(e + 1, top);
  }

  /** Where the exact quotient lies, given the written exponent. */
  lemma QuotientRange(a: Rep, b: Rep)
    requires Divisible(a, b)
    ensures var x, u := ExactQuotient(a, b), Ulp(ExponentOf(a, b));
            && P112 as real * u < x <= P113 as real * u
            && (x == P113 as real * u <==> EqualSignificands(a, b))
  {
    hide Ulp, Unpack, RoundedOf, ExponentOf, ExactQuotient;
    var t := QuotientNearSignificand(a, b);
    ScaledRange(t, ExactQuotient(a, b), Ulp(ExponentOf(a, b)));
  }

  lemma ScaledRange(t: real, x: real, u: real)
    requires P112 as real < t <= P113 as real && x == t * u && u > 0.0
    ensures P112 as real * u < x <= P113 as real * u
    ensures x == P113 as real * u <==> t == P113 as real
  {
    var low, high := P112 as real, P113 as real;
    OrderScales(low, t, u);
    assert low * u < t * u;
    if t < high {
      OrderScales(t, high, u);
      assert t * u < high * u;
    }
  }

  lemma DivideByExponent(a: Rep, b: Rep)
    requires Divisible(a, b)
    ensures var e, r := ExponentOf(a, b), Divide(a, b);
            && (e >= MAX_EXPONENT ==> r == INFINITY + SignBit(a, b))
            && (e == MAX_EXPONENT - 1 && EqualSignificands(a, b) ==> r == INFINITY + SignBit(a, b))
            && (e < 1 ==> r == SignBit(a, b))
  {
    hide Unpack, RoundedQuotient;
    UnpackIsNormal(a);
    UnpackIsNormal(b);
    SignificandIsNearest(Unpack(a).sig, Unpack(b).sig);
  }

  lemma BelowTopUlp(u: real)
    requires u > 0.0
    ensures (P113 - 1) as real * u < P113 as real * u
  {
    assert P113 as real * u - (P113 - 1) as real * u == u;
  }

  /** Infinity is returned exactly when the quotient is at least 2^113 ulps of the
      largest exponent, which no finite number reaches. */
  lemma OverflowReturnsInfinity(a: Rep, b: Rep)
    requires Divisible(a, b)
    ensures Divide(a, b) == INFINITY + SignBit(a, b)
       <==> ExactQuotient(a, b) >= P113 as real * Ulp(MAX_EXPONENT - 1)
  {
    hide Ulp, Unpack, ExponentOf, ExactQuotient, Divide;
    QuotientRange(a, b);
    DivideByExponent(a, b);
    var e := ExponentOf(a, b);
    if e >= MAX_EXPONENT {
      UlpStrictlyGrows(MAX_EXPONENT - 1, e);
    } else if e < MAX_EXPONENT - 1 {
      UlpStrictlyGrows(e, MAX_EXPONENT - 1);
    }
    if 1 <= e < MAX_EXPONENT && !(e == MAX_EXPONENT - 1 && EqualSignificands(a, b)) {
      ResultValue(a, b);
    }
  }

  /** So a quotient that gives infinity is larger than every finite number. */
  lemma InfinityIsBeyondFinite(a: Rep, b: Rep, f: Rep)
    requires Divisible(a, b) && Divide(a, b) == INFINITY + SignBit(a, b) && IsFinite(f)
    ensures Magnitude(f) < ExactQuotient(a, b)
  {
    hide Ulp, ExactQuotient, Divide, Magnitude, IsFinite;
    OverflowReturnsInfinity(a, b);
    LargestFinite(f);
    BelowTopUlp(Ulp(MAX_EXPONENT - 1));
  }

  /** A signed zero is returned exactly when the written exponent is below 1.  The exact
      quotient is then below the smallest normal number, with one exception: the
      significands are equal and the written exponent is 0, where the quotient is the
      smallest normal number itself and is flushed all the same. */
  lemma FlushedQuotients(a: Rep, b: Rep)
    requires Divisible(a, b)
    ensures Divide(a, b) == SignBit(a, b) <==> ExponentOf(a, b) < 1
    ensures ExactQuotient(a, b) < P112 as real * Ulp(1)
       <==> ExponentOf(a, b) < 1 && !(ExponentOf(a, b) == 0 && EqualSignificands(a, b))
    ensures ExponentOf(a, b) == 0 && EqualSignificands(a, b)
        ==> ExactQuotient(a, b) == P112 as real * Ulp(1)
  {
    hide Ulp, Unpack, ExponentOf, ExactQuotient, Divide, Magnitude;
    QuotientRange(a, b);
    DivideByExponent(a, b);
    var e := ExponentOf(a, b);
    NextUlp(0);
    if e < 0 {
      UlpStrictlyGrows(e, 0);
    } else if e > 1 {
      UlpStrictlyGrows(1, e);
    }
    if 1 <= e < MAX_EXPONENT && !(e == MAX_EXPONENT - 1 && EqualSignificands(a, b)) {
      ResultValue(a, b);
      NonzeroResult(a, b);
    }
  }

  lemma NonzeroResult(a: Rep, b: Rep)
    requires Divisible(a, b) && 1 <= ExponentOf(a, b) < MAX_EXPONENT
    ensures Divide(a, b) > SignBit(a, b)
  {
    hide Unpack, RoundedQuotient;
    UnpackIsNormal(a);
    UnpackIsNormal(b);
  }

  /** The smallest normal number divided by one gives zero. */
  lemma SmallestNormalOverOne()
    ensures var one := 0x3FFF_0000_0000_0000_0000_0000_0000_0000;
            && Divisible(P112, one)
            && ExactQuotient(P112, one) == Magnitude(P112)
            && Divide(P112, one) == 0
  {
    var one := 0x3FFF_0000_0000_0000_0000_0000_0000_0000;
    UnpackPowers();
    hide Ulp, Unpack, ExactQuotient, Divide, RoundedQuotient;
    SignificandIsNearest(P112, P112);
    assert ExponentOf(P112, one) == 0;
    FlushedQuotients(P112, one);
  }

  lemma UnpackPowers()
    ensures var one := 0x3FFF_0000_0000_0000_0000_0000_0000_0000;
            && Divisible(P112, one) && SignBit(P112, one) == 0
            && Unpack(P112) == Operand(P112, 1) && Unpack(one) == Operand(P112, BIAS)
            && Magnitude(P112) == P112 as real * Ulp(1)
  {
    hide Ulp;
  }
}
