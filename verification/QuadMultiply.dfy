/** The 128-by-128-bit wide multiply assembled from 32-bit words. */
module QuadMultiply {
  import opened Basics
  import opened QuadReciprocal

  const P96: int := 0x1_0000_0000_0000_0000_0000_0000

  /** A 128-bit number as four 32-bit words, most significant first. */
  datatype Words = Words(w1: nat, w2: nat, w3: nat, w4: nat) {
    ghost predicate Valid() {
      w1 < P32 && w2 < P32 && w3 < P32 && w4 < P32
    }

    ghost function Value(): int {
      w1 * P96 + w2 * P64 + w3 * P32 + w4
    }
  }

  function Split(a: nat): (w: Words)
    requires a < P128
    ensures w.Valid() && w.Value() == a
  {
    var upper96 := a / P32;
    var upper64 := upper96 / P32;
    Words(upper64 / P32, upper64 % P32, upper96 % P32, a % P32)
  }

  /** The column sums of the schoolbook product, least significant first. */
  datatype Columns = Columns(s0: nat, s1: nat, s2: nat, s3: nat, s4: nat, s5: nat, s6: nat) {
    /** The low 128 bits are gathered in two overlapping pieces, r0 + r1 * 2^64. */
    function R0(): nat {
      s0 % P64 + s1 % P32 * P32
    }

    function R1(): nat {
      s0 / P64 + s1 / P32 % P64 + s2 % P64 + s3 % P32 * P32
    }

    function Low(): nat {
      (R0() + R1() * P64) % P128
    }

    /** The carry out of the 128-bit sum in Low is not added here. */
    function High(): nat {
      (R1() / P64 + s1 / P96 + s2 / P64 + s3 / P32 + s4 + s5 * P32 + s6 * P64) % P128
    }

    /** The sum in Low carries out of 128 bits. */
    predicate LostCarry() {
      R0() + R1() % P64 * P64 >= P128
    }
  }

  lemma WordProduct(a: nat, b: nat)
    requires a < P32 && b < P32
    ensures 0 <= a * b <= (P32 - 1) * (P32 - 1)
  {
    MulMono(a, P32 - 1, b);
    MulMono(0, a, b);
    assert (P32 - 1) * b <= (P32 - 1) * (P32 - 1);
  }

  function Multiply32(a: nat, b: nat): (p: nat)
    requires a < P32 && b < P32
    ensures p == a * b && p <= (P32 - 1) * (P32 - 1)
  {
    WordProduct(a, b);
    a * b
  }

  function ColumnsOf(a: Words, b: Words): (c: Columns)
    requires a.Valid() && b.Valid()
    ensures c.s0 < P64 && c.s1 < 2 * P64 && c.s2 < 3 * P64 && c.s3 < 4 * P64
    ensures c.s4 < 3 * P64 && c.s5 < 2 * P64 && c.s6 < P64
  {
    Columns(
      Multiply32(a.w4, b.w4),
      Multiply32(a.w3, b.w4) + Multiply32(a.w4, b.w3),
      Multiply32(a.w2, b.w4) + Multiply32(a.w3, b.w3) + Multiply32(a.w4, b.w2),
      Multiply32(a.w1, b.w4) + Multiply32(a.w2, b.w3) + Multiply32(a.w3, b.w2) + Multiply32(a.w4, b.w1),
      Multiply32(a.w1, b.w3) + Multiply32(a.w2, b.w2) + Multiply32(a.w3, b.w1),
      Multiply32(a.w1, b.w2) + Multiply32(a.w2, b.w1),
      Multiply32(a.w1, b.w1))
  }

  function ProductColumns(a: nat, b: nat): (c: Columns)
    requires a < P128 && b < P128
  {
    ColumnsOf(Split(a), Split(b))
  }

  /** The wide product as (high, low). */
  function WideMultiply(a: nat, b: nat): (p: (nat, nat))
    requires a < P128 && b < P128
    ensures p.0 < P128 && p.1 < P128
  {
    var c := ProductColumns(a, b);
    (c.High(), c.Low())
  }

  ghost predicate LosesCarry(a: nat, b: nat)
    requires a < P128 && b < P128
  {
    ProductColumns(a, b).LostCarry()
  }

  const P160: int := 0x1_0000_0000_0000_0000_0000_0000_0000_0000_0000_0000
  const P192: int := 0x1_0000_0000_0000_0000_0000_0000_0000_0000_0000_0000_0000_0000

  lemma RowProduct(w: int, b: Words, v: int)
    requires v == b.Value()
    ensures w * v == (w * b.w1) * P96 + (w * b.w2) * P64 + (w * b.w3) * P32 + w * b.w4
  {
  }

  lemma SchoolbookProduct(a: Words, b: Words)
    requires a.Valid() && b.Valid()
    ensures var c := ColumnsOf(a, b);
            a.Value() * b.Value()
            == c.s0 + c.s1 * P32 + c.s2 * P64 + c.s3 * P96 + c.s4 * P128 + c.s5 * P160 + c.s6 * P192
  {
    var v := b.Value();
    RowProduct(a.w1, b, v);
    RowProduct(a.w2, b, v);
    RowProduct(a.w3, b, v);
    RowProduct(a.w4, b, v);
    assert a.Value() * v == (a.w1 * v) * P96 + (a.w2 * v) * P64 + (a.w3 * v) * P32 + a.w4 * v;
  }

  /** The pieces r0 and r1 and the high columns add up to the product. */
  lemma PiecesAddUp(c: Columns)
    requires c.s0 < P64 && c.s1 < 2 * P64
    ensures c.s0 / P64 == 0 && c.s1 / P96 == 0
    ensures c.s0 + c.s1 * P32 + c.s2 * P64 + c.s3 * P96 + c.s4 * P128 + c.s5 * P160 + c.s6 * P192
         == c.R0() + c.R1() * P64 + (c.s2 / P64 + c.s3 / P32 + c.s4 + c.s5 * P32 + c.s6 * P64) * P128
  {
    assert c.s1 / P32 % P64 == c.s1 / P32;
    assert c.s1 == c.s1 / P32 * P32 + c.s1 % P32;
    assert c.s2 == c.s2 / P64 * P64 + c.s2 % P64;
    assert c.s3 == c.s3 / P32 * P32 + c.s3 % P32;
  }

  lemma ColumnAssembly(c: Columns, p: int)
    requires c.s0 < P64 && c.s1 < 2 * P64
    requires p == c.s0 + c.s1 * P32 + c.s2 * P64 + c.s3 * P96 + c.s4 * P128 + c.s5 * P160 + c.s6 * P192
    requires p / P128 < P128
    ensures c.Low() == p % P128
    ensures c.High() == p / P128 - (if c.LostCarry() then 1 else 0)
    ensures c.LostCarry() ==> p % P128 < P64
  {
    PiecesAddUp(c);
    var r0, r1 := c.R0(), c.R1();
    assert r0 < 2 * P64;
    var top := c.s2 / P64 + c.s3 / P32 + c.s4 + c.s5 * P32 + c.s6 * P64;
    CarryOut(p, r0, r1, top);
  }

  lemma CarryOut(p: int, r0: nat, r1: nat, top: nat)
    requires p == r0 + r1 * P64 + top * P128 && r0 < 2 * P64 && p / P128 < P128
    ensures var lost := r0 + r1 % P64 * P64 >= P128;
            && (r0 + r1 * P64) % P128 == p % P128
            && (r1 / P64 + top) % P128 == p / P128 - (if lost then 1 else 0)
            && (lost ==> p % P128 < P64)
  {
    var rest := r0 + r1 % P64 * P64;
    var high := r1 / P64 + top;
    assert p == rest + high * P128;
    assert r0 + r1 * P64 == rest + r1 / P64 * P128;
    if rest >= P128 {
      assert p == (rest - P128) + (high + 1) * P128;
      assert rest - P128 < P64;
    }
  }

  lemma ProductFits(a: nat, b: nat)
    requires a < P128 && b < P128
    ensures a * b / P128 < P128
  {
    MulMono(a, P128, b);
  }

  /** The low half is always the exact product modulo 2^128.  The high half is exact
      if and only if no carry is lost; otherwise it is one too small, and then the
      discarded low half is below 2^64. */
  lemma WideMultiplyValue(a: nat, b: nat)
    requires a < P128 && b < P128
    ensures var (hi, lo) := WideMultiply(a, b);
            && lo == (a * b) % P128
            && (hi == a * b / P128 <==> !LosesCarry(a, b))
            && hi == a * b / P128 - (if LosesCarry(a, b) then 1 else 0)
            && (LosesCarry(a, b) ==> (a * b) % P128 < P64)
  {
    SchoolbookProduct(Split(a), Split(b));
    ProductFits(a, b);
    ColumnAssembly(ProductColumns(a, b), a * b);
  }

  /** A pair of operands whose high half comes out one too small. */
  lemma CarryCanBeLost()
    ensures var a, b := 0x5ab9bf62b4943b2129e3b4acc48731c3, 0x221ee391293461867f6be1eae9accfb;
            a < P128 && b < P128 && WideMultiply(a, b).0 + 1 == a * b / P128
  {
    var a, b := 0x5ab9bf62b4943b2129e3b4acc48731c3, 0x221ee391293461867f6be1eae9accfb;
    assert Split(a) == Words(0x5ab9bf62, 0xb4943b21, 0x29e3b4ac, 0xc48731c3);
    assert Split(b) == Words(0x221ee39, 0x12934618, 0x67f6be1e, 0xae9accfb);
    var c := ProductColumns(a, b);
    assert c.s0 == 0x860aba82e5832e31 && c.s1 == 0x6c61ea34c2dbc37e;
    assert c.s2 == 0x9a6f8080939e15cb && c.s3 == 0x8be4036c65907f7f;
    WideMultiplyValue(a, b);
  }
}
