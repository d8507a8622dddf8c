/** Multiplication of the software floating point unit (nemu/src/cpu/fpu.c). */
module FloatMul {
  import opened Ieee754
  import opened MachineInts
  import opened Basics
  import opened Normalize
  import opened FloatFormat

  const CORNER_MUL: seq<CornerRule> := [
    CornerRule(P_ZERO, P_INF, N_NAN),
    CornerRule(P_ZERO, N_INF, N_NAN),
    CornerRule(N_ZERO, P_INF, N_NAN),
    CornerRule(N_ZERO, N_INF, N_NAN),
    CornerRule(P_INF, P_ZERO, N_NAN),
    CornerRule(P_INF, N_ZERO, N_NAN),
    CornerRule(N_INF, P_ZERO, N_NAN),
    CornerRule(N_INF, N_ZERO, N_NAN)
  ]

  lemma CornerMulRules(a: uint32, b: uint32, c: uint32)
    ensures CornerRule(a, b, c) in CORNER_MUL <==>
              c == N_NAN && ((IsZero(a) && IsInfinite(b)) || (IsInfinite(a) && IsZero(b)))
  {
  }

  function XorSign(a: uint32, b: uint32): nat { if SignOf(a) == SignOf(b) then 0 else 1 }

  function Product(a: uint32, b: uint32): real { Value(a) * Value(b) }

  /** Line 273: the exponent handed to normalisation. */
  function ProductExponent(a: uint32, b: uint32): int { Exp(a) + Exp(b) - 127 - 20 }

  /** The products that come out correctly rounded: those of normal size, and those that are
      subnormal beside an exponent field other than zero and do not round up to 2^-126. */
  ghost predicate MulRounds(a: uint32, b: uint32) {
    var p := Abs(Product(a, b));
    p >= MinNormal() || (ProductExponent(a, b) != 0 && p < Mid(HIDDEN_BIT - 1))
  }

  /** Section 6 and section 4.3.1, as far as the multiplication follows them. */
  ghost predicate IsProduct(r: uint32, a: uint32, b: uint32) {
    && (IsFinite(a) && IsFinite(b) && !IsZero(a) && !IsZero(b) ==>
          && SignOf(r) == XorSign(a, b)
          && (RoundsTo(r, Product(a, b), 0) <==> MulRounds(a, b))
          && (!MulRounds(a, b) && ProductExponent(a, b) != 0 ==> IsZero(r))
          && (!MulRounds(a, b) && ProductExponent(a, b) == 0 ==> PackedAs(r % SIGN_BIT, 2.0 * Abs(Product(a, b)))))
    && (IsFinite(a) && IsFinite(b) && (IsZero(a) || IsZero(b)) ==> RoundsTo(r, Product(a, b), XorSign(a, b)))
    && (IsInfinite(a) && (IsInfinite(b) || (IsFinite(b) && !IsZero(b))) ==> IsInfinite(r) && SignOf(r) == XorSign(a, b))
    && (IsInfinite(b) && IsFinite(a) && !IsZero(a) ==> IsInfinite(r) && SignOf(r) == XorSign(a, b))
    && ((IsZero(a) && IsInfinite(b)) || (IsInfinite(a) && IsZero(b)) ==> IsNan(r))
    && (IsNan(a) || IsNan(b) ==> IsNan(r))
  }

  /** Line 240: a * b. */
  method InternalFloatMul(b: uint32, a: uint32) returns (r: uint32)
    ensures IsProduct(r, a, b)
  {
    hide RoundsTo, Product, MulRounds;
    var corner := FindCorner(CORNER_MUL, a, b);
    if corner.Some? {
      r := corner.value;
      CornerMulRules(a, b, r);
      SpecialPatterns(a);
      SpecialPatterns(b);
      return;
    }
    CornerMulRules(a, b, N_NAN);
    SpecialPatterns(a);
    SpecialPatterns(b);
    if a == P_NAN || a == N_NAN || b == P_NAN || b == N_NAN {
      return if a == P_NAN || b == P_NAN then P_NAN else N_NAN;
    }
    var sign := XorSign(a, b);
    if IsFinite(a) && IsFinite(b) && (IsZero(a) || IsZero(b)) { MulZero(a, b, sign); }
    if a == P_ZERO || a == N_ZERO { return if sign == 1 then N_ZERO else P_ZERO; }
    if b == P_ZERO || b == N_ZERO { return if sign == 1 then N_ZERO else P_ZERO; }
    if a == P_INF || a == N_INF { return if sign == 1 then N_INF else P_INF; }
    if b == P_INF || b == N_INF { return if sign == 1 then N_INF else P_INF; }

    var sigA: uint64, sigB: uint64 := Sig(a), Sig(b);
    SigBounds(a);
    SigBounds(b);
    ProductBound(sigA, sigB);
    var sigRes: uint64 := sigA * sigB;
    var expRes: uint32 := ToU32(Exp(a) + Exp(b) - 127 - 20);
    ghost var v := Scale(sigRes as real, EffectiveExponent(ToI32(expRes), sigRes) - 153);
    ExactStandsFor(ToI32(expRes), sigRes, v);
    if IsFinite(a) && IsFinite(b) { ExactExponent(a, b); }
    r := InternalNormalize(sign, ToI32(expRes), sigRes, v);
    if IsFinite(a) && IsFinite(b) { MulFinite(a, b, v, r); }
  }

  lemma SigBounds(v: uint32)
    ensures Sig(v) < 2 * HIDDEN_BIT && 1 <= Exp(v) <= 0xff
    ensures Exponent(v) != 0 ==> Sig(v) >= HIDDEN_BIT
    ensures !IsZero(v) ==> Sig(v) > 0
  {
  }

  lemma ProductBound(x: nat, y: nat)
    requires x < 2 * HIDDEN_BIT && y < 2 * HIDDEN_BIT
    ensures 0 <= x * y < 0x1_0000_0000_0000
  {
    assert x * y <= x * 0x100_0000;
  }

  lemma MulZero(a: uint32, b: uint32, sign: nat)
    requires IsFinite(a) && IsFinite(b) && (IsZero(a) || IsZero(b)) && sign < 2
    ensures RoundsTo(if sign == 1 then N_ZERO else P_ZERO, Product(a, b), sign)
  {
    RoundsToSelf(a);
    RoundsToSelf(b);
    RneExact(0);
    MagNonNegative(0);
  }

  lemma ExactStandsFor(exp: int, sig: nat, v: real)
    requires v == Scale(sig as real, EffectiveExponent(exp, sig) - 153)
    ensures StandsFor(exp, sig, v)
  {
    var e := EffectiveExponent(exp, sig);
    ScaleCompose(sig as real, e - 153, 153 - e);
  }

  lemma SignsMultiply(x: real, y: real)
    requires x >= 0.0 && y >= 0.0
    ensures x * y >= 0.0 && (x > 0.0 && y > 0.0 ==> x * y > 0.0)
    ensures (-x) * y == -(x * y) && x * (-y) == -(x * y) && (-x) * (-y) == x * y
  {
  }

  lemma ProductMagnitude(a: uint32, b: uint32)
    requires IsFinite(a) && IsFinite(b)
    ensures Abs(Product(a, b)) == Mag(a % SIGN_BIT) * Mag(b % SIGN_BIT)
    ensures !IsZero(a) && !IsZero(b) ==> Product(a, b) != 0.0 && XorSign(a, b) == if Product(a, b) < 0.0 then 1 else 0
  {
    hide Mag;
    var x, y := Mag(a % SIGN_BIT), Mag(b % SIGN_BIT);
    MagNonNegative(a % SIGN_BIT);
    MagNonNegative(b % SIGN_BIT);
    SignsMultiply(x, y);
    assert (Value(a) == x || Value(a) == -x) && (Value(b) == y || Value(b) == -y);
  }

  /** The exact product, in units of the last sticky bit. */
  lemma ExactProduct(a: uint32, b: uint32)
    requires IsFinite(a) && IsFinite(b)
    ensures Abs(Product(a, b)) == Scale((Sig(a) * Sig(b)) as real, ProductExponent(a, b) - 153)
  {
    hide Mag, Product, Scale, ProductExponent, IsFinite, InUnits, Abs;
    FieldsOfFinite(a);
    FieldsOfFinite(b);
    SumOfExponents(a, b);
    ProductMagnitude(a, b);
    ScaleProductNat(Sig(a), Exp(a) as int - 150, Sig(b), Exp(b) as int - 150, Mag(a % SIGN_BIT), Mag(b % SIGN_BIT));
  }

  lemma ScaleProductNat(x: nat, e: int, y: nat, f: int, v: real, w: real)
    requires v == Scale(x as real, e) && w == Scale(y as real, f)
    ensures v * w == Scale((x * y) as real, e + f)
  {
    ScaleProduct(x as real, e, y as real, f);
    CastTimes(x, y);
  }

  lemma SumOfExponents(a: uint32, b: uint32)
    ensures (Exp(a) as int - 150) + (Exp(b) as int - 150) == ProductExponent(a, b) - 153
  {
  }

  lemma CastTimes(x: nat, y: nat)
    ensures (x * y) as real == x as real * y as real
  {
  }

  /** Which side of 2^-126 the product is on can be read off the significand when the exponent is zero. */
  lemma FourPlaces(s: nat)
    ensures Scale(s as real, 4) == (16 * s) as real
  {
  }

  lemma ZeroExponent(sig: nat)
    ensures Scale(sig as real, -153) >= MinNormal() <==> sig >= 2 * TOP
  {
    MagAt(1, HIDDEN_BIT);
    ScaleCompose(HIDDEN_BIT as real, 4, -153);
    FourPlaces(HIDDEN_BIT);
    hide Scale;
    ScaleMono(sig as real, (2 * TOP) as real, -153);
  }

  /** Beside an exponent of zero a subnormal product comes out as if it were doubled, and the
      rounding of the double is never the rounding of the product. */
  lemma DoubledIsWrong(sig: nat, m: nat)
    requires HIDDEN_BIT <= sig < 2 * TOP
    requires m == 0 || IsRne(m, Scale(sig as real, 1 - 153))
    ensures !IsRne(m, Scale(sig as real, -153))
  {
    hide Scale, IsRne, InUnits, Mag, Mid;
    var p, v := Scale(sig as real, -153), Scale(sig as real, 1 - 153);
    BetweenIsRne(m, v);
    BetweenIsRne(m, p);
    UnitsOfScale(sig, 1);
    ScaleStep(sig as real, -153);
    UnitsAdd(p, p, 1);
    if Between(m, p) {
      if m <= 2 * HIDDEN_BIT { SmallMids(m, p, v); } else { LargeMid(m, v); }
    }
  }

  lemma SmallMids(m: nat, p: real, v: real)
    requires m <= 2 * HIDDEN_BIT && 2.0 * InUnits(p, 1) == InUnits(v, 1) >= HIDDEN_BIT as real
    ensures !(p <= Mid(m) && v <= Mid(m) && (m > 0 ==> Mid(m - 1) <= p))
    ensures !(p <= Mid(m) && m == 0)
  {
    hide Mid, InUnits;
    MidInUnits(1, m);
    UnitsMono(Mid(m), p, 1);
    UnitsMono(Mid(m), v, 1);
    if m > 0 {
      LowerMidInUnits(1, m);
      UnitsMono(p, Mid(m - 1), 1);
    }
  }

  lemma LargeMid(m: nat, v: real)
    requires m > 2 * HIDDEN_BIT && InUnits(v, 1) < (2 * TOP) as real
    ensures v < Mid(m - 1)
  {
    hide Mag;
    MagInUnits(1, 2 * HIDDEN_BIT);
    if v >= Mag(2 * HIDDEN_BIT) { ScaleMono(v, Mag(2 * HIDDEN_BIT), 153 - 1); }
    if m - 1 > 2 * HIDDEN_BIT { MagMono(2 * HIDDEN_BIT, m - 1); }
    MagStep(m - 1);
  }

  lemma ExactExponent(a: uint32, b: uint32)
    requires IsFinite(a) && IsFinite(b) && !IsZero(a) && !IsZero(b)
    ensures var sig, e := Sig(a) * Sig(b), ProductExponent(a, b);
      && Normalizable(e, sig)
      && (e == 0 ==> sig >= HIDDEN_BIT)
      && ToI32(ToU32(e)) == e
  {
    hide Mag, InUnits, IsFinite, Binade, Significand;
    FieldsOfFinite(a);
    FieldsOfFinite(b);
    SigBounds(a);
    SigBounds(b);
    SigProduct(Sig(a), Sig(b));
  }

  lemma SigProduct(x: nat, y: nat)
    requires x > 0 && y > 0
    ensures x >= HIDDEN_BIT || y >= HIDDEN_BIT ==> x * y >= HIDDEN_BIT
    ensures x >= HIDDEN_BIT && y >= HIDDEN_BIT ==> x * y >= 2 * TOP
  {
    if x >= HIDDEN_BIT {
      assert x * y >= HIDDEN_BIT * y;
    } else if y >= HIDDEN_BIT {
      assert x * y >= x * HIDDEN_BIT;
    }
  }

  /** What normalisation made of the exact product. */
  lemma MulFinite(a: uint32, b: uint32, v: real, r: uint32)
    requires IsFinite(a) && IsFinite(b) && !IsZero(a) && !IsZero(b)
    requires var sig, e := Sig(a) * Sig(b), ProductExponent(a, b);
      v == Scale(sig as real, EffectiveExponent(e, sig) - 153)
    requires SignOf(r) == XorSign(a, b) && PackedAs(r % SIGN_BIT, v)
    ensures IsProduct(r, a, b)
  {
    hide IsRne, Mag, Scale, Value;
    var sig, e := Sig(a) * Sig(b), ProductExponent(a, b);
    ExactProduct(a, b);
    ExactExponent(a, b);
    ProductMagnitude(a, b);
    ExponentOfSpecial(a);
    ExponentOfSpecial(b);
    ZeroExponent(sig);
    if e == 0 && sig < 2 * TOP {
      DoubledIsWrong(sig, r % SIGN_BIT);
      ScaleStep(sig as real, -153);
    }
  }

  lemma TinyFields(a: uint32, b: uint32)
    requires a == 0x0000_0001 && b == 0x4900_0000
    ensures IsFinite(a) && IsFinite(b) && Sig(a) * Sig(b) == HIDDEN_BIT && ProductExponent(a, b) == 0
  {
  }

  lemma HalfwayFields(a: uint32, b: uint32)
    requires a == 0x00ff_ffff && b == 0x3f00_0000
    ensures IsFinite(a) && IsFinite(b) && Sig(a) * Sig(b) == (8 * HIDDEN_BIT - 4) * 0x20_0000 &&
        ProductExponent(a, b) == -20
  {
  }

  lemma TinyProduct(a: uint32, b: uint32)
    requires a == 0x0000_0001 && b == 0x4900_0000
    ensures Abs(Product(a, b)) < MinNormal() && ProductExponent(a, b) == 0
  {
    hide Product, Mag, Abs, Scale, Sig, ProductExponent, IsFinite;
    TinyFields(a, b);
    ExactProduct(a, b);
    ZeroExponent(HIDDEN_BIT);
  }

  lemma HalfwayProduct(a: uint32, b: uint32)
    requires a == 0x00ff_ffff && b == 0x3f00_0000
    ensures Mid(HIDDEN_BIT - 1) <= Abs(Product(a, b)) < MinNormal()
  {
    HalfwayFields(a, b);
    ExactProduct(a, b);
    hide Product, Mag, Mid, Abs, Scale, Sig, ProductExponent, IsFinite, Pow2;
    HalfwayUnits(Abs(Product(a, b)));
  }

  lemma HalfwayUnits(p: real)
    requires p == Scale(((8 * HIDDEN_BIT - 4) * 0x20_0000) as real, -173)
    ensures Mid(HIDDEN_BIT - 1) <= p < MinNormal()
  {
    var n := 8 * HIDDEN_BIT - 4;
    Pow2Values();
    hide Pow2, Scale, Mid, Mag;
    ScalePow2(n, 21);
    ScaleCompose((n * 0x20_0000) as real, -173, 152);
    assert InUnits(p, 1) == n as real;
    MidInUnits(1, HIDDEN_BIT - 1);
    MagInUnits(1, HIDDEN_BIT);
    ScaleMono(p, Mid(HIDDEN_BIT - 1), 152);
    ScaleMono(p, MinNormal(), 152);
  }

  /** The two families of products that come out wrong: 2^-149 * 2^19 is doubled, and
      (2 - 2^-23) * 2^-126 * 1/2, halfway to 2^-126, becomes zero. */
  lemma MulCounterexamples()
    ensures forall v: uint32 | v in {0x0000_0001, 0x4900_0000, 0x00ff_ffff, 0x3f00_0000} :: IsFinite(v) && !IsZero(v)
    ensures !MulRounds(0x0000_0001, 0x4900_0000) && ProductExponent(0x0000_0001, 0x4900_0000) == 0
    ensures !MulRounds(0x00ff_ffff, 0x3f00_0000) && ProductExponent(0x00ff_ffff, 0x3f00_0000) != 0
  {
    HalfwayFields(0x00ff_ffff, 0x3f00_0000);
    hide Product, Mid, Abs, ProductExponent;
    TinyProduct(0x0000_0001, 0x4900_0000);
    HalfwayProduct(0x00ff_ffff, 0x3f00_0000);
  }
}
