/** The FLOAT union of the emulator and the search through its tables of corner cases
    (nemu/include/cpu/reg_fpu.h, nemu/include/cpu/fpu.h). */
module FloatFormat {
  import opened Ieee754
  import opened MachineInts
  import opened Basics
  import opened Normalize

  // ---------- fields of the FLOAT union ----------

  function SignOf(v: uint32): nat { v / SIGN_BIT }
  function Exponent(v: uint32): nat { v / HIDDEN_BIT % 0x100 }
  function Fraction(v: uint32): nat { v % HIDDEN_BIT }
  function WithSign(v: uint32, sign: nat): uint32 requires sign < 2 { v % SIGN_BIT + sign * SIGN_BIT }

  /** Fraction with the hidden one. */
  function Sig(v: uint32): nat { if Exponent(v) != 0 then Fraction(v) + HIDDEN_BIT else Fraction(v) }

  /** Exponent with the subnormals at the scale of the lowest binade. */
  function Exp(v: uint32): nat { if Exponent(v) == 0 then 1 else Exponent(v) }

  const P_ZERO: uint32 := 0
  const N_ZERO: uint32 := 0x8000_0000
  const P_INF: uint32 := 0x7f80_0000
  const N_INF: uint32 := 0xff80_0000
  const P_NAN: uint32 := 0x7fc0_0000
  const N_NAN: uint32 := 0xffc0_0000

  lemma FieldsOfFinite(v: uint32)
    requires IsFinite(v)
    ensures Sig(v) == Significand(v % SIGN_BIT) && Exp(v) == Binade(v % SIGN_BIT)
    ensures Sig(v) < 2 * HIDDEN_BIT && 1 <= Exp(v) < 0xff && Exponent(v) < 0xff
    ensures Exponent(v) != 0 ==> Sig(v) >= HIDDEN_BIT
    ensures Mag(v % SIGN_BIT) == Scale(Sig(v) as real, Exp(v) - 150)
    ensures InUnits(Mag(v % SIGN_BIT), Exp(v)) == (8 * Sig(v)) as real
    ensures Sig(v) == 0 <==> v % SIGN_BIT == 0
  {
    hide Mag, Scale, InUnits;
    var m := v % SIGN_BIT;
    FieldBits(v);
    BinadeSplit(m);
    MagAt(Exp(v), Sig(v));
    MagInUnits(Exp(v), Sig(v));
  }

  /** The fields do not see the sign bit. */
  lemma FieldBits(v: uint32)
    ensures var m := v % SIGN_BIT; Exponent(v) == m / HIDDEN_BIT && Fraction(v) == m % HIDDEN_BIT
  {
    var s, m := v / SIGN_BIT, v % SIGN_BIT;
    var k, f := m / HIDDEN_BIT, m % HIDDEN_BIT;
    assert v == (0x100 * s + k) * HIDDEN_BIT + f;
    ModUnique(v, HIDDEN_BIT, 0x100 * s + k, f);
    ModUnique(0x100 * s + k, 0x100, s, k);
  }

  // ---------- corner cases ----------

  datatype CornerRule = CornerRule(a: uint32, b: uint32, res: uint32)

  /** The first rule for (a, b), if there is one. */
  method FindCorner(rules: seq<CornerRule>, a: uint32, b: uint32) returns (res: Option<uint32>)
    ensures res.Some? ==> CornerRule(a, b, res.value) in rules
    ensures res.None? ==> forall c: uint32 :: CornerRule(a, b, c) !in rules
  {
    var i := 0;
    while i < |rules|
      invariant i <= |rules|
      invariant forall c: uint32 :: CornerRule(a, b, c) !in rules[..i]
    {
      if a == rules[i].a && b == rules[i].b { return Some(rules[i].res); }
      i := i + 1;
    }
    res := None;
  }

  predicate IsZero(v: uint32) { v % SIGN_BIT == 0 }

  lemma ExponentOfSpecial(v: uint32)
    ensures Exponent(v) == 0xff <==> !IsFinite(v)
    ensures IsFinite(v) ==> !IsNan(v) && !IsInfinite(v)
  {
  }

  /** Finite, infinite, or one of the two NaN patterns the emulator knows. */
  predicate IsCanonical(v: uint32) { IsFinite(v) || IsInfinite(v) || IsNan(v) }

  /** The patterns the emulator compares with are all there are of their kind. */
  lemma SpecialPatterns(v: uint32)
    ensures IsZero(v) <==> v == P_ZERO || v == N_ZERO
    ensures IsInfinite(v) <==> v == P_INF || v == N_INF
    ensures IsNan(v) <==> v == P_NAN || v == N_NAN
    ensures IsFinite(v) ==> !IsInfinite(v) && !IsNan(v)
    ensures IsZero(v) ==> IsFinite(v)
    ensures SignOf(v) < 2
  {
  }
}
