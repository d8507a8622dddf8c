/** Addition and subtraction of the software floating point unit (nemu/src/cpu/fpu.c). */
module FloatAdd {
  import opened Ieee754
  import opened MachineInts
  import opened Basics
  import opened Normalize
  import opened FloatFormat

  const CORNER_ADD: seq<CornerRule> := [
    CornerRule(P_ZERO, P_ZERO, P_ZERO),
    CornerRule(N_ZERO, P_ZERO, P_ZERO),
    CornerRule(P_ZERO, N_ZERO, P_ZERO),
    CornerRule(N_ZERO, N_ZERO, N_ZERO),
    CornerRule(P_INF, N_INF, N_NAN),
    CornerRule(N_INF, P_INF, N_NAN),
    CornerRule(P_INF, P_NAN, P_NAN),
    CornerRule(P_INF, N_NAN, N_NAN),
    CornerRule(N_INF, P_NAN, P_NAN),
    CornerRule(N_INF, N_NAN, N_NAN),
    CornerRule(N_NAN, P_NAN, P_NAN)
  ]

  /** What the table for addition settles: two zeros, two opposite infinities, an infinity or the
      negative NaN with a NaN. */
  lemma CornerAddRules(a: uint32, b: uint32, c: uint32)
    ensures CornerRule(a, b, c) in CORNER_ADD ==>
              if IsZero(a) then IsZero(b) && c == (if a == N_ZERO && b == N_ZERO then N_ZERO else P_ZERO)
              else !IsFinite(a) && !IsFinite(b) && IsNan(c) && (IsInfinite(a) && IsInfinite(b) ==> a != b)
    ensures IsZero(a) && IsZero(b) ==>
        CornerRule(a, b, if a == N_ZERO && b == N_ZERO then N_ZERO else P_ZERO) in CORNER_ADD
    ensures IsInfinite(a) && IsInfinite(b) && a != b ==> CornerRule(a, b, N_NAN) in CORNER_ADD
    ensures IsInfinite(a) && IsNan(b) ==> CornerRule(a, b, b) in CORNER_ADD
  {
  }

  lemma JamShiftNone(s: nat)
    ensures JamShift(s, 0) == s
  {
  }

  lemma JamShiftMore(s: nat, k: nat)
    ensures JamShift(s, k + 1) == JamStep(JamShift(s, k))
  {
  }

  lemma JamStepSize(s: nat)
    ensures JamStep(s) <= s / 2 + 1 && (s % 2 == 0 ==> JamStep(s) == s / 2)
  {
  }

  lemma {:induction false} JamShiftSize(s: nat, k: nat)
    requires s < 2 * TOP && s % 8 == 0
    ensures var t := JamShift(s, k);
            && t < 2 * TOP && (k == 0 ==> t == s) && (k == 1 ==> t % 2 == 0 && t < TOP) && (k > 1 ==> t <= TOP / 2)
  {
    if k == 0 {
      JamShiftNone(s);
    } else {
      hide JamShift, JamStep;
      JamShiftSize(s, k - 1);
      JamShiftMore(s, k - 1);
      JamStepSize(JamShift(s, k - 1));
    }
  }

  lemma EvenIsExact(s: nat, x: real)
    requires Jammed(s, x) && s % 2 == 0
    ensures x == s as real
  {
  }

  /** Lines 180-186: the alignment shift.  At the larger exponent the significand still stands
      for v, exactly or with a sticky bit, and exactly unless it lost at least two places. */
  method Align(sig0: uint32, shift0: nat, ghost e: int, ghost v: real) returns (sig: uint32)
    requires sig0 < 2 * TOP && sig0 % 8 == 0 && InUnits(v, e) == sig0 as real
    ensures Jammed(sig, InUnits(v, e + shift0)) && sig < 2 * TOP
    ensures InUnits(v, e + shift0) == sig as real || (sig <= TOP / 2 && shift0 > 0)
    ensures sig == JamShift(sig0, shift0)
  {
    ExactDecides(sig0);
    hide Jammed, InUnits, JamStep, JamShift;
    JamShiftNone(sig0);
    sig := sig0;
    var shift, sticky := shift0, 0;
    while shift > 0
      invariant 0 <= shift <= shift0
      invariant Jammed(sig, InUnits(v, e + shift0 - shift)) && StickySeen(sticky, sig)
      invariant sig == JamShift(sig0, shift0 - shift) && sig < 2 * TOP
    {
      RightStep(e + shift0 - shift, sig, sticky, v);
      JamShiftMore(sig0, shift0 - shift);
      JamShiftSize(sig0, shift0 - shift + 1);
      sticky := OrBit(sticky, sig % 2);
      sig := OrBit(sig / 2, sticky);
      shift := shift - 1;
    }
    JamShiftSize(sig0, shift0);
    if sig % 2 == 0 { EvenIsExact(sig, InUnits(v, e + shift0)); }
  }

  /** Jammed, for signed significands. */
  predicate JammedInt(s: int, x: real) {
    if s % 2 == 0 then x == s as real else s as real - 1.0 < x < s as real + 1.0
  }

  /** Adding or subtracting an exact multiple of eight does not disturb the sticky bit. */
  lemma JammedSum(s: int, x: real, t: int, y: real)
    requires JammedInt(s, x) && t % 8 == 0 && y == t as real
    ensures JammedInt(s + t, x + y)
    ensures x == s as real ==> x + y == (s + t) as real
  {
    EvenAddend(s, t);
    assert (s + t) as real == s as real + t as real;
  }

  function AbsInt(s: int): nat { if s < 0 then -s else s }

  lemma EvenAddend(s: int, t: int)
    requires t % 8 == 0
    ensures (s + t) % 2 == s % 2
  {
  }

  lemma JammedMagnitude(s: int, x: real)
    requires JammedInt(s, x)
    ensures Jammed(AbsInt(s), Abs(x))
    ensures (s > 0 ==> x > 0.0) && (s < 0 ==> x < 0.0) && (s == 0 ==> x == 0.0)
    ensures x == s as real ==> Abs(x) == AbsInt(s) as real
  {
  }

  /** a, or minus a, as a signed significand. */
  function Signed(sign: nat, s: int): int { if sign == 1 then -s else s }

  lemma SignedValue(v: uint32, e: int)
    requires IsFinite(v)
    ensures var x := InUnits(Mag(v % SIGN_BIT), e);
      InUnits(Value(v), e) == if SignOf(v) == 1 then -x else x
  {
    ScaleNegate(Mag(v % SIGN_BIT), 153 - e);
  }

  /** The signed sum of the aligned significands stands for the exact sum. */
  lemma AlignedSum(a: uint32, b: uint32, sigA: nat, sum: int)
    requires IsFinite(a) && IsFinite(b) && Exponent(a) <= Exponent(b)
    requires var x := InUnits(Mag(a % SIGN_BIT), Exp(b));
      Jammed(sigA, x) && sigA < 2 * TOP && (x == sigA as real || sigA <= TOP / 2)
    requires Exp(a) == Exp(b) ==> InUnits(Mag(a % SIGN_BIT), Exp(b)) == sigA as real
    requires sum == Signed(SignOf(a), sigA) + Signed(SignOf(b), 8 * Sig(b))
    ensures var x := Value(a) + Value(b);
      && StandsFor(Exponent(b), AbsInt(sum), Abs(x))
      && (sum > 0 ==> x > 0.0) && (sum < 0 ==> x < 0.0) && (sum == 0 ==> x == 0.0)
  {
    hide Value, InUnits, Jammed, JammedInt, StandsFor, IsFinite, Mag;
    var e: int := Exp(b);
    var s, t := Signed(SignOf(a), sigA), Signed(SignOf(b), 8 * Sig(b));
    var x, y := InUnits(Value(a), e), InUnits(Value(b), e);
    FieldsOfFinite(a);
    FieldsOfFinite(b);
    ExactDecides(8 * Sig(b));
    SignedUnits(a, sigA, e);
    SignedUnits(b, 8 * Sig(b), e);
    UnitsAdd(Value(a), Value(b), e);
    SignedEight(SignOf(b), Sig(b));
    JammedSum(s, x, t, y);
    JammedMagnitude(sum, x + y);
    UnitsOfAbs(Value(a) + Value(b), e);
    SumStandsFor(Exponent(b), e, s, x, t, Value(a) + Value(b));
  }

  lemma SignedEight(sign: nat, k: nat)
    ensures Signed(sign, 8 * k) % 8 == 0
  {
  }

  lemma SignedUnits(v: uint32, s: nat, e: int)
    requires IsFinite(v) && Jammed(s, InUnits(Mag(v % SIGN_BIT), e))
    ensures JammedInt(Signed(SignOf(v), s), InUnits(Value(v), e))
    ensures InUnits(Mag(v % SIGN_BIT), e) == s as real ==> InUnits(Value(v), e) == Signed(SignOf(v), s) as real
  {
    SignedValue(v, e);
    SignedJam(SignOf(v), s, InUnits(Mag(v % SIGN_BIT), e));
    assert (-(s as int)) as real == -(s as real);
  }

  lemma SumStandsFor(exp: nat, e: nat, s: int, x: real, t: int, z: real)
    requires e == (if exp == 0 then 1 else exp)
    requires InUnits(Abs(z), e) == Abs(x + t as real)
    requires Jammed(AbsInt(s + t), Abs(x + t as real))
    requires AbsInt(s) < 2 * TOP && AbsInt(t) < 2 * TOP && (exp == 0 ==> AbsInt(s) < TOP && AbsInt(t) < TOP)
    requires x == s as real || (AbsInt(s) <= TOP / 2 && AbsInt(t) >= TOP)
    ensures StandsFor(exp, AbsInt(s + t), Abs(z))
  {
  }

  lemma SignedJam(sign: nat, s: nat, x: real)
    requires Jammed(s, x)
    ensures JammedInt(Signed(sign, s), if sign == 1 then -x else x)
  {
  }

  lemma UnitsOfAbs(x: real, e: int)
    ensures InUnits(Abs(x), e) == Abs(InUnits(x, e))
    ensures (x > 0.0 <==> InUnits(x, e) > 0.0) && (x < 0.0 <==> InUnits(x, e) < 0.0)
  {
    ScaleZero(153 - e);
    ScaleNegate(x, 153 - e);
    ScaleMono(0.0, x, 153 - e);
    ScaleMono(x, 0.0, 153 - e);
  }

  // ---------- sums never meet the subnormal carry ----------

  /** Every finite magnitude is a whole number of units of 2^-149, and so is every sum. */
  lemma SumKeepsCarry(a: uint32, b: uint32)
    requires IsFinite(a) && IsFinite(b)
    ensures !CarryLost(Abs(Value(a) + Value(b)))
  {
    hide Mag, Scale, CarryLost;
    var m, n := a % SIGN_BIT, b % SIGN_BIT;
    FieldsOfFinite(a);
    FieldsOfFinite(b);
    assert Mag(m) == Scale(Significand(m) as real, Binade(m) - 150);
    assert Mag(n) == Scale(Significand(n) as real, Binade(n) - 150);
    var na := WholeUnits(Significand(m), Binade(m) - 1, -149);
    var nb := WholeUnits(Significand(n), Binade(n) - 1, -149);
    var za, zb: int := Signed(SignOf(a), na), Signed(SignOf(b), nb);
    WholeValue(a, na);
    WholeValue(b, nb);
    ScaleAdd(za as real, zb as real, -149);
    WholeMisses(za + zb);
  }

  lemma WholeValue(a: uint32, n: nat)
    requires IsFinite(a) && Mag(a % SIGN_BIT) == Scale(n as real, -149)
    ensures Value(a) == Scale(Signed(SignOf(a), n) as real, -149)
  {
    hide Mag, Scale;
    ScaleNegate(n as real, -149);
    assert (-(n as int)) as real == -(n as real);
  }

  /** No whole number of units lies in the half unit below 2^-126. */
  lemma WholeMisses(n: int)
    ensures !CarryLost(Abs(Scale(n as real, -149)))
  {
    hide Mag, Scale;
    MagAt(1, HIDDEN_BIT);
    MagAt(1, HIDDEN_BIT - 1);
    var k := AbsInt(n);
    AbsScale(n);
    MagMono(HIDDEN_BIT - 1, HIDDEN_BIT);
    ScaleMono(k as real, HIDDEN_BIT as real, -149);
    ScaleMono((HIDDEN_BIT - 1) as real, k as real, -149);
  }

  lemma AbsScale(n: int)
    ensures Abs(Scale(n as real, -149)) == Scale(AbsInt(n) as real, -149)
  {
    hide Scale;
    ScaleNegate(n as real, -149);
    ScaleZero(-149);
    ScaleMono(n as real, 0.0, -149);
    assert (-n) as real == -(n as real);
  }

  /** An exact zero sum is positive unless both operands are negative. */
  function ZeroSumSign(a: uint32, b: uint32): nat { if SignOf(a) == 1 && SignOf(b) == 1 then 1 else 0 }

  /** Sections 5.4.1, 6.1 and 6.3: what the sum of two numbers has to be. */
  ghost predicate IsSum(r: uint32, a: uint32, b: uint32) {
    && (IsFinite(a) && IsFinite(b) ==> RoundsTo(r, Value(a) + Value(b), ZeroSumSign(a, b)))
    && (IsInfinite(a) && IsFinite(b) ==> r == a)
    && (IsFinite(a) && IsInfinite(b) ==> r == b)
    && (IsInfinite(a) && IsInfinite(b) ==> if a == b then r == a else IsNan(r))
    && (IsCanonical(a) && IsCanonical(b) && (IsNan(a) || IsNan(b)) ==> IsNan(r))
  }

  /** Line 125: a + b. */
  method InternalFloatAdd(b: uint32, a: uint32) returns (r: uint32)
    ensures IsSum(r, a, b)
  {
    hide RoundsTo, Value;
    var corner := FindCorner(CORNER_ADD, a, b);
    if corner.Some? {
      r := corner.value;
      CornerAddRules(a, b, r);
      if IsFinite(a) { AddZeros(a, b); }
      return;
    }
    CornerAddRules(a, b, if !IsZero(a) || !IsZero(b) then N_NAN
                         else if a == N_ZERO && b == N_ZERO then N_ZERO else P_ZERO);
    if IsNan(b) { CornerAddRules(a, b, b); }
    assert IsZero(a) <==> a == P_ZERO || a == N_ZERO;
    assert IsZero(b) <==> b == P_ZERO || b == N_ZERO;
    if a == P_ZERO || a == N_ZERO { AddZero(a, b, ZeroSumSign(a, b)); return b; }
    if b == P_ZERO || b == N_ZERO { AddZero(b, a, ZeroSumSign(a, b)); return a; }
    ExponentOfSpecial(a);
    ExponentOfSpecial(b);
    if Exponent(a) == 0xff { return a; }
    if Exponent(b) == 0xff { return b; }
    r := AddFinite(b, a);
  }

  /** Exchanging the operands, as the alignment does, never changes a finite sum, down to the sign
      of zero. */
  lemma SumCommutes(a: uint32, b: uint32, r: uint32, s: uint32)
    requires IsFinite(a) && IsFinite(b) && IsSum(r, a, b) && IsSum(s, b, a)
    ensures r == s
  {
    hide RoundsTo;
    RoundsToUnique(r, s, Value(a) + Value(b), ZeroSumSign(a, b));
  }

  lemma AddZeros(a: uint32, b: uint32)
    requires IsZero(a) && IsZero(b)
    ensures RoundsTo(if a == N_ZERO && b == N_ZERO then N_ZERO else P_ZERO, Value(a) + Value(b), ZeroSumSign(a, b))
  {
    RoundsToSelf(a);
    RoundsToSelf(b);
    RneExact(0);
  }

  lemma AddZero(z: uint32, v: uint32, zeroSign: nat)
    requires IsZero(z) && !IsZero(v)
    ensures IsFinite(v) ==> RoundsTo(v, Value(z) + Value(v), zeroSign) && RoundsTo(v, Value(v) + Value(z), zeroSign)
  {
    RoundsToSelf(z);
    if IsFinite(v) { RoundsToSelf(v); }
  }

  /** Lines 156-170: how far the smaller operand has to move. */
  method AlignmentShift(ea: nat, eb: nat) returns (shift: uint32)
    requires ea <= eb < 0xff
    ensures shift == (if eb == 0 then 1 else eb) - (if ea == 0 then 1 else ea)
  {
    shift := 0;
    if eb == 0 {
      if ea == 0 { shift := 0; } else { shift := ToU32(eb + 1 - ea); }
    } else {
      if ea == 0 { shift := ToU32(eb - ea - 1); } else { shift := ToU32(eb - ea); }
    }
  }

  /** Lines 188-195: the signed addition, by wrap-around in 32 bits. */
  method AddSigned(signA: nat, sigA0: uint32, signB: nat, sigB0: uint32) returns (sign: nat, sigRes: uint32)
    requires sigA0 < 2 * TOP && sigB0 < 2 * TOP
    ensures sigRes == AbsInt(Signed(signA, sigA0) + Signed(signB, sigB0))
    ensures sign == if Signed(signA, sigA0) + Signed(signB, sigB0) < 0 then 1 else 0
  {
    var sigA: uint32, sigB: uint32 := sigA0, sigB0;
    if signA == 1 { sigA := ToU32(-(sigA as int)); }
    if signB == 1 { sigB := ToU32(-(sigB as int)); }
    sigRes := ToU32(sigA + sigB);
    sign := 0;
    if sigRes / SIGN_BIT == 1 {
      sign := 1;
      sigRes := ToU32(-(sigRes as int));
    }
  }

  /** Lines 136-198, for two finite operands that are not zero. */
  method AddFinite(b: uint32, a: uint32) returns (r: uint32)
    requires IsFinite(a) && IsFinite(b) && !IsZero(a) && !IsZero(b)
    ensures RoundsTo(r, Value(a) + Value(b), ZeroSumSign(a, b))
  {
    hide Value, InUnits, Jammed, StandsFor, Mag, RoundsTo, PackedAs, CarryLost;
    var fa, fb := a, b;
    if Exponent(fa) > Exponent(fb) {
      fa, fb := b, a;
    }
    FieldsOfFinite(fa);
    FieldsOfFinite(fb);
    var sigA: uint32, sigB: uint32 := Sig(fa), Sig(fb);
    var shift := AlignmentShift(Exponent(fa), Exponent(fb));
    sigA := sigA * 8;
    sigB := sigB * 8;
    sigA := Align(sigA, shift, Exp(fa), Mag(fa % SIGN_BIT));
    ghost var x, sum := Value(fa) + Value(fb), Signed(SignOf(fa), sigA) + Signed(SignOf(fb), sigB);
    AlignedSum(fa, fb, sigA, sum);
    var sign, sigRes := AddSigned(SignOf(fa), sigA, SignOf(fb), sigB);
    r := InternalNormalize(sign, ToI32(Exponent(fb)), sigRes, Abs(x));
    SumKeepsCarry(fa, fb);
    SumRounds(fa, fb, r, sign);
  }

  lemma SumRounds(a: uint32, b: uint32, r: uint32, sign: nat)
    requires IsFinite(a) && IsFinite(b) && !IsZero(a) && sign == if Value(a) + Value(b) < 0.0 then 1 else 0
    requires r / SIGN_BIT == sign && PackedAs(r % SIGN_BIT, Abs(Value(a) + Value(b)))
    requires !CarryLost(Abs(Value(a) + Value(b)))
    ensures RoundsTo(r, Value(a) + Value(b), ZeroSumSign(a, b))
  {
    hide Value, Mag, IsRne, CarryLost, ZeroSumSign;
    if Value(a) + Value(b) == 0.0 { ZeroSum(a, b); }
  }

  /** Operands that cancel have opposite signs. */
  lemma ZeroSum(a: uint32, b: uint32)
    requires IsFinite(a) && IsFinite(b) && !IsZero(a) && Value(a) + Value(b) == 0.0
    ensures ZeroSumSign(a, b) == 0
  {
    MagNonNegative(a % SIGN_BIT);
    MagNonNegative(b % SIGN_BIT);
  }

  // ---------- subtraction ----------

  const CORNER_SUB: seq<CornerRule> := [
    CornerRule(P_ZERO, P_ZERO, P_ZERO),
    CornerRule(N_ZERO, P_ZERO, N_ZERO),
    CornerRule(P_ZERO, N_ZERO, P_ZERO),
    CornerRule(N_ZERO, N_ZERO, P_ZERO),
    CornerRule(P_NAN, P_NAN, P_NAN),
    CornerRule(N_NAN, P_NAN, P_NAN),
    CornerRule(P_NAN, N_NAN, P_NAN),
    CornerRule(N_NAN, N_NAN, N_NAN)
  ]

  lemma CornerSubRules(a: uint32, b: uint32, c: uint32)
    ensures CornerRule(a, b, c) in CORNER_SUB ==>
              if IsZero(a) then IsZero(b) && c == (if a == N_ZERO && b == P_ZERO then N_ZERO else P_ZERO)
              else IsNan(a) && IsNan(b) && IsNan(c)
  {
  }

  /** What the difference of two numbers has to be. */
  ghost predicate IsDifference(r: uint32, a: uint32, b: uint32) {
    && (IsFinite(a) && IsFinite(b) ==>
          RoundsTo(r, Value(a) - Value(b), if SignOf(a) == 1 && SignOf(b) == 0 then 1 else 0))
    && (IsInfinite(a) && IsFinite(b) ==> r == a)
    && (IsFinite(a) && IsInfinite(b) ==> IsInfinite(r) && SignOf(r) != SignOf(b))
    && (IsInfinite(a) && IsInfinite(b) ==> if a != b then r == a else IsNan(r))
    && (IsCanonical(a) && IsCanonical(b) && (IsNan(a) || IsNan(b)) ==> IsNan(r))
  }

  /** Line 213: a - b. */
  method InternalFloatSub(b: uint32, a: uint32) returns (r: uint32)
    ensures IsDifference(r, a, b)
  {
    hide RoundsTo, Value;
    var corner := FindCorner(CORNER_SUB, a, b);
    if corner.Some? {
      r := corner.value;
      CornerSubRules(a, b, r);
      if IsFinite(a) { SubZeros(a, b); }
      return;
    }
    if a == P_NAN || a == N_NAN { ExponentOfSpecial(a); return a; }
    if b == P_NAN || b == N_NAN { ExponentOfSpecial(b); return b; }
    var negated := WithSign(b, 1 - SignOf(b));
    NegatedValue(b, negated);
    r := InternalFloatAdd(negated, a);
  }

  lemma NegatedValue(b: uint32, n: uint32)
    requires n == WithSign(b, 1 - SignOf(b))
    ensures n % SIGN_BIT == b % SIGN_BIT && SignOf(n) == 1 - SignOf(b)
    ensures Value(n) == -Value(b)
  {
  }

  lemma SubZeros(a: uint32, b: uint32)
    requires IsZero(a) && IsZero(b)
    ensures RoundsTo(if a == N_ZERO && b == P_ZERO then N_ZERO else P_ZERO, Value(a) - Value(b),
              if SignOf(a) == 1 && SignOf(b) == 0 then 1 else 0)
  {
    RoundsToSelf(a);
    RoundsToSelf(b);
    RneExact(0);
  }
}
