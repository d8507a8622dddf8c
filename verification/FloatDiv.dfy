/** Division of the software floating point unit (nemu/src/cpu/fpu.c).  The quotient of the
    significands is cut off, and its remainder is not kept as a sticky bit. */
module FloatDiv {
  import opened Ieee754
  import opened MachineInts
  import opened Basics
  import opened Normalize
  import opened FloatFormat
  import opened FloatMul

  const BIT63: nat := 0x8000_0000_0000_0000

  /** n moved left until bit 63 is set, and how far that is. */
  function AtTop(n: nat): (r: nat)
    requires 0 < n < 2 * BIT63
    ensures BIT63 <= r < 2 * BIT63
    decreases 2 * BIT63 - n
  {
    if n >= BIT63 then n else AtTop(2 * n)
  }

  function LeftPlaces(n: nat): nat
    requires 0 < n < 2 * BIT63
    decreases 2 * BIT63 - n
  {
    if n >= BIT63 then 0 else 1 + LeftPlaces(2 * n)
  }

  /** n moved right until it is odd, and how far that is. */
  function OddPart(n: nat): (r: nat)
    requires n > 0
    ensures 0 < r <= n && r % 2 == 1
  {
    if n % 2 == 1 then n else OddPart(n / 2)
  }

  function RightPlaces(n: nat): (k: nat)
    requires n > 0
    ensures k < n
  {
    if n % 2 == 1 then 0 else 1 + RightPlaces(n / 2)
  }

  /** Line 324. */
  method ShiftUp(sig0: uint64) returns (sig: uint64, shift: nat)
    requires sig0 > 0
    ensures sig == AtTop(sig0) && shift == LeftPlaces(sig0)
  {
    sig, shift := sig0, 0;
    while sig / BIT63 == 0
      invariant 0 < sig
      invariant AtTop(sig) == AtTop(sig0) && shift + LeftPlaces(sig) == LeftPlaces(sig0)
      decreases 2 * BIT63 - sig
    {
      sig := sig * 2;
      shift := shift + 1;
    }
  }

  /** Line 325. */
  method ShiftDown(sig0: uint64, shift0: nat) returns (sig: uint64, shift: nat)
    requires sig0 > 0
    ensures sig == OddPart(sig0) && shift == shift0 + RightPlaces(sig0)
  {
    sig, shift := sig0, shift0;
    while sig % 2 == 0
      invariant 0 < sig
      invariant OddPart(sig) == OddPart(sig0) && shift + RightPlaces(sig) == shift0 + RightPlaces(sig0)
      decreases sig
    {
      sig := sig / 2;
      shift := shift + 1;
    }
  }

  lemma {:induction false} LeftPlacesBound(n: nat, k: nat)
    requires 0 < n < 2 * BIT63 && k <= 63 && n >= Pow2(k)
    ensures LeftPlaces(n) <= 63 - k
    decreases 63 - k
  {
    if n < BIT63 {
      Pow2Values();
      LeftPlacesBound(2 * n, k + 1);
    }
  }

  lemma {:induction false} TopValue(n: nat)
    requires 0 < n < 2 * BIT63
    ensures Scale(AtTop(n) as real, -(LeftPlaces(n) as int)) == n as real
    decreases 2 * BIT63 - n
  {
    if n < BIT63 {
      TopValue(2 * n);
      ScaleStep(AtTop(n) as real, -(LeftPlaces(n) as int));
      assert (2 * n) as real == 2.0 * n as real;
    }
  }

  lemma {:induction false} OddValue(n: nat)
    requires n > 0
    ensures Scale(OddPart(n) as real, RightPlaces(n)) == n as real
  {
    if n % 2 == 0 {
      OddValue(n / 2);
      assert n as real == 2.0 * (n / 2) as real;
    }
  }

  // ---------- what cutting off the quotient does to its rounding ----------

  /** t is a whole number sig of units 2^(e-153), with at least 40 bits, and q is t or lies
      less than a unit above it. */
  ghost predicate CutOff(sig: nat, e: int, t: real, q: real) {
    && sig >= 0x80_0000_0000
    && t == Scale(sig as real, e - 153)
    && t <= q < Scale((sig + 1) as real, e - 153)
  }

  /** A boundary made of whole units, and above t, is above q too. */
  lemma WholeBoundary(sig: nat, e: int, t: real, q: real, k: nat, j: nat)
    requires CutOff(sig, e, t, q)
    ensures var b := Scale(k as real, j + e - 153); t < b ==> q < b
  {
    var b := Scale(k as real, j + e - 153);
    if t < b {
      var n := WholeUnits(k, j, e - 153);
      ScaleMono(sig as real, n as real, e - 153);
      assert n >= sig + 1;
      ScaleMono(n as real, (sig + 1) as real, e - 153);
    }
  }

  /** A boundary at or above t has units no finer than t's. */
  lemma BoundaryUnits(sig: nat, e: int, t: real, q: real, m: nat)
    requires CutOff(sig, e, t, q) && t < Mag(m + 1)
    ensures e <= Binade(m) + 2
  {
    var f := Binade(m);
    if e > f + 2 {
      BinadeSplit(m);
      MagAt(f, Significand(m) + 1);
      assert m + 1 == (f - 1) * HIDDEN_BIT + (Significand(m) + 1);
      assert Mag(m + 1) == Scale((Significand(m) + 1) as real, f - 150);
      ScaleMono((2 * HIDDEN_BIT) as real, (Significand(m) + 1) as real, f - 150);
      ScaleGrow((2 * HIDDEN_BIT) as real, f - 150, e - 153);
      ScaleMono(sig as real, (2 * HIDDEN_BIT) as real, e - 153);
    }
  }

  lemma {:induction false} ScaleGrow(a: real, e: int, f: int)
    requires a >= 0.0 && e <= f
    ensures 0.0 <= Scale(a, e) <= Scale(a, f)
    decreases f - e
  {
    if e == f {
      ScaleZero(e);
      ScaleMono(a, 0.0, e);
    } else {
      ScaleGrow(a, e, f - 1);
      ScaleStep(a, f - 1);
    }
  }

  lemma MidBoundary(sig: nat, e: int, t: real, q: real, m: nat)
    requires CutOff(sig, e, t, q)
    ensures t < Mid(m) ==> q < Mid(m)
    ensures t < Mag(m + 1) ==> q < Mag(m + 1)
  {
    hide CutOff;
    MagStep(m);
    if t < Mag(m + 1) {
      BoundaryUnits(sig, e, t, q, m);
      var j := Binade(m) + 2 - e;
      MidScale(m);
      WholeBoundary(sig, e, t, q, 2 * Significand(m) + 1, j);
      WholeBoundary(sig, e, t, q, 2 * Significand(m) + 2, j);
    }
  }

  lemma MidScale(m: nat)
    ensures Mid(m) == Scale((2 * Significand(m) + 1) as real, Binade(m) - 151)
    ensures Mag(m + 1) == Scale((2 * Significand(m) + 2) as real, Binade(m) - 151)
  {
    var s: nat, f: int := Significand(m), Binade(m);
    MagStep(m);
    hide Scale;
    ScaleShift(s as real, f - 151);
    ScaleShift(1.0, f - 151);
    ScaleAdd(2.0 * s as real, 1.0, f - 151);
    ScaleAdd(2.0 * s as real, 2.0, f - 151);
    ScaleAdd(1.0, 1.0, f - 151);
    assert (2 * s + 1) as real == 2.0 * s as real + 1.0 && (2 * s + 2) as real == 2.0 * s as real + 2.0;
  }

  /** Rounding the cut-off quotient rounds the quotient, unless the cut-off made an exact tie
      that then went down to an even result; there the right result is the next one up. */
  lemma CutOffRounds(sig: nat, e: int, t: real, q: real, m: nat)
    requires CutOff(sig, e, t, q) && Between(m, t)
    ensures var lost := q != t && m < INF && m % 2 == 0 && Mid(m) == t;
      if lost then !Between(m, q) && Between(m + 1, q) else Between(m, q)
  {
    hide CutOff;
    assert t <= q by { CutOffOrder(sig, e, t, q); }
    if m < INF {
      MidBoundary(sig, e, t, q, m);
      MidBoundary(sig, e, t, q, m + 1);
      MagStep(m);
      MagStep(m + 1);
    }
  }

  lemma CutOffOrder(sig: nat, e: int, t: real, q: real)
    requires CutOff(sig, e, t, q)
    ensures t <= q
  {
  }

  lemma CutOffCarry(sig: nat, e: int, t: real, q: real)
    requires CutOff(sig, e, t, q)
    ensures CarryLost(t) <==> CarryLost(q)
  {
    MidBoundary(sig, e, t, q, HIDDEN_BIT - 1);
  }

  // ---------- the operation ----------

  const CORNER_DIV: seq<CornerRule> := [
    CornerRule(P_ZERO, P_ZERO, N_NAN),
    CornerRule(N_ZERO, P_ZERO, N_NAN),
    CornerRule(P_ZERO, N_ZERO, N_NAN),
    CornerRule(N_ZERO, N_ZERO, N_NAN),
    CornerRule(P_INF, P_ZERO, P_INF),
    CornerRule(N_INF, P_ZERO, N_INF),
    CornerRule(P_INF, N_ZERO, N_INF),
    CornerRule(N_INF, N_ZERO, P_INF),
    CornerRule(P_INF, P_INF, N_NAN),
    CornerRule(N_INF, P_INF, N_NAN),
    CornerRule(P_INF, N_INF, N_NAN),
    CornerRule(N_INF, N_INF, N_NAN)
  ]

  lemma CornerDivRules(a: uint32, b: uint32, c: uint32)
    ensures CornerRule(a, b, c) in CORNER_DIV ==>
              if IsZero(a) then IsZero(b) && IsNan(c)
              else IsInfinite(a) &&
                   if IsZero(b) then IsInfinite(c) && SignOf(c) == XorSign(a, b) else IsInfinite(b) && IsNan(c)
    ensures IsZero(a) && IsZero(b) ==> CornerRule(a, b, N_NAN) in CORNER_DIV
    ensures IsInfinite(a) && IsInfinite(b) ==> CornerRule(a, b, N_NAN) in CORNER_DIV
  {
  }

  function Quotient(a: uint32, b: uint32): real
    requires Value(b) != 0.0
  {
    Value(a) / Value(b)
  }

  /** Line 327: the quotient of the scaled significands, cut off to an integer. */
  function CutQuotient(a: uint32, b: uint32): nat
    requires Sig(a) > 0 && Sig(b) > 0
  {
    SigBounds(a);
    AtTop(Sig(a)) / OddPart(Sig(b))
  }

  /** Line 331: its exponent. */
  function QuotientExponent(a: uint32, b: uint32): int
    requires Sig(a) > 0 && Sig(b) > 0
  {
    SigBounds(a);
    Exp(a) as int - Exp(b) + 127 - (LeftPlaces(Sig(a)) + RightPlaces(Sig(b)) - 23 - 3)
  }

  /** The magnitude the cut-off quotient stands for. */
  function CutValue(a: uint32, b: uint32): real
    requires Sig(a) > 0 && Sig(b) > 0
  {
    Scale(CutQuotient(a, b) as real, QuotientExponent(a, b) - 153)
  }

  /** The division left a remainder. */
  predicate Inexact(a: uint32, b: uint32)
    requires Sig(a) > 0 && Sig(b) > 0
  {
    SigBounds(a);
    AtTop(Sig(a)) % OddPart(Sig(b)) != 0
  }

  /** A remainder was dropped from a quotient that is halfway above an even number without it. */
  ghost predicate TieLost(a: uint32, b: uint32)
    requires Sig(a) > 0 && Sig(b) > 0
  {
    Inexact(a, b) && exists m: nat :: m < INF && m % 2 == 0 && Mid(m) == CutValue(a, b)
  }

  lemma SigPositive(v: uint32)
    requires IsFinite(v) && !IsZero(v)
    ensures Sig(v) > 0 && Value(v) != 0.0
  {
    SigBounds(v);
    MagNonNegative(v % SIGN_BIT);
  }

  /** What the division of two finite nonzero numbers gives: the correctly rounded quotient
      except in two families, and in one of them the next lower number. */
  ghost predicate IsQuotient(r: uint32, a: uint32, b: uint32)
    requires IsFinite(a) && IsFinite(b) && !IsZero(a) && !IsZero(b)
  {
    SigPositive(a);
    SigPositive(b);
    var q := Quotient(a, b);
    && SignOf(r) == XorSign(a, b)
    && (RoundsTo(r, q, 0) <==> !CarryLost(Abs(q)) && !TieLost(a, b))
    && (CarryLost(Abs(q)) ==> IsZero(r))
    && (TieLost(a, b) && !CarryLost(Abs(q)) ==> RoundsTo(r + 1, q, 0))
  }

  ghost predicate IsSpecialQuotient(r: uint32, a: uint32, b: uint32) {
    && (IsNan(a) || IsNan(b) ==> IsNan(r))
    && ((IsZero(a) && IsZero(b)) || (IsInfinite(a) && IsInfinite(b)) ==> IsNan(r))
    && (IsInfinite(a) && IsFinite(b) ==> IsInfinite(r) && SignOf(r) == XorSign(a, b))
    && (IsZero(b) && IsFinite(a) && !IsZero(a) ==> IsInfinite(r) && SignOf(r) == XorSign(a, b))
    && (IsZero(a) && (IsInfinite(b) || (IsFinite(b) && !IsZero(b))) ==> IsZero(r) && SignOf(r) == XorSign(a, b))
    && (IsInfinite(b) && IsFinite(a) ==> IsZero(r) && SignOf(r) == XorSign(a, b))
  }

  /** Line 295: a / b. */
  method InternalFloatDiv(b: uint32, a: uint32) returns (r: uint32)
    ensures IsFinite(a) && IsFinite(b) && !IsZero(a) && !IsZero(b) ==> IsQuotient(r, a, b)
    ensures IsSpecialQuotient(r, a, b)
  {
    hide IsQuotient;
    SpecialPatterns(a);
    SpecialPatterns(b);
    var corner := FindCorner(CORNER_DIV, a, b);
    if corner.Some? {
      r := corner.value;
      CornerDivRules(a, b, r);
      return;
    }
    CornerDivRules(a, b, N_NAN);
    if a == P_NAN || a == N_NAN || b == P_NAN || b == N_NAN {
      return if a == P_NAN || b == P_NAN then P_NAN else N_NAN;
    }
    var sign := XorSign(a, b);
    if a == P_INF || a == N_INF { return if sign == 1 then N_INF else P_INF; }
    if b == P_ZERO || b == N_ZERO { return if sign == 1 then N_INF else P_INF; }
    if a == P_ZERO || a == N_ZERO { return WithSign(a, sign); }
    if b == P_INF || b == N_INF { return if sign == 1 then N_ZERO else P_ZERO; }

    r := DivNonzero(b, a, sign);
  }

  /** Lines 314-332, for operands that are neither zero nor infinite nor a known NaN. */
  method DivNonzero(b: uint32, a: uint32, sign: nat) returns (r: uint32)
    requires !IsZero(a) && !IsZero(b) && sign == XorSign(a, b)
    ensures IsFinite(a) && IsFinite(b) ==> IsQuotient(r, a, b)
  {
    hide IsQuotient, StandsFor, PackedAs, CutValue, Scale;
    SpecialPatterns(a);
    SpecialPatterns(b);
    var sigA: uint64, sigB: uint64 := Sig(a), Sig(b);
    SigBounds(a);
    SigBounds(b);
    var shift: nat;
    sigA, shift := ShiftUp(sigA);
    sigB, shift := ShiftDown(sigB, shift);
    DivideBounds(sigA, sigB);
    var sigRes: uint64 := sigA / sigB;
    var expRes: uint32 := ToU32(Exp(a) as int - Exp(b) + 127 - (shift - 23 - 3));
    ExponentFits(a, b);
    ghost var v := CutStandsFor(a, b);
    r := InternalNormalize(sign, ToI32(expRes), sigRes, v);
    if IsFinite(a) && IsFinite(b) { DivFinite(a, b, r); }
  }

  lemma CutStandsFor(a: uint32, b: uint32) returns (v: real)
    requires Sig(a) > 0 && Sig(b) > 0
    ensures v == CutValue(a, b) && CutQuotient(a, b) >= 2 * TOP
    ensures StandsFor(QuotientExponent(a, b), CutQuotient(a, b), v)
  {
    SigBounds(a);
    SigBounds(b);
    DivideBounds(AtTop(Sig(a)), OddPart(Sig(b)));
    v := CutValue(a, b);
    ExactStandsFor(QuotientExponent(a, b), CutQuotient(a, b), v);
  }

  lemma ExponentFits(a: uint32, b: uint32)
    requires Sig(a) > 0 && Sig(b) > 0
    ensures var e := QuotientExponent(a, b); ToI32(ToU32(e)) == e
  {
    SigBounds(a);
    SigBounds(b);
    assert Pow2(0) == 1;
    LeftPlacesBound(Sig(a), 0);
  }

  lemma DivideBounds(x: nat, y: nat)
    requires BIT63 <= x < 2 * BIT63 && 0 < y < 2 * HIDDEN_BIT
    ensures 0x80_0000_0000 <= x / y < 2 * BIT63
  {
    var s := x / y;
    assert x == s * y + x % y;
    TimesOrder(s, 0x7f_ffff_ffff, y);
    TimesOrder(2 * BIT63, s, y);
  }

  lemma SignsDivide(x: real, y: real)
    requires x > 0.0 && y > 0.0
    ensures x / y > 0.0 && (-x) / y == -(x / y) && x / (-y) == -(x / y) && (-x) / (-y) == x / y
  {
  }

  lemma DivUnique(z: real, w: real, u: real)
    requires w != 0.0
    ensures u * w == z ==> z / w == u
    ensures (z / w) * w == z
  {
  }

  lemma QuotientMagnitude(a: uint32, b: uint32)
    requires IsFinite(a) && IsFinite(b) && !IsZero(a) && !IsZero(b)
    ensures Value(b) != 0.0 && Mag(b % SIGN_BIT) > 0.0
    ensures Abs(Quotient(a, b)) == Mag(a % SIGN_BIT) / Mag(b % SIGN_BIT)
    ensures Quotient(a, b) != 0.0 && XorSign(a, b) == if Quotient(a, b) < 0.0 then 1 else 0
  {
    hide Mag;
    var x, y := Mag(a % SIGN_BIT), Mag(b % SIGN_BIT);
    MagNonNegative(a % SIGN_BIT);
    MagNonNegative(b % SIGN_BIT);
    SignsDivide(x, y);
    assert (Value(a) == x || Value(a) == -x) && (Value(b) == y || Value(b) == -y);
  }

  /** The exact quotient has the exponent of the cut-off one. */
  lemma QuotientScale(a: uint32, b: uint32)
    requires IsFinite(a) && IsFinite(b) && !IsZero(a) && !IsZero(b)
    ensures Sig(a) > 0 && Sig(b) > 0 && Mag(b % SIGN_BIT) > 0.0
    ensures Mag(a % SIGN_BIT) / Mag(b % SIGN_BIT)
         == Scale(AtTop(Sig(a)) as real / OddPart(Sig(b)) as real, QuotientExponent(a, b) - 153)
  {
    hide Mag, Scale, InUnits, Value, Quotient, XorSign, AtTop, OddPart, LeftPlaces, RightPlaces;
    QuotientMagnitude(a, b);
    SigBounds(a);
    SigBounds(b);
    FieldsOfFinite(a);
    FieldsOfFinite(b);
    var x, y := AtTop(Sig(a)) as real, OddPart(Sig(b)) as real;
    var l: int, k: int := LeftPlaces(Sig(a)), RightPlaces(Sig(b));
    TopValue(Sig(a));
    OddValue(Sig(b));
    ScaleCompose(x, -l, Exp(a) as int - 150);
    ScaleCompose(y, k, Exp(b) as int - 150);
    var e, f := QuotientExponent(a, b) - 153, k + (Exp(b) as int - 150);
    ScaledQuotient(x, y, e, f);
    assert e + f == -l + (Exp(a) as int - 150);
  }

  lemma ScaledQuotient(x: real, y: real, e: int, f: int)
    requires y > 0.0 && Scale(y, f) != 0.0
    ensures Scale(x, e + f) / Scale(y, f) == Scale(x / y, e)
  {
    hide Scale;
    var u := x / y;
    ScaleProduct(u, e, y, f);
    DivUnique(x, y, u);
    assert u * y == x;
    DivUnique(Scale(x, e + f), Scale(y, f), Scale(x / y, e));
  }

  /** Integer division against real division. */
  lemma CutReal(x: nat, y: nat)
    requires y > 0
    ensures (x / y) as real <= x as real / y as real < (x / y + 1) as real
    ensures x % y == 0 <==> (x / y) as real == x as real / y as real
  {
  }

  lemma QuotientCutOff(a: uint32, b: uint32)
    requires IsFinite(a) && IsFinite(b) && !IsZero(a) && !IsZero(b)
    ensures Sig(a) > 0 && Sig(b) > 0 && Value(b) != 0.0
    ensures CutOff(CutQuotient(a, b), QuotientExponent(a, b), CutValue(a, b), Abs(Quotient(a, b)))
    ensures Inexact(a, b) <==> CutValue(a, b) != Abs(Quotient(a, b))
  {
    hide Mag, Scale, Quotient, InUnits, IsFinite, Sig;
    QuotientMagnitude(a, b);
    QuotientScale(a, b);
    SigBounds(a);
    SigBounds(b);
    var x, y, e := AtTop(Sig(a)), OddPart(Sig(b)), QuotientExponent(a, b) - 153;
    var s := x / y;
    DivideBounds(x, y);
    CutReal(x, y);
    var w := x as real / y as real;
    ScaleMono(s as real, w, e);
    ScaleMono(w, s as real, e);
    ScaleMono(w, (s + 1) as real, e);
  }

  lemma TieIsUnique(m: nat, n: nat, t: real)
    requires Between(m, t) && n < INF && n % 2 == 0 && Mid(n) == t
    ensures m == n
  {
    MagStep(n);
    if n > 0 { MagStep(n - 1); }
    BetweenUnique(m, n, t);
  }

  /** What normalisation made of the cut-off quotient. */
  lemma DivFinite(a: uint32, b: uint32, r: uint32)
    requires IsFinite(a) && IsFinite(b) && !IsZero(a) && !IsZero(b)
    requires Sig(a) > 0 && Sig(b) > 0
    requires SignOf(r) == XorSign(a, b) && PackedAs(r % SIGN_BIT, CutValue(a, b))
    ensures IsQuotient(r, a, b)
  {
    hide Mag, Scale, CutOff, Quotient, CutValue, CutQuotient, IsRne, CarryLost, Mid, Between, PackedAs, Sig, Value,
        XorSign;
    QuotientCutOff(a, b);
    QuotientMagnitude(a, b);
    var m, t, q := r % SIGN_BIT, CutValue(a, b), Abs(Quotient(a, b));
    hide Inexact;
    DivMagnitude(m, CutQuotient(a, b), QuotientExponent(a, b), t, q);
    NextUp(r);
    assert RoundsTo(r, Quotient(a, b), 0) <==> IsRne(m, q);
  }

  lemma NextUp(r: uint32)
    ensures r % SIGN_BIT < INF ==> (r + 1) / SIGN_BIT == r / SIGN_BIT && (r + 1) % SIGN_BIT == r % SIGN_BIT + 1
  {
  }

  lemma DivMagnitude(m: nat, sig: nat, e: int, t: real, q: real)
    requires CutOff(sig, e, t, q) && PackedAs(m, t)
    ensures var lost := q != t && exists n: nat :: n < INF && n % 2 == 0 && Mid(n) == t;
      && (IsRne(m, q) <==> !CarryLost(q) && !lost)
      && (lost && !CarryLost(q) ==> IsRne(m + 1, q) && m + 1 <= INF)
      && (CarryLost(q) ==> m == 0)
  {
    CutOffCarry(sig, e, t, q);
    BetweenIsRne(m, t);
    BetweenIsRne(m, q);
    BetweenIsRne(m + 1, q);
    if CarryLost(q) {
      MagMono(0, HIDDEN_BIT - 1);
      MagMono(1, HIDDEN_BIT);
    } else {
      hide CutOff, IsRne, Mid, CarryLost;
      CutOffRounds(sig, e, t, q, m);
      assert m + 1 <= INF || m == INF by { assert Between(m, t); }
      forall n: nat | n < INF && n % 2 == 0 && Mid(n) == t ensures n == m { TieIsUnique(m, n, t); }
    }
  }

  /** The dropped remainder never moves the quotient past a representable number. */
  lemma LostIsBracketed(a: uint32, b: uint32)
    requires IsFinite(a) && IsFinite(b) && !IsZero(a) && !IsZero(b)
    ensures Sig(a) > 0 && Sig(b) > 0 && Value(b) != 0.0
    ensures TieLost(a, b) ==>
              exists m: nat ::
                m < INF && m % 2 == 0 && Mid(m) == CutValue(a, b) && Mag(m) < Abs(Quotient(a, b)) < Mag(m + 1)
  {
    hide Scale, Mag, CutValue, CutQuotient, QuotientExponent, Quotient, CutOff, Inexact;
    QuotientCutOff(a, b);
    if TieLost(a, b) {
      var sig, e, t, q := CutQuotient(a, b), QuotientExponent(a, b), CutValue(a, b), Abs(Quotient(a, b));
      var m: nat :| m < INF && m % 2 == 0 && Mid(m) == t;
      MagStep(m);
      CutOffOrder(sig, e, t, q);
      BoundaryUnits(sig, e, t, q, m);
      MidScale(m);
      WholeBoundary(sig, e, t, q, 2 * Significand(m) + 2, Binade(m) + 2 - e);
    }
  }

  /** The result is one of the two numbers around the exact quotient, and is the quotient itself
      whenever that is representable. */
  lemma DivIsFaithful(a: uint32, b: uint32, r: uint32)
    requires IsFinite(a) && IsFinite(b) && !IsZero(a) && !IsZero(b)
    ensures Value(b) != 0.0
    ensures var m, q := r % SIGN_BIT, Abs(Quotient(a, b));
            IsQuotient(r, a, b) ==>
              && (!CarryLost(q) ==> m <= INF && (m > 0 ==> Mag(m - 1) < q) && (m < INF ==> q < Mag(m + 1)))
              && forall k: nat | k < INF && Mag(k) == q :: m == k
  {
    hide Scale, Mag, CutValue, CutQuotient, QuotientExponent, Quotient, CutOff, Inexact;
    LostIsBracketed(a, b);
    if IsQuotient(r, a, b) {
      var m, q := r % SIGN_BIT, Abs(Quotient(a, b));
      if CarryLost(q) {
        MagStep(HIDDEN_BIT - 1);
      } else if TieLost(a, b) {
        var n: nat :| n < INF && n % 2 == 0 && Mid(n) == CutValue(a, b) && Mag(n) < q < Mag(n + 1);
        LostResult(a, b, r, n);
        if m > 0 { MagStep(m - 1); }
      } else {
        RneBrackets(m, q);
      }
      forall k: nat | k < INF && Mag(k) == q ensures m == k {
        if CarryLost(q) {
          Strictly(k, HIDDEN_BIT - 1, q);
        } else {
          if k < m { MagOrder(k, m - 1); }
          if m < k { MagOrder(m + 1, k); }
        }
      }
    }
  }

  lemma MagOrder(m: nat, n: nat)
    requires m <= n
    ensures Mag(m) <= Mag(n)
  {
    if m < n { MagMono(m, n); }
  }

  lemma Strictly(k: nat, n: nat, q: real)
    requires Mag(n) < q < Mag(n + 1)
    ensures Mag(k) != q
  {
    if k <= n { MagOrder(k, n); } else { MagOrder(n + 1, k); }
  }

  lemma RneBrackets(m: nat, q: real)
    requires IsRne(m, q)
    ensures m <= INF && (m > 0 ==> Mag(m - 1) < q) && (m < INF ==> q < Mag(m + 1))
  {
    hide Mag, IsRne;
    BetweenIsRne(m, q);
    MagMono(m, m + 1);
    if m > 0 { MagMono(m - 1, m); }
  }

  /** Just above a tie the next number is the rounding, and the result is the one before it. */
  lemma LostResult(a: uint32, b: uint32, r: uint32, n: nat)
    requires IsFinite(a) && IsFinite(b) && !IsZero(a) && !IsZero(b)
    ensures Sig(a) > 0 && Sig(b) > 0 && Value(b) != 0.0
    ensures var q := Abs(Quotient(a, b));
            IsQuotient(r, a, b) && TieLost(a, b) && !CarryLost(q) ==>
              n < INF && Mid(n) == CutValue(a, b) && Mag(n) < q < Mag(n + 1) ==> r % SIGN_BIT == n
  {
    hide Mag, Scale, IsRne, Quotient, CutValue, CutOff, Inexact, CutQuotient, QuotientExponent;
    QuotientCutOff(a, b);
    CutOffOrder(CutQuotient(a, b), QuotientExponent(a, b), CutValue(a, b), Abs(Quotient(a, b)));
    var q := Abs(Quotient(a, b));
    if IsQuotient(r, a, b) && TieLost(a, b) && !CarryLost(q)
       && n < INF && Mid(n) == CutValue(a, b) && Mag(n) < q < Mag(n + 1)
    {
      MagStep(n);
      MagStep(n + 1);
      assert Between(n + 1, q);
      BetweenIsRne(n + 1, q);
      RneUnique(n + 1, (r + 1) % SIGN_BIT, q);
      NextUp(r);
    }
  }

  lemma {:induction false} TopIs(n: nat, k: nat)
    requires 0 < n && BIT63 <= n * Pow2(k) < 2 * BIT63
    ensures n < 2 * BIT63 && AtTop(n) == n * Pow2(k) && LeftPlaces(n) == k
    decreases k
  {
    if k > 0 {
      assert 2 * n * Pow2(k - 1) == n * Pow2(k);
      TopIs(2 * n, k - 1);
      assert n <= n * Pow2(k - 1);
    }
  }

  // ---------- the lost tie, on integers ----------

  /** How many places to the right bring n below 2^24. */
  function Places(n: nat): nat { if n < 2 * HIDDEN_BIT then 0 else 1 + Places(n / 2) }

  /** How many low bits of the cut-off quotient the result has no room for. */
  function Dropped(sig: nat, e: int): nat { if Places(sig) as int >= 4 - e then Places(sig) else 4 - e }

  /** The dropped bits are exactly one half of the last place kept, the last bit kept is even, and
      the result does not overflow. */
  predicate HalfDropped(sig: nat, e: int) {
    var k := Dropped(sig, e);
    k >= 1 && k + e <= 257 && sig % Pow2(k) == Pow2(k - 1) && sig / Pow2(k) % 2 == 0
  }

  /** q, the bits of n above the lowest k, has 24 bits exactly when k is Places(n). */
  lemma {:induction false} PlacesIs(n: nat, k: nat, q: nat, r: nat)
    requires n == q * Pow2(k) + r && r < Pow2(k)
    ensures q >= 2 * HIDDEN_BIT ==> Places(n) > k
    ensures HIDDEN_BIT <= q < 2 * HIDDEN_BIT ==> Places(n) == k
    ensures q < HIDDEN_BIT ==> Places(n) < k || k == 0 == Places(n)
  {
    if k == 0 {
      assert n == q;
    } else {
      var p := Pow2(k - 1);
      assert q * (2 * p) == 2 * (q * p);
      assert q * p >= q;
      PlacesIs(n / 2, k - 1, q, r / 2);
    }
  }

  /** An odd multiple 2s+1 of 2^j, with the s above the lowest j+1 bits. */
  lemma OddMultiple(sig: nat, s: nat, j: nat)
    ensures sig == (2 * s + 1) * Pow2(j) <==> sig % Pow2(j + 1) == Pow2(j) && sig / Pow2(j + 1) == s
  {
    var p := Pow2(j);
    assert (2 * s + 1) * p == s * (2 * p) + p;
    if sig == (2 * s + 1) * p {
      ModUnique(sig, 2 * p, s, p);
    }
  }

  /** (2s+1) * 2^j units are 2s+1 units that are 2^j times as large. */
  lemma LargerUnits(c: nat, j: nat, e: int)
    ensures Scale((c * Pow2(j)) as real, e) == Scale(c as real, e + j)
  {
    ScalePow2(c, j);
    ScaleCompose((c * Pow2(j)) as real, -(j as int), e + j);
  }

  lemma ScaleInjective(x: nat, y: nat, e: int)
    requires Scale(x as real, e) == Scale(y as real, e)
    ensures x == y
  {
    ScaleMono(x as real, y as real, e);
    ScaleMono(y as real, x as real, e);
  }

  lemma HalfParts(sig: nat, e: int) returns (s: nat, j: nat)
    requires HalfDropped(sig, e)
    ensures sig == (2 * s + 1) * Pow2(j) && s % 2 == 0 && s < 2 * HIDDEN_BIT
    ensures 1 <= j + e - 2 <= 254 && (s >= HIDDEN_BIT || j + e - 2 == 1)
  {
    var k := Dropped(sig, e);
    s, j := sig / Pow2(k), k - 1;
    assert Pow2(k) == 2 * Pow2(j);
    hide Pow2, Places;
    DivMod(sig, Pow2(k));
    PlacesIs(sig, k, s, Pow2(j));
    OddMultiple(sig, s, j);
  }

  /** From the integer test to a halfway point. */
  lemma HalfIsMid(sig: nat, e: int) returns (m: nat)
    requires HalfDropped(sig, e)
    ensures m < INF && m % 2 == 0 && Mid(m) == Scale(sig as real, e - 153)
  {
    hide HalfDropped, Scale, Mag, Mid, Pow2, Binade, Significand;
    var s, j := HalfParts(sig, e);
    var f := j + e - 2;
    m := (f - 1) * HIDDEN_BIT + s;
    BitsOf(f, s);
    MidScale(m);
    LargerUnits(2 * s + 1, j, e - 153);
  }

  lemma BitsOf(f: nat, s: nat)
    requires 1 <= f <= 254 && s < 2 * HIDDEN_BIT && (s >= HIDDEN_BIT || f == 1)
    ensures var m := (f - 1) * HIDDEN_BIT + s; m < INF && m % 2 == s % 2 && Binade(m) == f && Significand(m) == s
  {
    SameParity(f - 1, s);
    if s >= HIDDEN_BIT { ModUnique((f - 1) * HIDDEN_BIT + s, HIDDEN_BIT, f, s - HIDDEN_BIT); }
  }

  lemma BitsBound(m: nat)
    requires m < INF
    ensures var s, f := Significand(m), Binade(m);
            s < 2 * HIDDEN_BIT && 1 <= f <= 254 && (s >= HIDDEN_BIT || f == 1) && s % 2 == m % 2
  {
    BinadeSplit(m);
  }

  /** From a halfway point to the integer test. */
  lemma MidIsHalf(sig: nat, e: int, m: nat)
    requires sig >= 0x80_0000_0000 && m < INF && m % 2 == 0 && Mid(m) == Scale(sig as real, e - 153)
    ensures HalfDropped(sig, e)
  {
    hide Scale, Mag, Mid, Pow2, HalfDropped, Binade, Significand;
    var s, f := Significand(m), Binade(m);
    MidScale(m);
    BitsBound(m);
    var j := f - e + 2;
    if j < 0 {
      var p := Pow2(-j);
      assert p >= 1 && sig * p >= sig;
      LargerUnits(sig, -j, f - 151);
      ScaleInjective(sig * p, 2 * s + 1, f - 151);
    } else {
      LargerUnits(2 * s + 1, j, e - 153);
      ScaleInjective((2 * s + 1) * Pow2(j), sig, e - 153);
      OddMultiple(sig, s, j);
      HalfAt(sig, e, s, j);
    }
  }

  lemma HalfAt(sig: nat, e: int, s: nat, j: nat)
    requires sig % Pow2(j + 1) == Pow2(j) && sig / Pow2(j + 1) == s && s % 2 == 0 && s < 2 * HIDDEN_BIT
    requires 4 - e <= j + 1 <= 257 - e && (s >= HIDDEN_BIT || j + 1 == 4 - e)
    ensures HalfDropped(sig, e)
  {
    assert Pow2(j) < Pow2(j + 1);
    DivMod(sig, Pow2(j + 1));
    hide Pow2;
    PlacesIs(sig, j + 1, s, Pow2(j));
  }

  /** The lost tie is a test on the cut-off quotient: a remainder was dropped beside bits that are
      exactly half a place. */
  lemma TieLostExactly(a: uint32, b: uint32)
    requires IsFinite(a) && IsFinite(b) && !IsZero(a) && !IsZero(b)
    ensures Sig(a) > 0 && Sig(b) > 0
    ensures TieLost(a, b) <==> Inexact(a, b) && HalfDropped(CutQuotient(a, b), QuotientExponent(a, b))
  {
    QuotientCutOff(a, b);
    hide Sig, CutQuotient, QuotientExponent, Inexact, Mid, Mag, Scale, HalfDropped, IsFinite, Quotient;
    var sig, e := CutQuotient(a, b), QuotientExponent(a, b);
    if m: nat :| m < INF && m % 2 == 0 && Mid(m) == CutValue(a, b) { MidIsHalf(sig, e, m); }
    if HalfDropped(sig, e) { var m := HalfIsMid(sig, e); }
  }

  // ---------- operands whose quotient comes out wrong ----------

  lemma QuotientFields(a: uint32, b: uint32)
    requires a == 0x3fa5_facb && b == 0x3fcb_e03d
    ensures Sig(a) == 0xa5_facb && Sig(b) == 0xcb_e03d && Exp(a) == 127 && Exp(b) == 127
  {
  }

  lemma QuotientParts(a: uint32, b: uint32)
    requires a == 0x3fa5_facb && b == 0x3fcb_e03d
    ensures Sig(a) > 0 && Sig(b) > 0 && CutQuotient(a, b) == (2 * 0xd0_6a3a + 1) * 0x8000
    ensures QuotientExponent(a, b) == 113 && Inexact(a, b)
  {
    QuotientFields(a, b);
    Pow2Values();
    hide Pow2, Exp, Sig;
    TopIs(0xa5_facb, 40);
    OddIs();
  }

  lemma OddIs()
    ensures OddPart(0xcb_e03d) == 0xcb_e03d && RightPlaces(0xcb_e03d) == 0
  {
  }

  lemma QuotientIsMid(m: nat, n: nat)
    requires m == 0x3f50_6a3a && n == 2 * 0xd0_6a3a + 1
    ensures Mid(m) == Scale((n * 0x8000) as real, -40)
  {
    assert Binade(m) == 126 && Significand(m) == 0xd0_6a3a;
    hide Scale, Mid, Mag, Binade, Significand, Pow2;
    Pow2Values();
    ScalePow2(n, 15);
    ScaleCompose((n * 0x8000) as real, -15, -25);
    MidScale(m);
  }

  lemma CarryFields(a: uint32, b: uint32)
    requires a == 0x00ff_ffff && b == 0x4000_0000
    ensures IsFinite(a) && IsFinite(b) && !IsZero(a) && !IsZero(b)
    ensures a % SIGN_BIT == 0x00ff_ffff && b % SIGN_BIT == 128 * HIDDEN_BIT
  {
  }

  lemma TwoPowers()
    ensures Pow2(22) == 0x40_0000 && Pow2(23) == HIDDEN_BIT
  {
    Pow2Values();
    assert Pow2(22) == 2 * Pow2(21);
  }

  /** (2 - 2^-23) * 2^-126 divided by 2 is halfway to 2^-126. */
  lemma HalfOfLargest()
    ensures Mag(128 * HIDDEN_BIT) == 2.0 &&
        Mag(0x00ff_ffff) / 2.0 == Scale(((8 * HIDDEN_BIT - 4) * 0x20_0000) as real, -173)
  {
    assert Scale(2 as real, 0) == 2.0;
    hide Scale, Pow2, Mag;
    var n, g := 8 * HIDDEN_BIT - 4, 2 * HIDDEN_BIT - 1;
    MagAt(128, HIDDEN_BIT);
    MagAt(1, g);
    TwoPowers();
    LargerUnits(2, 22, -22);
    LargerUnits(g, 23, -173);
    ScaleStep(g as real, -150);
  }

  lemma CarryCounterexample(a: uint32, b: uint32)
    requires a == 0x00ff_ffff && b == 0x4000_0000
    ensures Value(b) != 0.0 && CarryLost(Abs(Quotient(a, b)))
  {
    CarryFields(a, b);
    hide Scale, Mid, Mag, Quotient, Value, IsFinite;
    QuotientMagnitude(a, b);
    HalfOfLargest();
    HalfwayUnits(Abs(Quotient(a, b)));
  }

  lemma LowCounterexample(a: uint32, b: uint32)
    requires a == 0x3fa5_facb && b == 0x3fcb_e03d
    ensures Sig(a) > 0 && Sig(b) > 0 && TieLost(a, b)
  {
    hide Scale, Mid, Mag, Sig, CutQuotient, QuotientExponent, Inexact;
    QuotientParts(a, b);
    QuotientIsMid(0x3f50_6a3a, 2 * 0xd0_6a3a + 1);
  }

  /** A quotient that rounds up to 2^-126 and comes out as zero, and one that comes out one unit
      too low: 0x3f506a3a, where 0x3f506a3b is nearer. */
  lemma DivCounterexamples()
    ensures forall v: uint32 | v in {0x00ff_ffff, 0x4000_0000, 0x3fa5_facb, 0x3fcb_e03d} :: IsFinite(v) && !IsZero(v)
    ensures Value(0x4000_0000) != 0.0 && CarryLost(Abs(Quotient(0x00ff_ffff, 0x4000_0000)))
    ensures Sig(0x3fa5_facb) > 0 && Sig(0x3fcb_e03d) > 0 && TieLost(0x3fa5_facb, 0x3fcb_e03d)
  {
    hide Sig, Quotient, Value, TieLost, CarryLost;
    CarryCounterexample(0x00ff_ffff, 0x4000_0000);
    LowCounterexample(0x3fa5_facb, 0x3fcb_e03d);
  }
}
