/** IEEE 754-2008 binary32 as a specification: what a bit pattern means, and what
    "rounded to nearest, ties to even" asks of a result.  Nothing in this module
    follows the emulator's code. */
module Ieee754 {
  import opened MachineInts

  const SIGN_BIT: nat := 0x8000_0000
  const HIDDEN_BIT: nat := 0x80_0000
  const INF: nat := 0x7f80_0000            // magnitude bits of infinity
  const MAX_ULP: int := 104                // the last place of the largest finite number is 2^104
  const NAN: nat := 0x7fc0_0000            // magnitude bits of the canonical NaN

  /** a times two to the power e. */
  function Scale(a: real, e: int): real
    decreases if e < 0 then -e else e
  {
    if e == 0 then a else if e > 0 then 2.0 * Scale(a, e - 1) else Scale(a, e + 1) / 2.0
  }

  lemma ScaleStep(a: real, e: int)
    ensures Scale(a, e + 1) == 2.0 * Scale(a, e)
  {
  }

  lemma {:induction false} ScaleAdd(a: real, b: real, e: int)
    ensures Scale(a + b, e) == Scale(a, e) + Scale(b, e)
    decreases if e < 0 then -e else e
  {
    if e > 0 { ScaleAdd(a, b, e - 1); } else if e < 0 { ScaleAdd(a, b, e + 1); }
  }

  /** Moving a factor of two between the number and its exponent. */
  lemma {:induction false} ScaleShift(a: real, e: int)
    ensures Scale(2.0 * a, e) == Scale(a, e + 1)
  {
    ScaleAdd(a, a, e);
    ScaleStep(a, e);
  }

  lemma {:induction false} ScaleCompose(a: real, e: int, f: int)
    ensures Scale(Scale(a, e), f) == Scale(a, e + f)
    decreases if f < 0 then -f else f
  {
    if f > 0 {
      ScaleCompose(a, e, f - 1);
      ScaleStep(a, e + f - 1);
    } else if f < 0 {
      ScaleCompose(a, e, f + 1);
      ScaleStep(a, e + f);
    }
  }

  lemma {:induction false} ScaleMono(a: real, b: real, e: int)
    ensures a < b <==> Scale(a, e) < Scale(b, e)
    decreases if e < 0 then -e else e
  {
    if e > 0 { ScaleMono(a, b, e - 1); } else if e < 0 { ScaleMono(a, b, e + 1); }
  }

  lemma {:induction false} ScaleTimes(a: real, e: int, c: real)
    ensures Scale(a, e) * c == Scale(a * c, e)
    decreases if e < 0 then -e else e
  {
    if e > 0 { ScaleTimes(a, e - 1, c); } else if e < 0 { ScaleTimes(a, e + 1, c); }
  }

  /** Significands multiply, exponents add. */
  lemma ScaleProduct(a: real, e: int, b: real, f: int)
    ensures Scale(a, e) * Scale(b, f) == Scale(a * b, e + f)
  {
    hide Scale;
    var y, ab := Scale(b, f), a * b;
    ScaleTimes(a, e, y);
    ScaleTimes(b, f, a);
    assert a * y == y * a && b * a == ab;
    assert a * y == Scale(ab, f);
    ScaleCompose(ab, f, e);
  }

  lemma {:induction false} ScalePow2(n: nat, k: nat)
    ensures Scale((n * Pow2(k)) as real, -(k as int)) == n as real
  {
    if k > 0 {
      ScalePow2(n, k - 1);
      var x := (n * Pow2(k - 1)) as real;
      assert n * Pow2(k) == 2 * (n * Pow2(k - 1));
      assert (n * Pow2(k)) as real == 2.0 * x;
      ScaleShift(x, -(k as int));
    }
  }

  /** A whole number of larger units is a whole number of smaller ones. */
  lemma {:induction false} WholeUnits(k: nat, j: nat, e: int) returns (n: nat)
    ensures Scale(k as real, j + e) == Scale(n as real, e)
    decreases j
  {
    if j == 0 {
      n := k;
    } else {
      ScaleShift(k as real, j - 1 + e);
      assert 2.0 * k as real == (2 * k) as real;
      n := WholeUnits(2 * k, j - 1, e);
    }
  }

  lemma ScaleNegate(a: real, e: int)
    ensures Scale(-a, e) == -Scale(a, e)
  {
    ScaleAdd(a, -a, e);
    ScaleZero(e);
  }

  lemma {:induction false} ScaleZero(e: int)
    ensures Scale(0.0, e) == 0.0
    decreases if e < 0 then -e else e
  {
    if e > 0 { ScaleZero(e - 1); } else if e < 0 { ScaleZero(e + 1); }
  }

  /** Biased exponent and integer significand of magnitude bits (section 3.4); a subnormal
      has the exponent of the lowest normal binade and no hidden bit. */
  function Binade(m: nat): (e: nat)
    ensures e >= 1
  {
    if m < HIDDEN_BIT then 1 else m / HIDDEN_BIT
  }

  function Significand(m: nat): nat { if m < HIDDEN_BIT then m else HIDDEN_BIT + m % HIDDEN_BIT }

  /** The value of the magnitude bits of a finite number.  At INF it is 2^128, the value
      the next binade would start with. */
  function Mag(m: nat): real { Scale(Significand(m) as real, Binade(m) - 150) }

  function Abs(x: real): (r: real)
    ensures r >= 0.0 && (r == x || r == -x)
  {
    if x < 0.0 then -x else x
  }

  /** The smallest normal number, 2^-126. */
  function MinNormal(): real { Mag(HIDDEN_BIT) }

  /** The magnitude from which rounding to nearest gives infinity (section 4.3.1),
      half a unit in the last place below 2^128: (2^24 - 1/2) * 2^104. */
  function OverflowThreshold(): real { Scale(16777215.5, MAX_ULP) }

  /** m is closer to x than n is, or as close and even. */
  ghost predicate Nearer(m: nat, n: nat, x: real) {
    var dm, dn := Abs(Mag(m) - x), Abs(Mag(n) - x);
    dm < dn || (dm == dn && m % 2 == 0)
  }

  /** The magnitude bits m are the rounding of x to nearest, ties to even (section 4.3.1):
      among all finite numbers m is nearest to x, and at equal distance m is the even one;
      from the overflow threshold on, m is infinity. */
  ghost predicate IsRne(m: nat, x: real) {
    if x >= OverflowThreshold() then m == INF
    else
      && m < INF
      && forall n: nat | n < INF && n != m :: Nearer(m, n, x)
  }

  predicate IsInfinite(v: nat) { v % SIGN_BIT == INF }

  predicate IsNan(v: nat) { v % SIGN_BIT == NAN }

  predicate IsFinite(v: nat) { v % SIGN_BIT < INF }

  /** The number a finite bit pattern stands for. */
  function Value(v: nat): real {
    if v < SIGN_BIT then Mag(v) else -Mag(v % SIGN_BIT)
  }

  /** The bit pattern r is the correctly rounded exact result x; a zero result has the
      sign bit asked for (section 6.3). */
  ghost predicate RoundsTo(r: nat, x: real, zeroSign: nat) {
    && r < 2 * SIGN_BIT
    && r / SIGN_BIT == (if x > 0.0 then 0 else if x < 0.0 then 1 else zeroSign)
    && IsRne(r % SIGN_BIT, Abs(x))
  }

  // ---------- the line of magnitudes ----------

  /** The significand q of binade e, as magnitude bits. */
  lemma MagAt(e: nat, q: nat)
    requires 1 <= e && q <= 2 * HIDDEN_BIT && (q >= HIDDEN_BIT || e == 1)
    ensures Mag((e - 1) * HIDDEN_BIT + q) == Scale(q as real, e - 150)
  {
    var m := (e - 1) * HIDDEN_BIT + q;
    if q == 2 * HIDDEN_BIT {
      assert Binade(m) == e + 1 && Significand(m) == HIDDEN_BIT;
      ScaleShift(HIDDEN_BIT as real, e - 150);
      assert 2.0 * HIDDEN_BIT as real == q as real;
    } else {
      assert Binade(m) == e && Significand(m) == q;
    }
  }

  lemma BinadeSplit(m: nat)
    ensures m == (Binade(m) - 1) * HIDDEN_BIT + Significand(m)
    ensures Significand(m) < 2 * HIDDEN_BIT && (Significand(m) >= HIDDEN_BIT || Binade(m) == 1)
  {
  }

  /** Neighbouring magnitudes differ by one unit in the last place. */
  lemma MagStep(m: nat)
    ensures Mag(m + 1) == Mag(m) + Scale(1.0, Binade(m) - 150) > Mag(m)
  {
    hide Mag, Scale, Binade, Significand;
    var e, q := Binade(m), Significand(m);
    BinadeSplit(m);
    assert m + 1 == (e - 1) * HIDDEN_BIT + (q + 1);
    MagAt(e, q);
    MagAt(e, q + 1);
    ScaleAdd(q as real, 1.0, e - 150);
    assert (q + 1) as real == q as real + 1.0;
    ScaleMono(q as real, (q + 1) as real, e - 150);
  }

  lemma {:induction false} MagMono(m: nat, n: nat)
    requires m < n
    ensures Mag(m) < Mag(n)
    decreases n - m
  {
    MagStep(n - 1);
    if m < n - 1 { MagMono(m, n - 1); }
  }

  /** Halfway between m and its successor. */
  function Mid(m: nat): real { (Mag(m) + Mag(m + 1)) / 2.0 }

  /** Rounding to nearest seen from m alone: x lies between the two halfway points around m,
      and may sit on one of them only when m is even. */
  ghost predicate Between(m: nat, x: real) {
    && m <= INF
    && (m < INF ==> x < Mid(m) || (x == Mid(m) && m % 2 == 0))
    && (m > 0 ==> Mid(m - 1) < x || (Mid(m - 1) == x && m % 2 == 0))
  }

  lemma LastMags()
    ensures Mag(INF - 1) == Scale(16777215.0, MAX_ULP) && Mag(INF) == Scale(16777216.0, MAX_ULP)
  {
    hide Mag, Scale;
    MagAt(254, 2 * HIDDEN_BIT - 1);
    MagAt(254, 2 * HIDDEN_BIT);
  }

  lemma OverflowIsMid()
    ensures Mid(INF - 1) == OverflowThreshold()
  {
    hide Scale, Mag;
    LastMags();
    ScaleAdd(16777215.5, 16777215.5, MAX_ULP);
    ScaleAdd(16777215.0, 16777216.0, MAX_ULP);
  }

  lemma BetweenIsNearer(m: nat, n: nat, x: real)
    requires Between(m, x) && m < INF && n != m
    ensures Nearer(m, n, x)
  {
    if n < m {
      MagMono(n, m);
      if n < m - 1 { MagMono(n, m - 1); }
    } else {
      MagMono(m, n);
      if m + 1 < n { MagMono(m + 1, n); }
    }
  }

  lemma BetweenBelowOverflow(m: nat, x: real)
    requires m <= INF
    ensures Between(m, x) ==> (x >= OverflowThreshold() <==> m == INF)
    ensures x >= OverflowThreshold() ==> Between(INF, x)
  {
    OverflowIsMid();
    if m < INF - 1 {
      MagMono(m, INF - 1);
      MagMono(m + 1, INF);
    }
  }

  /** The whole-line definition and the local one agree. */
  lemma BetweenIsRne(m: nat, x: real)
    ensures Between(m, x) <==> IsRne(m, x)
  {
    if Between(m, x) {
      BetweenBelowOverflow(m, x);
      forall n: nat | m < INF && n < INF && n != m ensures Nearer(m, n, x) { BetweenIsNearer(m, n, x); }
    }
    if IsRne(m, x) {
      RneIsBetween(m, x);
    }
  }

  lemma RneIsBetween(m: nat, x: real)
    requires IsRne(m, x)
    ensures Between(m, x)
  {
    hide Mag, OverflowThreshold;
    BetweenBelowOverflow(m, x);
    OverflowIsMid();
    if x < OverflowThreshold() {
      if m > 0 {
        MagMono(m - 1, m);
        NearerThanBelow(m, x);
      }
      if m + 1 < INF {
        MagMono(m, m + 1);
        NearerThanAbove(m, x);
      }
    }
  }

  lemma NearerThanBelow(m: nat, x: real)
    requires m > 0 && Mag(m - 1) < Mag(m) && Nearer(m, m - 1, x)
    ensures Mid(m - 1) < x || (Mid(m - 1) == x && m % 2 == 0)
  {
    hide Mag;
  }

  lemma NearerThanAbove(m: nat, x: real)
    requires Mag(m) < Mag(m + 1) && Nearer(m, m + 1, x)
    ensures x < Mid(m) || (x == Mid(m) && m % 2 == 0)
  {
    hide Mag;
  }

  lemma BetweenUnique(m: nat, n: nat, x: real)
    requires Between(m, x) && Between(n, x)
    ensures m == n
  {
    if m < n { BetweenOrder(m, n, x); } else if n < m { BetweenOrder(n, m, x); }
  }

  lemma {:induction false} BetweenOrder(m: nat, n: nat, x: real)
    requires m < n && Between(m, x)
    ensures !Between(n, x)
  {
    hide Mag;
    if m < n - 1 {
      MagMono(m, n - 1);
      MagMono(m + 1, n);
    }
  }

  lemma RneUnique(m: nat, n: nat, x: real)
    requires IsRne(m, x) && IsRne(n, x)
    ensures m == n
  {
    BetweenIsRne(m, x);
    BetweenIsRne(n, x);
    BetweenUnique(m, n, x);
  }

  lemma MagNonNegative(m: nat)
    ensures Mag(m) >= 0.0 && (Mag(m) == 0.0 <==> m == 0)
  {
    ScaleZero(1 - 150);
    if m > 0 { MagMono(0, m); }
  }

  /** A number that is representable rounds to itself. */
  lemma RneExact(m: nat)
    requires m < INF
    ensures IsRne(m, Mag(m))
  {
    hide Mag, IsRne;
    if m > 0 { MagMono(m - 1, m); }
    MagMono(m, m + 1);
    BetweenIsRne(m, Mag(m));
  }

  /** A number halfway between two neighbours rounds to the even one. */
  lemma MidRoundsToEven(m: nat)
    requires m + 1 < INF
    ensures IsRne(if m % 2 == 0 then m else m + 1, Mid(m))
  {
    hide Mid, IsRne;
    MidMono(m);
    if m > 0 { MidMono(m - 1); }
    BetweenIsRne(if m % 2 == 0 then m else m + 1, Mid(m));
  }

  lemma MidMono(m: nat)
    ensures Mid(m) < Mid(m + 1)
  {
    hide Mag;
    MagMono(m, m + 1);
    MagMono(m + 1, m + 2);
  }

  /** There is at most one correctly rounded result. */
  lemma RoundsToUnique(r: nat, s: nat, x: real, zeroSign: nat)
    requires RoundsTo(r, x, zeroSign) && RoundsTo(s, x, zeroSign)
    ensures r == s
  {
    RneUnique(r % SIGN_BIT, s % SIGN_BIT, Abs(x));
  }

  /** Every finite number is the rounding of its own value. */
  lemma RoundsToSelf(v: nat)
    requires v < 2 * SIGN_BIT && IsFinite(v)
    ensures RoundsTo(v, Value(v), v / SIGN_BIT)
    ensures Value(v) == 0.0 <==> v % SIGN_BIT == 0
    ensures Abs(Value(v)) == Mag(v % SIGN_BIT)
  {
    RneExact(v % SIGN_BIT);
    MagNonNegative(v % SIGN_BIT);
  }
}
