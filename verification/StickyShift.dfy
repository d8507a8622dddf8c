/** Why guard, round and sticky bits are enough (nemu/src/cpu/fpu.c): rounding after a sticky shift
    is rounding the exact number, in whole-number arithmetic. */
module StickyShift {
  import opened MachineInts
  import opened Basics
  import opened Normalize

  /** n / d to the nearest whole number, ties to even. */
  function RneDiv(n: nat, d: nat): nat
    requires d > 0
  {
    if 2 * (n % d) > d || (2 * (n % d) == d && n / d % 2 == 1) then n / d + 1 else n / d
  }

  /** The bit pattern u, with its last bit set if anything was lost below it. */
  function Jam(u: nat, lost: bool): nat { if lost then OrBit(u, 1) else u }

  /** k sticky shifts keep the quotient and remember whether there was a remainder. */
  lemma {:induction false} JamShiftIs(s: nat, k: nat, q: nat, r: nat)
    requires s == q * Pow2(k) + r && r < Pow2(k)
    ensures JamShift(s, k) == Jam(q, r != 0)
  {
    if k == 0 {
      assert s == q;
    } else {
      var p := Pow2(k - 1);
      hide Pow2, JamStep;
      var half := if r < p then 0 else 1;
      assert q * (2 * p) == 2 * q * p;
      assert (2 * q + half) * p == 2 * q * p + half * p;
      JamShiftIs(s, k - 1, 2 * q + half, r - half * p);
      JamStepIs(q, half, r - half * p != 0);
    }
  }

  lemma JamStepIs(q: nat, half: nat, lost: bool)
    requires half < 2
    ensures JamStep(Jam(2 * q + half, lost)) == Jam(q, half == 1 || lost)
  {
  }

  /** Rounding u units and a part of a unit away to eighths is rounding off the jammed u. */
  lemma JamRounds(u: nat, r: nat, d: nat)
    requires r < d
    ensures RneDiv(u * d + r, 8 * d) == RoundOff(Jam(u, r != 0))
  {
    var a, b := u / 8, u % 8;
    var rest := b * d + r;
    assert u * d + r == a * (8 * d) + rest by {
      assert u == 8 * a + b;
      assert u * d == a * (8 * d) + b * d;
    }
    EighthsOrder(b, d);
    ModUnique(u * d + r, 8 * d, a, rest);
    JamLow(u);
  }

  lemma EighthsOrder(b: nat, d: nat)
    requires b < 8
    ensures b * d <= 7 * d && (b <= 3 ==> b * d <= 3 * d) && (b == 4 ==> b * d == 4 * d) && (b > 4 ==> b * d >= 5 * d)
  {
    TimesOrder(b, 7, d);
    TimesOrder(b, 3, d);
    TimesOrder(5, b, d);
  }

  lemma JamLow(u: nat)
    ensures OrBit(u, 1) / 8 == u / 8 && OrBit(u, 1) % 8 == (if u % 8 % 2 == 0 then u % 8 + 1 else u % 8)
  {
    assert u % 2 == u % 8 % 2;
  }

  /** Aligning s by k places before adding it to t, or before subtracting it from t, never changes
      the rounded sum or difference; t has at least one zero bit below its last. */
  lemma StickyShiftIsNeutral(s: nat, t: nat, k: nat)
    requires t % 2 == 0
    ensures RneDiv(t * Pow2(k) + s, 8 * Pow2(k)) == RoundOff(t + JamShift(s, k))
    ensures s <= t * Pow2(k) ==>
              JamShift(s, k) <= t && RneDiv(t * Pow2(k) - s, 8 * Pow2(k)) == RoundOff(t - JamShift(s, k))
  {
    hide Pow2, JamShift, RneDiv, RoundOff, Jam;
    var d := Pow2(k);
    var q, r := s / d, s % d;
    assert s == q * d + r;
    JamShiftIs(s, k, q, r);
    NeutralSum(s, t, d, q, r);
    if s <= t * d { NeutralDifference(s, t, d, q, r); }
  }

  lemma NeutralSum(s: nat, t: nat, d: nat, q: nat, r: nat)
    requires t % 2 == 0 && s == q * d + r && r < d
    ensures RneDiv(t * d + s, 8 * d) == RoundOff(t + Jam(q, r != 0))
  {
    hide RneDiv, RoundOff;
    assert (t + q) * d == t * d + q * d;
    JamRounds(t + q, r, d);
    assert (t + q) % 2 == q % 2 by { Parities(t, q); }
  }

  lemma NeutralDifference(s: nat, t: nat, d: nat, q: nat, r: nat)
    requires t % 2 == 0 && s == q * d + r && r < d && s <= t * d
    ensures Jam(q, r != 0) <= t && RneDiv(t * d - s, 8 * d) == RoundOff(t - Jam(q, r != 0))
  {
    hide RneDiv, RoundOff;
    if q >= t {
      assert (q - t) * d == q * d - t * d;
      SmallMultiple(q - t, d);
      assert q == t && r == 0;
    }
    assert (t - q) * d == t * d - q * d;
    if r == 0 {
      JamRounds(t - q, 0, d);
    } else {
      assert (t - q - 1) * d == (t - q) * d - d;
      JamRounds(t - q - 1, d - r, d);
      Parities(t - q - 1, q + 1);
    }
  }

  lemma Parities(a: nat, b: nat)
    ensures (a + b) % 2 == (a % 2 + b % 2) % 2
  {
  }
}
