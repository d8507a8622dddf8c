/** Normalisation, rounding and packing of a significand that carries guard, round and
    sticky bits (nemu/src/cpu/fpu.c, internal_normalize). */
module Normalize {
  import opened Ieee754
  import opened MachineInts
  import opened Basics

  // The significand of a normalised number, with three extra bits, starts here.
  const TOP: nat := 0x400_0000

  /** v measured in units of the last sticky bit at biased exponent e. */
  function InUnits(v: real, e: int): real { Scale(v, 153 - e) }

  /** The sticky reading of s: even means exactly s, odd means strictly between its neighbours. */
  predicate Jammed(s: nat, x: real) {
    if s % 2 == 0 then x == s as real else s as real - 1.0 < x < s as real + 1.0
  }

  /** What rounding away three bits needs: no multiple of four separates s from x. */
  predicate Decides(s: nat, x: real) {
    var low := s as real - (s % 4) as real;
    if s % 4 == 0 then x == low else low < x < low + 4.0
  }

  /** s |= b, for a single bit b. */
  function OrBit(s: nat, b: nat): nat { if b == 1 && s % 2 == 0 then s + 1 else s }

  /** A one-place shift that ors the lost bit back in. */
  function JamStep(s: nat): nat { OrBit(s / 2, s % 2) }

  /** Sticky shifting is neutral: whatever s stood for, the shifted value stands for half of it. */
  lemma JamStepJams(s: nat, x: real)
    requires Jammed(s, x)
    ensures Jammed(JamStep(s), x / 2.0)
  {
  }

  /** k one-place sticky shifts. */
  function JamShift(s: nat, k: nat): nat { if k == 0 then s else JamStep(JamShift(s, k - 1)) }

  lemma JammedDecides(s: nat, x: real)
    requires Jammed(s, x)
    ensures Decides(s, x)
  {
    LastBit(s);
    Inside(s as real, s % 4, x);
  }

  lemma LastBit(s: nat)
    ensures s % 2 == 0 <==> s % 4 == 0 || s % 4 == 2
  {
    var k, r := s / 4, s % 4;
    assert s == 4 * k + r;
    if r < 2 { ModUnique(s, 2, 2 * k, r); } else { ModUnique(s, 2, 2 * k + 1, r - 2); }
  }

  lemma Inside(y: real, r: nat, x: real)
    requires r < 4 && if r == 0 || r == 2 then x == y else y - 1.0 < x < y + 1.0
    ensures var low := y - r as real; if r == 0 then x == low else low < x < low + 4.0
  {
  }

  /** Nearest multiple of eight, ties to an even multiple, divided by eight. */
  function RoundOff(s: nat): nat {
    if s % 8 > 4 || (s % 8 == 4 && s / 8 % 2 == 1) then s / 8 + 1 else s / 8
  }

  /** Rounding the low three bits of s rounds v itself. */
  lemma RoundOffIsRne(e: nat, s: nat, v: real)
    requires 1 <= e < 0xff && s < 2 * TOP && (s >= TOP || e == 1)
    requires Decides(s, InUnits(v, e))
    ensures Between((e - 1) * HIDDEN_BIT + RoundOff(s), v)
  {
    var q, x := RoundOff(s), InUnits(v, e);
    var m := (e - 1) * HIDDEN_BIT + q;
    RoundOffBound(e, s);
    hide InUnits, Mid, Decides, RoundOff;
    RoundOffIsNear(s, x);
    DecidesBounds(s, x);
    SameParity(e - 1, q);
    BelowMid(e, q, v);
    if m > 0 { AboveMid(e, q, v); }
  }

  lemma SameParity(k: nat, q: nat)
    ensures (k * HIDDEN_BIT + q) % 2 == q % 2
  {
  }

  lemma BelowMid(e: nat, q: nat, v: real)
    requires 1 <= e && q <= 2 * HIDDEN_BIT && (q >= HIDDEN_BIT || e == 1)
    ensures var x, y, m := InUnits(v, e), 8.0 * q as real, (e - 1) * HIDDEN_BIT + q;
            (x < y + 4.0 ==> v < Mid(m)) && (x == y + 4.0 ==> v <= Mid(m))
  {
    hide InUnits, Mid;
    var m := (e - 1) * HIDDEN_BIT + q;
    MidInUnits(e, q);
    UnitsMono(v, Mid(m), e);
    UnitsMono(Mid(m), v, e);
  }

  lemma AboveMid(e: nat, q: nat, v: real)
    requires 1 <= e && q <= 2 * HIDDEN_BIT && (q >= HIDDEN_BIT || e == 1) && (e - 1) * HIDDEN_BIT + q > 0
    requires q == HIDDEN_BIT && e > 1 ==> InUnits(v, e) >= TOP as real
    ensures var x, y, m := InUnits(v, e), 8.0 * q as real, (e - 1) * HIDDEN_BIT + q;
            (y - 4.0 < x ==> Mid(m - 1) < v) && (y - 4.0 == x ==> Mid(m - 1) <= v)
  {
    hide InUnits, Mid;
    var m := (e - 1) * HIDDEN_BIT + q;
    LowerMidInUnits(e, q);
    UnitsMono(v, Mid(m - 1), e);
    UnitsMono(Mid(m - 1), v, e);
  }

  lemma RoundOffBound(e: nat, s: nat)
    requires s < 2 * TOP && (s >= TOP || e == 1)
    ensures RoundOff(s) <= 2 * HIDDEN_BIT && (RoundOff(s) >= HIDDEN_BIT || e == 1)
  {
  }

  lemma UnitsMono(a: real, b: real, e: int)
    ensures a < b <==> InUnits(a, e) < InUnits(b, e)
  {
    ScaleMono(a, b, 153 - e);
  }

  lemma UnitsAdd(x: real, y: real, e: int)
    ensures InUnits(x + y, e) == InUnits(x, e) + InUnits(y, e)
  {
    ScaleAdd(x, y, 153 - e);
  }

  /** s without its last two bits, by its last three. */
  lemma LowFour(s: nat)
    ensures var k, r := s / 8, s % 8;
      && s % 4 == (if r < 4 then r else r - 4)
      && s as real - (s % 4) as real == 8.0 * k as real + (if r < 4 then 0.0 else 4.0)
  {
    var k, r := s / 8, s % 8;
    assert s == 8 * k + r;
    assert s as real == 8.0 * k as real + r as real;
  }

  /** The rounded-off significand is within half of s's last three bits. */
  lemma RoundOffIsNear(s: nat, x: real)
    requires Decides(s, x)
    ensures var y := 8.0 * RoundOff(s) as real;
      && (y - 4.0 < x || (y - 4.0 == x && RoundOff(s) % 2 == 0))
      && (x < y + 4.0 || (x == y + 4.0 && RoundOff(s) % 2 == 0))
    ensures s % 8 == 0 ==> x == 8.0 * RoundOff(s) as real
  {
    LowFour(s);
    var k, r, q := s / 8, s % 8, RoundOff(s);
    assert q == k ==> q as real == k as real;
    assert q == k + 1 ==> q as real == k as real + 1.0;
  }

  lemma DecidesBounds(s: nat, x: real)
    requires Decides(s, x)
    ensures s as real - 4.0 < x < s as real + 4.0
    ensures s >= TOP ==> x >= TOP as real
    ensures s < TOP ==> x < TOP as real
    ensures s < 2 * TOP ==> x < (2 * TOP) as real
  {
    var k, r := s / 4, s % 4;
    assert s == 4 * k + r && k as real * 4.0 == s as real - r as real;
    assert s >= TOP <==> k >= TOP / 4;
    assert s < 2 * TOP <==> k < TOP / 2;
    assert k >= TOP / 4 ==> k as real >= (TOP / 4) as real;
    assert k < TOP / 4 ==> k as real <= (TOP / 4) as real - 1.0;
    assert k < TOP / 2 ==> k as real <= (TOP / 2) as real - 1.0;
  }

  lemma MagInUnits(e: nat, q: nat)
    requires 1 <= e && q <= 2 * HIDDEN_BIT && (q >= HIDDEN_BIT || e == 1)
    ensures InUnits(Mag((e - 1) * HIDDEN_BIT + q), e) == (8 * q) as real
  {
    MagAt(e, q);
    ScaleCompose(q as real, e - 150, 153 - e);
  }

  lemma MidIsHalfway(m: nat, e: nat)
    ensures 2.0 * InUnits(Mid(m), e) == InUnits(Mag(m), e) + InUnits(Mag(m + 1), e)
  {
    UnitsAdd(Mag(m), Mag(m + 1), e);
    UnitsAdd(Mid(m), Mid(m), e);
  }

  lemma MidInUnits(e: nat, q: nat)
    requires 1 <= e && q <= 2 * HIDDEN_BIT && (q >= HIDDEN_BIT || e == 1)
    ensures var x := InUnits(Mid((e - 1) * HIDDEN_BIT + q), e);
      x == (8 * q + (if q == 2 * HIDDEN_BIT then 8 else 4)) as real
  {
    var m := (e - 1) * HIDDEN_BIT + q;
    MidIsHalfway(m, e);
    MagInUnits(e, q);
    if q < 2 * HIDDEN_BIT {
      MagInUnits(e, q + 1);
    } else {
      assert m + 1 == e * HIDDEN_BIT + (HIDDEN_BIT + 1);
      MagAt(e + 1, HIDDEN_BIT + 1);
      ScaleCompose((HIDDEN_BIT + 1) as real, e + 1 - 150, 153 - e);
      ScaleStep((HIDDEN_BIT + 1) as real, 3);
    }
  }

  lemma LowerMidInUnits(e: nat, q: nat)
    requires 1 <= e && q <= 2 * HIDDEN_BIT && (q >= HIDDEN_BIT || e == 1)
    requires (e - 1) * HIDDEN_BIT + q > 0
    ensures var x := InUnits(Mid((e - 1) * HIDDEN_BIT + q - 1), e);
      x == (8 * q - (if q == HIDDEN_BIT && e > 1 then 2 else 4)) as real
  {
    var m := (e - 1) * HIDDEN_BIT + q - 1;
    MidIsHalfway(m, e);
    MagInUnits(e, q);
    if q > HIDDEN_BIT || e == 1 {
      MagInUnits(e, q - 1);
    } else {
      assert m == (e - 2) * HIDDEN_BIT + (2 * HIDDEN_BIT - 1);
      MagAt(e - 1, 2 * HIDDEN_BIT - 1);
      ScaleCompose((2 * HIDDEN_BIT - 1) as real, e - 1 - 150, 153 - e);
    }
  }

  /** Biased exponent that internal_normalize works with: an exponent field of zero beside a
      significand below 2^27 is taken for the scale of the subnormals, 2^-126. */
  function EffectiveExponent(exp: int, sig: nat): int { if exp == 0 && sig < 2 * TOP then 1 else exp }

  /** sig stands for v: exactly, or with a sticky bit and no more than one leading zero. */
  ghost predicate StandsFor(exp: int, sig: nat, v: real) {
    var x := InUnits(v, EffectiveExponent(exp, sig));
    x == sig as real || (Jammed(sig, x) && sig >= TOP / 2)
  }

  /** The numbers just below 2^-126 that round up to it. */
  ghost predicate CarryLost(v: real) { Mid(HIDDEN_BIT - 1) <= v < MinNormal() }

  /** Magnitude bits ready for rounding: s holds enough of v at exponent e. */
  ghost predicate Normalized(e: int, s: nat, v: real) {
    && 0 <= e < 0xff && s < 2 * TOP
    && (if e == 0 then s < TOP else s >= TOP)
    && Decides(s, InUnits(v, if e == 0 then 1 else e))
  }

  /** The second pass after a rounding carry. */
  predicate Carried(exp: int, sig: nat) { exp >= 1 && 2 * TOP <= sig < 2 * TOP + 8 }

  lemma RightStep(exp: int, sig: nat, sticky: nat, v: real)
    requires Jammed(sig, InUnits(v, exp)) && StickySeen(sticky, sig)
    ensures var t := OrBit(sticky, sig % 2); var s := OrBit(sig / 2, t);
      && s == JamStep(sig) && Jammed(s, InUnits(v, exp + 1)) && StickySeen(t, s)
      && (sig < 2 * TOP ==> s < TOP) && (sig >= 2 * TOP ==> s >= TOP)
      && (Carried(1, sig) ==> s < TOP + 4)
  {
    JamStepJams(sig, InUnits(v, exp));
    ScaleStep(v, 153 - exp - 1);
    assert OrBit(sig / 2, OrBit(sticky, sig % 2)) == JamStep(sig);
  }

  /** The sticky variable never says more than the low bit already does. */
  predicate StickySeen(sticky: nat, sig: nat) { sticky < 2 && (sticky == 1 ==> sig % 2 == 1) }

  method NormalizeRight(exp0: int32, sig0: uint64, ghost v: real) returns (exp: int32, sig: uint64, overflow: bool)
    requires sig0 / TOP > 1 || exp0 < 0
    requires Jammed(sig0, InUnits(v, exp0))
    ensures overflow ==> sig == 0 && (exp == 0xff || exp == 0)
    ensures overflow && exp == 0xff ==> v >= OverflowThreshold()
    ensures overflow && exp == 0 ==> v < Mid(0)
    ensures !overflow ==> Normalized(exp, sig, v)
    ensures Carried(exp0, sig0) ==> if overflow then exp == 0xff && exp0 >= 0xfe else exp == exp0 + 1 && sig < TOP + 4
  {
    exp, sig, overflow := exp0, sig0, false;
    var sticky := 0;
    while (sig / TOP > 1 && exp < 0xff) || (sig > 4 && exp < 0)
      invariant Jammed(sig, InUnits(v, exp))
      invariant StickySeen(sticky, sig)
      invariant exp0 <= exp && (exp > 0xff ==> exp == exp0) && (exp > 0 ==> sig >= TOP)
      invariant Carried(exp0, sig0) ==> (exp, sig) == (exp0, sig0) || (exp == exp0 + 1 && sig < TOP + 4)
      decreases 0x100 - exp
    {
      RightStep(exp, sig, sticky, v);
      sticky := OrBit(sticky, sig % 2);
      sig := OrBit(sig / 2, sticky);
      exp := exp + 1;
    }
    if exp >= 0xff {
      HugeOverflows(exp, sig, v);
      exp := 0xff;
      sig := 0;
      overflow := true;
    }
    if exp == 0 {
      RightStep(exp, sig, sticky, v);
      sticky := OrBit(sticky, sig % 2);
      sig := OrBit(sig / 2, sticky);
      JammedDecides(sig, InUnits(v, 1));
    } else if !overflow {
      JammedDecides(sig, InUnits(v, exp));
    }
    if exp < 0 {
      TinyVanishes(exp, sig, v);
      exp := 0;
      sig := 0;
      overflow := true;
    }
  }

  lemma HugeOverflows(exp: int, sig: nat, v: real)
    requires exp >= 0xff && sig >= TOP && Jammed(sig, InUnits(v, exp))
    ensures v >= OverflowThreshold()
  {
    JammedDecides(sig, InUnits(v, exp));
    DecidesBounds(sig, InUnits(v, exp));
    UnitsShrink(v, 0xff, exp);
    MagInUnits(0xff, HIDDEN_BIT);
    assert InUnits(Mag(INF), 0xff) == TOP as real;
    ScaleMono(v, Mag(INF), 153 - 0xff);
    OverflowIsMid();
    MagMono(INF - 1, INF);
  }

  /** A larger exponent has larger units. */
  lemma {:induction false} UnitsShrink(v: real, e: int, f: int)
    requires e <= f && InUnits(v, f) >= 0.0
    ensures InUnits(v, e) >= InUnits(v, f)
    decreases f - e
  {
    if e < f {
      ScaleStep(v, 153 - f);
      UnitsShrink(v, e, f - 1);
    }
  }

  lemma TinyVanishes(exp: int, sig: nat, v: real)
    requires exp < 0 && sig <= 4 && Jammed(sig, InUnits(v, exp))
    ensures v < Mid(0)
  {
    hide Scale, Mid;
    MidInUnits(1, 0);
    assert InUnits(v, exp) <= 4.0;
    if InUnits(v, 1) >= 4.0 {
      UnitsShrink(v, -1, 1);
      UnitsShrink(v, exp, -1);
      ScaleStep(v, 153 - 1);
      ScaleStep(v, 153);
    }
    ScaleMono(v, Mid(0), 153 - 1);
  }

  lemma LeftStep(exp: int, sig: nat, v: real)
    ensures InUnits(v, exp - 1) == 2.0 * InUnits(v, exp)
    ensures InUnits(v, exp) == sig as real ==> InUnits(v, exp - 1) == (2 * sig) as real
    ensures Jammed(sig, InUnits(v, exp)) ==> Decides(2 * sig, InUnits(v, exp - 1))
  {
  }

  lemma ExactDecides(s: nat)
    ensures Decides(s, s as real) && Jammed(s, s as real)
  {
  }

  method NormalizeLeft(exp0: int32, sig0: uint64, ghost v: real) returns (exp: int32, sig: uint64)
    requires sig0 / TOP == 0 && exp0 > 0 && StandsFor(exp0, sig0, v)
    ensures sig < 2 * TOP && 0 <= exp <= exp0 && (if exp == 0 then sig < TOP else sig >= TOP)
    ensures exp0 < 0xff ==> Normalized(exp, sig, v)
  {
    exp, sig := exp0, sig0;
    LeftStart(exp0, sig0, v);
    hide StandsFor, LeftState, Decides, InUnits;
    while sig / TOP == 0 && exp > 0
      invariant 0 <= exp <= exp0 && sig < 2 * TOP && (exp == exp0 ==> sig == sig0)
      invariant LeftState(exp0, sig0, exp, sig, v)
    {
      LeftStateStep(exp0, sig0, exp, sig, v);
      sig := sig * 2;
      exp := exp - 1;
    }
    LeftDecides(exp0, sig0, exp, sig, v);
    var sticky := 0;
    if exp == 0 {
      sticky := OrBit(sticky, sig % 2);
      sig := OrBit(sig / 2, sticky);
    }
  }

  /** The left loop's significand stands for v exactly, or is the first or second one. */
  ghost predicate LeftState(exp0: int, sig0: nat, exp: int, sig: nat, v: real) {
    && exp <= exp0
    && (if exp == exp0 then sig == sig0 else sig % 2 == 0)
    && (|| InUnits(v, exp) == sig as real
        || (Jammed(sig0, InUnits(v, exp0)) && sig0 >= TOP / 2 && exp >= exp0 - 1 && (exp < exp0 ==> sig == 2 * sig0)))
  }

  lemma LeftStart(exp0: int, sig0: nat, v: real)
    requires exp0 > 0 && StandsFor(exp0, sig0, v)
    ensures LeftState(exp0, sig0, exp0, sig0, v)
  {
    hide InUnits, Jammed;
  }

  lemma LeftStateStep(exp0: int, sig0: nat, exp: int, sig: nat, v: real)
    requires LeftState(exp0, sig0, exp, sig, v) && sig < TOP
    ensures LeftState(exp0, sig0, exp - 1, 2 * sig, v)
  {
    hide InUnits, Jammed, Decides;
    LeftStep(exp, sig, v);
  }

  /** What the left loop ends with is still enough to round by, also after the extra shift
      for a subnormal. */
  lemma LeftDecides(exp0: int, sig0: nat, exp: int, sig: nat, v: real)
    requires 0 <= exp < exp0 && LeftState(exp0, sig0, exp, sig, v)
    ensures sig % 2 == 0
    ensures Decides(sig, InUnits(v, exp))
    ensures exp == 0 ==> Decides(sig / 2, InUnits(v, 1))
  {
    hide InUnits, Jammed, Decides;
    if InUnits(v, exp) == sig as real {
      ExactDecides(sig);
      ExactDecides(sig / 2);
      LeftStep(exp + 1, sig / 2, v);
      assert sig as real == 2.0 * (sig / 2) as real;
    } else {
      LeftStep(exp0, sig0, v);
      JammedDecides(sig0, InUnits(v, exp0));
    }
  }

  /** Exponents and significands that normalisation brings into range: a significand without
      surplus leading bits needs a finite exponent. */
  predicate Normalizable(exp: int, sig: nat) { sig < 2 * TOP ==> exp < 0xff }

  /** The magnitude that rounding s at exponent exp gives is the rounded v, except that a
      subnormal's carry into the hidden bit is the case CarryLost. */
  ghost predicate Rounds(exp: nat, s: nat, v: real) {
    && (exp >= 1 ==> IsRne((exp - 1) * HIDDEN_BIT + RoundOff(s), v) && !CarryLost(v))
    && (exp == 0 ==> IsRne(RoundOff(s), v) && (CarryLost(v) <==> RoundOff(s) == HIDDEN_BIT))
    && (CarryLost(v) ==> !IsRne(0, v))
  }

  /** Lines 12-79: bring the leading bit to its place, or settle for zero or infinity. */
  method BringIntoRange(exp0: int32, sig0: uint64, ghost v: real) returns (exp: int32, sig: uint64, overflow: bool)
    requires StandsFor(exp0, sig0, v)
    ensures overflow ==> sig == 0 && 0 <= exp <= 0xff
    ensures overflow ==> PackedAs(exp * HIDDEN_BIT, v)
    ensures !overflow ==> 0 <= exp && sig < 2 * TOP && (if exp == 0 then sig < TOP else sig >= TOP)
    ensures !overflow && Normalizable(exp0, sig0) ==> exp < 0xff && Rounds(exp, sig, v)
    ensures Carried(exp0, sig0) ==> if overflow then exp == 0xff && exp0 >= 0xfe else exp == exp0 + 1 && sig < TOP + 4
  {
    StandsForDecides(exp0, sig0, v);
    exp, sig, overflow := exp0, sig0, false;
    if sig / TOP > 1 || exp < 0 {
      exp, sig, overflow := NormalizeRight(exp, sig, v);
      if overflow { OverflowResult(exp, v); }
    } else if sig / TOP == 0 && exp > 0 {
      exp, sig := NormalizeLeft(exp, sig, v);
    } else if exp == 0 && sig / TOP == 1 {
      exp := exp + 1;
    }
    if !overflow && Normalizable(exp0, sig0) { RoundedResult(exp, sig, v); }
  }

  lemma UnitsOfScale(sig: nat, e: int)
    ensures InUnits(Scale(sig as real, e - 153), e) == sig as real
  {
    ScaleCompose(sig as real, e - 153, 153 - e);
  }

  lemma CarriedValue(exp: int, sig: nat) returns (w: real)
    requires sig >= 2 * TOP
    ensures StandsFor(exp, sig, w)
  {
    w := Scale(sig as real, exp - 153);
    UnitsOfScale(sig, exp);
  }

  /** Line 10: normalise, round to nearest even, pack.  With v the exact magnitude that the
      significand and exponent stand for, the result carries the correctly rounded v, with one
      family of exceptions: a v that rounds up to 2^-126 from below comes out as zero. */
  method InternalNormalize(sign: nat, exp0: int32, sig0: uint64, ghost v: real) returns (r: uint32)
    requires sign < 2
    requires StandsFor(exp0, sig0, v)
    ensures r / SIGN_BIT == sign
    ensures Normalizable(exp0, sig0) ==> PackedAs(r % SIGN_BIT, v)
    ensures Carried(exp0, sig0) && exp0 < 0xff ==> r % SIGN_BIT == (exp0 + 1) * HIDDEN_BIT
    decreases if Carried(exp0, sig0) then 0 else 1
  {
    hide PackedAs, Rounds, StandsFor;
    var exp, sig, overflow := BringIntoRange(exp0, sig0, v);
    if !overflow {
      if Normalizable(exp0, sig0) { Packed(exp, sig, v); }
      sig := RoundUp(sig);
      if sig / TOP > 1 || exp < 0 {
        ghost var w := CarriedValue(exp, sig);
        r := InternalNormalize(sign, exp, sig, w);
        return;
      } else {
        sig := sig / 8;
        sig := sig % HIDDEN_BIT;
      }
    }
    r := Pack(sign, exp % 0x100, sig);
  }

  /** Dropping the hidden bit, or carrying into the exponent, is what adding to the magnitude does. */
  lemma Packed(exp: nat, s: nat, v: real)
    requires exp < 0xff && s < 2 * TOP && (if exp == 0 then s < TOP else s >= TOP) && Rounds(exp, s, v)
    ensures RoundOff(s) < 2 * HIDDEN_BIT ==> PackedAs(exp * HIDDEN_BIT + RoundOff(s) % HIDDEN_BIT, v)
    ensures RoundOff(s) >= 2 * HIDDEN_BIT ==> PackedAs((exp + 1) * HIDDEN_BIT, v)
  {
    hide IsRne, CarryLost;
    var q := RoundOff(s);
    if exp >= 1 {
      if q < 2 * HIDDEN_BIT {
        assert exp * HIDDEN_BIT + q % HIDDEN_BIT == (exp - 1) * HIDDEN_BIT + q;
      } else {
        assert q == 2 * HIDDEN_BIT;
        assert (exp + 1) * HIDDEN_BIT == (exp - 1) * HIDDEN_BIT + q;
      }
    } else if q < HIDDEN_BIT {
      assert q % HIDDEN_BIT == q;
    }
  }

  /** The contract of a result with magnitude m for the exact magnitude v. */
  ghost predicate PackedAs(m: nat, v: real) {
    && (IsRne(m, v) <==> !CarryLost(v))
    && (CarryLost(v) ==> m == 0)
  }

  /** The bits of the FLOAT union. */
  function Pack(sign: nat, exponent: nat, fraction: nat): (r: uint32)
    requires sign < 2 && exponent < 0x100 && fraction < HIDDEN_BIT
    ensures r / SIGN_BIT == sign && r % SIGN_BIT == exponent * HIDDEN_BIT + fraction
  {
    sign * SIGN_BIT + exponent * HIDDEN_BIT + fraction
  }

  method RoundUp(sig0: uint64) returns (sig: uint64)
    requires sig0 < 2 * TOP
    ensures sig / 8 == RoundOff(sig0) && sig % 8 == sig0 % 8
    ensures sig < 2 * TOP + 8 && (sig >= TOP <==> sig0 >= TOP || RoundOff(sig0) == HIDDEN_BIT)
  {
    sig := sig0;
    var three := sig % 8;
    if three == 4 {
      var lsb := sig / 8 % 2;
      if lsb == 1 { sig := sig + 8; }
    } else if three > 4 {
      sig := sig + 8;
    }
  }

  lemma StandsForDecides(exp: int, sig: nat, v: real)
    requires StandsFor(exp, sig, v)
    ensures var x := InUnits(v, EffectiveExponent(exp, sig)); Jammed(sig, x) && Decides(sig, x)
  {
    var x := InUnits(v, EffectiveExponent(exp, sig));
    if x == sig as real { ExactDecides(sig); } else { JammedDecides(sig, x); }
  }

  lemma {:induction false} OverflowResult(exp: int, v: real)
    requires exp == 0xff ==> v >= OverflowThreshold()
    requires exp == 0 ==> v < Mid(0)
    ensures exp == 0xff ==> IsRne(INF, v) && !CarryLost(v)
    ensures exp == 0 ==> IsRne(0, v) && !CarryLost(v)
  {
    OverflowIsMid();
    MagMono(HIDDEN_BIT, INF - 1);
    MagMono(HIDDEN_BIT, INF);
    MagMono(0, HIDDEN_BIT - 1);
    MagMono(1, HIDDEN_BIT);
    BetweenIsRne(0, v);
  }

  /** Rounding a normalised significand gives the rounded magnitude; the carry out of the
      subnormals happens exactly for the magnitudes in CarryLost. */
  lemma {:induction false} RoundedResult(exp: nat, s: nat, v: real)
    requires Normalized(exp, s, v)
    ensures Rounds(exp, s, v)
  {
    var q := RoundOff(s);
    var e := if exp == 0 then 1 else exp;
    var m := (e - 1) * HIDDEN_BIT + q;
    hide Between, IsRne, InUnits, Scale, Mag, Decides;
    RoundOffIsRne(e, s, v);
    BetweenIsRne(m, v);
    DecidesBounds(s, InUnits(v, e));
    if exp == 0 { SubnormalCarry(q, v); } else { NormalNoCarry(exp, v); }
  }

  lemma SubnormalCarry(q: nat, v: real)
    requires q <= HIDDEN_BIT && Between(q, v) && InUnits(v, 1) < TOP as real
    ensures CarryLost(v) <==> q == HIDDEN_BIT
    ensures CarryLost(v) ==> !IsRne(0, v)
  {
    hide InUnits, Mag, IsRne;
    MagInUnits(1, HIDDEN_BIT);
    UnitsMono(v, MinNormal(), 1);
    if q < HIDDEN_BIT - 1 {
      MagMono(q, HIDDEN_BIT - 1);
      MagMono(q + 1, HIDDEN_BIT);
    } else if q == HIDDEN_BIT {
      BetweenIsRne(0, v);
      if Between(0, v) { BetweenOrder(0, q, v); }
    }
  }

  lemma NormalNoCarry(exp: nat, v: real)
    requires exp >= 1 && InUnits(v, exp) >= TOP as real
    ensures !CarryLost(v)
  {
    MagInUnits(1, HIDDEN_BIT);
    UnitsShrink(v, 1, exp);
    ScaleMono(v, MinNormal(), 153 - 1);
  }
}
