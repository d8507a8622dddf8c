/** The integer ALU and the condition codes (nemu/src/cpu/alu.c, nemu/include/cpu/alu.h,
    nemu/include/cpu/instr_helper.h). */
module Alu {
  import opened MachineInts
  import opened Basics

  datatype Flags = Flags(CF: bool, PF: bool, ZF: bool, SF: bool, OF: bool)

  predicate Width(n: nat) { n == 8 || n == 16 || n == 32 }

  /** 2^n for a data size of n bits. */
  function Modulus(n: nat): (m: nat)
    ensures 1 < m <= 0x1_0000_0000 && m % 2 == 0
  {
    if n == 8 then 0x100 else if n == 16 then 0x1_0000 else 0x1_0000_0000
  }

  /** The n-bit operand in a 32-bit value: x & (0xFFFFFFFF >> (32 - n)). */
  function Low(x: int, n: nat): (r: nat)
    ensures r < Modulus(n) <= 0x1_0000_0000
  {
    x % Modulus(n)
  }

  /** The operand as a two's complement number. */
  function Signed(x: int, n: nat): int { TwosComplement(Low(x, n), Modulus(n)) }

  function TwosComplement(x: int, m: int): int { if x < m / 2 then x else x - m }

  // ---------- alu.h ----------

  /** Line 39. */
  function Sign(x: uint32): nat { x / 0x8000_0000 }

  /** Line 42: (int32_t)(int8_t)(x & 0xff) and its 16-bit form. */
  function SignExt(x: uint32, n: nat): uint32
    requires Width(n)
  {
    if n == 8 then if x % 0x100 < 0x80 then x % 0x100 else x % 0x100 + 0xffff_ff00
    else if n == 16 then if x % 0x1_0000 < 0x8000 then x % 0x1_0000 else x % 0x1_0000 + 0xffff_0000
    else x
  }

  /** Sign extension moves the upper half of the operands to the top of the 32-bit range. */
  lemma SignExtIs(x: uint32, n: nat)
    requires Width(n)
    ensures SignExt(x, n) == if Low(x, n) < Modulus(n) / 2 then Low(x, n) else Low(x, n) + (0x1_0000_0000 - Modulus(n))
    ensures SignExt(Low(x, n), n) == SignExt(x, n)
  {
    if n == 8 {
      SmallMod(x % 0x100, 0x100);
    } else if n == 16 {
      SmallMod(x % 0x1_0000, 0x1_0000);
    } else {
      SmallMod(x, 0x1_0000_0000);
    }
  }

  /** Sign extension keeps the unsigned order of operands, and shows their sign. */
  lemma SignExtOrder(x: uint32, y: uint32, n: nat)
    requires Width(n)
    ensures SignExt(Low(x, n), n) < SignExt(Low(y, n), n) <==> Low(x, n) < Low(y, n)
    ensures SignExt(Low(x, n), n) <= SignExt(Low(y, n), n) <==> Low(x, n) <= Low(y, n)
    ensures Sign(SignExt(Low(x, n), n)) == 1 <==> Signed(x, n) < 0
    ensures Sign(SignExt(x, n)) == 1 <==> Signed(x, n) < 0
  {
    SignExtIs(x, n);
    SignExtIs(y, n);
    assert Modulus(n) / 2 <= 0x8000_0000;
    hide Low, SignExt;
  }

  // ---------- what the flags mean ----------

  /** Number of ones among the low k bits. */
  function Ones(x: nat, k: nat): nat { if k == 0 then 0 else x % 2 + Ones(x / 2, k - 1) }

  lemma {:induction false} OnesTop(x: nat, k: nat)
    ensures Ones(x, k + 1) == Ones(x, k) + x / Pow2(k) % 2
  {
    if k > 0 {
      OnesTop(x / 2, k - 1);
      HalfOfQuotient(x, Pow2(k - 1));
    }
  }

  lemma HalfOfQuotient(x: nat, p: nat)
    requires p > 0
    ensures x / 2 / p == x / (2 * p)
  {
    var h, b := x / 2, x % 2;
    var q, r := h / p, h % p;
    assert x == 2 * (q * p + r) + b;
    assert x == q * (2 * p) + (2 * r + b);
    ModUnique(x, 2 * p, q, 2 * r + b);
  }

  /** Bit i of x is set. */
  predicate BitSet(x: nat, i: nat) { x / Pow2(i) % 2 == 1 }

  /** Ones counts the positions among the low k whose bit is set. */
  lemma OnesCountsBits(x: nat, k: nat, bits: set<nat>)
    requires forall i: nat :: i in bits <==> i < k && x / Pow2(i) % 2 == 1
    ensures Ones(x, k) == |bits|
  {
    assert forall i: nat :: i in bits <==> i < k && BitSet(x, i);
    hide Pow2, Ones, BitSet;
    CountBits(x, k);
    assert bits == set i: nat | i < k && BitSet(x, i);
  }

  lemma {:induction false} CountBits(x: nat, k: nat)
    ensures Ones(x, k) == |set i: nat | i < k && BitSet(x, i)|
  {
    var bits := set i: nat | i < k && BitSet(x, i);
    if k == 0 {
      assert bits == {};
    } else {
      OnesTop(x, k - 1);
      CountBits(x, k - 1);
      assert x / Pow2(k - 1) % 2 == if BitSet(x, k - 1) then 1 else 0;
      hide Pow2, Ones, BitSet;
      var lower := set i: nat | i < k - 1 && BitSet(x, i);
      assert bits == if BitSet(x, k - 1) then lower + {k - 1} else lower;
    }
  }

  /** Turning one of the low eight bits over turns the parity over. */
  lemma ParityFlips(x: nat, y: nat, k: nat)
    requires k < 8 && forall i: nat | i < 8 :: BitSet(x, i) == BitSet(y, i) <==> i != k
    ensures Ones(x, 8) % 2 != Ones(y, 8) % 2
  {
    hide Ones, BitSet;
    CountBits(x, 8);
    CountBits(y, 8);
    var ofX := set i: nat | i < 8 && BitSet(x, i);
    var ofY := set i: nat | i < 8 && BitSet(y, i);
    if k in ofX { OneMore(ofX, ofY, k); } else { OneMore(ofY, ofX, k); }
  }

  lemma OneMore(a: set<nat>, b: set<nat>, k: nat)
    requires k in a && k !in b && forall i | i != k :: i in a <==> i in b
    ensures |a| == |b| + 1
  {
    assert a == b + {k};
  }

  function Carry(c: bool): nat { if c then 1 else 0 }

  predicate FitsSigned(v: int, n: nat) { -(Modulus(n) / 2) <= v < Modulus(n) / 2 }

  /** Flags that describe a result and its overflow out of the unsigned and the signed range. */
  function ResultFlags(r: int, unsignedOverflow: bool, signedOverflow: bool, n: nat): Flags {
    Flags(unsignedOverflow, Ones(Low(r, 8), 8) % 2 == 0, Low(r, n) == 0, Signed(r, n) < 0, signedOverflow)
  }

  /** The parity flag of a result says whether an even number of the bits of its low byte are set. */
  lemma ParityOfResult(r: int, u: bool, s: bool, n: nat)
    ensures ResultFlags(r, u, s, n).PF <==> |set i: nat | i < 8 && BitSet(Low(r, 8), i)| % 2 == 0
  {
    CountBits(Low(r, 8), 8);
  }

  /** dest + src + c at n bits. */
  function SumFlags(src: int, dest: int, c: bool, n: nat): Flags {
    ResultFlags(dest + src + Carry(c), Low(dest, n) + Low(src, n) + Carry(c) >= Modulus(n),
                !FitsSigned(Signed(dest, n) + Signed(src, n) + Carry(c), n), n)
  }

  /** dest - src - c at n bits. */
  function DifferenceFlags(src: int, dest: int, c: bool, n: nat): Flags {
    ResultFlags(dest - src - Carry(c), Low(dest, n) < Low(src, n) + Carry(c),
                !FitsSigned(Signed(dest, n) - Signed(src, n) - Carry(c), n), n)
  }

  class Cpu {
    var eflags: Flags

    method SetCfAdd(result0: uint32, src0: uint32, n: nat)
      requires Width(n)
      modifies this
      ensures eflags == old(eflags).(CF := Low(result0, n) < Low(src0, n))
    {
      SignExtOrder(result0, src0, n);
      var result, src := SignExt(Low(result0, n), n), SignExt(Low(src0, n), n);
      eflags := eflags.(CF := result < src);
    }

    method SetCfAdc(result0: uint32, src0: uint32, n: nat)
      requires Width(n)
      modifies this
      ensures eflags == old(eflags).(CF := if old(eflags.CF) then Low(result0, n) <= Low(src0, n)
                                           else Low(result0, n) < Low(src0, n))
    {
      SignExtOrder(result0, src0, n);
      var result, src := SignExt(Low(result0, n), n), SignExt(Low(src0, n), n);
      if eflags.CF { eflags := eflags.(CF := result <= src); } else { eflags := eflags.(CF := result < src); }
    }

    method SetCfSub(dest0: uint32, src0: uint32, n: nat)
      requires Width(n)
      modifies this
      ensures eflags == old(eflags).(CF := Low(dest0, n) < Low(src0, n))
    {
      SignExtOrder(dest0, src0, n);
      var dest, src := SignExt(Low(dest0, n), n), SignExt(Low(src0, n), n);
      eflags := eflags.(CF := dest < src);
    }

    method SetCfSbb(dest0: uint32, src0: uint32, n: nat)
      requires Width(n)
      modifies this
      ensures eflags == old(eflags).(CF := Low(dest0, n) < Low(src0, n) + Carry(old(eflags.CF)))
    {
      SignExtOrder(dest0, src0, n);
      var dest, src := SignExt(Low(dest0, n), n), SignExt(Low(src0, n), n);
      if eflags.CF { eflags := eflags.(CF := dest <= src); } else { eflags := eflags.(CF := dest < src); }
    }

    method SetZf(result: uint32, n: nat)
      modifies this
      ensures eflags == old(eflags).(ZF := Low(result, n) == 0)
    {
      eflags := eflags.(ZF := Low(result, n) == 0);
    }

    method SetSf(result: uint32, n: nat)
      requires Width(n)
      modifies this
      ensures eflags == old(eflags).(SF := Signed(result, n) < 0)
    {
      SignExtOrder(result, result, n);
      eflags := eflags.(SF := Sign(SignExt(Low(result, n), n)) == 1);
    }

    method SetPf(result: uint32)
      modifies this
      ensures eflags == old(eflags).(PF := Ones(Low(result, 8), 8) % 2 == 0)
    {
      var temp: nat, count := Low(result, 8), 0;
      var i := 0;
      while i < 8
        invariant i <= 8 && 0 <= temp
        invariant count + Ones(temp, 8 - i) == Ones(Low(result, 8), 8)
      {
        count := count + temp % 2;
        temp := temp / 2;
        i := i + 1;
      }
      if count % 2 == 0 { eflags := eflags.(PF := true); } else { eflags := eflags.(PF := false); }
    }

    method SetOfAdd(result0: uint32, src0: uint32, dest0: uint32, n: nat)
      requires Width(n)
      modifies this
      ensures eflags == old(eflags).(OF :=
                (Signed(src0, n) < 0 <==> Signed(dest0, n) < 0) && !(Signed(src0, n) < 0 <==> Signed(result0, n) < 0))
    {
      SignExtOrder(result0, src0, n);
      SignExtOrder(dest0, src0, n);
      SignExtOrder(src0, src0, n);
      var result, src, dest := SignExt(result0, n), SignExt(src0, n), SignExt(dest0, n);
      if Sign(src) == Sign(dest) {
        if Sign(src) != Sign(result) { eflags := eflags.(OF := true); } else { eflags := eflags.(OF := false); }
      } else {
        eflags := eflags.(OF := false);
      }
    }

    method SetOfSub(result0: uint32, src0: uint32, dest0: uint32, n: nat)
      requires Width(n)
      modifies this
      ensures eflags == old(eflags).(OF :=
                !(Signed(src0, n) < 0 <==> Signed(dest0, n) < 0) && !(Signed(dest0, n) < 0 <==> Signed(result0, n) < 0))
    {
      SignExtOrder(result0, src0, n);
      SignExtOrder(dest0, src0, n);
      SignExtOrder(src0, src0, n);
      var result, src, dest := SignExt(result0, n), SignExt(src0, n), SignExt(dest0, n);
      if Sign(src) != Sign(dest) {
        if Sign(dest) != Sign(result) { eflags := eflags.(OF := true); } else { eflags := eflags.(OF := false); }
      } else {
        eflags := eflags.(OF := false);
      }
    }

    /** Line 177. */
    method AluAdd(src: uint32, dest: uint32, n: nat) returns (r: uint32)
      requires Width(n)
      modifies this
      ensures r == Low(dest + src, n) && eflags == SumFlags(src, dest, false, n)
    {
      hide Low, Signed, FitsSigned, Modulus;
      var res := ToU32(dest + src);
      SetCfAdd(res, src, n);
      SetPf(res);
      SetZf(res, n);
      SetSf(res, n);
      SetOfAdd(res, src, dest, n);
      r := Low(res, n);
      SumByFlags(src, dest, false, n, res);
    }

    /** Line 195. */
    method AluAdc(src: uint32, dest: uint32, n: nat) returns (r: uint32)
      requires Width(n)
      modifies this
      ensures r == Low(dest + src + Carry(old(eflags.CF)), n) && eflags == SumFlags(src, dest, old(eflags.CF), n)
    {
      hide Low, Signed, FitsSigned, Modulus;
      var res := ToU32(src + dest + Carry(eflags.CF));
      SumByFlags(src, dest, eflags.CF, n, res);
      SetCfAdc(res, src, n);
      SetPf(res);
      SetZf(res, n);
      SetSf(res, n);
      SetOfAdd(res, src, dest, n);
      r := Low(res, n);
    }

    /** Line 213. */
    method AluSub(src: uint32, dest: uint32, n: nat) returns (r: uint32)
      requires Width(n)
      modifies this
      ensures r == Low(dest as int - src, n) && eflags == DifferenceFlags(src, dest, false, n)
    {
      hide Low, Signed, FitsSigned, Modulus;
      var res := ToU32(dest as int - src);
      SetCfSub(dest, src, n);
      SetPf(res);
      SetZf(res, n);
      SetSf(res, n);
      SetOfSub(res, src, dest, n);
      r := Low(res, n);
      DifferenceByFlags(src, dest, false, n, res);
    }

    /** Line 230. */
    method AluSbb(src: uint32, dest: uint32, n: nat) returns (r: uint32)
      requires Width(n)
      modifies this
      ensures r == Low(dest as int - src - Carry(old(eflags.CF)), n)
      ensures eflags == DifferenceFlags(src, dest, old(eflags.CF), n)
    {
      hide Low, Signed, FitsSigned, Modulus;
      var res := ToU32(dest as int - src - Carry(eflags.CF));
      DifferenceByFlags(src, dest, eflags.CF, n, res);
      SetCfSbb(dest, src, n);
      SetPf(res);
      SetZf(res, n);
      SetSf(res, n);
      SetOfSub(res, src, dest, n);
      r := Low(res, n);
    }

    /** Multi-word addition: add the lowest limbs, then adc the others. */
    method AddLimbs(xs: seq<uint32>, ys: seq<uint32>, n: nat) returns (rs: seq<uint32>)
      requires Width(n) && |xs| == |ys| > 0
      modifies this
      ensures |rs| == |xs|
      ensures LimbValue(rs, n) + Carry(eflags.CF) * LimbBase(|xs|, n) == LimbValue(xs, n) + LimbValue(ys, n)
    {
      hide Low, Modulus;
      var r := AluAdd(ys[0], xs[0], n);
      AddLimb(xs, ys, [], 0, false, r, eflags, n);
      rs := [r];
      var i := 1;
      while i < |xs|
        invariant 1 <= i <= |xs| && |rs| == i
        invariant LimbValue(rs, n) + Carry(eflags.CF) * LimbBase(i, n) == LimbValue(xs[..i], n) + LimbValue(ys[..i], n)
      {
        ghost var c := eflags.CF;
        r := AluAdc(ys[i], xs[i], n);
        AddLimb(xs, ys, rs, i, c, r, eflags, n);
        rs := rs + [r];
        i := i + 1;
      }
      assert xs[..|xs|] == xs && ys[..|ys|] == ys;
    }

    /** Multi-word subtraction: sub the lowest limbs, then sbb the others. */
    method SubLimbs(xs: seq<uint32>, ys: seq<uint32>, n: nat) returns (rs: seq<uint32>)
      requires Width(n) && |xs| == |ys| > 0
      modifies this
      ensures |rs| == |xs|
      ensures LimbValue(rs, n) - Carry(eflags.CF) * LimbBase(|xs|, n) == LimbValue(xs, n) - LimbValue(ys, n)
    {
      hide Low, Modulus;
      var r := AluSub(ys[0], xs[0], n);
      SubLimb(xs, ys, [], 0, false, r, eflags, n);
      rs := [r];
      var i := 1;
      while i < |xs|
        invariant 1 <= i <= |xs| && |rs| == i
        invariant LimbValue(rs, n) - Carry(eflags.CF) * LimbBase(i, n) == LimbValue(xs[..i], n) - LimbValue(ys[..i], n)
      {
        ghost var c := eflags.CF;
        r := AluSbb(ys[i], xs[i], n);
        SubLimb(xs, ys, rs, i, c, r, eflags, n);
        rs := rs + [r];
        i := i + 1;
      }
      assert xs[..|xs|] == xs && ys[..|ys|] == ys;
    }

    /** Lines 391-398: k doublings, each leaving the top bit it pushes out in CF. */
    method ShlLoop(src: uint32, dest0: uint32, n: nat) returns (res: uint32)
      requires Width(n)
      modifies this
      ensures Low(res, n) == Low(Shl(dest0, src), n) && eflags == old(eflags).(CF := eflags.CF)
      ensures if src == 0 then eflags.CF == old(eflags.CF)
              else Low(Shl(dest0, src - 1), n) * 2 == Carry(eflags.CF) * Modulus(n) + Low(res, n)
      ensures src == 1 ==> res == ToU32(Low(dest0, n) * 2)
    {
      hide Low, Modulus, Shl, Above;
      res := Low(dest0, n);
      var k := src;
      ShiftStart(dest0, n);
      ghost var i := 0;
      while k != 0
        invariant 0 <= k <= src && i == src - k
        invariant Low(res, n) == Low(Shl(dest0, i), n)
        invariant (i == 0 ==> res == Low(dest0, n)) && (i == 1 ==> res == ToU32(Low(dest0, n) * 2))
        invariant eflags == old(eflags).(CF := eflags.CF)
        invariant i == 0 ==> eflags.CF == old(eflags.CF)
        invariant i > 0 ==> Low(Shl(dest0, i - 1), n) * 2 == Carry(eflags.CF) * Modulus(n) + Low(res, n)
        decreases k
      {
        ShlStep(res, dest0, i, n);
        eflags := eflags.(CF := Above(res, n) % 2 == 1);
        res := ToU32(res * 2);
        k := k - 1;
        i := i + 1;
      }
    }

    /** Line 385 (and 465, which is the same code): the result, and in CF the last bit shifted out. */
    method AluShl(src0: uint32, dest0: uint32, n: nat) returns (r: uint32)
      requires Width(n)
      modifies this
      ensures var k := Low(src0, n); r == Low(Shl(dest0, k), n) && SameButCarry(eflags, old(eflags), r, n)
      ensures var k := Low(src0, n);
        if k == 0 then eflags.CF == old(eflags.CF)
        else Low(Shl(dest0, k - 1), n) * 2 == Carry(eflags.CF) * Modulus(n) + r
      ensures eflags.OF == if Low(src0, n) == 1 then ShlOverflow(dest0, n) else old(eflags.OF)
    {
      hide Low, Modulus, Pow2, Shl, ShlOverflow, Ones, Signed, Above;
      var src := Low(src0, n);
      var res := ShlLoop(src, dest0, n);
      if src == 1 {
        ShlOverflowTest(dest0, res, n, eflags.CF);
        if Above(res, n) != Carry(eflags.CF) {
          eflags := eflags.(OF := true);
        } else {
          eflags := eflags.(OF := false);
        }
      }
      SetPf(res);
      SetSf(res, n);
      SetZf(res, n);
      r := Low(res, n);
      LowAgain(res, n);
    }

    /** Line 416: the bound on k is the operand's, so the loop may run past the width. */
    method AluShr(src0: uint32, dest0: uint32, n: nat) returns (r: uint32)
      requires Width(n)
      modifies this
      ensures var k := Low(src0, n); r == Sar(Low(dest0, n), k) && SameButCarry(eflags, old(eflags), r, n)
      ensures var k := Low(src0, n); eflags.CF == if k == 0 then old(eflags.CF) else Sar(Low(dest0, n), k - 1) % 2 == 1
      ensures eflags.OF == old(eflags.OF)
    {
      hide Low, Modulus, Pow2, Shl, Sar, Signed, Ones;
      var src := Low(src0, n);
      var dest := Low(dest0, n);
      var res: uint32 := dest;
      ghost var i := 0;
      ShiftStart(dest0, n);
      while src != 0
        invariant 0 <= src && i == Low(src0, n) - src
        invariant res == Sar(dest, i) && res < Modulus(n)
        invariant eflags == old(eflags).(CF := eflags.CF)
        invariant eflags.CF == if i == 0 then old(eflags.CF) else Sar(dest, i - 1) % 2 == 1
        decreases src
      {
        HalfAgain(dest, i);
        eflags := eflags.(CF := res % 2 == 1);
        res := res / 2;
        src := src - 1;
        i := i + 1;
      }
      SetPf(res);
      SetSf(res, n);
      SetZf(res, n);
      r := Low(res, n);
      LowOfSmall(res, n);
    }

    /** Line 441: the loop halves the sign-extended operand towards minus infinity. */
    method AluSar(src0: uint32, dest0: uint32, n: nat) returns (r: uint32)
      requires Width(n)
      modifies this
      ensures var k := Low(src0, n); r == Low(Sar(Signed(dest0, n), k), n) && SameButCarry(eflags, old(eflags), r, n)
      ensures var k := Low(src0, n);
        eflags.CF == if k == 0 then old(eflags.CF) else Sar(Signed(dest0, n), k - 1) % 2 == 1
      ensures eflags.OF == old(eflags.OF)
    {
      hide Low, Modulus, Pow2, Shl, Sar, Signed, Ones, SignExt;
      var src := Low(src0, n);
      ghost var s := Signed(dest0, n);
      SignedBounds(dest0, n);
      var res: uint32 := SignExt(Low(dest0, n), n);
      ghost var i := 0;
      ShiftStart(dest0, n);
      while src != 0
        invariant 0 <= src && i == Low(src0, n) - src
        invariant ToI32(res) == Sar(s, i)
        invariant eflags == old(eflags).(CF := eflags.CF)
        invariant eflags.CF == if i == 0 then old(eflags.CF) else Sar(s, i - 1) % 2 == 1
        decreases src
      {
        HalfAgain(s, i);
        eflags := eflags.(CF := res % 2 == 1);
        res := ToU32(ToI32(res) / 2);
        src := src - 1;
        i := i + 1;
      }
      SetPf(res);
      SetSf(res, n);
      SetZf(res, n);
      r := Low(res, n);
      LowAgain(res, n);
      LowOfI32(res, n);
    }

    method SetOfMul(result0: uint64, n: nat)
      requires Width(n)
      modifies this
      ensures var high := result0 % (Modulus(n) * Modulus(n)) >= Modulus(n);
        eflags == old(eflags).(OF := high, CF := high)
    {
      var result := result0 % (Modulus(n) * Modulus(n));
      result := result - result % Modulus(n);
      UpperHalf(result0 % (Modulus(n) * Modulus(n)), Modulus(n));
      if result != 0 {
        eflags := eflags.(OF := true);
        eflags := eflags.(CF := true);
      } else {
        eflags := eflags.(OF := false);
        eflags := eflags.(CF := false);
      }
    }

    /** Line 248: the full product; CF and OF say whether its upper half is used. */
    method AluMul(src: uint32, dest: uint32, n: nat) returns (r: uint64)
      requires Width(n)
      modifies this
      ensures r == Low(src, n) * Low(dest, n)
      ensures eflags == old(eflags).(OF := r >= Modulus(n), CF := r >= Modulus(n))
    {
      hide Low, Modulus;
      var a, b := Low(src, n), Low(dest, n);
      ProductFits(a, b, n);
      var res: uint64 := a * b;
      SetOfMul(res, n);
      r := res % (Modulus(n) * Modulus(n));
      SmallMod(res, Modulus(n) * Modulus(n));
    }

    /** Line 139: the scan of the upper half never finds what it looks for, so OF is always set. */
    method SetOfImul(result0: int, n: nat)
      requires Width(n)
      modifies this
      ensures eflags == old(eflags).(OF := true)
    {
      var result: nat := result0 % (Modulus(n) * Modulus(n));
      var aim, newres: nat := Above(result, n), result / Modulus(n);
      var equal := true;
      if aim == 0 {
        AboveZero(result, n);
        var i := 0;
        while i < n
          invariant equal && newres == 0
        {
          if newres % 2 == 1 {
            equal := false;
            break;
          }
          newres := newres / 2;
          i := i + 1;
        }
      } else {
        var i := 0;
        while i < n
          invariant equal && 0 <= newres
        {
          var masked := newres * 0;   // newres & 0x0
          if masked == 1 {
            equal := false;
            break;
          }
          newres := newres / 2;
          i := i + 1;
        }
      }
      eflags := eflags.(OF := equal);
    }

    /** Line 263: the signed product. */
    method AluImul(src: uint32, dest: uint32, n: nat) returns (r: int)
      requires Width(n)
      modifies this
      ensures r == Signed(src, n) * Signed(dest, n) && -0x8000_0000_0000_0000 <= r < 0x8000_0000_0000_0000
      ensures eflags == old(eflags).(OF := true)
      ensures (eflags.OF <==> !FitsSigned(r, n)) <==> !FitsSigned(r, n)
    {
      var a, b := Signed(src, n), Signed(dest, n);
      var res := a * b;
      SetOfImul(res, n);
      SignedProductFits(a, b, n);
      r := res;
    }
  }

  // ---------- why the comparisons of the flag setters are right ----------

  lemma LowOfWrapped(x: int, n: nat)
    requires Width(n)
    ensures Low(ToU32(x), n) == Low(x, n) && Low(ToU32(x), 8) == Low(x, 8)
  {
    hide Low, Modulus;
    var q := x / 0x1_0000_0000;
    assert x == q * 0x1_0000_0000 + ToU32(x);
    LowPlusWords(ToU32(x), q, n);
    LowPlusWords(ToU32(x), q, 8);
  }

  lemma LowPlusWords(x: int, q: int, n: nat)
    requires Width(n)
    ensures Low(x + q * 0x1_0000_0000, n) == Low(x, n)
  {
    ModulusParts(n);
    hide Low, Modulus;
    var c, m := 0x1_0000_0000 / Modulus(n), Modulus(n);
    LowPlus(x, q * c, n);
    assert q * c * m == q * (c * m);
  }

  /** Multiples of the modulus do not matter. */
  lemma LowPlus(x: int, k: int, n: nat)
    requires Width(n)
    ensures Low(x + k * Modulus(n), n) == Low(x, n)
  {
    var m, r := Modulus(n), Low(x, n);
    var q := x / m;
    assert x == q * m + r;
    hide Modulus;
    assert (q + k) * m == q * m + k * m;
    ModUnique(x + k * m, m, q + k, r);
  }

  lemma LowIsRemainder(x: int, n: nat) returns (k: int)
    requires Width(n)
    ensures x == Low(x, n) + k * Modulus(n)
  {
    k := x / Modulus(n);
  }

  lemma LowOfSmall(x: int, n: nat)
    requires 0 <= x < Modulus(n)
    ensures Low(x, n) == x
  {
  }

  /** Reducing the operands first changes nothing; one modulus makes up for the wrap. */
  lemma LowOfSum(x: int, y: int, c: nat, n: nat)
    requires Width(n) && c <= 1
    ensures var s := Low(x, n) + Low(y, n) + c; Low(x + y + c, n) == if s < Modulus(n) then s else s - Modulus(n)
  {
    hide Low, Modulus, Width;
    var p := LowIsRemainder(x, n);
    var q := LowIsRemainder(y, n);
    var s := Low(x, n) + Low(y, n) + c;
    assert (p + q) * Modulus(n) == p * Modulus(n) + q * Modulus(n);
    LowPlus(s, p + q, n);
    LowPlus(s, -1, n);
    LowOfSmall(if s < Modulus(n) then s else s - Modulus(n), n);
  }

  lemma LowOfDifference(x: int, y: int, c: nat, n: nat)
    requires Width(n) && c <= 1
    ensures var s := Low(x, n) - Low(y, n) - c; Low(x - y - c, n) == if s >= 0 then s else s + Modulus(n)
  {
    hide Low, Modulus, Width;
    var p := LowIsRemainder(x, n);
    var q := LowIsRemainder(y, n);
    var s := Low(x, n) - Low(y, n) - c;
    assert (p - q) * Modulus(n) == p * Modulus(n) - q * Modulus(n);
    LowPlus(s, p - q, n);
    LowPlus(s, 1, n);
    LowOfSmall(if s >= 0 then s else s + Modulus(n), n);
  }

  /** A sum wrapped exactly when the result came out below an operand, and overflowed the signed
      range exactly when equal signs gave the other sign. */
  lemma SumByFlags(src: uint32, dest: uint32, c: bool, n: nat, res: uint32)
    requires Width(n) && res == ToU32(dest + src + Carry(c))
    ensures Low(res, n) == Low(dest + src + Carry(c), n) && Low(res, 8) == Low(dest + src + Carry(c), 8)
    ensures Signed(res, n) == Signed(dest + src + Carry(c), n)
    ensures Low(dest, n) + Low(src, n) + Carry(c) >= Modulus(n)
       <==> if c then Low(res, n) <= Low(src, n) else Low(res, n) < Low(src, n)
    ensures !FitsSigned(Signed(dest, n) + Signed(src, n) + Carry(c), n)
       <==> (Signed(src, n) < 0 <==> Signed(dest, n) < 0) && !(Signed(src, n) < 0 <==> Signed(res, n) < 0)
  {
    hide Low, Modulus;
    LowOfWrapped(dest + src + Carry(c), n);
    LowOfSum(dest, src, Carry(c), n);
    SumCases(Low(dest, n), Low(src, n), Carry(c), Modulus(n), Low(res, n));
  }

  lemma SumCases(x: int, y: int, c: nat, m: int, r: int)
    requires 0 <= x < m && 0 <= y < m && c <= 1 && m % 2 == 0
    requires r == if x + y + c < m then x + y + c else x + y + c - m
    ensures x + y + c >= m <==> if c == 1 then r <= y else r < y
    ensures var sx, sy, sr := TwosComplement(x, m), TwosComplement(y, m), TwosComplement(r, m);
      !(-(m / 2) <= sx + sy + c < m / 2) <==> (sy < 0 <==> sx < 0) && !(sy < 0 <==> sr < 0)
  {
  }

  lemma DifferenceByFlags(src: uint32, dest: uint32, c: bool, n: nat, res: uint32)
    requires Width(n) && res == ToU32(dest as int - src - Carry(c))
    ensures var d := dest as int - src - Carry(c);
      Low(res, n) == Low(d, n) && Low(res, 8) == Low(d, 8) && Signed(res, n) == Signed(d, n)
    ensures !FitsSigned(Signed(dest, n) - Signed(src, n) - Carry(c), n)
       <==> !(Signed(src, n) < 0 <==> Signed(dest, n) < 0) && !(Signed(dest, n) < 0 <==> Signed(res, n) < 0)
  {
    hide Low, Modulus;
    LowOfWrapped(dest as int - src - Carry(c), n);
    LowOfDifference(dest, src, Carry(c), n);
    DifferenceCases(Low(dest, n), Low(src, n), Carry(c), Modulus(n), Low(res, n));
  }

  lemma DifferenceCases(x: int, y: int, c: nat, m: int, r: int)
    requires 0 <= x < m && 0 <= y < m && c <= 1 && m % 2 == 0
    requires r == if x - y - c >= 0 then x - y - c else x - y - c + m
    ensures var sx, sy, sr := TwosComplement(x, m), TwosComplement(y, m), TwosComplement(r, m);
      !(-(m / 2) <= sx - sy - c < m / 2) <==> !(sy < 0 <==> sx < 0) && !(sx < 0 <==> sr < 0)
  {
  }

  // ---------- conditions (instr_helper.h) ----------

  predicate ConditionE(f: Flags) { f.ZF }
  predicate ConditionA(f: Flags) { !f.CF && !f.ZF }
  predicate ConditionAe(f: Flags) { !f.CF }
  predicate ConditionB(f: Flags) { f.CF }
  predicate ConditionBe(f: Flags) { f.CF || f.ZF }
  predicate ConditionG(f: Flags) { !f.ZF && f.SF == f.OF }
  predicate ConditionGe(f: Flags) { f.SF == f.OF }
  predicate ConditionL(f: Flags) { f.SF != f.OF }
  predicate ConditionLe(f: Flags) { f.ZF || f.SF != f.OF }

  /** After a comparison the conditions are the unsigned and the signed order of the operands,
      whatever the bits above the operand size. */
  lemma ConditionsAreOrder(src: uint32, dest: uint32, n: nat)
    requires Width(n)
    ensures var f, x, y := DifferenceFlags(src, dest, false, n), Low(dest, n), Low(src, n);
      && (ConditionE(f) <==> x == y)
      && (ConditionA(f) <==> x > y) && (ConditionAe(f) <==> x >= y)
      && (ConditionB(f) <==> x < y) && (ConditionBe(f) <==> x <= y)
    ensures var f, x, y := DifferenceFlags(src, dest, false, n), Signed(dest, n), Signed(src, n);
      && (ConditionG(f) <==> x > y) && (ConditionGe(f) <==> x >= y)
      && (ConditionL(f) <==> x < y) && (ConditionLe(f) <==> x <= y)
  {
    hide Low, Modulus;
    LowOfDifference(dest, src, 0, n);
    OrderCases(Low(dest, n), Low(src, n), Modulus(n), Low(dest as int - src, n));
  }

  lemma OrderCases(x: int, y: int, m: int, r: int)
    requires 0 <= x < m && 0 <= y < m && m % 2 == 0
    requires r == if x - y >= 0 then x - y else x - y + m
    ensures r == 0 <==> x == y
    ensures var sx, sy := TwosComplement(x, m), TwosComplement(y, m);
      && (sx == sy <==> x == y)
      && (((TwosComplement(r, m) < 0) != !(-(m / 2) <= sx - sy < m / 2)) <==> sx < sy)
  {
  }

  // ---------- limbs ----------

  function LimbBase(k: nat, n: nat): nat { if k == 0 then 1 else Modulus(n) * LimbBase(k - 1, n) }

  /** The number with these limbs of n bits, lowest first. */
  function LimbValue(xs: seq<uint32>, n: nat): int
    decreases |xs|
  {
    if xs == [] then 0
    else LimbValue(xs[..|xs| - 1], n) + Low(xs[|xs| - 1], n) * LimbBase(|xs| - 1, n)
  }

  lemma LimbAppend(xs: seq<uint32>, i: nat, n: nat)
    requires i < |xs|
    ensures LimbValue(xs[..i + 1], n) == LimbValue(xs[..i], n) + Low(xs[i], n) * LimbBase(i, n)
  {
    assert xs[..i + 1][..i] == xs[..i];
  }

  lemma AddLimb(xs: seq<uint32>, ys: seq<uint32>, rs: seq<uint32>, i: nat, c: bool, r: uint32, f: Flags, n: nat)
    requires Width(n) && i < |xs| == |ys| && |rs| == i
    requires LimbValue(rs, n) + Carry(c) * LimbBase(i, n) == LimbValue(xs[..i], n) + LimbValue(ys[..i], n)
    requires r == Low(xs[i] + ys[i] + Carry(c), n) && f == SumFlags(ys[i], xs[i], c, n)
    ensures LimbValue(rs + [r], n) + Carry(f.CF) * LimbBase(i + 1, n) ==
        LimbValue(xs[..i + 1], n) + LimbValue(ys[..i + 1], n)
  {
    hide Low, Modulus, SumFlags;
    LimbAppend(xs, i, n);
    LimbAppend(ys, i, n);
    LimbAppend(rs + [r], i, n);
    assert (rs + [r])[..i] == rs && (rs + [r])[..i + 1] == rs + [r];
    SumLow(xs[i], ys[i], c, r, f, n);
    Distribute(Low(xs[i], n), Low(ys[i], n), Carry(c), r, Carry(f.CF), Modulus(n), LimbBase(i, n));
  }

  lemma SumLow(x: uint32, y: uint32, c: bool, r: uint32, f: Flags, n: nat)
    requires Width(n) && r == Low(x + y + Carry(c), n) && f == SumFlags(y, x, c, n)
    ensures Low(r, n) == r && Low(x, n) + Low(y, n) + Carry(c) == r + Carry(f.CF) * Modulus(n)
  {
    LowOfSum(x, y, Carry(c), n);
    LowOfSmall(r, n);
  }

  lemma Distribute(x: int, y: int, c: int, r: int, d: int, m: int, p: int)
    requires x + y + c == r + d * m
    ensures r * p + d * (m * p) == x * p + y * p + c * p
  {
  }

  lemma DistributeMinus(x: int, y: int, c: int, r: int, d: int, m: int, p: int)
    requires x - y - c == r - d * m
    ensures r * p - d * (m * p) == x * p - y * p - c * p
  {
  }

  lemma SubLimb(xs: seq<uint32>, ys: seq<uint32>, rs: seq<uint32>, i: nat, c: bool, r: uint32,
                f: Flags, n: nat)
    requires Width(n) && i < |xs| == |ys| && |rs| == i
    requires LimbValue(rs, n) - Carry(c) * LimbBase(i, n) == LimbValue(xs[..i], n) - LimbValue(ys[..i], n)
    requires r == Low(xs[i] as int - ys[i] - Carry(c), n) && f == DifferenceFlags(ys[i], xs[i], c, n)
    ensures LimbValue(rs + [r], n) - Carry(f.CF) * LimbBase(i + 1, n) ==
        LimbValue(xs[..i + 1], n) - LimbValue(ys[..i + 1], n)
  {
    hide Low, Modulus, DifferenceFlags;
    LimbAppend(xs, i, n);
    LimbAppend(ys, i, n);
    LimbAppend(rs + [r], i, n);
    assert (rs + [r])[..i] == rs && (rs + [r])[..i + 1] == rs + [r];
    DifferenceLow(xs[i], ys[i], c, r, f, n);
    DistributeMinus(Low(xs[i], n), Low(ys[i], n), Carry(c), r, Carry(f.CF), Modulus(n), LimbBase(i, n));
  }

  lemma DifferenceLow(x: uint32, y: uint32, c: bool, r: uint32, f: Flags, n: nat)
    requires Width(n) && r == Low(x as int - y - Carry(c), n) && f == DifferenceFlags(y, x, c, n)
    ensures Low(r, n) == r && Low(x, n) - Low(y, n) - Carry(c) == r - Carry(f.CF) * Modulus(n)
  {
    LowOfDifference(x, y, Carry(c), n);
    LowOfSmall(r, n);
  }

  // ---------- shifts ----------

  /** x * 2^k. */
  function Shl(x: nat, k: nat): nat { x * Pow2(k) }

  /** x / 2^k, towards minus infinity. */
  function Sar(x: int, k: nat): int { x / Pow2(k) }

  /** x >> (n - 1). */
  function Above(x: nat, n: nat): nat { x / (Modulus(n) / 2) }

  /** PF, SF and ZF describe r. */
  predicate SameButCarry(f: Flags, was: Flags, r: nat, n: nat) {
    f == was.(CF := f.CF, OF := f.OF, PF := Ones(Low(r, 8), 8) % 2 == 0, SF := Signed(r, n) < 0, ZF := r == 0)
  }

  /** Top bit and the bit below it. */
  predicate TopBit(x: nat, n: nat) { Low(x, n) >= Modulus(n) / 2 }
  predicate NextBit(x: nat, n: nat) { Low(x, n) % (Modulus(n) / 2) >= Modulus(n) / 4 }

  /** What the shift by one reports as overflow.  At 32 bits this is the change of the top bit;
      at 8 and 16 bits the top bit shifted out is still in the compared value. */
  predicate ShlOverflow(dest: uint32, n: nat) {
    if n == 32 then TopBit(dest, n) != NextBit(dest, n) else TopBit(dest, n) || NextBit(dest, n)
  }

  lemma ShiftStart(dest: uint32, n: nat)
    requires Width(n)
    ensures Low(Low(dest, n), n) == Low(Shl(dest, 0), n)
    ensures Sar(Low(dest, n), 0) == Low(dest, n) && Sar(Signed(dest, n), 0) == Signed(dest, n)
  {
  }

  lemma LowAgain(x: uint32, n: nat)
    requires Width(n)
    ensures Low(Low(x, n), n) == Low(x, n) && Signed(Low(x, n), n) == Signed(x, n) && Low(Low(x, n), 8) == Low(x, 8)
  {
    LowOfSmall(Low(x, n), n);
    var m := Modulus(n);
    var q, c := x / m, m / 0x100;
    assert x == Low(x, n) + q * m && m == c * 0x100 && Modulus(8) == 0x100;
    hide Low, Modulus;
    assert q * m == q * c * 0x100;
    LowPlus(Low(x, n), q * c, 8);
  }

  /** One place to the left: the top bit of the operand goes to CF. */
  lemma ShlStep(res: uint32, dest: uint32, i: nat, n: nat)
    requires Width(n) && Low(res, n) == Low(Shl(dest, i), n)
    ensures Low(ToU32(res * 2), n) == Low(Shl(dest, i + 1), n)
    ensures Low(res, n) * 2 == Above(res, n) % 2 * Modulus(n) + Low(ToU32(res * 2), n)
  {
    hide Low, Modulus, Shl, Above;
    LowOfWrapped(res * 2, n);
    LowOfDouble(res, n);
    LowOfDouble(Shl(dest, i), n);
    NextPower(dest, i);
  }

  lemma NextPower(x: nat, i: nat)
    ensures Shl(x, i + 1) == Shl(x, i) * 2
  {
  }

  lemma LowOfDouble(x: nat, n: nat)
    requires Width(n)
    ensures Low(x * 2, n) == if Low(x, n) < Modulus(n) / 2 then Low(x, n) * 2 else Low(x, n) * 2 - Modulus(n)
    ensures Above(x, n) % 2 == if Low(x, n) < Modulus(n) / 2 then 0 else 1
  {
    LowOfSum(x, x, 0, n);
    TopBitOf(x, n);
  }

  lemma TopBitOf(x: nat, n: nat)
    requires Width(n)
    ensures Above(x, n) % 2 == if Low(x, n) < Modulus(n) / 2 then 0 else 1
  {
    var q := LowIsRemainder(x, n);
    if Low(x, n) < Modulus(n) / 2 {
      ModUnique(x, Modulus(n) / 2, 2 * q, Low(x, n));
    } else {
      ModUnique(x, Modulus(n) / 2, 2 * q + 1, Low(x, n) - Modulus(n) / 2);
    }
  }

  lemma ShlOverflowTest(dest0: uint32, res: uint32, n: nat, cf: bool)
    requires Width(n) && res == ToU32(Low(dest0, n) * 2)
    requires Low(Shl(dest0, 0), n) * 2 == Carry(cf) * Modulus(n) + Low(res, n)
    ensures Above(res, n) != Carry(cf) <==> ShlOverflow(dest0, n)
  {
    var y := Low(dest0, n);
    assert Shl(dest0, 0) == dest0;
    assert cf <==> TopBit(dest0, n) by {
      hide Modulus;
      assert Low(res, n) < Modulus(n);
    }
    if n == 8 { Overflow8(y, res); } else if n == 16 { Overflow16(y, res); } else { Overflow32(y, res); }
  }

  lemma Overflow8(y: nat, res: nat)
    requires y < 0x100 && res == 2 * y
    ensures res / 0x80 == (if y >= 0x80 then 2 else 0) + (if y % 0x80 >= 0x40 then 1 else 0)
  {
  }

  lemma Overflow16(y: nat, res: nat)
    requires y < 0x1_0000 && res == 2 * y
    ensures res / 0x8000 == (if y >= 0x8000 then 2 else 0) + (if y % 0x8000 >= 0x4000 then 1 else 0)
  {
  }

  lemma Overflow32(y: nat, res: nat)
    requires y < 0x1_0000_0000 && res == if y < 0x8000_0000 then 2 * y else 2 * y - 0x1_0000_0000
    ensures res / 0x8000_0000 == if y % 0x8000_0000 >= 0x4000_0000 then 1 else 0
  {
  }

  /** The overflow flag of a shift by one says whether doubling left the signed range, except
      that a narrow operand with both top bits set is reported as overflow. */
  lemma ShlOverflowExact(dest: uint32, n: nat)
    requires Width(n)
    ensures (ShlOverflow(dest, n) <==> !FitsSigned(2 * Signed(dest, n), n))
       <==> n == 32 || Low(dest, n) < Modulus(n) / 4 * 3
  {
    var y, q := Low(dest, n), Modulus(n) / 4;
    var z := if y < 2 * q then y else y - 2 * q;
    ModulusParts(n);
    hide Low, Modulus;
    ModUnique(y, 2 * q, if y < 2 * q then 0 else 1, z);
    DoubleFits(y, q, z);
  }

  lemma ModulusIsPow2(n: nat)
    requires Width(n)
    ensures Modulus(n) == Pow2(n)
  {
    Pow2Values();
    hide Pow2;
    Pow2Eight(0);
    Pow2Eight(8);
    Pow2Eight(16);
    Pow2Eight(24);
  }

  lemma ModulusParts(n: nat)
    requires Width(n)
    ensures Modulus(n) == 4 * (Modulus(n) / 4) && Modulus(n) / 2 == 2 * (Modulus(n) / 4)
    ensures 0x1_0000_0000 / Modulus(n) * Modulus(n) == 0x1_0000_0000
  {
  }

  /** Doubling y leaves the signed range exactly when its two top bits differ; z is y without the
      top bit. */
  lemma DoubleFits(y: nat, q: nat, z: nat)
    requires y < 4 * q && z == if y < 2 * q then y else y - 2 * q
    ensures -(2 * q) <= 2 * TwosComplement(y, 4 * q) < 2 * q <==> (y >= 2 * q <==> z >= q)
  {
  }

  lemma HalfAgain(s: int, i: nat)
    ensures Sar(s, i + 1) == Sar(s, i) / 2
  {
    HalfOf(s, Pow2(i));
  }

  lemma HalfOf(s: int, p: nat)
    requires p > 0
    ensures s / (2 * p) == s / p / 2
  {
    var q, r := s / p, s % p;
    var h, b := q / 2, q % 2;
    assert s == q * p + r;
    assert q * p == h * (2 * p) + b * p;
    assert b * p + r < 2 * p;
    ModUnique(s, 2 * p, h, b * p + r);
  }

  lemma SignedBounds(x: uint32, n: nat)
    requires Width(n)
    ensures ToI32(SignExt(Low(x, n), n)) == Signed(x, n)
  {
  }

  lemma LowOfI32(x: uint32, n: nat)
    requires Width(n)
    ensures Low(x, n) == Low(ToI32(x), n)
  {
    LowOfWrapped(ToI32(x), n);
  }

  // ---------- products ----------

  lemma ProductFits(a: nat, b: nat, n: nat)
    requires Width(n) && a < Modulus(n) && b < Modulus(n)
    ensures 0 <= a * b < Modulus(n) * Modulus(n) <= 0x1_0000_0000_0000_0000
  {
    assert Modulus(n) * Modulus(n) <= 0x1_0000_0000_0000_0000 by { if n == 8 { } else if n == 16 { } }
    hide Modulus;
    ProductBelow(a, b, Modulus(n));
  }

  lemma ProductBelow(a: nat, b: nat, m: nat)
    requires a < m && b < m
    ensures 0 <= a * b < m * m
  {
  }

  lemma SignedProductFits(a: int, b: int, n: nat)
    requires Width(n) && FitsSigned(a, n) && FitsSigned(b, n)
    ensures -0x8000_0000_0000_0000 <= a * b < 0x8000_0000_0000_0000
  {
    var h := 0x8000_0001;
    var x, y: nat := if a < 0 then -a else a, if b < 0 then -b else b;
    ProductBelow(x, y, h);
    assert a * b == x * y || a * b == -(x * y) by {
      assert (-a) * b == -(a * b) && a * (-b) == -(a * b) && (-a) * (-b) == a * b;
    }
  }

  lemma UpperHalf(x: nat, m: nat)
    requires m > 0
    ensures x - x % m != 0 <==> x >= m
  {
    if x < m { SmallMod(x, m); }
  }

  lemma AboveZero(x: nat, n: nat)
    requires Width(n) && Above(x, n) == 0
    ensures x / Modulus(n) == 0
  {
  }
}
