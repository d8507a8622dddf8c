/** Interrupt gates and the interrupt frame: kernel/src/irq/idt.c, nemu/src/cpu/intr.c and
    nemu/src/cpu/instr/iret.c, over flat memory (segments from 0, no translation). */
module Interrupts {
  import opened MachineInts
  import opened Basics
  import opened Bytes
  import opened HwMem

  const NR_IRQ: nat := 256
  const INTERRUPT_GATE_32: nat := 0xE
  const TRAP_GATE_32: nat := 0xF
  const KERNEL_CODE_SELECTOR: nat := 8     // SEG_KERNEL_CODE << 3

  /** The bit fields of a gate (intr.h:7-19, memory.h:92-101). */
  datatype GateDesc =
    GateDesc(offsetLow: nat, selector: nat, pad0: nat, kind: nat, system: nat, dpl: nat, present: nat, offsetHigh: nat)

  predicate Fits(g: GateDesc) {
    && g.offsetLow < 0x1_0000 && g.selector < 0x1_0000 && g.pad0 < 0x100 && g.kind < 0x10
    && g.system < 2 && g.dpl < 4 && g.present < 2 && g.offsetHigh < 0x1_0000
  }

  /** The two words a gate is in memory. */
  function Word0(g: GateDesc): nat { g.offsetLow + 0x1_0000 * g.selector }
  function Word1(g: GateDesc): nat {
    g.pad0 + 0x100 * g.kind + 0x1000 * g.system + 0x2000 * g.dpl + 0x8000 * g.present + 0x1_0000 * g.offsetHigh
  }

  /** Reading the bit fields back out of the two words. */
  function Decode(w0: uint32, w1: uint32): (g: GateDesc)
    ensures Fits(g)
  {
    GateDesc(w0 % 0x1_0000, w0 / 0x1_0000, w1 % 0x100, w1 / 0x100 % 0x10,
             w1 / 0x1000 % 2, w1 / 0x2000 % 4, w1 / 0x8000 % 2, w1 / 0x1_0000)
  }

  lemma DecodeWords(g: GateDesc)
    requires Fits(g)
    ensures Word0(g) < 0x1_0000_0000 && Word1(g) < 0x1_0000_0000 && Decode(Word0(g), Word1(g)) == g
    ensures Word0(g) % 0x1_0000 == g.offsetLow && Word0(g) / 0x1_0000 == g.selector
    ensures Word1(g) / 0x100 % 0x10 == g.kind && Word1(g) / 0x2000 % 4 == g.dpl
    ensures Word1(g) / 0x8000 % 2 == g.present && Word1(g) / 0x1_0000 == g.offsetHigh
  {
    Split(g.offsetLow, 0x1_0000, g.selector);
    DecodeWord1(g);
  }

  lemma DecodeWord1(g: GateDesc)
    requires Fits(g)
    ensures var w := Word1(g);
            && w < 0x1_0000_0000 && w % 0x100 == g.pad0 && w / 0x100 % 0x10 == g.kind && w / 0x1000 % 2 == g.system
            && w / 0x2000 % 4 == g.dpl && w / 0x8000 % 2 == g.present && w / 0x1_0000 == g.offsetHigh
  {
    var high := g.offsetHigh;
    DecodeHigh(g);
    Split(g.pad0, 0x100, g.kind + 0x10 * g.system + 0x20 * g.dpl + 0x80 * g.present + 0x100 * high);
    Split(g.kind, 0x10, g.system + 2 * g.dpl + 8 * g.present + 0x10 * high);
    Split(g.pad0 + 0x100 * g.kind, 0x1000, g.system + 2 * g.dpl + 8 * g.present + 0x10 * high);
    Split(g.system, 2, g.dpl + 4 * g.present + 8 * high);
  }

  lemma DecodeHigh(g: GateDesc)
    requires Fits(g)
    ensures var w := Word1(g); w / 0x2000 % 4 == g.dpl && w / 0x8000 % 2 == g.present && w / 0x1_0000 == g.offsetHigh
  {
    var high := g.offsetHigh;
    Split(g.pad0 + 0x100 * g.kind + 0x1000 * g.system, 0x2000, g.dpl + 4 * g.present + 8 * high);
    Split(g.dpl, 4, g.present + 2 * high);
    Split(g.pad0 + 0x100 * g.kind + 0x1000 * g.system + 0x2000 * g.dpl, 0x8000, g.present + 2 * high);
    Split(g.present, 2, high);
    Split(g.pad0 + 0x100 * g.kind + 0x1000 * g.system + 0x2000 * g.dpl + 0x8000 * g.present, 0x1_0000, high);
  }

  lemma Split(low: nat, m: nat, high: nat)
    requires low < m
    ensures (low + m * high) % m == low && (low + m * high) / m == high
  {
    ModUnique(low + m * high, m, high, low);
  }

  /** Lines 11-32 of idt.c; the selector and the privilege level are cut to their fields. */
  function SetGate(kind: nat, selector: uint32, offset: uint32, dpl: uint32): (g: GateDesc)
    requires kind < 0x10
    ensures Fits(g)
  {
    GateDesc(offset % 0x1_0000, selector % 0x1_0000, 0, kind, 0, dpl % 4, 1, offset / 0x1_0000)
  }

  /** The vectors that init_idt names, and the handler of each. */
  datatype Handlers = Handlers(vec: seq<uint32>, sys: uint32, irq: map<nat, uint32>, empty: uint32)

  predicate Linked(h: Handlers) { |h.vec| == 15 && h.irq.Keys == {0, 1, 2, 14} }

  /** The handler the kernel means vector no to have. */
  function HandlerOf(h: Handlers, no: nat): uint32
    requires Linked(h)
  {
    if no < 15 then h.vec[no]
    else if no == 0x80 then h.sys
    else if no in {32, 33, 34, 46} then h.irq[no - 32]
    else h.empty
  }

  function GateOf(h: Handlers, no: nat): (g: GateDesc)
    requires Linked(h)
    ensures Fits(g)
  {
    SetGate(if no in {32, 33, 34, 46} then INTERRUPT_GATE_32 else TRAP_GATE_32, KERNEL_CODE_SELECTOR, HandlerOf(h, no),
            if no == 0x80 then 3 else 0)
  }

  /** A present gate to a handler in the kernel's code segment, for callers of level dpl or less. */
  predicate LeadsTo(g: GateDesc, kind: nat, handler: uint32, dpl: nat) {
    && g.kind == kind && g.dpl == dpl && g.system == 0 && g.present == 1 && g.pad0 == 0
    && g.selector == 8 && 0x1_0000 * g.offsetHigh + g.offsetLow == handler
  }

  /** Lines 57-88. */
  method InitIdt(idt: array<GateDesc>, h: Handlers)
    requires idt.Length == NR_IRQ && Linked(h)
    modifies idt
    ensures forall no: nat | no < NR_IRQ :: idt[no] == GateOf(h, no)
    ensures LeadsTo(idt[32], 0xE, h.irq[0], 0) && LeadsTo(idt[33], 0xE, h.irq[1], 0)
    ensures LeadsTo(idt[34], 0xE, h.irq[2], 0) && LeadsTo(idt[46], 0xE, h.irq[14], 0)
    ensures LeadsTo(idt[0x80], 0xF, h.sys, 3)
    ensures forall no: nat | no < 15 :: LeadsTo(idt[no], 0xF, h.vec[no], 0)
    ensures forall no: nat | 15 <= no < NR_IRQ && no !in {32, 33, 34, 46, 0x80} :: LeadsTo(idt[no], 0xF, h.empty, 0)
  {
    var i := 0;
    while i < NR_IRQ
      invariant i <= NR_IRQ
      invariant forall no: nat | no < i :: idt[no] == SetGate(TRAP_GATE_32, KERNEL_CODE_SELECTOR, h.empty, 0)
    {
      idt[i] := SetGate(TRAP_GATE_32, KERNEL_CODE_SELECTOR, h.empty, 0);
      i := i + 1;
    }
    var v := 0;
    while v < 15
      invariant v <= 15
      invariant forall no: nat | no < NR_IRQ ::
                  idt[no] == SetGate(TRAP_GATE_32, KERNEL_CODE_SELECTOR, if no < v then h.vec[no] else h.empty, 0)
    {
      idt[v] := SetGate(TRAP_GATE_32, KERNEL_CODE_SELECTOR, h.vec[v], 0);
      v := v + 1;
    }
    idt[0x80] := SetGate(TRAP_GATE_32, KERNEL_CODE_SELECTOR, h.sys, 3);
    idt[32 + 0] := SetGate(INTERRUPT_GATE_32, KERNEL_CODE_SELECTOR, h.irq[0], 0);
    idt[32 + 1] := SetGate(INTERRUPT_GATE_32, KERNEL_CODE_SELECTOR, h.irq[1], 0);
    idt[32 + 2] := SetGate(INTERRUPT_GATE_32, KERNEL_CODE_SELECTOR, h.irq[2], 0);
    idt[32 + 14] := SetGate(INTERRUPT_GATE_32, KERNEL_CODE_SELECTOR, h.irq[14], 0);
    hide LeadsTo, GateOf;
    VectorTable(h);
  }

  /** The gates of the kernel's table, vector by vector. */
  lemma VectorTable(h: Handlers)
    requires Linked(h)
    ensures LeadsTo(GateOf(h, 32), 0xE, h.irq[0], 0) && LeadsTo(GateOf(h, 33), 0xE, h.irq[1], 0)
    ensures LeadsTo(GateOf(h, 34), 0xE, h.irq[2], 0) && LeadsTo(GateOf(h, 46), 0xE, h.irq[14], 0)
    ensures LeadsTo(GateOf(h, 0x80), 0xF, h.sys, 3)
    ensures forall no: nat | no < 15 :: LeadsTo(GateOf(h, no), 0xF, h.vec[no], 0)
    ensures forall no: nat | 15 <= no < NR_IRQ && no !in {32, 33, 34, 46, 0x80} ::
              LeadsTo(GateOf(h, no), 0xF, h.empty, 0)
  {
  }

  // ---------- delivery ----------

  type uint16 = n: nat | n < 0x1_0000

  datatype Regs = Regs(esp: uint32, eip: uint32, cs: uint16, eflags: uint32)

  /** IF is bit 9 of EFLAGS. */
  function IfBit(eflags: uint32): nat { eflags / 0x200 % 2 }

  function ClearIf(eflags: uint32): (r: uint32)
    ensures IfBit(r) == 0
    ensures r % 0x200 == eflags % 0x200 && r / 0x400 == eflags / 0x400
  {
    eflags - 0x200 * IfBit(eflags)
  }

  /** (cs << 16) >> 16 on a promoted 16-bit selector: the copy of its top bit stays. */
  function PushedCs(cs: uint16): uint32 { if cs < 0x8000 then cs else cs + 0xffff_0000 }

  function Push(mem: seq<byte>, esp: nat, value: uint32): seq<byte>
    requires 4 <= esp <= |mem|
  {
    Write(mem, esp - 4, 4, value)
  }

  /** Memory with the frame below esp. */
  function WithFrame(mem: seq<byte>, r: Regs): (m: seq<byte>)
    requires 12 <= r.esp <= |mem|
    ensures |m| == |mem|
  {
    Push(Push(Push(mem, r.esp, r.eflags), r.esp - 4, PushedCs(r.cs)), r.esp - 8, r.eip)
  }

  lemma ReadElsewhere(mem: seq<byte>, addr: nat, value: uint32, a: nat)
    requires addr + 4 <= |mem| && a + 4 <= |mem| && Apart(addr, 4, a, 4)
    ensures Read(Write(mem, addr, 4, value), a, 4) == Read(mem, a, 4)
  {
    assert Write(mem, addr, 4, value)[a..a + 4] == mem[a..a + 4];
  }

  lemma ReadWord(mem: seq<byte>, addr: nat, value: uint32)
    requires addr + 4 <= |mem|
    ensures Read(Write(mem, addr, 4, value), addr, 4) == value
  {
    ReadBack(mem, addr, 4, value);
    PowersOf256();
  }

  /** The frame holds EIP, CS and EFLAGS in this order, and nothing else has changed. */
  lemma FrameHolds(mem: seq<byte>, r: Regs)
    requires 12 <= r.esp <= |mem|
    ensures var m := WithFrame(mem, r);
            && Read(m, r.esp - 12, 4) == r.eip && Read(m, r.esp - 8, 4) == PushedCs(r.cs)
            && Read(m, r.esp - 4, 4) == r.eflags
            && ToI32(PushedCs(r.cs)) == (if r.cs < 0x8000 then r.cs as int else r.cs - 0x1_0000)
            && forall k | 0 <= k < |mem| && !(r.esp - 12 <= k < r.esp) :: m[k] == mem[k]
  {
    var m1 := Push(mem, r.esp, r.eflags);
    var m2 := Push(m1, r.esp - 4, PushedCs(r.cs));
    ReadWord(mem, r.esp - 4, r.eflags);
    ReadWord(m1, r.esp - 8, PushedCs(r.cs));
    ReadWord(m2, r.esp - 12, r.eip);
    ReadElsewhere(m1, r.esp - 8, PushedCs(r.cs), r.esp - 4);
    ReadElsewhere(m2, r.esp - 12, r.eip, r.esp - 4);
    ReadElsewhere(m2, r.esp - 12, r.eip, r.esp - 8);
    hide Read;
  }

  /** The gate of vector no, as stored at the IDT base. */
  function GateAt(mem: seq<byte>, base: nat, no: nat): GateDesc
    requires base + 8 * no + 8 <= |mem|
  {
    LittleEndianBound(mem[base + 8 * no..base + 8 * no + 4]);
    LittleEndianBound(mem[base + 8 * no + 4..base + 8 * no + 8]);
    PowersOf256();
    Decode(Read(mem, base + 8 * no, 4), Read(mem, base + 8 * no + 4, 4))
  }

  /** What raise_intr leaves in the registers. */
  function Entered(r: Regs, g: GateDesc): Regs
    requires Fits(g) && r.esp >= 12
  {
    Regs(r.esp - 12, 0x1_0000 * g.offsetHigh + g.offsetLow, g.selector,
         if g.kind == INTERRUPT_GATE_32 then ClearIf(r.eflags) else r.eflags)
  }

  class Cpu {
    var regs: Regs
    var idtrBase: nat
    const hwMem: array<byte>

    constructor (hwMem: array<byte>, regs: Regs, idtrBase: nat)
      ensures this.hwMem == hwMem && this.regs == regs && this.idtrBase == idtrBase
    {
      this.hwMem, this.regs, this.idtrBase := hwMem, regs, idtrBase;
    }

    method PushWord(value: uint32)
      requires 4 <= regs.esp <= hwMem.Length
      modifies this`regs, hwMem
      ensures regs == old(regs).(esp := old(regs).esp - 4)
      ensures hwMem[..] == Push(old(hwMem[..]), old(regs).esp, value)
    {
      regs := regs.(esp := regs.esp - 4);
      HwMemWrite(hwMem, regs.esp, 4, value);
    }

    /** Lines 6-28 of intr.c; the gate is read after the pushes. */
    method RaiseIntr(no: nat)
      requires no < NR_IRQ && 12 <= regs.esp <= hwMem.Length && idtrBase + 8 * no + 8 <= hwMem.Length
      requires GateAt(WithFrame(hwMem[..], regs), idtrBase, no).present == 1
      modifies this`regs, hwMem
      ensures hwMem[..] == WithFrame(old(hwMem[..]), old(regs))
      ensures regs == Entered(old(regs), GateAt(hwMem[..], idtrBase, no))
      ensures var g := GateAt(hwMem[..], idtrBase, no);
              && regs.esp == old(regs).esp - 12 && regs.cs == g.selector
              && regs.eip == 0x1_0000 * g.offsetHigh + g.offsetLow
              && IfBit(regs.eflags) == if g.kind == 0xE then 0 else IfBit(old(regs).eflags)
    {
      hide Read, Write, Decode, ClearIf;
      ghost var r, mem := regs, hwMem[..];
      PushWord(regs.eflags);
      PushWord(PushedCs(regs.cs));
      PushWord(regs.eip);
      assert hwMem[..] == WithFrame(mem, r);
      var addr := idtrBase + 8 * no;
      var w0 := HwMemRead(hwMem, addr, 4);
      var w1 := HwMemRead(hwMem, addr + 4, 4);
      var gate := Decode(w0, w1);
      assert gate.present == 1;
      if gate.kind == INTERRUPT_GATE_32 {
        regs := regs.(eflags := ClearIf(regs.eflags));
      }
      regs := regs.(cs := gate.selector);
      var offset := 0x1_0000 * gate.offsetHigh + gate.offsetLow;
      regs := regs.(eip := offset);
    }

    /** Lines 30-34 of intr.c. */
    method RaiseSwIntr(no: nat)
      requires no < NR_IRQ && 12 <= regs.esp <= hwMem.Length && idtrBase + 8 * no + 8 <= hwMem.Length
      requires GateAt(WithFrame(hwMem[..], regs.(eip := ToU32(regs.eip + 2))), idtrBase, no).present == 1
      modifies this`regs, hwMem
      ensures var r := old(regs).(eip := ToU32(old(regs).eip + 2));
              hwMem[..] == WithFrame(old(hwMem[..]), r) && regs == Entered(r, GateAt(hwMem[..], idtrBase, no))
    {
      regs := regs.(eip := ToU32(regs.eip + 2));
      RaiseIntr(no);
    }

    /** Lines 5-30 of iret.c. */
    method Iret()
      requires regs.esp + 12 <= hwMem.Length && regs.esp + 12 < 0x1_0000_0000
      modifies this`regs
      ensures regs == Returned(old(regs), hwMem[..])
    {
      var esp := regs.esp;
      var eip := HwMemRead(hwMem, esp, 4);
      var cs := HwMemRead(hwMem, esp + 4, 4);
      var eflags := HwMemRead(hwMem, esp + 8, 4);
      regs := Regs(esp + 12, eip, cs % 0x1_0000, eflags);
    }
  }

  function WordAt(mem: seq<byte>, addr: nat): uint32
    requires addr + 4 <= |mem|
  {
    LittleEndianBound(mem[addr..addr + 4]);
    PowersOf256();
    Read(mem, addr, 4)
  }

  function Returned(r: Regs, mem: seq<byte>): Regs
    requires r.esp + 12 <= |mem| && r.esp + 12 < 0x1_0000_0000
  {
    Regs(r.esp + 12, WordAt(mem, r.esp), WordAt(mem, r.esp + 4) % 0x1_0000, WordAt(mem, r.esp + 8))
  }

  /** Whatever a handler does, if it keeps the 12 bytes of the frame and comes back to iret with the
      stack pointer it was entered with, the interrupted program goes on with its own registers. */
  lemma IretUndoesRaise(mem: seq<byte>, r: Regs, g: GateDesc, handled: Regs, mem': seq<byte>)
    requires 12 <= r.esp <= |mem| == |mem'| && Fits(g)
    requires handled.esp == Entered(r, g).esp
    requires forall k: nat | r.esp - 12 <= k < r.esp :: mem'[k] == WithFrame(mem, r)[k]
    ensures Returned(handled, mem') == r
  {
    hide WithFrame, Read;
    FrameHolds(mem, r);
    ReadSame(WithFrame(mem, r), mem', r.esp - 12, 4);
    ReadSame(WithFrame(mem, r), mem', r.esp - 8, 4);
    ReadSame(WithFrame(mem, r), mem', r.esp - 4, 4);
  }

  /** With the table init_idt builds, in memory clear of the stack: which handler each vector enters,
      in the kernel's code segment, and that interrupts go off exactly for the four device vectors. */
  lemma EntersHandler(mem: seq<byte>, base: nat, h: Handlers, no: nat, r: Regs)
    requires Linked(h) && base + 8 * NR_IRQ <= |mem| && no < NR_IRQ
    requires forall v: nat | v < NR_IRQ ::
               && Read(mem, base + 8 * v, 4) == Word0(GateOf(h, v))
               && Read(mem, base + 8 * v + 4, 4) == Word1(GateOf(h, v))
    requires 12 <= r.esp <= |mem| && Apart(r.esp - 12, 12, base, 8 * NR_IRQ)
    ensures var g := GateAt(WithFrame(mem, r), base, no);
            && g.present == 1 && g.dpl == (if no == 0x80 then 3 else 0)
            && Entered(r, g).cs == 8
            && Entered(r, g).eflags == if no in {32, 33, 34, 46} then ClearIf(r.eflags) else r.eflags
    ensures var eip := Entered(r, GateAt(WithFrame(mem, r), base, no)).eip;
            && (no == 32 ==> eip == h.irq[0]) && (no == 33 ==> eip == h.irq[1])
            && (no == 34 ==> eip == h.irq[2]) && (no == 46 ==> eip == h.irq[14])
            && (no < 15 ==> eip == h.vec[no]) && (no == 0x80 ==> eip == h.sys)
            && (no >= 15 && no !in {32, 33, 34, 46, 0x80} ==> eip == h.empty)
  {
    hide ClearIf, HandlerOf, GateOf, WithFrame, GateAt, Read, Word0, Word1, Entered;
    GateIsStored(mem, base, h, no, r);
    GateEnters(h, no, r);
    HandlerIs(h, no);
  }

  lemma HandlerIs(h: Handlers, no: nat)
    requires Linked(h) && no < NR_IRQ
    ensures var eip := HandlerOf(h, no);
            && (no == 32 ==> eip == h.irq[0]) && (no == 33 ==> eip == h.irq[1])
            && (no == 34 ==> eip == h.irq[2]) && (no == 46 ==> eip == h.irq[14])
            && (no < 15 ==> eip == h.vec[no]) && (no == 0x80 ==> eip == h.sys)
            && (no >= 15 && no !in {32, 33, 34, 46, 0x80} ==> eip == h.empty)
  {
  }

  lemma GateEnters(h: Handlers, no: nat, r: Regs)
    requires Linked(h) && no < NR_IRQ && r.esp >= 12
    ensures var g := GateOf(h, no);
            && g.present == 1 && g.dpl == (if no == 0x80 then 3 else 0)
            && Entered(r, g).cs == 8
            && Entered(r, g).eflags == if no in {32, 33, 34, 46} then ClearIf(r.eflags) else r.eflags
    ensures Entered(r, GateOf(h, no)).eip == HandlerOf(h, no)
  {
    hide ClearIf, HandlerOf;
  }

  lemma GateIsStored(mem: seq<byte>, base: nat, h: Handlers, no: nat, r: Regs)
    requires Linked(h) && base + 8 * NR_IRQ <= |mem| && no < NR_IRQ
    requires forall v: nat | v < NR_IRQ ::
               && Read(mem, base + 8 * v, 4) == Word0(GateOf(h, v))
               && Read(mem, base + 8 * v + 4, 4) == Word1(GateOf(h, v))
    requires 12 <= r.esp <= |mem| && Apart(r.esp - 12, 12, base, 8 * NR_IRQ)
    ensures GateAt(WithFrame(mem, r), base, no) == GateOf(h, no)
  {
    hide Word0, Word1, Decode, HandlerOf, GateOf, Fits, WithFrame, Read;
    DecodeWords(GateOf(h, no));
    FrameHolds(mem, r);
    ReadSame(mem, WithFrame(mem, r), base + 8 * no, 4);
    ReadSame(mem, WithFrame(mem, r), base + 8 * no + 4, 4);
  }
}
