/** Linear accesses under paging (nemu/src/memory/memory.c, nemu/src/memory/mmu/page.c), over
    plain physical memory: the emulator's default build has the cache and the TLB off. */
module Paging {
  import opened MachineInts
  import opened Basics
  import opened Bytes
  import opened HwMem

  const PAGE: nat := 0x1000
  const PD_SPAN: nat := 0x40_0000   // one page directory entry maps 4 MB

  /** The translation registers: cr0.pg and cr0.pe both set, and cr3.pdbr. */
  datatype Control = Control(paging: bool, pdbr: nat)

  predicate FrameInMemory(frame: nat) { frame * PAGE + PAGE <= MEM_SIZE }

  /** A present page directory or page table entry, as its page frame. */
  function Frame(mem: seq<byte>, table: nat, index: nat): Option<nat>
    requires |mem| == MEM_SIZE && index < 1024
  {
    if !FrameInMemory(table) then None
    else
      var entry := Read(mem, table * PAGE + index * 4, 4);
      if entry % 2 == 1 then Some(entry / PAGE) else None
  }

  /** Two-level translation of a page number to a frame (section 5.2 of the Intel 80386
      Programmer's Reference Manual); None where the emulator asserts or leaves memory. */
  function FrameOf(mem: seq<byte>, ctl: Control, page: nat): (f: Option<nat>)
    requires |mem| == MEM_SIZE && page < 0x10_0000
    ensures f.Some? ==> FrameInMemory(f.value)
  {
    match Frame(mem, ctl.pdbr, page / 1024)
    case None => None
    case Some(table) =>
      match Frame(mem, table, page % 1024)
      case None => None
      case Some(frame) => if FrameInMemory(frame) then Some(frame) else None
  }

  /** Where the byte at a linear address is. */
  function Physical(mem: seq<byte>, ctl: Control, laddr: uint32): (p: Option<nat>)
    requires |mem| == MEM_SIZE
    ensures p.Some? ==> p.value < MEM_SIZE
  {
    if !ctl.paging then if laddr < MEM_SIZE then Some(laddr) else None
    else
      match FrameOf(mem, ctl, laddr / PAGE)
      case None => None
      case Some(frame) => Some(frame * PAGE + laddr % PAGE)
  }

  /** Every byte of the access is mapped. */
  predicate Mapped(mem: seq<byte>, ctl: Control, laddr: uint32, len: nat)
    requires |mem| == MEM_SIZE
    decreases len
  {
    len == 0 || (Physical(mem, ctl, laddr).Some? && Mapped(mem, ctl, ToU32(laddr + 1), len - 1))
  }

  /** The physical addresses of the bytes of an access, each translated by itself. */
  function Addresses(mem: seq<byte>, ctl: Control, laddr: uint32, len: nat): (addrs: seq<nat>)
    requires |mem| == MEM_SIZE && Mapped(mem, ctl, laddr, len)
    ensures |addrs| == len && Within(addrs, MEM_SIZE)
    decreases len
  {
    if len == 0 then []
    else [Physical(mem, ctl, laddr).value] + Addresses(mem, ctl, ToU32(laddr + 1), len - 1)
  }

  predicate Within(addrs: seq<nat>, size: nat) { forall k | 0 <= k < |addrs| :: addrs[k] < size }

  function Gather(mem: seq<byte>, addrs: seq<nat>): (bytes: seq<byte>)
    requires Within(addrs, |mem|)
    ensures |bytes| == |addrs|
    decreases |addrs|
  {
    if addrs == [] then [] else [mem[addrs[0]]] + Gather(mem, addrs[1..])
  }

  function Scatter(mem: seq<byte>, addrs: seq<nat>, bytes: seq<byte>): (r: seq<byte>)
    requires |bytes| == |addrs| && Within(addrs, |mem|)
    ensures |r| == |mem|
    decreases |addrs|
  {
    if addrs == [] then mem else Scatter(mem[addrs[0] := bytes[0]], addrs[1..], bytes[1..])
  }

  /** Lines 5-22 of page.c: the walk through both tables. */
  method PageTranslate(hwMem: array<byte>, ctl: Control, laddr: uint32) returns (paddr: nat)
    requires hwMem.Length == MEM_SIZE && ctl.paging && Physical(hwMem[..], ctl, laddr).Some?
    ensures paddr == Physical(hwMem[..], ctl, laddr).value
  {
    var dir := laddr / PD_SPAN;
    var page := laddr % PD_SPAN / PAGE;
    var offset := laddr % PAGE;
    SplitLinear(laddr, dir, page, offset);
    WalkParts(hwMem[..], ctl, laddr, dir, page);
    hide Physical, Read;
    var directory := HwMemRead(hwMem, ctl.pdbr * PAGE + dir * 4, 4);
    assert directory % 2 == 1;
    var table := HwMemRead(hwMem, directory / PAGE * PAGE + page * 4, 4);
    assert table % 2 == 1;
    paddr := table / PAGE * PAGE + offset;
  }

  lemma WalkParts(mem: seq<byte>, ctl: Control, laddr: uint32, dir: nat, page: nat)
    requires |mem| == MEM_SIZE && ctl.paging && Physical(mem, ctl, laddr).Some?
    requires dir == laddr / PAGE / 1024 && page == laddr / PAGE % 1024
    ensures ctl.pdbr * PAGE + dir * 4 + 4 <= MEM_SIZE
    ensures var directory := Read(mem, ctl.pdbr * PAGE + dir * 4, 4);
            && directory % 2 == 1 && directory / PAGE * PAGE + page * 4 + 4 <= MEM_SIZE
            && var table := Read(mem, directory / PAGE * PAGE + page * 4, 4);
               table % 2 == 1 && Physical(mem, ctl, laddr) == Some(table / PAGE * PAGE + laddr % PAGE)
  {
    hide Read;
  }

  lemma SplitLinear(laddr: uint32, dir: nat, page: nat, offset: nat)
    requires dir == laddr / PD_SPAN && page == laddr % PD_SPAN / PAGE && offset == laddr % PAGE
    ensures laddr / PAGE / 1024 == dir && laddr / PAGE % 1024 == page && page < 1024
  {
    var rest := laddr % PD_SPAN;
    assert laddr == (dir * 1024 + page) * PAGE + rest % PAGE;
    ModUnique(laddr, PAGE, dir * 1024 + page, rest % PAGE);
    ModUnique(dir * 1024 + page, 1024, dir, page);
  }

  /** A stretch of linear addresses inside one page. */
  ghost predicate InPage(laddr: nat, n: nat) { laddr % PAGE + n <= PAGE && laddr + n <= 0x1_0000_0000 }

  /** Within a page the translated addresses are consecutive. */
  lemma {:induction false} PageIsContiguous(mem: seq<byte>, ctl: Control, laddr: uint32, n: nat)
    requires |mem| == MEM_SIZE && ctl.paging && InPage(laddr, n) && Physical(mem, ctl, laddr).Some?
    ensures Mapped(mem, ctl, laddr, n)
    ensures var p := Physical(mem, ctl, laddr).value;
      p + n <= MEM_SIZE && p % PAGE == laddr % PAGE && Addresses(mem, ctl, laddr, n) == Range(p, n)
    decreases n
  {
    hide FrameOf;
    if n > 1 {
      assert (laddr + 1) / PAGE == laddr / PAGE && (laddr + 1) % PAGE == laddr % PAGE + 1;
      PageIsContiguous(mem, ctl, laddr + 1, n - 1);
    }
  }

  function Range(p: nat, n: nat): (r: seq<nat>)
    ensures |r| == n && forall k | 0 <= k < n :: r[k] == p + k
    decreases n
  {
    if n == 0 then [] else [p] + Range(p + 1, n - 1)
  }

  lemma {:induction false} GatherRange(mem: seq<byte>, p: nat, n: nat)
    requires p + n <= |mem|
    ensures Gather(mem, Range(p, n)) == mem[p..p + n]
    decreases n
  {
    if n > 0 {
      GatherRange(mem, p + 1, n - 1);
      assert Range(p, n)[1..] == Range(p + 1, n - 1);
      assert mem[p..p + n] == [mem[p]] + mem[p + 1..p + 1 + (n - 1)];
    }
  }

  lemma {:induction false} ScatterRange(mem: seq<byte>, p: nat, bytes: seq<byte>)
    requires p + |bytes| <= |mem|
    ensures Scatter(mem, Range(p, |bytes|), bytes) == mem[..p] + bytes + mem[p + |bytes|..]
    decreases |bytes|
  {
    if bytes != [] {
      ScatterRange(mem[p := bytes[0]], p + 1, bytes[1..]);
      assert Range(p, |bytes|)[1..] == Range(p + 1, |bytes| - 1);
    }
  }

  lemma WithinTail(a: seq<nat>, size: nat)
    requires Within(a, size) && a != []
    ensures a[0] < size && Within(a[1..], size)
  {
  }

  lemma GatherCons(mem: seq<byte>, x: nat, a: seq<nat>)
    requires x < |mem| && Within(a, |mem|)
    ensures Within([x] + a, |mem|) && Gather(mem, [x] + a) == [mem[x]] + Gather(mem, a)
  {
    assert ([x] + a)[1..] == a;
  }

  lemma {:induction false} GatherConcat(mem: seq<byte>, a: seq<nat>, b: seq<nat>)
    requires Within(a, |mem|) && Within(b, |mem|)
    ensures Within(a + b, |mem|) && Gather(mem, a + b) == Gather(mem, a) + Gather(mem, b)
    decreases |a|
  {
    if a == [] {
      assert a + b == b;
    } else {
      WithinTail(a, |mem|);
      hide Gather, Within;
      GatherConcat(mem, a[1..], b);
      GatherCons(mem, a[0], a[1..]);
      GatherCons(mem, a[0], a[1..] + b);
      assert a == [a[0]] + a[1..] && a + b == [a[0]] + (a[1..] + b);
    }
  }

  lemma {:induction false} ScatterConcat(mem: seq<byte>, a: seq<nat>, b: seq<nat>, x: seq<byte>, y: seq<byte>)
    requires Within(a, |mem|) && Within(b, |mem|) && |x| == |a| && |y| == |b|
    ensures Within(a + b, |mem|) && Scatter(mem, a + b, x + y) == Scatter(Scatter(mem, a, x), b, y)
    decreases |a|
  {
    if a == [] {
      assert a + b == b && x + y == y;
    } else {
      assert (a + b)[1..] == a[1..] + b && (x + y)[1..] == x[1..] + y;
      ScatterConcat(mem[a[0] := x[0]], a[1..], b, x[1..], y);
    }
  }

  lemma {:induction false} AddressesConcat(mem: seq<byte>, ctl: Control, laddr: uint32, m: nat, n: nat)
    requires |mem| == MEM_SIZE && Mapped(mem, ctl, laddr, m + n) && m + n <= 4
    ensures Mapped(mem, ctl, laddr, m) && Mapped(mem, ctl, ToU32(laddr + m), n)
    ensures Addresses(mem, ctl, laddr, m + n) ==
        Addresses(mem, ctl, laddr, m) + Addresses(mem, ctl, ToU32(laddr + m), n)
    decreases m
  {
    hide Physical, ToU32, Mapped, Addresses;
    if m > 0 {
      WrapOnce(laddr, m);
      AddressesStep(mem, ctl, laddr, m + n);
      AddressesStep(mem, ctl, laddr, m);
      var next := ToU32(laddr + 1);
      AddressesConcat(mem, ctl, next, m - 1, n);
      ConcatAssoc([Physical(mem, ctl, laddr).value], Addresses(mem, ctl, next, m - 1),
                  Addresses(mem, ctl, ToU32(laddr + m), n));
    } else {
      AddressesNone(mem, ctl, laddr, m);
      assert ToU32(laddr + m) == laddr;
    }
  }

  lemma AddressesStep(mem: seq<byte>, ctl: Control, laddr: uint32, n: nat)
    requires |mem| == MEM_SIZE && n > 0
    ensures Mapped(mem, ctl, laddr, n) <==> Physical(mem, ctl, laddr).Some? && Mapped(mem, ctl, ToU32(laddr + 1), n - 1)
    ensures Mapped(mem, ctl, laddr, n) ==>
              Addresses(mem, ctl, laddr, n) ==
                [Physical(mem, ctl, laddr).value] + Addresses(mem, ctl, ToU32(laddr + 1), n - 1)
  {
  }

  lemma AddressesNone(mem: seq<byte>, ctl: Control, laddr: uint32, n: nat)
    requires |mem| == MEM_SIZE && n == 0
    ensures Mapped(mem, ctl, laddr, n) && Addresses(mem, ctl, laddr, n) == []
  {
  }

  lemma WrapOnce(laddr: uint32, m: nat)
    requires 0 < m <= 4
    ensures ToU32(ToU32(laddr + 1) + (m - 1)) == ToU32(laddr + m)
  {
  }

  // ---------- the accesses ----------

  /** The value of the individually translated bytes. */
  function LinearRead(mem: seq<byte>, ctl: Control, laddr: uint32, len: nat): nat
    requires |mem| == MEM_SIZE && Mapped(mem, ctl, laddr, len)
  {
    LittleEndian(Gather(mem, Addresses(mem, ctl, laddr, len)))
  }

  /** Memory with the bytes of data at their individually translated addresses. */
  function LinearWrite(mem: seq<byte>, ctl: Control, laddr: uint32, len: nat, data: nat): (r: seq<byte>)
    requires |mem| == MEM_SIZE && Mapped(mem, ctl, laddr, len)
    ensures |r| == MEM_SIZE
  {
    Scatter(mem, Addresses(mem, ctl, laddr, len), BytesOf(data, len))
  }

  predicate Length(len: nat) { len == 1 || len == 2 || len == 4 }

  /** The test on bit 12 finds exactly the accesses that leave their page. */
  predicate BitTest(laddr: uint32, len: nat) {
    var newLaddr := ToU32(laddr + len - 1);
    laddr / PAGE % 2 != newLaddr / PAGE % 2
  }

  lemma BitTestIsExact(laddr: uint32, len: nat)
    requires 1 <= len <= 4
    ensures BitTest(laddr, len) <==> laddr % PAGE + len > PAGE
  {
    var page, off := laddr / PAGE, laddr % PAGE;
    assert laddr == PAGE * page + off;
    if off + len <= PAGE {
      assert laddr + len - 1 == PAGE * page + (off + len - 1);
    } else if page < 0xf_ffff {
      assert laddr + len - 1 == PAGE * (page + 1) + (off + len - 1 - PAGE);
      assert (page + 1) % 2 != page % 2;
    } else {
      assert ToU32(laddr + len - 1) == off + len - 1 - PAGE;
    }
  }

  /** A stretch at consecutive physical addresses is a plain access there. */
  lemma RangeAccess(mem: seq<byte>, ctl: Control, laddr: uint32, n: nat, p: nat, data: nat)
    requires |mem| == MEM_SIZE && Mapped(mem, ctl, laddr, n) && p + n <= MEM_SIZE
    requires Addresses(mem, ctl, laddr, n) == Range(p, n)
    ensures LinearRead(mem, ctl, laddr, n) == Read(mem, p, n)
    ensures LinearWrite(mem, ctl, laddr, n, data) == Write(mem, p, n, data)
  {
    GatherRange(mem, p, n);
    ScatterRange(mem, p, BytesOf(data, n));
  }

  lemma {:induction false} WithinPage(mem: seq<byte>, ctl: Control, laddr: uint32, n: nat, data: nat)
    requires |mem| == MEM_SIZE && ctl.paging && n >= 1 && laddr % PAGE + n <= PAGE && Mapped(mem, ctl, laddr, n)
    ensures Physical(mem, ctl, laddr).Some?
    ensures var p := Physical(mem, ctl, laddr).value;
      && p + n <= MEM_SIZE && p % PAGE == laddr % PAGE
      && LinearRead(mem, ctl, laddr, n) == Read(mem, p, n)
      && LinearWrite(mem, ctl, laddr, n, data) == Write(mem, p, n, data)
      && Addresses(mem, ctl, laddr, n) == Range(p, n)
  {
    PageFits(laddr, n);
    assert Physical(mem, ctl, laddr).Some?;
    hide Physical, Read, Write, Addresses, Mapped, LinearRead, LinearWrite;
    PageIsContiguous(mem, ctl, laddr, n);
    RangeAccess(mem, ctl, laddr, n, Physical(mem, ctl, laddr).value, data);
  }

  lemma PageFits(laddr: uint32, n: nat)
    requires laddr % PAGE + n <= PAGE
    ensures laddr + n <= 0x1_0000_0000
  {
  }

  lemma {:induction false} Untranslated(mem: seq<byte>, ctl: Control, laddr: uint32, n: nat)
    requires |mem| == MEM_SIZE && !ctl.paging && n >= 1 && Mapped(mem, ctl, laddr, n)
    ensures laddr + n <= MEM_SIZE && Addresses(mem, ctl, laddr, n) == Range(laddr, n)
    decreases n
  {
    if n > 1 {
      Untranslated(mem, ctl, ToU32(laddr + 1), n - 1);
    } else {
      assert Addresses(mem, ctl, ToU32(laddr + 1), 0) == [];
    }
  }

  /** The two parts of an access, at p and q, make up the access. */
  ghost predicate SplitsAs(mem: seq<byte>, ctl: Control, laddr: uint32, m: nat, n: nat, data: nat, p: nat, q: nat)
    requires |mem| == MEM_SIZE && Mapped(mem, ctl, laddr, m + n)
  {
    && p + m <= |mem| && q + n <= |mem| && p % PAGE + m == PAGE && q % PAGE == 0
    && ReadsAs(mem, ctl, laddr, m, n, p, q)
    && Addresses(mem, ctl, laddr, m + n) == Range(p, m) + Range(q, n)
    && WritesAs(mem, ctl, laddr, m, n, data, p, q)
  }

  ghost predicate ReadsAs(mem: seq<byte>, ctl: Control, laddr: uint32, m: nat, n: nat, p: nat, q: nat)
    requires |mem| == MEM_SIZE && Mapped(mem, ctl, laddr, m + n) && p + m <= |mem| && q + n <= |mem|
  {
    LinearRead(mem, ctl, laddr, m + n) == Read(mem, p, m) + Pow256(m) * Read(mem, q, n)
  }

  ghost predicate WritesAs(mem: seq<byte>, ctl: Control, laddr: uint32, m: nat, n: nat, data: nat, p: nat, q: nat)
    requires |mem| == MEM_SIZE && Mapped(mem, ctl, laddr, m + n) && p + m <= |mem| && q + n <= |mem|
  {
    LinearWrite(mem, ctl, laddr, m + n, data) == Write(Write(mem, p, m, data), q, n, HighBytes(data, m))
  }

  /** An access that leaves its page is two accesses within pages. */
  lemma {:induction false} Crossing(mem: seq<byte>, ctl: Control, laddr: uint32, m: nat, n: nat, data: nat)
    requires |mem| == MEM_SIZE && ctl.paging && 1 <= m && 1 <= n && m + n <= 4
    requires laddr % PAGE + m == PAGE && Mapped(mem, ctl, laddr, m + n)
    ensures Physical(mem, ctl, laddr).Some? && Physical(mem, ctl, ToU32(laddr + m)).Some?
    ensures SplitsAs(mem, ctl, laddr, m, n, data,
                     Physical(mem, ctl, laddr).value, Physical(mem, ctl, ToU32(laddr + m)).value)
  {
    hide Physical, Read, Write, Mapped, Addresses, LinearRead, LinearWrite, ReadsAs, WritesAs, Range;
    var next := ToU32(laddr + m);
    NextPage(laddr, m);
    AddressesConcat(mem, ctl, laddr, m, n);
    WithinPage(mem, ctl, laddr, m, data);
    WithinPage(mem, ctl, next, n, HighBytes(data, m));
    JoinedAccess(mem, ctl, laddr, m, n, data, Physical(mem, ctl, laddr).value, Physical(mem, ctl, next).value);
  }

  lemma NextPage(laddr: uint32, m: nat)
    requires laddr % PAGE + m == PAGE
    ensures ToU32(laddr + m) % PAGE == 0
  {
    var k := laddr / PAGE;
    assert laddr + m == (k + 1) * PAGE;
    ModUnique(laddr + m, PAGE, k + 1, 0);
  }

  lemma JoinedAccess(mem: seq<byte>, ctl: Control, laddr: uint32, m: nat, n: nat, data: nat, p: nat, q: nat)
    requires |mem| == MEM_SIZE && Mapped(mem, ctl, laddr, m + n) && p + m <= |mem| && q + n <= |mem|
    requires Addresses(mem, ctl, laddr, m + n) == Range(p, m) + Range(q, n)
    ensures ReadsAs(mem, ctl, laddr, m, n, p, q)
    ensures WritesAs(mem, ctl, laddr, m, n, data, p, q)
  {
    hide Write, Gather, Scatter, Mapped, Addresses, LittleEndian, Pow256, BytesOf, HighBytes;
    var a, b := Range(p, m), Range(q, n);
    GatherConcat(mem, a, b);
    GatherRange(mem, p, m);
    GatherRange(mem, q, n);
    LittleEndianConcat(Gather(mem, a), Gather(mem, b));
    BytesOfSplit(data, m, n);
    ScatterConcat(mem, a, b, BytesOf(data, m), BytesOf(HighBytes(data, m), n));
    ScatterWrites(mem, p, m, data);
    ScatterWrites(Scatter(mem, a, BytesOf(data, m)), q, n, HighBytes(data, m));
  }

  lemma {:induction false} ScatterWrites(mem: seq<byte>, p: nat, n: nat, data: nat)
    requires p + n <= |mem|
    ensures Scatter(mem, Range(p, n), BytesOf(data, n)) == Write(mem, p, n, data)
  {
    ScatterRange(mem, p, BytesOf(data, n));
  }

  /** Line 47. */
  method LaddrRead(hwMem: array<byte>, ctl: Control, laddr: uint32, len: nat) returns (value: uint32)
    requires Length(len) && hwMem.Length == MEM_SIZE && Mapped(hwMem[..], ctl, laddr, len)
    ensures value == LinearRead(hwMem[..], ctl, laddr, len)
  {
    hide Physical, Read;
    BitTestIsExact(laddr, len);
    if ctl.paging {
      var newLaddr := ToU32(laddr + len - 1);
      var before, after := laddr / PAGE % 2, newLaddr / PAGE % 2;
      if before != after {
        var lineEnd := laddr / PAGE * PAGE + 0xfff;
        var lenL := lineEnd - laddr + 1;
        var lenH := len - lenL;
        Crossing(hwMem[..], ctl, laddr, lenL, lenH, 0);
        var hwAddrL := PageTranslate(hwMem, ctl, laddr);
        var hwAddrH := PageTranslate(hwMem, ctl, ToU32(laddr + lenL));
        var dataL := HwMemRead(hwMem, hwAddrL, lenL);
        var dataH := HwMemRead(hwMem, hwAddrH, lenH);
        JoinParts(dataL, dataH, lenL, lenH);
        value := CutTo(dataL + Shl(dataH, lenL), len);
      } else {
        WithinPage(hwMem[..], ctl, laddr, len, 0);
        var hwAddr := PageTranslate(hwMem, ctl, laddr);
        value := HwMemRead(hwMem, hwAddr, len);
      }
    } else {
      Untranslated(hwMem[..], ctl, laddr, len);
      RangeAccess(hwMem[..], ctl, laddr, len, laddr, 0);
      value := HwMemRead(hwMem, laddr, len);
    }
  }

  /** Line 79. */
  method LaddrWrite(hwMem: array<byte>, ctl: Control, laddr: uint32, len: nat, data: uint32)
    requires Length(len) && hwMem.Length == MEM_SIZE && Mapped(hwMem[..], ctl, laddr, len)
    modifies hwMem
    ensures hwMem[..] == LinearWrite(old(hwMem[..]), ctl, laddr, len, data)
  {
    hide Physical, Write;
    BitTestIsExact(laddr, len);
    if ctl.paging {
      var newLaddr := ToU32(laddr + len - 1);
      var before, after := laddr / PAGE % 2, newLaddr / PAGE % 2;
      if before != after {
        var lineEnd := laddr / PAGE * PAGE + 0xfff;
        var lenL := lineEnd - laddr + 1;
        var lenH := len - lenL;
        Crossing(hwMem[..], ctl, laddr, lenL, lenH, data);
        var hwAddrL := PageTranslate(hwMem, ctl, laddr);
        var hwAddrH := PageTranslate(hwMem, ctl, ToU32(laddr + lenL));
        var dataL := CutTo(data, 4 - lenH);
        var dataH := HighBytes(data, lenL);
        LowPart(data, lenL, lenH, hwMem[..], hwAddrL);
        HwMemWrite(hwMem, hwAddrL, lenL, dataL);
        HwMemWrite(hwMem, hwAddrH, lenH, dataH);
      } else {
        WithinPage(hwMem[..], ctl, laddr, len, data);
        var hwAddr := PageTranslate(hwMem, ctl, laddr);
        HwMemWrite(hwMem, hwAddr, len, data);
      }
    } else {
      Untranslated(hwMem[..], ctl, laddr, len);
      RangeAccess(hwMem[..], ctl, laddr, len, laddr, data);
      HwMemWrite(hwMem, laddr, len, data);
    }
  }

  /** The part of data that goes to the first page, whatever is left above it. */
  lemma LowPart(data: uint32, m: nat, n: nat, mem: seq<byte>, p: nat)
    requires 1 <= m && 1 <= n && m + n <= 4 && p + m <= |mem|
    ensures Write(mem, p, m, CutTo(data, 4 - n)) == Write(mem, p, m, data)
  {
    CutToKeeps(data, 4 - n);
    BytesOfMod(data, m, 4 - n);
  }

  // ---------- reading back ----------

  lemma {:induction false} GatherScatter(mem: seq<byte>, addrs: seq<nat>, bytes: seq<byte>)
    requires |bytes| == |addrs| && Within(addrs, |mem|) && Distinct(addrs)
    ensures Gather(Scatter(mem, addrs, bytes), addrs) == bytes
    decreases |addrs|
  {
    if addrs != [] {
      GatherScatter(mem[addrs[0] := bytes[0]], addrs[1..], bytes[1..]);
      ScatterKeeps(mem[addrs[0] := bytes[0]], addrs[1..], bytes[1..], addrs[0]);
    }
  }

  lemma {:induction false} ScatterKeeps(mem: seq<byte>, addrs: seq<nat>, bytes: seq<byte>, a: nat)
    requires |bytes| == |addrs| && Within(addrs, |mem|) && a < |mem| && a !in addrs
    ensures Scatter(mem, addrs, bytes)[a] == mem[a]
    decreases |addrs|
  {
    if addrs != [] { ScatterKeeps(mem[addrs[0] := bytes[0]], addrs[1..], bytes[1..], a); }
  }

  /** No two bytes of an access share an address, even when its two pages share a frame. */
  lemma {:induction false} AddressesDistinct(mem: seq<byte>, ctl: Control, laddr: uint32, len: nat)
    requires Length(len) && |mem| == MEM_SIZE && Mapped(mem, ctl, laddr, len)
    ensures Distinct(Addresses(mem, ctl, laddr, len))
  {
    hide Physical, Addresses, Mapped, Read, Write, LinearRead, LinearWrite;
    if !ctl.paging {
      Untranslated(mem, ctl, laddr, len);
    } else if laddr % PAGE + len <= PAGE {
      WithinPage(mem, ctl, laddr, len, 0);
    } else {
      var m := PAGE - laddr % PAGE;
      Crossing(mem, ctl, laddr, m, len - m, 0);
      var p, q := Physical(mem, ctl, laddr).value, Physical(mem, ctl, ToU32(laddr + m)).value;
      DifferentOffsets(p, q, m, len - m);
    }
  }

  lemma DifferentOffsets(p: nat, q: nat, m: nat, n: nat)
    requires 1 <= m && 1 <= n && m + n <= 4 && p % PAGE + m == PAGE && q % PAGE == 0
    ensures Distinct(Range(p, m) + Range(q, n))
  {
    assert p + m <= q || q + n <= p by {
      var f, g := p / PAGE, q / PAGE;
      assert p == PAGE * f + p % PAGE && q == PAGE * g;
      if f < g { assert PAGE * (f + 1) <= PAGE * g; } else { assert PAGE * g <= PAGE * f; }
    }
  }

  // ---------- accesses that leave their own translation alone ----------

  /** The byte at a belongs to the entry that index selects in table. */
  predicate InEntry(table: nat, index: nat, a: nat) { table * PAGE + index * 4 <= a < table * PAGE + index * 4 + 4 }

  /** The translation of page reads the byte at a. */
  predicate WalkReads(mem: seq<byte>, ctl: Control, page: nat, a: nat)
    requires |mem| == MEM_SIZE && page < 0x10_0000
  {
    || InEntry(ctl.pdbr, page / 1024, a)
    || var f := Frame(mem, ctl.pdbr, page / 1024); f.Some? && InEntry(f.value, page % 1024, a)
  }

  /** None of the addresses lies in a table entry that translating these linear addresses reads. */
  ghost predicate Clear(mem: seq<byte>, ctl: Control, laddr: uint32, len: nat, addrs: seq<nat>)
    requires |mem| == MEM_SIZE
    decreases len
  {
    len == 0
    || ((ctl.paging ==> forall a | a in addrs :: !WalkReads(mem, ctl, laddr / PAGE, a))
        && Clear(mem, ctl, ToU32(laddr + 1), len - 1, addrs))
  }

  /** No byte of the access lies in a table entry that its own translation reads. */
  ghost predicate ClearOfTables(mem: seq<byte>, ctl: Control, laddr: uint32, len: nat)
    requires |mem| == MEM_SIZE && Mapped(mem, ctl, laddr, len)
  {
    Clear(mem, ctl, laddr, len, Addresses(mem, ctl, laddr, len))
  }

  lemma FrameUnchanged(mem: seq<byte>, mem': seq<byte>, table: nat, index: nat)
    requires |mem| == |mem'| == MEM_SIZE && index < 1024
    requires forall a | 0 <= a < MEM_SIZE && InEntry(table, index, a) :: mem'[a] == mem[a]
    ensures Frame(mem', table, index) == Frame(mem, table, index)
  {
    if FrameInMemory(table) {
      var p := table * PAGE + index * 4;
      assert mem'[p..p + 4] == mem[p..p + 4];
    }
  }

  lemma PhysicalUnchanged(mem: seq<byte>, mem': seq<byte>, ctl: Control, laddr: uint32)
    requires |mem| == |mem'| == MEM_SIZE
    requires forall a | 0 <= a < MEM_SIZE && ctl.paging && WalkReads(mem, ctl, laddr / PAGE, a) :: mem'[a] == mem[a]
    ensures Physical(mem', ctl, laddr) == Physical(mem, ctl, laddr)
  {
    hide Frame;
    if ctl.paging {
      var page := laddr / PAGE;
      FrameUnchanged(mem, mem', ctl.pdbr, page / 1024);
      var f := Frame(mem, ctl.pdbr, page / 1024);
      if f.Some? { FrameUnchanged(mem, mem', f.value, page % 1024); }
    }
  }

  lemma {:induction false} AddressesUnchanged(mem: seq<byte>, mem': seq<byte>, ctl: Control, laddr: uint32, len: nat,
                                              addrs: seq<nat>)
    requires |mem| == |mem'| == MEM_SIZE && Mapped(mem, ctl, laddr, len) && Clear(mem, ctl, laddr, len, addrs)
    requires forall a | 0 <= a < MEM_SIZE && a !in addrs :: mem'[a] == mem[a]
    ensures Mapped(mem', ctl, laddr, len) && Addresses(mem', ctl, laddr, len) == Addresses(mem, ctl, laddr, len)
    decreases len
  {
    if len > 0 {
      PhysicalUnchanged(mem, mem', ctl, laddr);
      AddressesUnchanged(mem, mem', ctl, ToU32(laddr + 1), len - 1, addrs);
    }
  }

  /** The write leaves the translation of its own bytes as it was. */
  ghost predicate KeepsTranslation(mem: seq<byte>, ctl: Control, laddr: uint32, len: nat, data: uint32)
    requires |mem| == MEM_SIZE && Mapped(mem, ctl, laddr, len)
  {
    var after := LinearWrite(mem, ctl, laddr, len, data);
    Mapped(after, ctl, laddr, len) && Addresses(after, ctl, laddr, len) == Addresses(mem, ctl, laddr, len)
  }

  /** Writing and then reading a linear address gives the data cut to the length, whenever the
      write leaves the translation of its own bytes as it was. */
  lemma LinearReadBack(mem: seq<byte>, ctl: Control, laddr: uint32, len: nat, data: uint32)
    requires Length(len) && |mem| == MEM_SIZE && Mapped(mem, ctl, laddr, len) &&
        KeepsTranslation(mem, ctl, laddr, len, data)
    ensures var after := LinearWrite(mem, ctl, laddr, len, data);
      Mapped(after, ctl, laddr, len) && LinearRead(after, ctl, laddr, len) == data % Pow256(len)
  {
    var addrs := Addresses(mem, ctl, laddr, len);
    hide Physical, Scatter, Gather, Addresses, Mapped;
    AddressesDistinct(mem, ctl, laddr, len);
    GatherScatter(mem, addrs, BytesOf(data, len));
    RoundTrip(data, len);
  }

  /** It does so in particular when no byte of the access lies in an entry its translation reads. */
  lemma ClearKeepsTranslation(mem: seq<byte>, ctl: Control, laddr: uint32, len: nat, data: uint32)
    requires |mem| == MEM_SIZE && Mapped(mem, ctl, laddr, len) && ClearOfTables(mem, ctl, laddr, len)
    ensures KeepsTranslation(mem, ctl, laddr, len, data)
  {
    var addrs := Addresses(mem, ctl, laddr, len);
    var after := LinearWrite(mem, ctl, laddr, len, data);
    hide Physical, WalkReads, Scatter, Addresses, Mapped, Clear;
    forall a | 0 <= a < MEM_SIZE && a !in addrs ensures after[a] == mem[a] {
      ScatterKeeps(mem, addrs, BytesOf(data, len), a);
    }
    AddressesUnchanged(mem, after, ctl, laddr, len, addrs);
  }
}
