/** The kernel's page tables (kernel/src/memory/kvm.c, mm.c, vmem.c), stored in the emulator's
    memory and read back by the emulator's own walk.  Tables are named by their physical address. */
module PageTables {
  import opened MachineInts
  import opened Basics
  import opened Bytes
  import opened HwMem
  import opened Paging

  const KOFFSET: nat := 0xC000_0000
  const NR_PDE: nat := 1024
  const NR_PTE: nat := 1024
  const VMEM_ADDR: nat := 0xa0000
  const VMEM_PAGE: nat := 0xa0        // VMEM_ADDR / PAGE
  const SCR_SIZE: nat := 320 * 200
  const LOW_PDES: nat := 32          // MEM_SIZE / PD_SPAN
  const HIGH_PDE: nat := 768         // KOFFSET / PD_SPAN
  const FRAMES: nat := 0x8000         // FRAMES
  const HIGH_PAGE: nat := 0xC_0000    // KOFFSET / PAGE
  const KPT_SIZE: nat := 4 * FRAMES

  /** make_pde and make_pte. */
  function MakeEntry(addr: uint32): uint32 { addr / PAGE * PAGE + 7 }

  function Entry(mem: seq<byte>, table: nat, i: nat): nat
    requires table + 4 * i + 4 <= |mem|
  {
    Read(mem, table + 4 * i, 4)
  }

  /** A page-aligned static array inside physical memory. */
  predicate Placed(table: nat, size: nat) { table % PAGE == 0 && table + size <= MEM_SIZE }

  /** Bytes outside [a, a + n) are as before. */
  ghost predicate SameOutside(mem: seq<byte>, mem': seq<byte>, a: nat, n: nat) {
    |mem'| == |mem| && forall k: nat | k < |mem| && !(a <= k < a + n) :: mem'[k] == mem[k]
  }

  lemma EntryKept(mem: seq<byte>, mem': seq<byte>, a: nat, n: nat, table: nat, i: nat)
    requires SameOutside(mem, mem', a, n) && table + 4 * i + 4 <= |mem| && Apart(a, n, table + 4 * i, 4)
    ensures Entry(mem', table, i) == Entry(mem, table, i)
  {
    ReadSame(mem, mem', table + 4 * i, 4);
  }

  /** A table elsewhere keeps its entries. */
  lemma EntriesKept(mem: seq<byte>, mem': seq<byte>, a: nat, n: nat, table: nat, entries: nat)
    requires SameOutside(mem, mem', a, n) && table + 4 * entries <= |mem| && Apart(a, n, table, 4 * entries)
    ensures forall i: nat | i < entries :: Entry(mem', table, i) == Entry(mem, table, i)
  {
    forall i: nat | i < entries ensures Entry(mem', table, i) == Entry(mem, table, i) {
      ReadSame(mem, mem', table + 4 * i, 4);
    }
  }

  /** Storing a word. */
  method Store(hwMem: array<byte>, addr: nat, value: uint32)
    requires hwMem.Length == MEM_SIZE && addr + 4 <= MEM_SIZE
    modifies hwMem
    ensures Read(hwMem[..], addr, 4) == value && SameOutside(old(hwMem[..]), hwMem[..], addr, 4)
  {
    hide Read, Write, Pow256;
    HwMemWrite(hwMem, addr, 4, value);
    ReadBack(old(hwMem[..]), addr, 4, value);
    PowersOf256();
    WrittenOutside(old(hwMem[..]), addr, value);
  }

  lemma WrittenOutside(mem: seq<byte>, addr: nat, value: uint32)
    requires addr + 4 <= |mem|
    ensures SameOutside(mem, Write(mem, addr, 4, value), addr, 4)
  {
    hide BytesOf;
  }

  method Memset(hwMem: array<byte>, dst: nat, n: nat)
    requires dst + n <= hwMem.Length
    modifies hwMem
    ensures SameOutside(old(hwMem[..]), hwMem[..], dst, n)
    ensures forall k | dst <= k < dst + n :: hwMem[k] == 0
  {
    var i := 0;
    while i < n
      invariant i <= n
      invariant forall k | 0 <= k < hwMem.Length :: hwMem[k] == if dst <= k < dst + i then 0 else old(hwMem[k])
    {
      hwMem[dst + i] := 0;
      i := i + 1;
    }
  }

  ghost predicate Copied(mem: seq<byte>, mem': seq<byte>, dst: nat, src: nat, n: nat) {
    && |mem'| == |mem| && dst + n <= |mem| && src + n <= |mem|
    && forall k: nat | dst <= k < dst + n :: mem'[k] == mem[src + (k - dst)]
  }

  method Memcpy(hwMem: array<byte>, dst: nat, src: nat, n: nat)
    requires dst + n <= hwMem.Length && src + n <= hwMem.Length && Apart(dst, n, src, n)
    modifies hwMem
    ensures SameOutside(old(hwMem[..]), hwMem[..], dst, n)
    ensures Copied(old(hwMem[..]), hwMem[..], dst, src, n)
  {
    var i := 0;
    while i < n
      invariant i <= n
      invariant forall k | 0 <= k < hwMem.Length ::
                  hwMem[k] == if dst <= k < dst + i then old(hwMem[src + (k - dst)]) else old(hwMem[k])
    {
      hwMem[dst + i] := hwMem[src + i];
      i := i + 1;
    }
  }

  lemma ZeroEntries(mem: seq<byte>, table: nat, entries: nat)
    requires table + 4 * entries <= |mem| && forall k | table <= k < table + 4 * entries :: mem[k] == 0
    ensures forall i: nat | i < entries :: Entry(mem, table, i) == 0
  {
    forall i: nat | i < entries ensures Entry(mem, table, i) == 0 {
      var a := table + 4 * i;
      assert mem[a..a + 4] == [0, 0, 0, 0];
      assert LittleEndian([0, 0, 0, 0]) == 0;
    }
  }

  // ---------- init_page ----------

  ghost predicate DirectoryUpTo(mem: seq<byte>, pdir: nat, ptable: nat, n: nat)
    requires pdir + 4 * NR_PDE <= |mem| && ptable + KPT_SIZE <= 0x1_0000_0000 && n <= LOW_PDES
  {
    forall i: nat | i < NR_PDE ::
      Entry(mem, pdir, i) ==
        if i < n then MakeEntry(ptable + i * PAGE)
        else if HIGH_PDE <= i < HIGH_PDE + n then MakeEntry(ptable + (i - HIGH_PDE) * PAGE)
        else 0
  }

  ghost predicate TableUpTo(mem: seq<byte>, ptable: nat, n: nat)
    requires ptable + 4 * n <= |mem| && n <= FRAMES
  {
    forall k: nat | k < n :: Entry(mem, ptable, k) == MakeEntry(k * PAGE)
  }

  /** Lines 27-32: one page table. */
  method FillTable(hwMem: array<byte>, base: nat, frame: nat) returns (ptable: nat, pframe: nat)
    requires hwMem.Length == MEM_SIZE && base + 4 * (frame + NR_PTE) <= MEM_SIZE && frame + NR_PTE <= FRAMES
    requires TableUpTo(hwMem[..], base, frame)
    modifies hwMem
    ensures pframe == frame + NR_PTE && ptable == base + 4 * pframe
    ensures TableUpTo(hwMem[..], base, pframe)
    ensures SameOutside(old(hwMem[..]), hwMem[..], base, 4 * pframe)
  {
    ptable, pframe := base + 4 * frame, frame;
    var ptableIdx := 0;
    while ptableIdx < NR_PTE
      invariant ptableIdx <= NR_PTE && pframe == frame + ptableIdx && ptable == base + 4 * pframe
      invariant TableUpTo(hwMem[..], base, pframe)
      invariant SameOutside(old(hwMem[..]), hwMem[..], base, 4 * pframe)
    {
      ghost var before := hwMem[..];
      Store(hwMem, ptable, MakeEntry(pframe * PAGE));
      EntriesKept(before, hwMem[..], ptable, 4, base, pframe);
      pframe := pframe + 1;
      ptable := ptable + 4;
      ptableIdx := ptableIdx + 1;
    }
  }

  /** Lines 25-26: the two entries of page table n, which starts at ptable. */
  method FillDirectory(hwMem: array<byte>, pdir: nat, ptable: nat, n: nat, ghost base: nat)
    requires hwMem.Length == MEM_SIZE && pdir + 4 * NR_PDE <= MEM_SIZE && base + KPT_SIZE <= MEM_SIZE && n < LOW_PDES
    requires DirectoryUpTo(hwMem[..], pdir, base, n) && ptable == base + n * PAGE
    modifies hwMem
    ensures DirectoryUpTo(hwMem[..], pdir, base, n + 1)
    ensures SameOutside(old(hwMem[..]), hwMem[..], pdir, 4 * NR_PDE)
  {
    ghost var m0 := hwMem[..];
    Store(hwMem, pdir + 4 * n, MakeEntry(ptable));
    ghost var m1 := hwMem[..];
    Store(hwMem, pdir + 4 * (n + HIGH_PDE), MakeEntry(ptable));
    EntryStored(m0, m1, pdir, n, MakeEntry(ptable));
    EntryStored(m1, hwMem[..], pdir, n + HIGH_PDE, MakeEntry(ptable));
    hide Entry, MakeEntry;
  }

  /** Storing entry n of a table. */
  lemma EntryStored(mem: seq<byte>, mem': seq<byte>, table: nat, n: nat, value: uint32)
    requires table + 4 * NR_PDE <= |mem| && n < NR_PDE && SameOutside(mem, mem', table + 4 * n, 4) &&
        Read(mem', table + 4 * n, 4) == value
    ensures forall i: nat | i < NR_PDE :: Entry(mem', table, i) == if i == n then value else Entry(mem, table, i)
    ensures SameOutside(mem, mem', table, 4 * NR_PDE)
  {
    forall i: nat | i < NR_PDE ensures Entry(mem', table, i) == if i == n then value else Entry(mem, table, i) {
      if i != n { ReadSame(mem, mem', table + 4 * i, 4); }
    }
  }

  /** Where the linker put the kernel's tables. */
  predicate KernelLayout(kpdir: nat, kptable: nat) {
    Placed(kpdir, 4 * NR_PDE) && Placed(kptable, KPT_SIZE) && Apart(kpdir, 4 * NR_PDE, kptable, KPT_SIZE)
  }

  ghost predicate KernelTables(mem: seq<byte>, kpdir: nat, kptable: nat)
    requires |mem| == MEM_SIZE && KernelLayout(kpdir, kptable)
  {
    DirectoryUpTo(mem, kpdir, kptable, LOW_PDES) && TableUpTo(mem, kptable, FRAMES)
  }

  /** Lines 12-44 of kvm.c. */
  method InitPage(hwMem: array<byte>, kpdir: nat, kptable: nat) returns (ctl: Control)
    requires hwMem.Length == MEM_SIZE && KernelLayout(kpdir, kptable)
    modifies hwMem
    ensures ctl == Control(true, kpdir / PAGE) && KernelTables(hwMem[..], kpdir, kptable)
    ensures forall k: nat
              | k < MEM_SIZE && !(kpdir <= k < kpdir + 4 * NR_PDE) && !(kptable <= k < kptable + KPT_SIZE) ::
              hwMem[k] == old(hwMem[k])
  {
    Memset(hwMem, kpdir, 4 * NR_PDE);
    ZeroEntries(hwMem[..], kpdir, NR_PDE);
    var pframe, pdirIdx, ptable := 0, 0, kptable;
    while pdirIdx < LOW_PDES
      invariant pdirIdx <= LOW_PDES && pframe == pdirIdx * NR_PTE && ptable == kptable + 4 * pframe
      invariant DirectoryUpTo(hwMem[..], kpdir, kptable, pdirIdx) && TableUpTo(hwMem[..], kptable, pframe)
      invariant forall k: nat
                  | k < MEM_SIZE && !(kpdir <= k < kpdir + 4 * NR_PDE) && !(kptable <= k < kptable + KPT_SIZE) ::
                  hwMem[k] == old(hwMem[k])
    {
      ghost var m0 := hwMem[..];
      FillDirectory(hwMem, kpdir, ptable, pdirIdx, kptable);
      ghost var m1 := hwMem[..];
      EntriesKept(m0, m1, kpdir, 4 * NR_PDE, kptable, pframe);
      ptable, pframe := FillTable(hwMem, kptable, pframe);
      EntriesKept(m1, hwMem[..], kptable, 4 * pframe, kpdir, NR_PDE);
      pdirIdx := pdirIdx + 1;
    }
    ctl := Control(true, kpdir / PAGE);
  }

  // ---------- init_mm and create_video_mapping ----------

  /** Lines 23-34 of mm.c. */
  method InitMm(hwMem: array<byte>, kpdir: nat, updir: nat) returns (ucr3: nat)
    requires hwMem.Length == MEM_SIZE && Placed(kpdir, 4 * NR_PDE) && Placed(updir, 4 * NR_PDE)
    requires Apart(kpdir, 4 * NR_PDE, updir, 4 * NR_PDE)
    modifies hwMem
    ensures ucr3 / PAGE == updir / PAGE && SameOutside(old(hwMem[..]), hwMem[..], updir, 4 * NR_PDE)
    ensures forall i: nat | i < NR_PDE :: Entry(hwMem[..], updir, i) ==
              if HIGH_PDE <= i < HIGH_PDE + LOW_PDES then Entry(old(hwMem[..]), kpdir, i) else 0
  {
    ghost var m0 := hwMem[..];
    Memset(hwMem, updir, 4 * NR_PDE);
    ghost var m1 := hwMem[..];
    ZeroEntries(m1, updir, NR_PDE);
    Memcpy(hwMem, updir + 4 * HIGH_PDE, kpdir + 4 * HIGH_PDE, 4 * LOW_PDES);
    ghost var m2 := hwMem[..];
    SameOutsideTwice(m0, m1, m2, updir, 4 * NR_PDE, updir + 4 * HIGH_PDE, 4 * LOW_PDES);
    UserEntries(m0, m1, m2, kpdir, updir);
    ucr3 := updir / 0x400 * 0x400;
    SameFrame(updir);
  }

  lemma SameFrame(a: nat)
    ensures a / 0x400 * 0x400 / PAGE == a / PAGE
  {
    var q, r := a / PAGE, a % PAGE / 0x400;
    var s := a % PAGE % 0x400;
    assert a == (4 * q + r) * 0x400 + s;
    ModUnique(a, 0x400, 4 * q + r, s);
    ModUnique((4 * q + r) * 0x400, PAGE, q, r * 0x400);
  }

  lemma SameOutsideTwice(m0: seq<byte>, m1: seq<byte>, m2: seq<byte>, a: nat, n: nat, b: nat, k: nat)
    requires SameOutside(m0, m1, a, n) && SameOutside(m1, m2, b, k) && a <= b && b + k <= a + n
    ensures SameOutside(m0, m2, a, n)
  {
  }

  /** The directory after clearing all of it and copying the kernel's high entries. */
  lemma UserEntries(m0: seq<byte>, m1: seq<byte>, m2: seq<byte>, kpdir: nat, updir: nat)
    requires |m0| == |m1| == |m2| == MEM_SIZE && Placed(kpdir, 4 * NR_PDE) && Placed(updir, 4 * NR_PDE)
    requires Apart(kpdir, 4 * NR_PDE, updir, 4 * NR_PDE) && SameOutside(m0, m1, updir, 4 * NR_PDE)
    requires forall i: nat | i < NR_PDE :: Entry(m1, updir, i) == 0
    requires SameOutside(m1, m2, updir + 4 * HIGH_PDE, 4 * LOW_PDES)
    requires Copied(m1, m2, updir + 4 * HIGH_PDE, kpdir + 4 * HIGH_PDE, 4 * LOW_PDES)
    ensures forall i: nat | i < NR_PDE ::
              Entry(m2, updir, i) == if HIGH_PDE <= i < HIGH_PDE + LOW_PDES then Entry(m0, kpdir, i) else 0
  {
    hide Entry, Copied, SameOutside;
    forall i: nat | i < NR_PDE
      ensures Entry(m2, updir, i) == if HIGH_PDE <= i < HIGH_PDE + LOW_PDES then Entry(m0, kpdir, i) else 0
    {
      if HIGH_PDE <= i < HIGH_PDE + LOW_PDES {
        CopiedEntry(m0, m1, m2, updir, kpdir, i);
      } else {
        EntryKept(m1, m2, updir + 4 * HIGH_PDE, 4 * LOW_PDES, updir, i);
      }
    }
  }

  lemma CopiedEntry(m0: seq<byte>, m1: seq<byte>, m2: seq<byte>, updir: nat, kpdir: nat, i: nat)
    requires |m0| == |m1| == |m2| == MEM_SIZE && HIGH_PDE <= i < HIGH_PDE + LOW_PDES
    requires updir + 4 * NR_PDE <= MEM_SIZE && kpdir + 4 * NR_PDE <= MEM_SIZE &&
        Apart(kpdir, 4 * NR_PDE, updir, 4 * NR_PDE)
    requires SameOutside(m0, m1, updir, 4 * NR_PDE)
    requires Copied(m1, m2, updir + 4 * HIGH_PDE, kpdir + 4 * HIGH_PDE, 4 * LOW_PDES)
    ensures Entry(m2, updir, i) == Entry(m0, kpdir, i)
  {
    var a, b := updir + 4 * i, kpdir + 4 * i;
    assert m2[a] == m1[b] && m2[a + 1] == m1[b + 1] && m2[a + 2] == m1[b + 2] && m2[a + 3] == m1[b + 3];
    assert m2[a..a + 4] == [m2[a], m2[a + 1], m2[a + 2], m2[a + 3]];
    assert m1[b..b + 4] == [m1[b], m1[b + 1], m1[b + 2], m1[b + 3]];
    ReadSame(m0, m1, b, 4);
  }

  /** The page holds part of the screen. */
  predicate OnScreen(page: nat) { VMEM_ADDR <= page * PAGE < VMEM_ADDR + SCR_SIZE }

  lemma ScreenPages(page: nat)
    ensures OnScreen(page) <==> VMEM_PAGE <= page < VMEM_PAGE + 16
  {
  }

  /** The first n pages of the screen are entered. */
  ghost predicate ScreenUpTo(mem: seq<byte>, mem': seq<byte>, vgatable: nat, n: nat)
    requires |mem| == |mem'| == MEM_SIZE && vgatable + 4 * NR_PTE <= MEM_SIZE
  {
    forall k: nat | k < NR_PTE ::
      Entry(mem', vgatable, k) ==
        if VMEM_PAGE <= k < VMEM_PAGE + n then MakeEntry(k * PAGE) else Entry(mem, vgatable, k)
  }

  /** What create_video_mapping does to memory. */
  ghost predicate VideoMapped(mem: seq<byte>, mem': seq<byte>, updir: nat, vgatable: nat)
    requires |mem| == |mem'| == MEM_SIZE && updir + 4 * NR_PDE <= MEM_SIZE && vgatable + 4 * NR_PTE <= MEM_SIZE
  {
    && (forall i: nat | i < NR_PDE ::
        Entry(mem', updir, i) == if i == 0 then MakeEntry(vgatable) else Entry(mem, updir, i))
    && (forall k: nat | k < NR_PTE ::
        Entry(mem', vgatable, k) == if OnScreen(k) then MakeEntry(k * PAGE) else Entry(mem, vgatable, k))
    && (forall k: nat
          | k < MEM_SIZE && !(updir <= k < updir + 4 * NR_PDE) && !(vgatable <= k < vgatable + 4 * NR_PTE) ::
          mem'[k] == mem[k])
  }

  /** Lines 25-30 of vmem.c. */
  method FillScreen(hwMem: array<byte>, vgatable: nat)
    requires hwMem.Length == MEM_SIZE && vgatable + 4 * NR_PTE <= MEM_SIZE
    modifies hwMem
    ensures ScreenUpTo(old(hwMem[..]), hwMem[..], vgatable, 16) &&
        SameOutside(old(hwMem[..]), hwMem[..], vgatable, 4 * NR_PTE)
  {
    hide Entry, MakeEntry;
    ghost var m0 := hwMem[..];
    var pframe, i := VMEM_ADDR, 0;
    while i < (PAGE + SCR_SIZE - 1) / PAGE
      invariant i <= 16 && pframe == (VMEM_PAGE + i) * PAGE
      invariant ScreenUpTo(m0, hwMem[..], vgatable, i) && SameOutside(m0, hwMem[..], vgatable, 4 * NR_PTE)
    {
      ghost var before := hwMem[..];
      Store(hwMem, vgatable + 4 * (VMEM_ADDR / PAGE + i), MakeEntry(pframe));
      EntryStored(before, hwMem[..], vgatable, VMEM_PAGE + i, MakeEntry(pframe));
      pframe := pframe + PAGE;
      i := i + 1;
    }
  }

  /** Lines 12-31 of vmem.c. */
  method CreateVideoMapping(hwMem: array<byte>, updir: nat, vgatable: nat)
    requires hwMem.Length == MEM_SIZE && Placed(updir, 4 * NR_PDE) && Placed(vgatable, 4 * NR_PTE)
    requires Apart(updir, 4 * NR_PDE, vgatable, 4 * NR_PTE)
    modifies hwMem
    ensures VideoMapped(old(hwMem[..]), hwMem[..], updir, vgatable)
  {
    ghost var m0 := hwMem[..];
    Store(hwMem, updir, MakeEntry(vgatable));
    ghost var m1 := hwMem[..];
    EntryStored(m0, m1, updir, 0, MakeEntry(vgatable));
    EntriesKept(m0, m1, updir, 4, vgatable, NR_PTE);
    hide Entry, MakeEntry, OnScreen;
    FillScreen(hwMem, vgatable);
    EntriesKept(m1, hwMem[..], vgatable, 4 * NR_PTE, updir, NR_PDE);
    forall k: nat | k < NR_PTE ensures OnScreen(k) <==> VMEM_PAGE <= k < VMEM_PAGE + 16 { ScreenPages(k); }
  }

  // ---------- what the walk finds ----------

  /** An entry names the page frame; its page is present, writable and the user's. */
  lemma MadeEntry(addr: uint32)
    requires addr % PAGE == 0
    ensures MakeEntry(addr) % 2 == 1 && MakeEntry(addr) / PAGE == addr / PAGE && MakeEntry(addr) % PAGE == 7
  {
    ModUnique(addr / PAGE * PAGE + 7, PAGE, addr / PAGE, 7);
  }

  lemma FrameOfEntry(mem: seq<byte>, table: nat, i: nat)
    requires |mem| == MEM_SIZE && i < 1024 && Placed(table, 4 * 1024)
    ensures Frame(mem, table / PAGE, i) ==
              if Entry(mem, table, i) % 2 == 1 then Some(Entry(mem, table, i) / PAGE) else None
  {
  }

  /** One step of the walk. */
  lemma Entered(mem: seq<byte>, pdir: nat, page: nat)
    requires |mem| == MEM_SIZE && Placed(pdir, 4 * NR_PDE) && page < 0x10_0000
    ensures var entry := Entry(mem, pdir, page / 1024);
            FrameOf(mem, Control(true, pdir / PAGE), page) ==
              if entry % 2 == 0 then None
              else match Frame(mem, entry / PAGE, page % 1024)
                   case None => None
                   case Some(frame) => if FrameInMemory(frame) then Some(frame) else None
  {
  }

  lemma KernelEntry(kptable: nat, t: nat)
    requires Placed(kptable, KPT_SIZE) && t < LOW_PDES
    ensures MakeEntry(kptable + t * PAGE) % 2 == 1 && MakeEntry(kptable + t * PAGE) / PAGE == kptable / PAGE + t
  {
    var k := kptable / PAGE + t;
    var entry := k * PAGE + 7;
    assert kptable + t * PAGE == k * PAGE;
    ModUnique(k * PAGE, PAGE, k, 0);
    assert MakeEntry(kptable + t * PAGE) == entry;
    ModUnique(entry, PAGE, k, 7);
    ModUnique(entry, 2, k * 2048 + 3, 1);
  }

  lemma KernelTableEntry(mem: seq<byte>, kptable: nat, t: nat, j: nat)
    requires |mem| == MEM_SIZE && Placed(kptable, KPT_SIZE) && t < LOW_PDES && j < 1024 &&
        TableUpTo(mem, kptable, FRAMES)
    ensures Frame(mem, kptable / PAGE + t, j) == Some(1024 * t + j)
  {
    var table := kptable + t * PAGE;
    ModUnique(table, PAGE, kptable / PAGE + t, 0);
    assert Entry(mem, table, j) == Entry(mem, kptable, 1024 * t + j);
    hide Entry, MakeEntry;
    assert Entry(mem, kptable, 1024 * t + j) == MakeEntry((1024 * t + j) * PAGE);
    hide TableUpTo;
    ModUnique((1024 * t + j) * PAGE, PAGE, 1024 * t + j, 0);
    MadeEntry((1024 * t + j) * PAGE);
    FrameOfEntry(mem, table, j);
  }

  /** A directory entry that points to the kernel's page table t. */
  lemma ThroughKernelTable(mem: seq<byte>, pdir: nat, page: nat, kptable: nat, t: nat)
    requires |mem| == MEM_SIZE && Placed(pdir, 4 * NR_PDE) && page < 0x10_0000
    requires Placed(kptable, KPT_SIZE) && t < LOW_PDES && TableUpTo(mem, kptable, FRAMES)
    requires Entry(mem, pdir, page / 1024) == MakeEntry(kptable + t * PAGE)
    ensures FrameOf(mem, Control(true, pdir / PAGE), page) == Some(1024 * t + page % 1024)
  {
    hide Entry, MakeEntry, Frame, FrameOf, TableUpTo;
    Entered(mem, pdir, page);
    KernelEntry(kptable, t);
    KernelTableEntry(mem, kptable, t, page % 1024);
  }

  lemma SplitPage(page: nat)
    ensures var i, j := page / 1024, page % 1024;
            && page == 1024 * i + j && j < 1024
            && (i < LOW_PDES <==> page < FRAMES)
            && (HIGH_PDE <= i < HIGH_PDE + LOW_PDES <==> HIGH_PAGE <= page < HIGH_PAGE + FRAMES)
            && (i < HIGH_PDE ==> page < HIGH_PAGE)
  {
  }

  lemma KernelEntries(mem: seq<byte>, kpdir: nat, kptable: nat, i: nat)
    requires |mem| == MEM_SIZE && KernelLayout(kpdir, kptable) && KernelTables(mem, kpdir, kptable) && i < NR_PDE
    ensures Entry(mem, kpdir, i) == if i < LOW_PDES then MakeEntry(kptable + i * PAGE)
      else if HIGH_PDE <= i < HIGH_PDE + LOW_PDES then MakeEntry(kptable + (i - HIGH_PDE) * PAGE) else 0
    ensures TableUpTo(mem, kptable, FRAMES)
  {
    hide Entry, MakeEntry, TableUpTo;
  }

  lemma KernelFrame(mem: seq<byte>, kpdir: nat, kptable: nat, page: nat)
    requires |mem| == MEM_SIZE && KernelLayout(kpdir, kptable) && KernelTables(mem, kpdir, kptable) && page < 0x10_0000
    ensures FrameOf(mem, Control(true, kpdir / PAGE), page) ==
              if page < FRAMES then Some(page)
              else if HIGH_PAGE <= page < HIGH_PAGE + FRAMES then Some(page - HIGH_PAGE) else None
  {
    var i := page / 1024;
    KernelEntries(mem, kpdir, kptable, i);
    hide Entry, MakeEntry, TableUpTo, DirectoryUpTo, KernelTables, FrameOf, Frame;
    SplitPage(page);
    if i < LOW_PDES {
      ThroughKernelTable(mem, kpdir, page, kptable, i);
    } else if HIGH_PDE <= i < HIGH_PDE + LOW_PDES {
      ThroughKernelTable(mem, kpdir, page, kptable, i - HIGH_PDE);
    } else {
      Entered(mem, kpdir, page);
    }
  }

  lemma KernelTablesKept(mem: seq<byte>, mem': seq<byte>, kpdir: nat, kptable: nat)
    requires |mem| == |mem'| == MEM_SIZE && KernelLayout(kpdir, kptable) && KernelTables(mem, kpdir, kptable)
    requires forall k: nat | kpdir <= k < kpdir + 4 * NR_PDE || kptable <= k < kptable + KPT_SIZE :: mem'[k] == mem[k]
    ensures KernelTables(mem', kpdir, kptable)
  {
    forall i: nat | i < NR_PDE ensures Entry(mem', kpdir, i) == Entry(mem, kpdir, i) {
      ReadSame(mem, mem', kpdir + 4 * i, 4);
    }
    forall k: nat | k < FRAMES ensures Entry(mem', kptable, k) == Entry(mem, kptable, k) {
      ReadSame(mem, mem', kptable + 4 * k, 4);
    }
    hide Entry, MakeEntry;
  }

  /** Under the kernel's tables the low 128 MB are mapped to themselves, the 128 MB from KOFFSET to
      the same frames, and nothing else is present. */
  lemma KernelMapping(mem: seq<byte>, kpdir: nat, kptable: nat, laddr: uint32)
    requires |mem| == MEM_SIZE && KernelLayout(kpdir, kptable) && KernelTables(mem, kpdir, kptable)
    ensures Physical(mem, Control(true, kpdir / PAGE), laddr) ==
              if laddr < 0x800_0000 then Some(laddr)
              else if 0xC000_0000 <= laddr < 0xC800_0000 then Some(laddr - 0xC000_0000) else None
  {
    KernelFrame(mem, kpdir, kptable, laddr / PAGE);
    hide FrameOf;
  }

  /** The user's directory: the kernel's high half, and the video table for the lowest 4 MB. */
  ghost predicate UserTables(mem: seq<byte>, updir: nat, kptable: nat, vgatable: nat)
    requires |mem| == MEM_SIZE && Placed(updir, 4 * NR_PDE) && Placed(kptable, KPT_SIZE) && Placed(vgatable, 4 * NR_PTE)
  {
    && (forall i: nat | i < NR_PDE :: Entry(mem, updir, i) ==
          if i == 0 then MakeEntry(vgatable)
          else if HIGH_PDE <= i < HIGH_PDE + LOW_PDES then MakeEntry(kptable + (i - HIGH_PDE) * PAGE) else 0)
    && (forall k: nat | k < NR_PTE :: Entry(mem, vgatable, k) ==
          if OnScreen(k) then MakeEntry(k * PAGE) else 0)
    && TableUpTo(mem, kptable, FRAMES)
  }

  lemma ThroughVideoTable(mem: seq<byte>, updir: nat, vgatable: nat, page: nat)
    requires |mem| == MEM_SIZE && Placed(updir, 4 * NR_PDE) && Placed(vgatable, 4 * NR_PTE) && page < NR_PTE
    requires Entry(mem, updir, 0) == MakeEntry(vgatable)
    requires Entry(mem, vgatable, page) == if OnScreen(page) then MakeEntry(page * PAGE) else 0
    ensures FrameOf(mem, Control(true, updir / PAGE), page) == if OnScreen(page) then Some(page) else None
  {
    hide Entry, MakeEntry, Frame, FrameOf, OnScreen;
    ScreenPages(page);
    MadeEntry(vgatable);
    MadeEntry(page * PAGE);
    FrameOfEntry(mem, vgatable, page);
    Entered(mem, updir, page);
  }

  lemma UserFrame(mem: seq<byte>, updir: nat, kptable: nat, vgatable: nat, page: nat)
    requires |mem| == MEM_SIZE && Placed(updir, 4 * NR_PDE) && Placed(kptable, KPT_SIZE) && Placed(vgatable, 4 * NR_PTE)
    requires UserTables(mem, updir, kptable, vgatable) && page < 0x10_0000
    ensures FrameOf(mem, Control(true, updir / PAGE), page) ==
              if OnScreen(page) then Some(page)
              else if HIGH_PAGE <= page < HIGH_PAGE + FRAMES then Some(page - HIGH_PAGE) else None
  {
    var i := page / 1024;
    assert Entry(mem, updir, i) == if i == 0 then MakeEntry(vgatable)
      else if HIGH_PDE <= i < HIGH_PDE + LOW_PDES then MakeEntry(kptable + (i - HIGH_PDE) * PAGE) else 0;
    assert TableUpTo(mem, kptable, FRAMES);
    SplitPage(page);
    if i == 0 {
      assert Entry(mem, vgatable, page) == if OnScreen(page) then MakeEntry(page * PAGE) else 0;
      hide Entry, MakeEntry, TableUpTo, UserTables, FrameOf, Frame;
      ThroughVideoTable(mem, updir, vgatable, page);
    } else {
      hide Entry, MakeEntry, TableUpTo, UserTables, FrameOf, Frame;
      if HIGH_PDE <= i < HIGH_PDE + LOW_PDES {
        ThroughKernelTable(mem, updir, page, kptable, i - HIGH_PDE);
      } else {
        Entered(mem, updir, page);
      }
    }
  }

  /** Under the user's tables the 16 pages of the screen are mapped to themselves, the 128 MB from
      KOFFSET as in the kernel, and nothing else is present. */
  lemma UserMapping(mem: seq<byte>, updir: nat, kptable: nat, vgatable: nat, laddr: uint32)
    requires |mem| == MEM_SIZE && Placed(updir, 4 * NR_PDE) && Placed(kptable, KPT_SIZE) && Placed(vgatable, 4 * NR_PTE)
    requires UserTables(mem, updir, kptable, vgatable)
    ensures Physical(mem, Control(true, updir / PAGE), laddr) ==
              if 0xA_0000 <= laddr < 0xB_0000 then Some(laddr)
              else if 0xC000_0000 <= laddr < 0xC800_0000 then Some(laddr - 0xC000_0000) else None
  {
    UserFrame(mem, updir, kptable, vgatable, laddr / PAGE);
    ScreenPages(laddr / PAGE);
    hide FrameOf, OnScreen;
  }

  /** Whatever programs are mapped already, create_video_mapping changes the lowest 4 MB only. */
  lemma VideoElsewhere(mem: seq<byte>, mem': seq<byte>, updir: nat, vgatable: nat, page: nat)
    requires |mem| == |mem'| == MEM_SIZE && Placed(updir, 4 * NR_PDE) && Placed(vgatable, 4 * NR_PTE)
    requires VideoMapped(mem, mem', updir, vgatable) && 1024 <= page < 0x10_0000
    requires var entry := Entry(mem, updir, page / 1024);
             entry % 2 == 1 ==> entry / PAGE !in {updir / PAGE, vgatable / PAGE}
    ensures FrameOf(mem', Control(true, updir / PAGE), page) == FrameOf(mem, Control(true, updir / PAGE), page)
  {
    var i, entry := page / 1024, Entry(mem, updir, page / 1024);
    assert Entry(mem', updir, i) == entry;
    if entry % 2 == 1 && FrameInMemory(entry / PAGE) {
      FramesApart(entry / PAGE, page % 1024, updir);
      FramesApart(entry / PAGE, page % 1024, vgatable);
      ReadSame(mem, mem', entry / PAGE * PAGE + page % 1024 * 4, 4);
    }
    assert entry % 2 == 1 ==> Frame(mem', entry / PAGE, page % 1024) == Frame(mem, entry / PAGE, page % 1024);
    hide FrameOf, Entry, Frame, VideoMapped, MakeEntry;
    Entered(mem, updir, page);
    Entered(mem', updir, page);
  }

  lemma FramesApart(table: nat, j: nat, b: nat)
    requires b % PAGE == 0 && table != b / PAGE && j < 1024
    ensures Apart(table * PAGE + j * 4, 4, b, PAGE)
  {
  }

  /** From the kernel's tables in m1 over the user directory in m2 to both address spaces in m3. */
  lemma AllTables(m1: seq<byte>, m2: seq<byte>, m3: seq<byte>, kpdir: nat, kptable: nat,
                  updir: nat, vgatable: nat)
    requires |m1| == |m2| == |m3| == MEM_SIZE && KernelLayout(kpdir, kptable)
    requires Placed(updir, 4 * NR_PDE) && Placed(vgatable, 4 * NR_PTE)
    requires Apart(updir, 4 * NR_PDE, vgatable, 4 * NR_PTE)
    requires Apart(updir, 4 * NR_PDE, kpdir, 4 * NR_PDE) && Apart(updir, 4 * NR_PDE, kptable, KPT_SIZE)
    requires Apart(vgatable, 4 * NR_PTE, kpdir, 4 * NR_PDE) && Apart(vgatable, 4 * NR_PTE, kptable, KPT_SIZE)
    requires KernelTables(m1, kpdir, kptable) && forall k: nat | k < NR_PTE :: Entry(m1, vgatable, k) == 0
    requires SameOutside(m1, m2, updir, 4 * NR_PDE) && VideoMapped(m2, m3, updir, vgatable)
    requires forall i: nat | i < NR_PDE ::
               Entry(m2, updir, i) == if HIGH_PDE <= i < HIGH_PDE + LOW_PDES then Entry(m1, kpdir, i) else 0
    ensures KernelTables(m3, kpdir, kptable) && UserTables(m3, updir, kptable, vgatable)
  {
    KernelTablesKept(m1, m2, kpdir, kptable);
    EntriesKept(m1, m2, updir, 4 * NR_PDE, vgatable, NR_PTE);
    KernelTablesKept(m2, m3, kpdir, kptable);
    hide Entry, MakeEntry;
  }

  /** main.c:27, main.c:68 and elf.c:64 in turn, on a machine whose video table is still zero and
      with no program mapped: both address spaces, for every linear address. */
  method BuildMappings(hwMem: array<byte>, kpdir: nat, kptable: nat, updir: nat, vgatable: nat)
    returns (kernel: Control, user: Control)
    requires hwMem.Length == MEM_SIZE && KernelLayout(kpdir, kptable) && Placed(updir, 4 * NR_PDE) &&
        Placed(vgatable, 4 * NR_PTE)
    requires Apart(updir, 4 * NR_PDE, vgatable, 4 * NR_PTE)
    requires Apart(updir, 4 * NR_PDE, kpdir, 4 * NR_PDE) && Apart(updir, 4 * NR_PDE, kptable, KPT_SIZE)
    requires Apart(vgatable, 4 * NR_PTE, kpdir, 4 * NR_PDE) && Apart(vgatable, 4 * NR_PTE, kptable, KPT_SIZE)
    requires forall k | vgatable <= k < vgatable + 4 * NR_PTE :: hwMem[k] == 0
    modifies hwMem
    ensures forall laddr: uint32 {:trigger Physical(hwMem[..], kernel, laddr)} :: Physical(hwMem[..], kernel, laddr) ==
              if laddr < 0x800_0000 then Some(laddr)
              else if 0xC000_0000 <= laddr < 0xC800_0000 then Some(laddr - 0xC000_0000) else None
    ensures forall laddr: uint32 {:trigger Physical(hwMem[..], user, laddr)} :: Physical(hwMem[..], user, laddr) ==
              if 0xA_0000 <= laddr < 0xB_0000 then Some(laddr)
              else if 0xC000_0000 <= laddr < 0xC800_0000 then Some(laddr - 0xC000_0000) else None
  {
    kernel := InitPage(hwMem, kpdir, kptable);
    ghost var m1 := hwMem[..];
    ZeroEntries(m1, vgatable, NR_PTE);
    hide FrameOf, Entry, MakeEntry, KernelTables, UserTables, VideoMapped;
    var ucr3 := InitMm(hwMem, kpdir, updir);
    ghost var m2 := hwMem[..];
    CreateVideoMapping(hwMem, updir, vgatable);
    ghost var m3 := hwMem[..];
    AllTables(m1, m2, m3, kpdir, kptable, updir, vgatable);
    user := Control(true, ucr3 / PAGE);
    forall laddr: uint32 {:trigger Physical(m3, kernel, laddr)}
      ensures Physical(m3, kernel, laddr) ==
                if laddr < 0x800_0000 then Some(laddr)
                else if 0xC000_0000 <= laddr < 0xC800_0000 then Some(laddr - 0xC000_0000) else None
    {
      KernelMapping(m3, kpdir, kptable, laddr);
    }
    forall laddr: uint32 {:trigger Physical(m3, user, laddr)}
      ensures Physical(m3, user, laddr) ==
                if 0xA_0000 <= laddr < 0xB_0000 then Some(laddr)
                else if 0xC000_0000 <= laddr < 0xC800_0000 then Some(laddr - 0xC000_0000) else None
    {
      UserMapping(m3, updir, kptable, vgatable, laddr);
    }
  }
}
