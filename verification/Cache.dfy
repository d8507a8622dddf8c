/** The 8-way write-through cache (nemu/src/memory/cache.c): no sequence of reads and writes can
    tell it from flat memory, whichever lines the random replacement throws out. */
module Cache {
  import opened MachineInts
  import opened Basics
  import opened Bytes
  import opened HwMem

  const LINES: nat := 1024
  const MARK_SPAN: nat := 0x2000    // bytes between addresses of one set: 128 sets of 64 bytes

  datatype CacheLine = CacheLine(valid: bool, mark: uint32, data: seq<byte>)

  /** The memory address that line i holds. */
  function LineBase(i: nat, mark: nat): nat { mark * MARK_SPAN + i / 8 * 64 }

  /** Write-through: the line equals its 64 bytes of memory. */
  ghost predicate Coherent(i: nat, line: CacheLine, mem: seq<byte>) {
    var base := LineBase(i, line.mark);
    base + 64 <= |mem| && line.data == mem[base..base + 64]
  }

  /** The invariant of every cache step: valid lines are coherent, and no two valid ways of a
      set carry the same mark. */
  ghost predicate Consistent(lines: seq<CacheLine>, mem: seq<byte>) {
    && |lines| == LINES && |mem| == MEM_SIZE
    && (forall i | 0 <= i < LINES :: |lines[i].data| == 64)
    && (forall i | 0 <= i < LINES && lines[i].valid :: Coherent(i, lines[i], mem))
    && (forall i, j | 0 <= i < j < LINES && i / 8 == j / 8 && lines[i].valid && lines[j].valid ::
        lines[i].mark != lines[j].mark)
  }

  function LowAddr(paddr: nat): nat { paddr % 64 }
  function Mark(paddr: nat): nat { paddr / MARK_SPAN }
  function Group(paddr: nat): (g: nat) ensures g < 128 { paddr % MARK_SPAN / 64 }

  /** Line i holds the line of memory that paddr is in. */
  predicate Holds(lines: seq<CacheLine>, i: nat, paddr: nat) {
    i < |lines| && i / 8 == Group(paddr) && lines[i].valid && lines[i].mark == Mark(paddr)
  }

  ghost predicate Cached(lines: seq<CacheLine>, paddr: nat) { exists i: nat :: Holds(lines, i, paddr) }

  /** The line of memory that paddr is in. */
  function LineOf(mem: seq<byte>, paddr: nat): (line: seq<byte>)
    requires |mem| == MEM_SIZE && paddr < MEM_SIZE
    ensures |line| == 64
  {
    mem[paddr / 64 * 64..paddr / 64 * 64 + 64]
  }

  lemma AddressParts(paddr: nat, i: nat)
    requires i / 8 == Group(paddr)
    ensures LineBase(i, Mark(paddr)) + LowAddr(paddr) == paddr
    ensures LineBase(i, Mark(paddr)) == paddr / 64 * 64
    ensures paddr < MEM_SIZE ==> LineBase(i, Mark(paddr)) + 64 <= MEM_SIZE
  {
    var m, g, l := paddr / MARK_SPAN, paddr % MARK_SPAN / 64, paddr % MARK_SPAN % 64;
    assert paddr == 64 * (128 * m + g) + l;
    ModUnique(paddr, 64, 128 * m + g, l);
  }

  /** Two lines with the same base have the same set and mark. */
  lemma BaseDetermines(i: nat, j: nat, m: nat, n: nat)
    requires i < LINES && j < LINES
    ensures LineBase(i, m) == LineBase(j, n) ==> i / 8 == j / 8 && m == n
    ensures LineBase(i, m) != LineBase(j, n) ==>
              LineBase(i, m) + 64 <= LineBase(j, n) || LineBase(j, n) + 64 <= LineBase(i, m)
  {
  }

  class CacheUnit {
    const hwMem: array<byte>
    const cache: array<CacheLine>

    ghost predicate Valid()
      reads hwMem, cache
    {
      Consistent(cache[..], hwMem[..])
    }

    constructor (hwMem: array<byte>, cache: array<CacheLine>)
      ensures this.hwMem == hwMem && this.cache == cache
    {
      this.hwMem, this.cache := hwMem, cache;
    }

    /** Line 12. */
    method InitCache()
      requires hwMem.Length == MEM_SIZE && cache.Length == LINES
      requires forall i | 0 <= i < LINES :: |cache[i].data| == 64
      modifies cache
      ensures Valid() && forall i | 0 <= i < LINES :: !cache[i].valid
    {
      var i := 0;
      while i < 1024
        invariant i <= 1024
        invariant forall k | 0 <= k < LINES :: |cache[k].data| == 64
        invariant forall k | 0 <= k < i :: !cache[k].valid
      {
        cache[i] := cache[i].(valid := false);
        i := i + 1;
      }
    }

    /** Lines 25-29: the first way of the set that holds paddr, or 8. */
    method FindWay(paddr: nat) returns (way: nat)
      requires cache.Length == LINES
      ensures way <= 8
      ensures way < 8 ==> Holds(cache[..], Group(paddr) * 8 + way, paddr)
      ensures way == 8 ==> !Cached(cache[..], paddr)
    {
      var start, mark := Group(paddr) * 8, Mark(paddr);
      way := 0;
      while way < 8
        invariant way <= 8
        invariant forall i | start <= i < start + way :: !Holds(cache[..], i, paddr)
      {
        if cache[start + way].valid {
          if mark == cache[start + way].mark { return; }
        }
        way := way + 1;
      }
      assert forall i: nat | i / 8 == Group(paddr) :: start <= i < start + 8;
    }

    /** Lines 38-43: n bytes of a line, from low on. */
    method ReadLine(line: nat, low: nat, n: nat) returns (value: uint32)
      requires line < cache.Length && low + n <= |cache[line].data| && n <= 4
      ensures value == LittleEndian(cache[line].data[low..low + n]) && value < Pow256(n)
    {
      value := 0;
      ghost var data := cache[line].data;
      PowersOf256();
      assert LittleEndian(data[low..low]) == 0;
      hide LittleEndian, Pow256;
      var j := 0;
      while j < n
        invariant j <= n
        invariant value == LittleEndian(data[low..low + j]) && value < Pow256(j)
      {
        LittleEndianAppend(data[low..low + j], data[low + j]);
        assert data[low..low + j] + [data[low + j]] == data[low..low + j + 1];
        LittleEndianBound(data[low..low + j + 1]);
        value := value + Pow256(j) * cache[line].data[low + j];
        j := j + 1;
      }
    }

    /** Lines 62-84: bring the line of paddr in, over an invalid way or a random one. */
    method Fill(paddr: nat)
      requires Valid() && paddr < MEM_SIZE && !Cached(cache[..], paddr)
      modifies cache
      ensures Valid() && Cached(cache[..], paddr)
    {
      var start := Group(paddr) * 8;
      var invalid, line := false, 0;
      var i := 0;
      while i < 8
        invariant i <= 8 && !invalid && cache[..] == old(cache[..])
      {
        if !cache[start + i].valid {
          invalid := true;
          line := start + i;
          cache[start + i] := cache[start + i].(valid := true);
          break;
        }
        i := i + 1;
      }
      if !invalid {
        var ranNum: nat :| ranNum < 8;   // rand() % 8
        line := start + ranNum;
        cache[line] := cache[line].(valid := true);
      }
      var tempAddr := paddr / 64 * 64;
      AddressParts(paddr, line);
      cache[line] := cache[line].(data := hwMem[tempAddr..tempAddr + 64]);
      var markLine := paddr / MARK_SPAN;
      cache[line] := cache[line].(mark := ToU32(markLine * MARK_SPAN) / MARK_SPAN);
      FillKeeps(old(cache[..]), cache[..], hwMem[..], line, paddr);
    }

    static lemma FillKeeps(before: seq<CacheLine>, after: seq<CacheLine>, mem: seq<byte>, line: nat, paddr: nat)
      requires Consistent(before, mem) && paddr < MEM_SIZE && !Cached(before, paddr)
      requires line < LINES && line / 8 == Group(paddr)
      requires after == before[line := CacheLine(true, Mark(paddr), LineOf(mem, paddr))]
      ensures Consistent(after, mem) && Cached(after, paddr)
    {
      AddressParts(paddr, line);
      assert Holds(after, line, paddr);
      forall i | 0 <= i < LINES && i / 8 == line / 8 && i != line && before[i].valid
        ensures before[i].mark != Mark(paddr)
      {
        assert !Holds(before, i, paddr);
      }
    }

    /** Line 18: the value in flat memory, whatever the cache holds. */
    method CacheRead(paddr: uint32, len: nat) returns (value: uint32)
      requires Valid() && 1 <= len <= 4 && paddr + len <= MEM_SIZE
      modifies cache
      ensures Valid() && value == Read(hwMem[..], paddr, len)
      decreases len, if Cached(cache[..], paddr) then 0 else 1
    {
      hide Consistent, Holds, Cached, Coherent, Mark, Group, CutTo, Shl, Pow256, Read, LittleEndian;
      Sizes(cache[..], hwMem[..]);
      var low := LowAddr(paddr);
      var way := FindWay(paddr);
      if way < 8 {
        var line := Group(paddr) * 8 + way;
        HoldsLine(cache[..], hwMem[..], line, paddr);
        LineIsMemory(cache[..], hwMem[..], line, paddr, if low + len > 64 then 64 - low else len);
        if low + len > 64 {
          var lenL, lenH := 64 - low, low + len - 64;
          var dataL := ReadLine(line, low, lenL);
          var dataH := CacheRead(paddr + lenL, lenH);
          ReadSplit(hwMem[..], paddr, lenL, lenH);
          ReadBound(hwMem[..], paddr + lenL, lenH);
          JoinParts(dataL, dataH, lenL, lenH);
          value := CutTo(dataL + Shl(dataH, lenL), len);
        } else {
          var cacheData := ReadLine(line, low, len);
          CutToKeeps(cacheData, len);
          SmallMod(cacheData, Pow256(len));
          value := CutTo(cacheData, len);
        }
      } else {
        Fill(paddr);
        value := CacheRead(paddr, len);
      }
    }

    static lemma ReadBound(mem: seq<byte>, addr: nat, len: nat)
      requires addr + len <= |mem|
      ensures Read(mem, addr, len) < Pow256(len)
    {
      LittleEndianBound(mem[addr..addr + len]);
    }

    static lemma Sizes(lines: seq<CacheLine>, mem: seq<byte>)
      requires Consistent(lines, mem)
      ensures |lines| == LINES && |mem| == MEM_SIZE
    {
    }

    static lemma HoldsLine(lines: seq<CacheLine>, mem: seq<byte>, line: nat, paddr: nat)
      requires Consistent(lines, mem) && Holds(lines, line, paddr)
      ensures line < |lines| && |lines[line].data| == 64 && |mem| == MEM_SIZE
    {
    }

    /** Bytes of a held line are bytes of memory. */
    static lemma LineIsMemory(lines: seq<CacheLine>, mem: seq<byte>, line: nat, paddr: nat, n: nat)
      requires Consistent(lines, mem) && Holds(lines, line, paddr) && LowAddr(paddr) + n <= 64 && paddr + n <= MEM_SIZE
      ensures LowAddr(paddr) + n <= |lines[line].data|
      ensures LittleEndian(lines[line].data[LowAddr(paddr)..LowAddr(paddr) + n]) == Read(mem, paddr, n)
    {
      AddressParts(paddr, line);
      var base, low := LineBase(line, lines[line].mark), LowAddr(paddr);
      assert Coherent(line, lines[line], mem);
      SliceOfSlice(mem, base, base + 64, low, low + n);
      assert lines[line].data[LowAddr(paddr)..LowAddr(paddr) + n] == mem[paddr..paddr + n];
    }

    /** Lines 104-110: n bytes of data into a line, from low on. */
    method WriteLine(line: nat, low: nat, n: nat, data: nat)
      requires line < cache.Length && low + n <= |cache[line].data|
      modifies cache
      ensures cache[..] == old(cache[..])[line := old(cache[line]).(data := Write(old(cache[line].data), low, n, data))]
    {
      var tempData, j := data, 0;
      ghost var was := cache[line].data;
      assert Write(was, low, 0, data) == was;
      hide Write, BytesOf;
      while j < n
        invariant j <= n
        invariant tempData == HighBytes(data, j)
        invariant cache[..] == old(cache[..])[line := old(cache[line]).(data := Write(was, low, j, data))]
      {
        WriteStep(was, low, j, data);
        HighBytesStep(data, j);
        cache[line] := cache[line].(data := cache[line].data[low + j := tempData % 256]);
        tempData := tempData / 256;
        j := j + 1;
      }
    }

    /** Line 90: memory changes as flat memory does, and the cache stays in step with it. */
    method CacheWrite(paddr: uint32, len: nat, data: uint32)
      requires Valid() && 1 <= len <= 4 && paddr + len <= MEM_SIZE
      modifies cache, hwMem
      ensures Valid() && hwMem[..] == Write(old(hwMem[..]), paddr, len, data)
      decreases len
    {
      var low := LowAddr(paddr);
      if low + len <= 64 {
        WriteThrough(paddr, len, data);
      } else {
        var lenL, lenH := 64 - low, low + len - 64;
        WriteSplit(hwMem[..], paddr, lenL, lenH, data);
        WriteThrough(paddr, lenL, data);
        HighBytesFit(data, lenL);
        CacheWrite(paddr + lenL, lenH, HighBytes(data, lenL));
      }
    }

    static lemma HighBytesFit(data: uint32, k: nat)
      ensures 0 <= HighBytes(data, k) < 0x1_0000_0000
    {
    }

    /** Lines 98-115, and 121-138 for the first part of a crossing write: within one line. */
    method WriteThrough(paddr: uint32, n: nat, data: uint32)
      requires Valid() && LowAddr(paddr) + n <= 64 && paddr + n <= MEM_SIZE
      modifies cache, hwMem
      ensures Valid() && hwMem[..] == Write(old(hwMem[..]), paddr, n, data)
    {
      hide Write, Coherent;
      var way := FindWay(paddr);
      var line := Group(paddr) * 8 + way;
      if way < 8 {
        HoldsLine(cache[..], hwMem[..], line, paddr);
        WriteLine(line, LowAddr(paddr), n, data);
      }
      HwMemWrite(hwMem, paddr, n, data);
      WriteKeeps(old(cache[..]), old(hwMem[..]), cache[..], hwMem[..], paddr, n, data, line, way < 8);
    }

    /** Updating the first way that matches is enough, because no other way can match. */
    static lemma WriteKeeps(lines: seq<CacheLine>, mem: seq<byte>, lines': seq<CacheLine>, mem': seq<byte>,
                            paddr: nat, n: nat, data: nat, line: nat, hit: bool)
      requires Consistent(lines, mem) && LowAddr(paddr) + n <= 64 && paddr + n <= MEM_SIZE
      requires if hit then Holds(lines, line, paddr) else !Cached(lines, paddr)
      requires mem' == Write(mem, paddr, n, data)
      requires if hit then HoldsLine(lines, mem, line, paddr);
                 lines' == lines[line := lines[line].(data := Write(lines[line].data, LowAddr(paddr), n, data))]
               else lines' == lines
      ensures Consistent(lines', mem')
    {
      forall i | 0 <= i < LINES && lines'[i].valid
        ensures Coherent(i, lines'[i], mem')
      {
        assert Coherent(i, lines[i], mem);
        if hit && i == line {
          KeepsHeld(mem, i, lines[i], paddr, n, data);
        } else {
          assert !Holds(lines, i, paddr);
          KeepsOther(mem, i, lines[i], paddr, n, data);
        }
      }
    }

    static lemma KeepsHeld(mem: seq<byte>, i: nat, line: CacheLine, paddr: nat, n: nat, data: nat)
      requires |line.data| == 64 && Coherent(i, line, mem) && i / 8 == Group(paddr) && line.mark == Mark(paddr)
      requires LowAddr(paddr) + n <= 64 && paddr + n <= |mem|
      ensures Coherent(i, line.(data := Write(line.data, LowAddr(paddr), n, data)), Write(mem, paddr, n, data))
    {
      AddressParts(paddr, i);
      WriteInLine(mem, LineBase(i, line.mark), LowAddr(paddr), n, data);
    }

    static lemma KeepsOther(mem: seq<byte>, i: nat, line: CacheLine, paddr: nat, n: nat, data: nat)
      requires i < LINES && Coherent(i, line, mem) && (i / 8 != Group(paddr) || line.mark != Mark(paddr))
      requires LowAddr(paddr) + n <= 64 && paddr + n <= |mem|
      ensures Coherent(i, line, Write(mem, paddr, n, data))
    {
      var k := Group(paddr) * 8;
      AddressParts(paddr, k);
      BaseDetermines(i, k, line.mark, Mark(paddr));
      WriteElsewhere(mem, LineBase(i, line.mark), paddr, n, data);
    }

    static lemma WriteElsewhere(mem: seq<byte>, base: nat, addr: nat, n: nat, data: nat)
      requires base + 64 <= |mem| && addr + n <= |mem| && (addr + n <= base || base + 64 <= addr)
      ensures Write(mem, addr, n, data)[base..base + 64] == mem[base..base + 64]
    {
    }

    /** A write that goes to memory past the cache, as the page-crossing accesses do, keeps the
        invariant exactly when the line is not cached or the bytes do not change. */
    static lemma BypassKeeps(lines: seq<CacheLine>, mem: seq<byte>, paddr: nat, n: nat, data: nat)
      requires Consistent(lines, mem) && LowAddr(paddr) + n <= 64 && paddr + n <= MEM_SIZE
      ensures Consistent(lines, Write(mem, paddr, n, data)) <==>
          !Cached(lines, paddr) || Write(mem, paddr, n, data) == mem
    {
      var mem' := Write(mem, paddr, n, data);
      if !Cached(lines, paddr) {
        WriteKeeps(lines, mem, lines, mem', paddr, n, data, 0, false);
      } else if Consistent(lines, mem') {
        var i: nat :| Holds(lines, i, paddr);
        var base := LineBase(i, lines[i].mark);
        assert Coherent(i, lines[i], mem) && Coherent(i, lines[i], mem');
        AddressParts(paddr, i);
        forall k | 0 <= k < |mem| ensures mem'[k] == mem[k] {
          if base <= k < base + 64 { assert mem'[base..base + 64][k - base] == mem[base..base + 64][k - base]; }
        }
      }
    }

    static lemma WriteInLine(mem: seq<byte>, base: nat, low: nat, n: nat, data: nat)
      requires low + n <= 64 && base + 64 <= |mem|
      ensures Write(mem, base + low, n, data)[base..base + 64] == Write(mem[base..base + 64], low, n, data)
    {
    }

    /** Every run of reads and writes returns what flat memory returns and leaves memory as
        flat memory would be. */
    method RunAccesses(run: seq<Access>) returns (values: seq<nat>)
      requires Valid() && forall a | a in run :: InRange(a, MEM_SIZE)
      modifies cache, hwMem
      ensures Valid() && hwMem.Length == MEM_SIZE
      ensures hwMem[..] == FlatAfter(old(hwMem[..]), run)
      ensures values == FlatReads(old(hwMem[..]), run)
    {
      hide Consistent, Write, Read;
      Sizes(cache[..], hwMem[..]);
      values := [];
      var i := 0;
      while i < |run|
        invariant i <= |run| && Valid()
        invariant hwMem[..] == FlatAfter(old(hwMem[..]), run[..i])
        invariant values == FlatReads(old(hwMem[..]), run[..i])
      {
        assert run[..i + 1][..i] == run[..i];
        assert run[i] in run;
        match run[i] {
          case ReadAt(addr, len) =>
            var value := CacheRead(addr, len);
            values := values + [value];
          case WriteAt(addr, len, data) =>
            CacheWrite(addr, len, data);
        }
        i := i + 1;
      }
      assert run[..|run|] == run;
    }
  }
}
