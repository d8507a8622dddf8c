/** Physical memory (nemu/src/memory/memory.c): hw_mem and the byte copies in and out of it,
    with the 32-bit shifts that join and cut the parts of a split access. */
module HwMem {
  import opened MachineInts
  import opened Basics
  import opened Bytes

  const MEM_SIZE: nat := 128 * 1024 * 1024

  /** x << (8 * k) in 32 bits. */
  function Shl(x: nat, k: nat): uint32 { x * Pow256(k) % 0x1_0000_0000 }

  /** x << (32 - 8 * len) >> (32 - 8 * len) in 32 bits. */
  function CutTo(x: uint32, len: nat): nat
    requires len <= 4
  {
    HighBytes(Shl(x, 4 - len), 4 - len)
  }

  lemma PowersOf256()
    ensures Pow256(0) == 1 && Pow256(1) == 0x100 && Pow256(2) == 0x1_0000
    ensures Pow256(3) == 0x100_0000 && Pow256(4) == 0x1_0000_0000
  {
  }

  /** The two shifts keep the low len bytes. */
  lemma CutToKeeps(x: uint32, len: nat)
    requires 1 <= len <= 4
    ensures CutTo(x, len) == x % Pow256(len)
  {
    assert Pow256(len) * Pow256(4 - len) == 0x1_0000_0000 by { PowersOf256(); }
    hide Pow256, HighBytes;
    ShiftOutAndBack(x, Pow256(len), Pow256(4 - len));
  }

  lemma ShiftOutAndBack(x: nat, p: nat, w: nat)
    requires p > 0 && w > 0 && p * w > 0
    ensures x * w % (p * w) / w == x % p
  {
    var q, r := x / p, x % p;
    assert x == q * p + r;
    ShiftOut(q, p, r, w);
    ModUnique(x * w, p * w, q, r * w);
    ModUnique(r * w, w, r, 0);
  }

  lemma ShiftOut(q: nat, p: nat, r: nat, w: nat)
    requires r < p && w > 0
    ensures (q * p + r) * w == q * (p * w) + r * w
    ensures 0 <= r * w < p * w
  {
    assert r * w <= (p - 1) * w;
    assert (p - 1) * w == p * w - w;
  }

  /** A value of len bytes survives joining its two parts and cutting to len bytes. */
  lemma JoinParts(low: nat, high: nat, a: nat, b: nat)
    requires 1 <= a && 1 <= b && a + b <= 4 && low < Pow256(a) && high < Pow256(b)
    ensures low + Shl(high, a) < 0x1_0000_0000
    ensures 0 <= CutTo(low + Shl(high, a), a + b) == low + Pow256(a) * high < 0x1_0000_0000
  {
    JoinBound(low, high, a, b);
    hide Pow256, CutTo;
    ShlFits(high, a);
    var x := low + Pow256(a) * high;
    CutToKeeps(x, a + b);
    SmallMod(x, Pow256(a + b));
  }

  lemma ShlFits(x: nat, k: nat)
    requires Pow256(k) * x < 0x1_0000_0000
    ensures Shl(x, k) == Pow256(k) * x
  {
    hide Pow256;
    assert x * Pow256(k) == Pow256(k) * x;
  }

  lemma JoinBound(low: nat, high: nat, a: nat, b: nat)
    requires 1 <= a && 1 <= b && a + b <= 4 && low < Pow256(a) && high < Pow256(b)
    ensures 0 <= Pow256(a) * high <= low + Pow256(a) * high < Pow256(a + b) <= 0x1_0000_0000
  {
    PowersOf256();
    if a == 1 { } else if a == 2 { } else { }
  }

  /** Line 12. */
  method HwMemRead(hwMem: array<byte>, paddr: nat, len: nat) returns (ret: uint32)
    requires len <= 4 && paddr + len <= hwMem.Length
    ensures ret == Read(hwMem[..], paddr, len) && ret < Pow256(len)
  {
    var value := 0;
    var i := 0;
    while i < len
      invariant i <= len
      invariant value == LittleEndian(hwMem[paddr..paddr + i]) && value < Pow256(i)
    {
      LittleEndianAppend(hwMem[paddr..paddr + i], hwMem[paddr + i]);
      assert hwMem[paddr..paddr + i] + [hwMem[paddr + i]] == hwMem[paddr..paddr + i + 1];
      LittleEndianBound(hwMem[paddr..paddr + i + 1]);
      value := value + Pow256(i) * hwMem[paddr + i];
      i := i + 1;
    }
    PowersOf256();
    assert hwMem[..][paddr..paddr + len] == hwMem[paddr..paddr + len];
    ret := value;
  }

  /** Line 18. */
  method HwMemWrite(hwMem: array<byte>, paddr: nat, len: nat, data: nat)
    requires paddr + len <= hwMem.Length
    modifies hwMem
    ensures hwMem[..] == Write(old(hwMem[..]), paddr, len, data)
  {
    var i, rest := 0, data;
    assert Write(hwMem[..], paddr, 0, data) == hwMem[..];
    hide Write, BytesOf;
    while i < len
      invariant i <= len
      invariant rest == HighBytes(data, i)
      invariant hwMem[..] == Write(old(hwMem[..]), paddr, i, data)
    {
      WriteStep(old(hwMem[..]), paddr, i, data);
      assert |Write(old(hwMem[..]), paddr, i, data)| == hwMem.Length;
      hwMem[paddr + i] := rest % 256;
      HighBytesStep(data, i);
      rest := rest / 256;
      i := i + 1;
    }
  }

  /** Writing one more byte. */
  lemma WriteStep(mem: seq<byte>, addr: nat, k: nat, data: nat)
    requires addr + k < |mem|
    ensures Write(mem, addr, k, data)[addr + k := HighBytes(data, k) % 256] == Write(mem, addr, k + 1, data)
  {
    BytesOfSplit(data, k, 1);
  }

  lemma {:induction false} HighBytesStep(data: nat, k: nat)
    ensures HighBytes(data, k + 1) == HighBytes(data, k) / 256
  {
    if k > 0 { HighBytesStep(data / 256, k - 1); }
  }
}
