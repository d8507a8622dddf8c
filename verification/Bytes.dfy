/** Little-endian bytes, and flat memory as the specification of every access path. */
module Bytes {
  import opened MachineInts
  import opened Basics

  function Pow256(n: nat): (p: nat)
    ensures p > 0
  {
    if n == 0 then 1 else 256 * Pow256(n - 1)
  }

  /** The number whose little-endian bytes these are. */
  function LittleEndian(bytes: seq<byte>): nat {
    if bytes == [] then 0 else bytes[0] + 256 * LittleEndian(bytes[1..])
  }

  /** The low len bytes of data. */
  function BytesOf(data: nat, len: nat): (bytes: seq<byte>)
    ensures |bytes| == len
  {
    if len == 0 then [] else [data % 256] + BytesOf(data / 256, len - 1)
  }

  lemma {:induction false} LittleEndianBound(bytes: seq<byte>)
    ensures LittleEndian(bytes) < Pow256(|bytes|)
  {
    if bytes != [] { LittleEndianBound(bytes[1..]); }
  }

  lemma Distribute(x: nat, y: nat, p: nat, z: nat)
    ensures x + 256 * (y + p * z) == x + 256 * y + 256 * p * z
  {
    assert 256 * p * z == 256 * (p * z);
  }

  lemma {:induction false} LittleEndianConcat(a: seq<byte>, b: seq<byte>)
    ensures LittleEndian(a + b) == LittleEndian(a) + Pow256(|a|) * LittleEndian(b)
  {
    if a == [] {
      assert a + b == b;
    } else {
      assert (a + b)[1..] == a[1..] + b;
      LittleEndianConcat(a[1..], b);
      Distribute(a[0], LittleEndian(a[1..]), Pow256(|a| - 1), LittleEndian(b));
    }
  }

  /** Appending the next byte adds it at its own place. */
  lemma LittleEndianAppend(a: seq<byte>, x: byte)
    ensures LittleEndian(a + [x]) == LittleEndian(a) + Pow256(|a|) * x
  {
    LittleEndianConcat(a, [x]);
    assert LittleEndian([x]) == x;
  }

  /** Writing a number out as bytes and reading it back truncates it to that many bytes. */
  lemma {:induction false} RoundTrip(data: nat, len: nat)
    ensures LittleEndian(BytesOf(data, len)) == data % Pow256(len)
  {
    if len > 0 {
      var rest := data / 256;
      RoundTrip(rest, len - 1);
      assert BytesOf(data, len)[1..] == BytesOf(rest, len - 1);
      ModBySteps(data, Pow256(len - 1));
    }
  }

  lemma ModBySteps(data: nat, p: nat)
    requires p > 0
    ensures data % (256 * p) == data % 256 + 256 * (data / 256 % p)
  {
    var q, r := data / 256, data % 256;
    var s, t := q / p, q % p;
    assert data == 256 * (s * p + t) + r;
    var w := 256 * t + r;
    assert data == s * (256 * p) + w;
    ModUnique(data, 256 * p, s, w);
  }

  lemma DivBySteps(data: nat, p: nat)
    requires p > 0
    ensures data / (256 * p) == data / 256 / p
  {
    var q, r := data / 256, data % 256;
    var s, t := q / p, q % p;
    assert data == s * (256 * p) + (256 * t + r);
    ModUnique(data, 256 * p, s, 256 * t + r);
  }

  /** data >> (8 * k). */
  function HighBytes(data: nat, k: nat): (r: nat)
    ensures r == data / Pow256(k)
  {
    if k == 0 then data else DivBySteps(data, Pow256(k - 1)); HighBytes(data / 256, k - 1)
  }

  lemma {:induction false} BytesOfSplit(data: nat, a: nat, b: nat)
    ensures BytesOf(data, a + b) == BytesOf(data, a) + BytesOf(HighBytes(data, a), b)
  {
    if a > 0 {
      var x, rest := [data % 256], data / 256;
      BytesOfSplit(rest, a - 1, b);
      assert BytesOf(data, a + b) == x + BytesOf(rest, a - 1 + b);
    }
  }

  lemma {:induction false} BytesOfMod(data: nat, a: nat, b: nat)
    requires a <= b
    ensures BytesOf(data % Pow256(b), a) == BytesOf(data, a)
  {
    if a > 0 {
      ModBySteps(data, Pow256(b - 1));
      var x := data / 256 % Pow256(b - 1);
      assert (data % 256 + 256 * x) / 256 == x && (data % 256 + 256 * x) % 256 == data % 256;
      BytesOfMod(data / 256, a - 1, b - 1);
    }
  }

  // ---------- flat memory ----------

  function Read(mem: seq<byte>, addr: nat, len: nat): nat
    requires addr + len <= |mem|
  {
    LittleEndian(mem[addr..addr + len])
  }

  function Write(mem: seq<byte>, addr: nat, len: nat, data: nat): (r: seq<byte>)
    requires addr + len <= |mem|
    ensures |r| == |mem|
  {
    mem[..addr] + BytesOf(data, len) + mem[addr + len..]
  }

  lemma ReadSplit(mem: seq<byte>, addr: nat, a: nat, b: nat)
    requires addr + a + b <= |mem|
    ensures Read(mem, addr, a + b) == Read(mem, addr, a) + Pow256(a) * Read(mem, addr + a, b)
  {
    LittleEndianConcat(mem[addr..addr + a], mem[addr + a..addr + a + b]);
    assert mem[addr..addr + (a + b)] == mem[addr..addr + a] + mem[addr + a..addr + a + b];
  }

  lemma WriteSplit(mem: seq<byte>, addr: nat, a: nat, b: nat, data: nat)
    requires addr + a + b <= |mem|
    ensures Write(mem, addr, a + b, data) == Write(Write(mem, addr, a, data), addr + a, b, HighBytes(data, a))
  {
    BytesOfSplit(data, a, b);
  }

  /** What was written is what is read back, cut to the length written. */
  lemma ReadBack(mem: seq<byte>, addr: nat, len: nat, data: nat)
    requires addr + len <= |mem|
    ensures Read(Write(mem, addr, len, data), addr, len) == data % Pow256(len)
  {
    assert Write(mem, addr, len, data)[addr..addr + len] == BytesOf(data, len);
    RoundTrip(data, len);
  }

  /** Equal bytes read equal. */
  lemma ReadSame(mem: seq<byte>, mem': seq<byte>, addr: nat, len: nat)
    requires |mem'| == |mem| && addr + len <= |mem| && forall k | addr <= k < addr + len :: mem'[k] == mem[k]
    ensures Read(mem', addr, len) == Read(mem, addr, len)
  {
    assert mem'[addr..addr + len] == mem[addr..addr + len];
  }

  // ---------- runs of accesses ----------

  datatype Access = ReadAt(raddr: uint32, rlen: nat) | WriteAt(waddr: uint32, wlen: nat, data: uint32)

  predicate InRange(a: Access, size: nat) {
    match a
    case ReadAt(addr, len) => 1 <= len <= 4 && addr + len <= size
    case WriteAt(addr, len, _) => 1 <= len <= 4 && addr + len <= size
  }

  /** Memory after a run over flat memory. */
  function FlatAfter(mem: seq<byte>, run: seq<Access>): (r: seq<byte>)
    requires forall a | a in run :: InRange(a, |mem|)
    ensures |r| == |mem|
    decreases |run|
  {
    if run == [] then mem
    else
      var before := FlatAfter(mem, run[..|run| - 1]);
      var last := run[|run| - 1];
      assert last in run && InRange(last, |mem|);
      match last
      case ReadAt(_, _) => before
      case WriteAt(addr, len, data) => Write(before, addr, len, data)
  }

  /** The values that the reads of a run over flat memory return, in order. */
  function FlatReads(mem: seq<byte>, run: seq<Access>): seq<nat>
    requires forall a | a in run :: InRange(a, |mem|)
    decreases |run|
  {
    if run == [] then []
    else
      var first := run[..|run| - 1];
      var last := run[|run| - 1];
      assert last in run && InRange(last, |mem|);
      match last
      case ReadAt(addr, len) => FlatReads(mem, first) + [Read(FlatAfter(mem, first), addr, len)]
      case WriteAt(_, _, _) => FlatReads(mem, first)
  }
}
