/** The fixed-width integers of the emulator's C.  A value assigned to one of these types
    is proved to fit; where the C relies on wrap-around the reduction is written out. */
module MachineInts {
  type byte = n: nat | n < 0x100
  type uint32 = n: nat | n < 0x1_0000_0000
  type uint64 = n: nat | n < 0x1_0000_0000_0000_0000
  type int32 = n: int | -0x8000_0000 <= n < 0x8000_0000

  /** Reduction modulo 2^32. */
  function ToU32(n: int): (r: uint32)
    ensures 0 <= n < 0x1_0000_0000 ==> r == n
    ensures -0x1_0000_0000 <= n < 0 ==> r == n + 0x1_0000_0000
    ensures 0x1_0000_0000 <= n < 0x2_0000_0000 ==> r == n - 0x1_0000_0000
  {
    n % 0x1_0000_0000
  }

  /** Conversion of a uint32_t to int32_t. */
  function ToI32(n: uint32): int32 { if n < 0x8000_0000 then n else n - 0x1_0000_0000 }

  function Pow2(k: nat): (p: nat)
    ensures p > 0
  {
    if k == 0 then 1 else 2 * Pow2(k - 1)
  }

  lemma Pow2Eight(k: nat)
    ensures Pow2(k + 8) == 256 * Pow2(k)
  {
    assert Pow2(k + 8) == 4 * Pow2(k + 6);
    assert Pow2(k + 6) == 4 * Pow2(k + 4);
    assert Pow2(k + 4) == 4 * Pow2(k + 2);
  }

  lemma Pow2Values()
    ensures Pow2(0) == 1 && Pow2(5) == 32 && Pow2(7) == 128
    ensures Pow2(15) == 0x8000 && Pow2(21) == 0x20_0000 && Pow2(40) == 0x100_0000_0000
    ensures Pow2(63) == 0x8000_0000_0000_0000
  {
    SmallPowers();
    hide Pow2;
    Pow2Eight(7);
    Pow2Eight(5);
    Pow2Eight(13);
    Pow2Eight(0);
    Pow2Eight(8);
    Pow2Eight(16);
    Pow2Eight(24);
    Pow2Eight(32);
    Pow2Eight(15);
    Pow2Eight(23);
    Pow2Eight(31);
    Pow2Eight(39);
    Pow2Eight(47);
    Pow2Eight(55);
  }

  lemma SmallPowers()
    ensures Pow2(0) == 1 && Pow2(5) == 32 && Pow2(7) == 128
  {
  }
}
