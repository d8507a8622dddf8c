/** What breakpoints do to memory (nemu/src/monitor/breakpoint.c), on the list of points kept
    newest first: which bytes masking brings back. */
module BreakpointPoints {
  import opened MachineInts

  const INT3_CODE: byte := 0xf1

  /** A point of the list: a breakpoint with the byte it replaced, or a watchpoint. */
  datatype Point = Break(addr: nat, oriByte: byte) | Watch

  ghost predicate InMemory(points: seq<Point>, size: nat) {
    forall k | 0 <= k < |points| && points[k].Break? :: points[k].addr < size
  }

  /** Lines 175-188, from the head of the list. */
  function Mask(mem: seq<byte>, points: seq<Point>): (m: seq<byte>)
    requires InMemory(points, |mem|)
    ensures |m| == |mem|
    decreases |points|
  {
    if points == [] then mem
    else if points[0].Watch? then Mask(mem, points[1..])
    else Mask(mem[points[0].addr := points[0].oriByte], points[1..])
  }

  /** Lines 150-173, from the head of the list: memory and the re-read points. */
  function Resume(mem: seq<byte>, points: seq<Point>): (r: (seq<byte>, seq<Point>))
    requires InMemory(points, |mem|)
    ensures |r.0| == |mem| && |r.1| == |points|
    ensures forall k | 0 <= k < |points| :: r.1[k].Break? == points[k].Break?
    ensures forall k | 0 <= k < |points| && points[k].Break? :: r.1[k].addr == points[k].addr
    ensures InMemory(r.1, |mem|)
    decreases |points|
  {
    if points == [] then (mem, [])
    else if points[0].Watch? then
      var rest := Resume(mem, points[1..]);
      (rest.0, [Watch] + rest.1)
    else
      var rest := Resume(mem[points[0].addr := INT3_CODE], points[1..]);
      (rest.0, [Break(points[0].addr, mem[points[0].addr])] + rest.1)
  }

  /** Half way through resuming: the first k points are re-read, the others as they were. */
  ghost predicate HalfResumed(mem: seq<byte>, points: seq<Point>, goal: (seq<byte>, seq<Point>), k: nat) {
    && k <= |points| == |goal.1| && InMemory(points, |mem|)
    && InMemory(points[k..], |mem|) && Resume(mem, points[k..]) == (goal.0, goal.1[k..]) && points[..k] == goal.1[..k]
  }

  lemma ResumeStart(mem: seq<byte>, points: seq<Point>)
    requires InMemory(points, |mem|)
    ensures HalfResumed(mem, points, Resume(mem, points), 0)
  {
  }

  lemma ResumeStep(mem: seq<byte>, points: seq<Point>, goal: (seq<byte>, seq<Point>), k: nat)
    requires HalfResumed(mem, points, goal, k) && k < |points|
    ensures points[k].Watch? ==> HalfResumed(mem, points, goal, k + 1)
    ensures points[k].Break? ==>
              var a := points[k].addr;
              a < |mem| && HalfResumed(mem[a := INT3_CODE], points[k := Break(a, mem[a])], goal, k + 1)
  {
    var rest := Resume(mem, points[k..]);
    assert points[k..][0] == points[k] && points[k..][1..] == points[k + 1..];
    assert goal.1[k..][0] == goal.1[k] && goal.1[k..][1..] == goal.1[k + 1..];
    if points[k].Break? {
      var p' := points[k := Break(points[k].addr, mem[points[k].addr])];
      assert p'[k + 1..] == points[k + 1..] && rest.1[0] == p'[k];
      assert rest.1[1..] == Resume(mem[points[k].addr := INT3_CODE], points[k + 1..]).1;
      assert p'[..k + 1] == goal.1[..k] + [p'[k]];
    } else {
      assert rest.1[1..] == Resume(mem, points[k + 1..]).1;
    }
    assert goal.1[..k + 1] == goal.1[..k] + [goal.1[k]] && points[..k + 1] == points[..k] + [points[k]];
  }

  lemma ResumeEnd(mem: seq<byte>, points: seq<Point>, goal: (seq<byte>, seq<Point>))
    requires HalfResumed(mem, points, goal, |points|)
    ensures InMemory(points, |mem|) && (mem, points) == goal
  {
    assert points[..|points|] == points && goal.1[..|points|] == goal.1;
  }

  predicate IsAt(p: Point, a: nat) { p.Break? && p.addr == a }

  /** Position of the oldest breakpoint at a, or |points|. */
  function Oldest(points: seq<Point>, a: nat): (k: nat)
    ensures k <= |points|
    ensures k < |points| ==> IsAt(points[k], a) && forall j | k < j < |points| :: !IsAt(points[j], a)
    ensures k == |points| ==> forall j | 0 <= j < |points| :: !IsAt(points[j], a)
  {
    if points == [] then 0
    else
      var k := Oldest(points[1..], a);
      if k == |points| - 1 && IsAt(points[0], a) then 0 else k + 1
  }

  /** Masking writes newest first, so the oldest breakpoint at an address has the last word. */
  lemma {:induction false} MaskAt(mem: seq<byte>, points: seq<Point>, a: nat)
    requires InMemory(points, |mem|) && a < |mem|
    ensures var k := Oldest(points, a); Mask(mem, points)[a] == if k < |points| then points[k].oriByte else mem[a]
    decreases |points|
  {
    if points != [] {
      MaskAt(if points[0].Break? then mem[points[0].addr := points[0].oriByte] else mem, points[1..], a);
    }
  }

  // ---------- setting and deleting ----------

  function Without(points: seq<Point>, k: nat): seq<Point>
    requires k < |points|
  {
    points[..k] + points[k + 1..]
  }

  lemma WithoutAt(points: seq<Point>, k: nat)
    requires k < |points|
    ensures |Without(points, k)| == |points| - 1
    ensures forall j | 0 <= j < |points| - 1 :: Without(points, k)[j] == points[if j < k then j else j + 1]
    ensures forall size: nat | InMemory(points, size) :: InMemory(Without(points, k), size)
  {
  }

  /** A position is the oldest one exactly when it is at a and nothing after it is. */
  lemma OldestIs(points: seq<Point>, a: nat, k: nat)
    requires k <= |points| && (k < |points| ==> IsAt(points[k], a))
    requires forall j | k < j < |points| :: !IsAt(points[j], a)
    requires k == |points| ==> forall j | 0 <= j < |points| :: !IsAt(points[j], a)
    ensures Oldest(points, a) == k
  {
  }

  lemma OldestWithout(points: seq<Point>, k: nat, a: nat)
    requires k < |points|
    ensures var o := Oldest(points, a);
            var newer := Oldest(points[..k], a);
            Oldest(Without(points, k), a) ==
              if o < k then o else if o > k then o - 1 else if newer < k then newer else |points| - 1
  {
    var o, newer := Oldest(points, a), Oldest(points[..k], a);
    WithoutAt(points, k);
    if o == k {
      assert forall j | 0 <= j < k :: points[..k][j] == points[j];
    }
    OldestIs(Without(points, k), a,
             if o < k then o else if o > k then o - 1 else if newer < k then newer else |points| - 1);
  }

  datatype Armed = Armed(mem: seq<byte>, points: seq<Point>)

  datatype Op = SetBreak(addr: nat) | SetWatch | Delete(k: nat)

  ghost predicate WellFormed(s: Armed) { InMemory(s.points, |s.mem|) }

  predicate CanDo(s: Armed, op: Op) { (op.SetBreak? ==> op.addr < |s.mem|) && (op.Delete? ==> op.k < |s.points|) }

  /** What one command does to memory and to the points (lines 47-106). */
  function Do(s: Armed, op: Op): Armed
    requires CanDo(s, op)
  {
    match op
    case SetBreak(addr) => Armed(s.mem[addr := INT3_CODE], [Break(addr, s.mem[addr])] + s.points)
    case SetWatch => Armed(s.mem, [Watch] + s.points)
    case Delete(k) => Armed(s.mem, Without(s.points, k))
  }

  /** The memory that masking shows. */
  function Unarmed(s: Armed): (m: seq<byte>)
    requires WellFormed(s)
    ensures |m| == |s.mem|
  {
    Mask(s.mem, s.points)
  }

  /** Every breakpoint's address holds 0xf1, and all but the oldest at an address replaced 0xf1. */
  ghost predicate Sound(s: Armed) {
    && WellFormed(s)
    && forall k | 0 <= k < |s.points| && s.points[k].Break? ::
         s.mem[s.points[k].addr] == INT3_CODE &&
             (s.points[k].oriByte == INT3_CODE || Oldest(s.points, s.points[k].addr) == k)
  }

  /** Deleting the oldest breakpoint of an address loses the byte it replaced. */
  predicate Loses(s: Armed, op: Op)
    requires CanDo(s, op)
  {
    op.Delete? && var p := s.points[op.k]; p.Break? && Oldest(s.points, p.addr) == op.k && p.oriByte != INT3_CODE
  }

  lemma {:induction false} DoKeepsSound(s: Armed, op: Op)
    requires Sound(s) && CanDo(s, op)
    ensures Sound(Do(s, op))
  {
    var t := Do(s, op);
    if op.Delete? {
      WithoutAt(s.points, op.k);
      forall j | 0 <= j < |t.points| && t.points[j].Break?
        ensures t.points[j].oriByte == INT3_CODE || Oldest(t.points, t.points[j].addr) == j
      {
        OldestWithout(s.points, op.k, t.points[j].addr);
      }
    } else {
      assert t.points[1..] == s.points;
    }
  }

  lemma SetThenMask(s: Armed, addr: nat)
    requires WellFormed(s) && addr < |s.mem|
    ensures WellFormed(Do(s, SetBreak(addr))) && Unarmed(Do(s, SetBreak(addr))) == Unarmed(s)
    ensures Do(s, SetBreak(addr)).mem[addr] == 0xf1
  {
    var t := Do(s, SetBreak(addr));
    assert t.points[1..] == s.points;
    assert t.mem[addr := s.mem[addr]] == s.mem;
  }

  lemma DeletedByte(s: Armed, k: nat, a: nat)
    requires Sound(s) && k < |s.points| && a < |s.mem|
    ensures WellFormed(Do(s, Delete(k)))
    ensures Unarmed(Do(s, Delete(k)))[a] ==
              if IsAt(s.points[k], a) && Oldest(s.points, a) == k then INT3_CODE else Unarmed(s)[a]
  {
    WithoutAt(s.points, k);
    MaskAt(s.mem, Without(s.points, k), a);
    MaskAt(s.mem, s.points, a);
    OldestWithout(s.points, k, a);
    assert Oldest(s.points[..k], a) < k ==> IsAt(s.points[Oldest(s.points[..k], a)], a);
  }

  /** One command leaves the memory that masking shows as it was, but for a lost byte. */
  lemma {:induction false} DoThenMask(s: Armed, op: Op)
    requires Sound(s) && CanDo(s, op)
    ensures Sound(Do(s, op))
    ensures Unarmed(Do(s, op)) == if Loses(s, op) then Unarmed(s)[s.points[op.k].addr := INT3_CODE] else Unarmed(s)
    ensures Loses(s, op) ==> Unarmed(s)[s.points[op.k].addr] != INT3_CODE
  {
    DoKeepsSound(s, op);
    match op
    case SetBreak(addr) => SetThenMask(s, addr);
    case SetWatch => assert ([Watch] + s.points)[1..] == s.points;
    case Delete(k) =>
      forall a: nat | a < |s.mem|
        ensures Unarmed(Do(s, op))[a] ==
                  if IsAt(s.points[k], a) && Oldest(s.points, a) == k then INT3_CODE else Unarmed(s)[a]
      {
        DeletedByte(s, k, a);
      }
      hide Mask, Do;
      if s.points[k].Break? {
        MaskAt(s.mem, s.points, s.points[k].addr);
        assert !Loses(s, op) ==> Unarmed(Do(s, op)) == Unarmed(s);
      } else {
        assert Unarmed(Do(s, op)) == Unarmed(s);
      }
  }

  lemma DoKeepsSize(s: Armed, op: Op)
    requires CanDo(s, op)
    ensures |Do(s, op).mem| == |s.mem| && (Loses(s, op) ==> op.Delete? && s.points[op.k].Break?)
  {
  }

  predicate CanRun(s: Armed, ops: seq<Op>)
    decreases |ops|
  {
    ops == [] || (CanDo(s, ops[0]) && CanRun(Do(s, ops[0]), ops[1..]))
  }

  function Run(s: Armed, ops: seq<Op>): Armed
    requires CanRun(s, ops)
    decreases |ops|
  {
    if ops == [] then s else Run(Do(s, ops[0]), ops[1..])
  }

  /** No command of the run deletes an oldest breakpoint that replaced another byte than 0xf1. */
  predicate LosesNothing(s: Armed, ops: seq<Op>)
    requires CanRun(s, ops)
    decreases |ops|
  {
    ops == [] || (!Loses(s, ops[0]) && LosesNothing(Do(s, ops[0]), ops[1..]))
  }

  lemma {:induction false} RunThenMask(s: Armed, ops: seq<Op>)
    requires Sound(s) && CanRun(s, ops)
    ensures Sound(Run(s, ops)) && |Unarmed(Run(s, ops))| == |s.mem|
    ensures forall a | 0 <= a < |s.mem| :: Unarmed(Run(s, ops))[a] in {Unarmed(s)[a], INT3_CODE}
    ensures Unarmed(Run(s, ops)) == Unarmed(s) <==> LosesNothing(s, ops)
    decreases |ops|
  {
    hide Unarmed, Mask, Do, Loses;
    if ops != [] {
      var next := Do(s, ops[0]);
      DoThenMask(s, ops[0]);
      DoKeepsSize(s, ops[0]);
      RunThenMask(next, ops[1..]);
      if Loses(s, ops[0]) {
        var a := s.points[ops[0].k].addr;
        assert Unarmed(Run(next, ops[1..]))[a] == INT3_CODE;
      }
    }
  }

  /** From an empty list, any run of set and delete commands lets masking restore the original
      memory exactly when no deletion lost a byte; set commands alone never do. */
  lemma {:induction false} RunRestores(mem: seq<byte>, ops: seq<Op>)
    requires CanRun(Armed(mem, []), ops)
    ensures WellFormed(Run(Armed(mem, []), ops))
    ensures Unarmed(Run(Armed(mem, []), ops)) == mem <==> LosesNothing(Armed(mem, []), ops)
    ensures (forall k | 0 <= k < |ops| :: !ops[k].Delete?) ==> LosesNothing(Armed(mem, []), ops)
  {
    RunThenMask(Armed(mem, []), ops);
    if forall k | 0 <= k < |ops| :: !ops[k].Delete? { SetsLoseNothing(Armed(mem, []), ops); }
  }

  lemma {:induction false} SetsLoseNothing(s: Armed, ops: seq<Op>)
    requires CanRun(s, ops) && forall k | 0 <= k < |ops| :: !ops[k].Delete?
    ensures LosesNothing(s, ops)
    decreases |ops|
  {
    if ops != [] { SetsLoseNothing(Do(s, ops[0]), ops[1..]); }
  }

  // ---------- resuming ----------

  /** At most one breakpoint at a. */
  ghost predicate Single(points: seq<Point>, a: nat) {
    forall i, j | 0 <= i < j < |points| :: !(IsAt(points[i], a) && IsAt(points[j], a))
  }

  ghost predicate NewerAt(points: seq<Point>, k: nat, a: nat) {
    exists j: nat | j < k && j < |points| :: IsAt(points[j], a)
  }

  lemma NewerTail(points: seq<Point>, k: nat, a: nat)
    requires 0 < k <= |points|
    ensures NewerAt(points, k, a) <==> IsAt(points[0], a) || NewerAt(points[1..], k - 1, a)
  {
  }

  /** Re-arming reads the bytes again, newest first: whoever comes after a newer breakpoint at the
      same address reads 0xf1. */
  lemma {:induction false} ResumedByte(mem: seq<byte>, points: seq<Point>, k: nat)
    requires InMemory(points, |mem|) && k < |points| && points[k].Break?
    ensures Resume(mem, points).1[k].oriByte ==
              if NewerAt(points, k, points[k].addr) then INT3_CODE else mem[points[k].addr]
    decreases |points|
  {
    if k > 0 {
      var next := if points[0].Break? then mem[points[0].addr := INT3_CODE] else mem;
      NewerTail(points, k, points[k].addr);
      ResumedByte(next, points[1..], k - 1);
    }
  }

  lemma {:induction false} ResumedMem(mem: seq<byte>, points: seq<Point>, a: nat)
    requires InMemory(points, |mem|) && a < |mem|
    ensures Resume(mem, points).0[a] == if Oldest(points, a) < |points| then INT3_CODE else mem[a]
    decreases |points|
  {
    if points != [] {
      ResumedMem(if points[0].Break? then mem[points[0].addr := INT3_CODE] else mem, points[1..], a);
    }
  }

  lemma SingleIs(points: seq<Point>, a: nat)
    requires Oldest(points, a) < |points|
    ensures Single(points, a) <==> !NewerAt(points, Oldest(points, a), a)
  {
  }

  /** What masking shows at one address after re-arming. */
  lemma {:induction false} ResumedThenMasked(mem: seq<byte>, points: seq<Point>, a: nat)
    requires InMemory(points, |mem|) && a < |mem|
    ensures var r := Resume(mem, points); Mask(r.0, r.1)[a] == if Single(points, a) then mem[a] else INT3_CODE
  {
    var r, k := Resume(mem, points), Oldest(points, a);
    OldestIs(r.1, a, k);
    MaskAt(r.0, r.1, a);
    ResumedMem(mem, points, a);
    if k < |points| {
      SingleIs(points, a);
      ResumedByte(mem, points, k);
    }
  }

  /** Re-arming and masking again is neutral exactly when every address with several breakpoints
      holds 0xf1 already. */
  lemma {:induction false} ResumeThenMask(mem: seq<byte>, points: seq<Point>)
    requires InMemory(points, |mem|)
    ensures var r := Resume(mem, points);
            Mask(r.0, r.1) == mem <==> forall a: nat | a < |mem| && mem[a] != INT3_CODE :: Single(points, a)
  {
    var r := Resume(mem, points);
    forall a: nat | a < |mem| ensures Mask(r.0, r.1)[a] == if Single(points, a) then mem[a] else INT3_CODE {
      ResumedThenMasked(mem, points, a);
    }
    if forall a: nat | a < |mem| && mem[a] != INT3_CODE :: Single(points, a) {
      assert Mask(r.0, r.1) == mem;
    }
  }

  /** Re-arming keeps what masking would restore exactly when every address with one breakpoint
      shows that breakpoint's byte already, and every address with several had 0xf1. */
  lemma {:induction false} ResumeKeeps(s: Armed)
    requires WellFormed(s)
    ensures var r := Resume(s.mem, s.points);
            Mask(r.0, r.1) == Unarmed(s) <==>
              forall k | 0 <= k < |s.points| && s.points[k].Break? && Oldest(s.points, s.points[k].addr) == k ::
                s.points[k].oriByte == if Single(s.points, s.points[k].addr) then s.mem[s.points[k].addr] else INT3_CODE
  {
    var r := Resume(s.mem, s.points);
    forall a: nat | a < |s.mem| ensures Mask(r.0, r.1)[a] == Unarmed(s)[a] <==> KeptAt(s, a) { ResumedByteKept(s, a); }
    KeptEverywhere(s);
    hide Mask, Resume, Unarmed, KeptAt, Oldest, Single;
    if forall a: nat | a < |s.mem| :: KeptAt(s, a) { assert Mask(r.0, r.1) == Unarmed(s); }
  }

  /** Re-arming finds at a what masking would restore. */
  ghost predicate KeptAt(s: Armed, a: nat)
    requires a < |s.mem|
  {
    var k := Oldest(s.points, a);
    k < |s.points| ==> s.points[k].oriByte == if Single(s.points, a) then s.mem[a] else INT3_CODE
  }

  lemma ResumedByteKept(s: Armed, a: nat)
    requires WellFormed(s) && a < |s.mem|
    ensures var r := Resume(s.mem, s.points); Mask(r.0, r.1)[a] == Unarmed(s)[a] <==> KeptAt(s, a)
  {
    ResumedThenMasked(s.mem, s.points, a);
    MaskAt(s.mem, s.points, a);
    assert Oldest(s.points, a) == |s.points| ==> Single(s.points, a);
  }

  lemma KeptEverywhere(s: Armed)
    requires WellFormed(s)
    ensures (forall a: nat | a < |s.mem| :: KeptAt(s, a)) <==>
              forall k | 0 <= k < |s.points| && s.points[k].Break? && Oldest(s.points, s.points[k].addr) == k ::
                s.points[k].oriByte == if Single(s.points, s.points[k].addr) then s.mem[s.points[k].addr] else INT3_CODE
  {
    hide Single;
    if forall a: nat | a < |s.mem| :: KeptAt(s, a) {
      forall k | 0 <= k < |s.points| && s.points[k].Break? && Oldest(s.points, s.points[k].addr) == k
        ensures s.points[k].oriByte == if Single(s.points, s.points[k].addr) then s.mem[s.points[k].addr] else INT3_CODE
      {
        assert KeptAt(s, s.points[k].addr);
      }
    }
  }

  // ---------- stopping at a breakpoint ----------

  /** Position of the newest breakpoint at a, or |points|. */
  function Newest(points: seq<Point>, a: nat): (k: nat)
    ensures k <= |points|
    ensures k < |points| ==> IsAt(points[k], a)
    ensures forall j | 0 <= j < k :: !IsAt(points[j], a)
  {
    if points == [] || IsAt(points[0], a) then 0 else 1 + Newest(points[1..], a)
  }

  /** The run stopped at a: the newest breakpoint there puts its byte back (nemu/src/cpu/cpu.c:68-74). */
  function Stopped(s: Armed, a: nat): (m: seq<byte>)
    requires a < |s.mem|
    ensures |m| == |s.mem|
  {
    var k := Newest(s.points, a);
    if k < |s.points| then s.mem[a := s.points[k].oriByte] else s.mem
  }

  /** Going on: after the next instruction, which leaves memory as mem, all are armed again
      (nemu/src/cpu/cpu.c:57-65). */
  ghost function WentOn(s: Armed, mem: seq<byte>): (r: Armed)
    requires WellFormed(s) && |mem| == |s.mem|
    ensures WellFormed(r) && |r.mem| == |mem|
  {
    var r := Resume(mem, s.points);
    Armed(r.0, r.1)
  }

  predicate HasBreak(points: seq<Point>, a: nat) { Oldest(points, a) < |points| }

  lemma NewestPast(points: seq<Point>, a: nat, k: nat)
    requires k <= Newest(points, a) && k < |points|
    ensures if IsAt(points[k], a) then Newest(points, a) == k else k + 1 <= Newest(points, a)
  {
  }

  lemma NewestNone(points: seq<Point>, a: nat)
    ensures Newest(points, a) == |points| <==> forall q | q in points :: !IsAt(q, a)
  {
  }

  lemma NewestOrNone(points: seq<Point>, a: nat)
    ensures Newest(points, a) < |points| <==> HasBreak(points, a)
  {
  }

  /** Whether a breakpoint's byte at b survives a stop at a. */
  ghost predicate Survives(points: seq<Point>, a: nat, b: nat) { !HasBreak(points, b) || (b == a && Single(points, a)) }

  /** A single breakpoint is its address's newest and oldest. */
  lemma SingleNewest(points: seq<Point>, a: nat)
    requires HasBreak(points, a)
    ensures Newest(points, a) < |points| && (Single(points, a) ==> Newest(points, a) == Oldest(points, a))
  {
  }

  /** The byte that memory shows at b while the run is stopped at a. */
  lemma StoppedByte(s: Armed, a: nat, b: nat)
    requires Sound(s) && a < |s.mem| && b < |s.mem|
    ensures Stopped(s, a)[b] == INT3_CODE || Survives(s.points, a, b)
    ensures Survives(s.points, a, b) ==> Stopped(s, a)[b] == Unarmed(s)[b]
  {
    MaskAt(s.mem, s.points, b);
    if HasBreak(s.points, b) { SingleNewest(s.points, b); }
    if b == a && HasBreak(s.points, a) && !Single(s.points, a) { NewestIsNotOldest(s.points, a); }
  }

  lemma NewestIsNotOldest(points: seq<Point>, a: nat)
    requires HasBreak(points, a) && !Single(points, a)
    ensures Newest(points, a) < Oldest(points, a)
  {
  }

  /** After stopping at a and going on, wherever the instruction wrote nothing: masking shows the
      byte it showed before, or 0xf1 at every breakpoint but a single one at a. */
  lemma HitByte(s: Armed, a: nat, mem: seq<byte>, b: nat)
    requires Sound(s) && a < |s.mem| == |mem| && b < |s.mem| && mem[b] == Stopped(s, a)[b]
    ensures Unarmed(WentOn(s, mem))[b] == if Survives(s.points, a, b) then Unarmed(s)[b] else INT3_CODE
  {
    StoppedByte(s, a, b);
    ResumedThenMasked(mem, s.points, b);
    assert !HasBreak(s.points, b) ==> Single(s.points, b);
  }

  /** One stop at a, with an instruction that writes nothing, keeps what masking shows exactly when
      every breakpoint but a single one at a replaced 0xf1. */
  lemma HitKeeps(s: Armed, a: nat)
    requires Sound(s) && a < |s.mem|
    ensures Unarmed(WentOn(s, Stopped(s, a))) == Unarmed(s) <==>
              forall k | 0 <= k < |s.points| && s.points[k].Break? && !(s.points[k].addr == a && Single(s.points, a)) ::
                s.points[k].oriByte == INT3_CODE
  {
    hide Unarmed, WentOn, Stopped, ShowsAt, Oldest;
    var t := WentOn(s, Stopped(s, a));
    forall b: nat | b < |s.mem| ensures Unarmed(t)[b] == Unarmed(s)[b] <==> ShowsAt(s, a, b) {
      HitByte(s, a, Stopped(s, a), b);
      ShowsUnlessLost(s, a, b);
    }
    ShowsEverywhere(s, a);
    if forall b: nat | b < |s.mem| :: ShowsAt(s, a, b) { assert Unarmed(t) == Unarmed(s); }
  }

  /** The byte at b survives a stop at a, or was 0xf1. */
  ghost predicate ShowsAt(s: Armed, a: nat, b: nat) {
    var k := Oldest(s.points, b);
    Survives(s.points, a, b) || (k < |s.points| && s.points[k].oriByte == INT3_CODE)
  }

  lemma ShowsUnlessLost(s: Armed, a: nat, b: nat)
    requires WellFormed(s) && b < |s.mem|
    ensures ShowsAt(s, a, b) <==> Survives(s.points, a, b) || Unarmed(s)[b] == INT3_CODE
  {
    MaskAt(s.mem, s.points, b);
  }

  lemma ShowsEverywhere(s: Armed, a: nat)
    requires Sound(s)
    ensures (forall b: nat | b < |s.mem| :: ShowsAt(s, a, b)) <==>
              forall k | 0 <= k < |s.points| && s.points[k].Break? && !(s.points[k].addr == a && Single(s.points, a)) ::
                s.points[k].oriByte == INT3_CODE
  {
    hide Single;
    if forall b: nat | b < |s.mem| :: ShowsAt(s, a, b) {
      forall k | 0 <= k < |s.points| && s.points[k].Break? && !(s.points[k].addr == a && Single(s.points, a))
        ensures s.points[k].oriByte == INT3_CODE
      {
        assert ShowsAt(s, a, s.points[k].addr);
      }
    }
  }
}
