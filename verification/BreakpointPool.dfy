/** The 32 nodes of the debugger and their two linked lists (nemu/src/monitor/breakpoint.c).
    A pointer is an index into bp_list, or NIL. */
module BreakpointPool {
  import opened MachineInts
  import opened Basics
  import opened BreakpointPoints

  const NR_BP: nat := 32
  const NIL: int := -1

  datatype BP = BP(no: int, inUse: bool, enable: bool, watch: bool, addr: nat, oriByte: byte, next: int)

  function At(l: seq<nat>, k: nat): int { if k < |l| then l[k] else NIL }

  /** The nodes of l, in this order, are the list that starts at p. */
  ghost predicate IsList(bps: seq<BP>, p: int, l: seq<nat>) {
    p == At(l, 0) && InPool(l, |bps|) && forall k {:trigger bps[l[k]]} | 0 <= k < |l| :: bps[l[k]].next == At(l, k + 1)
  }

  ghost predicate InPool(l: seq<nat>, n: nat) { forall k | 0 <= k < |l| :: l[k] < n }

  ghost predicate Numbered(bps: seq<BP>) { forall i | 0 <= i < |bps| :: bps[i].no == i }

  /** in_use holds exactly on the nodes of active, and fails exactly on the nodes of idle. */
  ghost predicate Marked(bps: seq<BP>, active: seq<nat>, idle: seq<nat>) {
    forall i | 0 <= i < |bps| :: (i in active <==> bps[i].inUse) && (i in idle <==> !bps[i].inUse)
  }

  /** Both lists are acyclic; together they cover all nodes, and no node is on both. */
  ghost predicate Lists(bps: seq<BP>, head: int, free: int, active: seq<nat>, idle: seq<nat>) {
    && |bps| == NR_BP == |active| + |idle| && Numbered(bps)
    && IsList(bps, head, active) && IsList(bps, free, idle)
    && Distinct(active) && Distinct(idle) && Marked(bps, active, idle)
  }

  /** The lists share no node and leave none out, and the pool is exhausted only with all 32 in use. */
  lemma Partition(bps: seq<BP>, head: int, free: int, active: seq<nat>, idle: seq<nat>)
    requires Lists(bps, head, free, active, idle)
    ensures forall i: nat | i < NR_BP :: i in active <==> i !in idle
    ensures forall x | x in active + idle :: x < NR_BP
    ensures free == NIL <==> |active| == NR_BP
  {
  }

  function PointOf(bp: BP): Point { if bp.watch then Watch else Break(bp.addr, bp.oriByte) }

  ghost function PointsOf(bps: seq<BP>, l: seq<nat>): (r: seq<Point>)
    requires InPool(l, |bps|)
    ensures |r| == |l| && forall k | 0 <= k < |l| :: r[k] == PointOf(bps[l[k]])
  {
    seq(|l|, k requires 0 <= k < |l| => PointOf(bps[l[k]]))
  }

  /** The two stores that move a node from one list to the other: pushing in front, ... */
  lemma Push(bps: seq<BP>, p: int, l: seq<nat>, node: nat, bp: BP)
    requires IsList(bps, p, l) && node < |bps| && node !in l && bp.next == p
    ensures IsList(bps[node := bp], node, [node] + l)
  {
  }

  /** ... and changing a node that is not on the list. */
  lemma Unaffected(bps: seq<BP>, p: int, l: seq<nat>, node: nat, bp: BP)
    requires IsList(bps, p, l) && node < |bps| && (node !in l || bp.next == bps[node].next)
    ensures IsList(bps[node := bp], p, l)
  {
  }

  function Cut(l: seq<nat>, k: nat): seq<nat>
    requires k < |l|
  {
    l[..k] + l[k + 1..]
  }

  lemma CutHas(l: seq<nat>, k: nat)
    requires k < |l| && Distinct(l)
    ensures Distinct(Cut(l, k)) && forall x :: x in Cut(l, k) <==> x in l && x != l[k]
  {
  }

  /** Node k of the active list is unlinked and given back. */
  ghost function GivenBack(bps: seq<BP>, free: int, active: seq<nat>, k: nat): (r: seq<BP>)
    requires k < |active| && InPool(active, |bps|)
    ensures |r| == |bps|
  {
    var bps' := UnlinkedNodes(bps, active, k);
    bps'[active[k] := bps'[active[k]].(inUse := false, next := free)]
  }

  ghost function UnlinkedNodes(bps: seq<BP>, active: seq<nat>, k: nat): (r: seq<BP>)
    requires k < |active| && InPool(active, |bps|)
    ensures |r| == |bps|
  {
    if k == 0 then bps else bps[active[k - 1] := bps[active[k - 1]].(next := bps[active[k]].next)]
  }

  lemma UsedAfter(bps: seq<BP>, free: int, active: seq<nat>, k: nat)
    requires k < |active| && InPool(active, |bps|) && Numbered(bps)
    ensures Numbered(GivenBack(bps, free, active, k))
    ensures forall i | 0 <= i < |bps| :: GivenBack(bps, free, active, k)[i].inUse == (bps[i].inUse && i != active[k])
  {
  }

  /** Unlinking the node at position k (lines 101-102). */
  lemma Unlinked(bps: seq<BP>, p: int, l: seq<nat>, k: nat)
    requires IsList(bps, p, l) && Distinct(l) && k < |l|
    ensures p == l[0] < |bps| && InPool(l, |bps|)
    ensures IsList(UnlinkedNodes(bps, l, k), if k == 0 then bps[p].next else p, Cut(l, k))
  {
  }

  lemma UnlinkedElsewhere(bps: seq<BP>, active: seq<nat>, k: nat, p: int, l: seq<nat>)
    requires IsList(bps, p, l) && k < |active| && InPool(active, |bps|) && forall x | x in active :: x !in l
    ensures IsList(UnlinkedNodes(bps, active, k), p, l)
  {
    if k > 0 { assert active[k - 1] in active; }
  }

  /** The first node of l moves to the front of m. */
  lemma MarkedMove(bps: seq<BP>, m: seq<nat>, l: seq<nat>, node: nat, bp: BP)
    requires Marked(bps, m, l) && Distinct(l) && l != [] && node == l[0] < |bps| && bp.inUse
    ensures Marked(bps[node := bp], [node] + m, l[1..]) && !bps[node].inUse && node !in m && node !in l[1..]
  {
  }

  /** A node fresh from the pool, filled and pushed in front of the active list. */
  lemma {:induction false} Linked(bps: seq<BP>, head: int, free: int, active: seq<nat>, idle: seq<nat>, bp: BP)
    requires Lists(bps, head, free, active, idle) && idle != []
    requires bp.no == idle[0] && bp.inUse && bp.next == head
    ensures idle[0] < |bps| && InPool(active, |bps|) && InPool([idle[0]] + active, |bps|)
    ensures Lists(bps[idle[0] := bp], idle[0], bps[idle[0]].next, [idle[0]] + active, idle[1..])
    ensures PointsOf(bps[idle[0] := bp], [idle[0]] + active) == [PointOf(bp)] + PointsOf(bps, active)
  {
    var node := idle[0];
    assert node < |bps| && InPool(active, |bps|);
    hide IsList, Distinct, Marked, Numbered, PointsOf;
    MarkedMove(bps, active, idle, node, bp);
    Push(bps, head, active, node, bp);
    DistinctPush(active, node);
    Popped(bps, free, idle, bp);
    PushPoints(bps, active, node, bp);
    NumberedKept(bps, node, bp);
  }

  lemma Popped(bps: seq<BP>, p: int, l: seq<nat>, bp: BP)
    requires IsList(bps, p, l) && l != [] && Distinct(l)
    ensures IsList(bps[l[0] := bp], bps[l[0]].next, l[1..]) && Distinct(l[1..])
  {
  }

  lemma PushPoints(bps: seq<BP>, l: seq<nat>, node: nat, bp: BP)
    requires InPool(l, |bps|) && node < |bps| && node !in l
    ensures InPool([node] + l, |bps|)
    ensures PointsOf(bps[node := bp], [node] + l) == [PointOf(bp)] + PointsOf(bps, l)
  {
  }

  lemma NumberedKept(bps: seq<BP>, node: nat, bp: BP)
    requires Numbered(bps) && node < |bps| && bp.no == node
    ensures Numbered(bps[node := bp])
  {
  }

  /** At position k of the active list. */
  lemma Walk(bps: seq<BP>, head: int, free: int, active: seq<nat>, idle: seq<nat>, k: nat)
    requires Lists(bps, head, free, active, idle)
    ensures head == At(active, 0) && |bps| == NR_BP && InPool(active, NR_BP) && IsList(bps, free, idle)
    ensures k < |active| ==>
              && active[k] < NR_BP && active[k] !in idle
              && var bp := bps[active[k]]; bp.no == active[k] && bp.inUse && bp.next == At(active, k + 1)
  {
  }

  /** The untouched array after init_bp_list. */
  lemma AllIdle(bps: seq<BP>)
    requires |bps| == NR_BP
    requires forall k | 0 <= k < NR_BP ::
               bps[k].no == k && !bps[k].inUse && bps[k].next == if k + 1 < NR_BP then k + 1 else NIL
    ensures Lists(bps, NIL, 0, [], seq(NR_BP, k => k))
  {
    var idle: seq<nat> := seq(NR_BP, k => k);
    forall k: nat | k < NR_BP ensures k in idle { assert idle[k] == k; }
  }

  lemma MarkedBack(bps: seq<BP>, active: seq<nat>, idle: seq<nat>, k: nat, bps': seq<BP>)
    requires Marked(bps, active, idle) && Distinct(active) && k < |active| && |bps'| == |bps| && active[k] < |bps|
    requires forall i | 0 <= i < |bps| :: bps'[i].inUse == (bps[i].inUse && i != active[k])
    ensures Marked(bps', Cut(active, k), [active[k]] + idle)
  {
  }

  lemma {:induction false} Removed(bps: seq<BP>, head: int, free: int, active: seq<nat>, idle: seq<nat>, k: nat)
    requires Lists(bps, head, free, active, idle) && k < |active|
    ensures InPool(active, |bps|) && InPool(Cut(active, k), |bps|)
    ensures Lists(GivenBack(bps, free, active, k), if k == 0 then bps[head].next else head, active[k],
                  Cut(active, k), [active[k]] + idle)
    ensures PointsOf(GivenBack(bps, free, active, k), Cut(active, k)) == Without(PointsOf(bps, active), k)
  {
    var node := active[k];
    assert (forall x | x in active :: x !in idle) && node in active && InPool(active, |bps|) &&
        (k == 0 ==> head == node);
    hide IsList, Distinct, Marked, Numbered, PointsOf, UnlinkedNodes;
    RemovedPoints(bps, free, active, k);
    UsedAfter(bps, free, active, k);
    MarkedBack(bps, active, idle, k, GivenBack(bps, free, active, k));
    CutHas(active, k);
    DistinctPush(idle, node);
    var unlinked := UnlinkedNodes(bps, active, k);
    var given := unlinked[node].(inUse := false, next := free);
    Unlinked(bps, head, active, k);
    Unaffected(unlinked, if k == 0 then bps[head].next else head, Cut(active, k), node, given);
    UnlinkedElsewhere(bps, active, k, free, idle);
    Push(unlinked, free, idle, node, given);
  }

  lemma RemovedPoints(bps: seq<BP>, free: int, active: seq<nat>, k: nat)
    requires k < |active| && InPool(active, |bps|)
    ensures InPool(Cut(active, k), |bps|)
    ensures PointsOf(GivenBack(bps, free, active, k), Cut(active, k)) == Without(PointsOf(bps, active), k)
  {
  }

  lemma DistinctPush(l: seq<nat>, node: nat)
    requires Distinct(l) && node !in l
    ensures Distinct([node] + l)
  {
  }

  /** The list from p on is in use and out of the free list. */
  ghost predicate CanFree(bps: seq<BP>, p: int, l: seq<nat>, free: int, idle: seq<nat>) {
    && |bps| == NR_BP && IsList(bps, p, l) && Distinct(l) && IsList(bps, free, idle) && Distinct(idle)
    && forall x | x in l :: x !in idle && bps[x].inUse
  }

  ghost predicate FreedNodes(bps: seq<BP>, bps': seq<BP>, l: seq<nat>)
    requires |bps'| == |bps|
  {
    && (forall i | 0 <= i < |bps| :: bps'[i].no == bps[i].no && bps'[i].inUse == (bps[i].inUse && i !in l))
    && forall i | 0 <= i < |bps| && i !in l :: bps'[i].next == bps[i].next
  }

  lemma CanFreeTail(bps: seq<BP>, p: int, l: seq<nat>, free: int, idle: seq<nat>)
    requires CanFree(bps, p, l, free, idle) && p != NIL
    ensures l != [] && p == l[0] < NR_BP == |bps| && l == [l[0]] + l[1..] && bps[p].next == At(l, 1)
    ensures bps[p].inUse && p !in idle && p !in l[1..] && IsList(bps, free, idle) && Distinct(idle)
    ensures CanFree(bps, bps[p].next, l[1..], free, idle)
  {
  }

  lemma EmptyList(bps: seq<BP>, l: seq<nat>, free: int, idle: seq<nat>)
    requires CanFree(bps, NIL, l, free, idle)
    ensures l == [] && IsList(bps, free, idle) && Distinct(idle)
  {
  }

  lemma NothingFreed(bps: seq<BP>)
    ensures FreedNodes(bps, bps, [])
  {
  }

  lemma FreedOne(bps: seq<BP>, bps': seq<BP>, l: seq<nat>, next: int)
    requires l != [] && l[0] < |bps| == |bps'| && FreedNodes(bps, bps', l[1..]) && l[0] !in l[1..]
    ensures FreedNodes(bps, bps'[l[0] := bps'[l[0]].(inUse := false, next := next)], l)
    ensures bps'[l[0]].inUse == bps[l[0]].inUse
  {
  }

  /** Freeing the whole active list. */
  lemma AllFreed(bps: seq<BP>, bps': seq<BP>, head: int, free: int, active: seq<nat>, idle: seq<nat>, free': int)
    requires Lists(bps, head, free, active, idle) && |bps'| == |bps| && FreedNodes(bps, bps', active)
    requires IsList(bps', free', active + idle) && Distinct(active + idle)
    ensures Lists(bps', NIL, free', [], active + idle)
  {
  }

  lemma FieldsOnly(bps: seq<BP>, head: int, free: int, active: seq<nat>, idle: seq<nat>, node: nat, bp: BP)
    requires Lists(bps, head, free, active, idle) && node < |bps|
    requires bp.no == bps[node].no && bp.inUse == bps[node].inUse && bp.next == bps[node].next
    ensures Lists(bps[node := bp], head, free, active, idle)
  {
  }

  lemma PointChanged(bps: seq<BP>, active: seq<nat>, k: nat, bp: BP)
    requires InPool(active, |bps|) && Distinct(active) && k < |active|
    ensures PointsOf(bps[active[k] := bp], active) == PointsOf(bps, active)[k := PointOf(bp)]
  {
  }

  lemma OneChanged(bps: seq<BP>, bps': seq<BP>, p: nat)
    requires |bps'| == |bps| && p < |bps| && forall i | 0 <= i < |bps| && i != p :: bps'[i] == bps[i]
    ensures bps' == bps[p := bps'[p]]
  {
  }

  lemma PointAt(bps: seq<BP>, l: seq<nat>, k: nat)
    requires InPool(l, |bps|) && k < |l|
    ensures PointsOf(bps, l)[k] == PointOf(bps[l[k]])
  {
  }

  lemma InMemoryPush(points: seq<Point>, point: Point, size: nat)
    requires InMemory(points, size) && (point.Break? ==> point.addr < size)
    ensures InMemory([point] + points, size)
  {
  }

  /** What delete_breakpoint relies on: after unlinking, the node can be given back. */
  lemma {:induction false} Deleting(bps: seq<BP>, head: int, free: int, active: seq<nat>, idle: seq<nat>, k: nat,
                                    size: nat)
    requires Lists(bps, head, free, active, idle) && k < |active| && InMemory(PointsOf(bps, active), size)
    ensures InPool(active, |bps|) && InPool(Cut(active, k), |bps|) && active[k] < |bps| == NR_BP
    ensures k > 0 ==> active[k - 1] != active[k]
    ensures active[k] !in idle && UnlinkedNodes(bps, active, k)[active[k]].inUse
    ensures IsList(UnlinkedNodes(bps, active, k), free, idle)
    ensures Lists(GivenBack(bps, free, active, k), if k == 0 then bps[active[0]].next else head, active[k],
                  Cut(active, k), [active[k]] + idle)
    ensures PointsOf(GivenBack(bps, free, active, k), Cut(active, k)) == Without(PointsOf(bps, active), k)
    ensures InMemory(Without(PointsOf(bps, active), k), size)
  {
    assert forall x | x in active :: x !in idle;
    hide Lists, IsList, PointsOf, InMemory, Without, Cut, Marked;
    Removed(bps, head, free, active, idle, k);
    Walk(bps, head, free, active, idle, k);
    UnlinkedElsewhere(bps, active, k, free, idle);
    WithoutAt(PointsOf(bps, active), k);
  }

  // ---------- runs of commands ----------

  /** A command of the debugger's user; a watchpoint's expression may have no value. */
  datatype Command = SetAt(addr: nat) | WatchOn(hasValue: bool) | DeleteNo(no: int) | DeleteEvery

  /** Position of x in l, or |l|. */
  function IndexOf(l: seq<nat>, x: int): (k: nat)
    ensures k <= |l| && (k < |l| ==> l[k] == x) && (k < |l| <==> x in l)
  {
    if l == [] || l[0] == x then 0 else 1 + IndexOf(l[1..], x)
  }

  function Deletes(n: nat): seq<Op> { if n == 0 then [] else [Delete(0)] + Deletes(n - 1) }

  lemma {:induction false} DeletesRun(s: Armed, n: nat, rest: seq<Op>)
    requires n == |s.points|
    ensures CanRun(s, Deletes(n) + rest) <==> CanRun(Armed(s.mem, []), rest)
    ensures CanRun(Armed(s.mem, []), rest) ==> Run(s, Deletes(n) + rest) == Run(Armed(s.mem, []), rest)
    decreases n
  {
    if n == 0 {
      assert Deletes(0) + rest == rest && s == Armed(s.mem, []);
    } else {
      assert (Deletes(n) + rest)[0] == Delete(0) && (Deletes(n) + rest)[1..] == Deletes(n - 1) + rest;
      DeletesRun(Do(s, Delete(0)), n - 1, rest);
    }
  }

  /** What the commands do to the points, node numbers resolved; the run ends where a node is asked
      for and none is free, which is the assertion of line 30. */
  function OpsOf(cmds: seq<Command>, active: seq<nat>, idle: seq<nat>): seq<Op>
    decreases |cmds|
  {
    if cmds == [] then []
    else
      match cmds[0]
      case SetAt(addr) => if idle == [] then [] else [SetBreak(addr)] + OpsOf(cmds[1..], [idle[0]] + active, idle[1..])
      case WatchOn(false) => OpsOf(cmds[1..], active, idle)
      case WatchOn(true) => if idle == [] then [] else [SetWatch] + OpsOf(cmds[1..], [idle[0]] + active, idle[1..])
      case DeleteNo(no) =>
        var k := IndexOf(active, no);
        if k == |active| then OpsOf(cmds[1..], active, idle)
        else [Delete(k)] + OpsOf(cmds[1..], Cut(active, k), [active[k]] + idle)
      case DeleteEvery => Deletes(|active|) + OpsOf(cmds[1..], [], active + idle)
  }

  ghost predicate AddressesIn(cmds: seq<Command>, size: nat) {
    forall k | 0 <= k < |cmds| && cmds[k].SetAt? :: cmds[k].addr < size
  }

  lemma {:induction false} OpsCanRun(cmds: seq<Command>, s: Armed, active: seq<nat>, idle: seq<nat>)
    requires |s.points| == |active| && AddressesIn(cmds, |s.mem|)
    ensures CanRun(s, OpsOf(cmds, active, idle))
    decreases |cmds|
  {
    if cmds != [] {
      match cmds[0]
      case SetAt(addr) => if idle != [] { OpsCanRun(cmds[1..], Do(s, SetBreak(addr)), [idle[0]] + active, idle[1..]); }
      case WatchOn(false) => OpsCanRun(cmds[1..], s, active, idle);
      case WatchOn(true) => if idle != [] { OpsCanRun(cmds[1..], Do(s, SetWatch), [idle[0]] + active, idle[1..]); }
      case DeleteNo(no) =>
        var k := IndexOf(active, no);
        if k == |active| { OpsCanRun(cmds[1..], s, active, idle); }
        else { OpsCanRun(cmds[1..], Do(s, Delete(k)), Cut(active, k), [active[k]] + idle); }
      case DeleteEvery =>
        OpsCanRun(cmds[1..], Armed(s.mem, []), [], active + idle);
        DeletesRun(s, |active|, OpsOf(cmds[1..], [], active + idle));
    }
  }

  /** The run still to come leads to the same end. */
  ghost predicate Leads(s: Armed, cmds: seq<Command>, active: seq<nat>, idle: seq<nat>, end: Armed) {
    var ops := OpsOf(cmds, active, idle);
    CanRun(s, ops) && Run(s, ops) == end
  }

  lemma {:induction false} LeadsStart(cmds: seq<Command>, s: Armed, active: seq<nat>, idle: seq<nat>)
    requires |s.points| == |active| && WellFormed(s) && AddressesIn(cmds, |s.mem|)
    ensures CanRun(s, OpsOf(cmds, active, idle)) && Leads(s, cmds, active, idle, Run(s, OpsOf(cmds, active, idle)))
    ensures s.points == [] ==>
              WellFormed(Run(s, OpsOf(cmds, active, idle))) &&
              (Unarmed(Run(s, OpsOf(cmds, active, idle))) == s.mem <==> LosesNothing(s, OpsOf(cmds, active, idle)))
  {
    OpsCanRun(cmds, s, active, idle);
    if s.points == [] { RunRestores(s.mem, OpsOf(cmds, active, idle)); }
  }

  lemma AddressIn(cmds: seq<Command>, k: nat, size: nat)
    requires AddressesIn(cmds, size) && k < |cmds| && cmds[k].SetAt?
    ensures cmds[k].addr < size
  {
  }

  lemma Room(bps: seq<BP>, head: int, free: int, active: seq<nat>, idle: seq<nat>)
    requires Lists(bps, head, free, active, idle)
    ensures Distinct(active) && (free == NIL <==> idle == []) && (|active| < NR_BP <==> idle != [])
  {
  }

  lemma IndexIs(l: seq<nat>, x: int, k: nat)
    requires Distinct(l) && k < |l| && l[k] == x
    ensures IndexOf(l, x) == k
  {
  }

  lemma LeadsOn(s: Armed, cmds: seq<Command>, active: seq<nat>, idle: seq<nat>, end: Armed)
    requires Leads(s, cmds, active, idle, end) && |s.points| == |active|
    ensures cmds == [] ==> s == end
    ensures cmds != [] && cmds[0].SetAt? ==>
              if idle == [] then s == end
              else (CanDo(s, SetBreak(cmds[0].addr))
                    && Leads(Do(s, SetBreak(cmds[0].addr)), cmds[1..], [idle[0]] + active, idle[1..], end))
    ensures cmds != [] && cmds[0].WatchOn? ==>
              if !cmds[0].hasValue then Leads(s, cmds[1..], active, idle, end)
              else if idle == [] then s == end
              else Leads(Do(s, SetWatch), cmds[1..], [idle[0]] + active, idle[1..], end)
    ensures cmds != [] && cmds[0].DeleteNo? ==>
              var k := IndexOf(active, cmds[0].no);
              if k == |active| then Leads(s, cmds[1..], active, idle, end)
              else CanDo(s, Delete(k)) && Leads(Do(s, Delete(k)), cmds[1..], Cut(active, k), [active[k]] + idle, end)
    ensures cmds != [] && cmds[0].DeleteEvery? ==> Leads(Armed(s.mem, []), cmds[1..], [], active + idle, end)
  {
    var ops := OpsOf(cmds, active, idle);
    if cmds != [] && cmds[0].DeleteEvery? {
      DeletesRun(s, |active|, OpsOf(cmds[1..], [], active + idle));
    } else if ops != [] {
      assert [ops[0]] + ops[1..] == ops;
    }
  }

  class Monitor {
    const bpList: array<BP>
    var head: int
    var free: int
    const mem: array<byte>
    ghost var active: seq<nat>
    ghost var idle: seq<nat>

    ghost predicate Valid()
      reads this, bpList, mem
    {
      Lists(bpList[..], head, free, active, idle) && InMemory(PointsOf(bpList[..], active), mem.Length)
    }

    ghost function State(): Armed
      requires Valid()
      reads this, bpList, mem
    {
      Armed(mem[..], PointsOf(bpList[..], active))
    }

    constructor (bpList: array<BP>, mem: array<byte>)
      ensures this.bpList == bpList && this.mem == mem
    {
      this.bpList, this.mem := bpList, mem;
    }

    method InitBpList()
      requires bpList.Length == NR_BP
      modifies this, bpList
      ensures Valid() && State() == Armed(old(mem[..]), [])
    {
      hide Lists;
      var i := 0;
      while i < NR_BP
        invariant i <= NR_BP
        invariant forall k | 0 <= k < i :: bpList[k].no == k && !bpList[k].inUse && bpList[k].next == k + 1
      {
        bpList[i] := bpList[i].(no := i, inUse := false, next := i + 1);
        i := i + 1;
      }
      bpList[NR_BP - 1] := bpList[NR_BP - 1].(next := NIL);
      head := NIL;
      free := 0;
      active, idle := [], seq(NR_BP, k => k);
      AllIdle(bpList[..]);
    }

    /** Lines 29-36; the assertion needs a free node. */
    method NewBP() returns (p: nat)
      requires Valid() && |active| < NR_BP
      modifies this`free, this`idle, bpList
      ensures p < NR_BP && old(idle) == [p] + idle && free == old(bpList[p].next)
      ensures bpList[..] == old(bpList[..])[p := old(bpList[p]).(inUse := true)]
    {
      assert free != NIL;
      p := free;
      assert p == idle[0];
      free := bpList[free].next;
      assert !bpList[p].inUse;
      bpList[p] := bpList[p].(inUse := true);
      idle := idle[1..];
    }

    /** Lines 38-45, on a node that is out of both lists; its expression is not modelled. */
    method FreeBP(p: nat)
      requires p < NR_BP == bpList.Length && bpList[p].inUse && IsList(bpList[..], free, idle) && p !in idle
      modifies this`free, this`idle, bpList
      ensures free == p && idle == [p] + old(idle) && IsList(bpList[..], free, idle)
      ensures bpList[..] == old(bpList[..])[p := old(bpList[p]).(inUse := false, next := old(free))]
    {
      bpList[p] := bpList[p].(inUse := false);
      bpList[p] := bpList[p].(next := free);
      Push(old(bpList[..]), free, idle, p, bpList[p]);
      assert bpList[..] == old(bpList[..])[p := bpList[p]];
      free := p;
      idle := [p] + idle;
    }

    /** Lines 49-58. */
    method FillBreakpoint(p: nat, addr: nat)
      requires p < bpList.Length && addr < mem.Length
      modifies bpList, mem
      ensures mem[..] == old(mem[..][addr := INT3_CODE])
      ensures bpList[..] ==
                old(bpList[..][p := bpList[p].(watch := false, addr := addr, oriByte := mem[addr], enable := true)])
    {
      bpList[p] := bpList[p].(watch := false);
      bpList[p] := bpList[p].(addr := addr);
      bpList[p] := bpList[p].(oriByte := mem[addr]);
      mem[addr] := INT3_CODE;
      bpList[p] := bpList[p].(enable := true);
    }

    /** Lines 47-74. */
    method SetBreakpoint(addr: nat) returns (no: int)
      requires Valid() && |active| < NR_BP && addr < mem.Length
      modifies this, bpList, mem
      ensures Valid() && active == [no] + old(active) && old(idle) == [no] + idle
      ensures State() == Do(old(State()), SetBreak(addr))
    {
      assert idle != [];
      hide IsList, Distinct, Marked, Lists, InMemory, PointsOf, InPool;
      ghost var bp := BP(idle[0], true, true, false, addr, mem[addr], head);
      Linked(bpList[..], head, free, active, idle, bp);
      InMemoryPush(PointsOf(bpList[..], active), PointOf(bp), mem.Length);
      var p := NewBP();
      FillBreakpoint(p, addr);
      bpList[p] := bpList[p].(next := head);
      assert bpList[p] == bp;
      OneChanged(old(bpList[..]), bpList[..], p);
      head := p;
      active := [p] + active;
      no := bpList[p].no;
    }

    /** Lines 76-92; the expression and its value are not modelled, only whether it has one. */
    method SetWatchpoint(success: bool) returns (no: int)
      requires Valid() && (success ==> |active| < NR_BP)
      modifies this, bpList
      ensures Valid()
      ensures !success ==> no == -1 && State() == old(State()) && active == old(active) && idle == old(idle)
      ensures success ==> active == [no] + old(active) && old(idle) == [no] + idle
      ensures success ==> State() == Do(old(State()), SetWatch)
    {
      if !success { return -1; }
      ghost var bp := bpList[idle[0]].(inUse := true, watch := true, enable := true, next := head);
      Linked(bpList[..], head, free, active, idle, bp);
      hide IsList, Distinct, Marked;
      var p := NewBP();
      bpList[p] := bpList[p].(watch := true);
      bpList[p] := bpList[p].(enable := true);
      bpList[p] := bpList[p].(next := head);
      assert bpList[..] == old(bpList[..])[p := bp];
      head := p;
      active := [p] + active;
      no := bpList[p].no;
    }

    /** Lines 94-106. */
    method DeleteBreakpoint(no: int) returns (ok: bool, ghost k: nat)
      requires Valid()
      modifies this, bpList
      ensures Valid() && (ok <==> no in old(active))
      ensures !ok ==> State() == old(State()) && active == old(active) && idle == old(idle)
      ensures ok ==> k < |old(active)| && old(active)[k] == no
      ensures ok ==> active == Cut(old(active), k) && idle == [no] + old(idle)
      ensures ok ==> State() == Do(old(State()), Delete(k))
    {
      hide Lists, IsList, PointsOf, InMemory, InPool, Without, Cut, Marked, Distinct, Numbered, UnlinkedNodes;
      var p, prev;
      p, prev, k := FindNode(no);
      if p == NIL { return false, k; }
      Deleting(bpList[..], head, free, active, idle, k, mem.Length);
      Unlink(p, prev, k);
      FreeBP(p);
      assert bpList[..] == GivenBack(old(bpList[..]), old(free), active, k);
      active := Cut(active, k);
      ok := true;
    }

    /** Lines 101-102. */
    method Unlink(p: int, prev: int, ghost k: nat)
      requires bpList.Length == NR_BP && InPool(active, NR_BP)
      requires k < |active| && p == active[k] && prev == if k == 0 then NIL else active[k - 1]
      modifies this`head, bpList
      ensures bpList[..] == UnlinkedNodes(old(bpList[..]), active, k)
      ensures head == if k == 0 then old(bpList[active[0]].next) else old(head)
    {
      if prev == NIL {
        head := bpList[p].next;
      } else {
        bpList[prev] := bpList[prev].(next := bpList[p].next);
      }
    }

    /** Lines 95-98: the node with that number, and the one before it. */
    method FindNode(no: int) returns (p: int, prev: int, ghost k: nat)
      requires Valid()
      ensures k <= |active| && p == At(active, k) && prev == if k == 0 then NIL else active[k - 1]
      ensures p == NIL <==> no !in active
      ensures p != NIL ==> p == no && no in active
    {
      hide Lists, IsList;
      p, prev := head, NIL;
      k := 0;
      Walk(bpList[..], head, free, active, idle, k);
      while p != NIL
        invariant k <= |active| && p == At(active, k) && prev == if k == 0 then NIL else active[k - 1]
        invariant no !in active[..k]
        decreases |active| - k
      {
        Walk(bpList[..], head, free, active, idle, k);
        if bpList[p].no == no { break; }
        prev, p := p, bpList[p].next;
        k := k + 1;
      }
    }

    /** Lines 108-113: the list from p on is given back, last node first. */
    method DeleteAllFrom(p: int, ghost l: seq<nat>)
      requires CanFree(bpList[..], p, l, free, idle)
      modifies this`free, this`idle, bpList
      ensures idle == l + old(idle) && IsList(bpList[..], free, idle) && Distinct(idle)
      ensures bpList.Length == NR_BP && FreedNodes(old(bpList[..]), bpList[..], l)
      decreases |l|
    {
      hide IsList, Distinct, FreedNodes;
      if p == NIL {
        EmptyList(bpList[..], l, free, idle);
        NothingFreed(bpList[..]);
        return;
      }
      CanFreeTail(bpList[..], p, l, free, idle);
      hide CanFree;
      ghost var before := bpList[..];
      if bpList[p].next != NIL {
        DeleteAllFrom(bpList[p].next, l[1..]);
      } else {
        NothingFreed(bpList[..]);
      }
      FreedOne(before, bpList[..], l, free);
      DistinctPush(idle, p);
      FreeBP(p);
    }

    /** Lines 115-118. */
    method DeleteAll()
      requires Valid()
      modifies this, bpList
      ensures Valid() && active == [] && idle == old(active) + old(idle)
      ensures State() == Armed(old(mem[..]), [])
    {
      ghost var before := bpList[..];
      assert CanFree(before, head, active, free, idle);
      DeleteAllFrom(head, active);
      AllFreed(before, bpList[..], head, old(free), active, old(idle), free);
      hide Lists;
      head := NIL;
      active := [];
    }

    /** Any run of commands is the run of what they do to the points; from an empty list, masking
        restores the original memory exactly when no deletion of the run lost a byte. */
    method RunCommands(cmds: seq<Command>)
      requires Valid() && AddressesIn(cmds, mem.Length)
      modifies this, bpList, mem
      ensures Valid()
      ensures var ops := OpsOf(cmds, old(active), old(idle));
              && CanRun(old(State()), ops) && State() == Run(old(State()), ops)
              && (old(State()).points == [] ==> (Unarmed(State()) == old(mem[..]) <==> LosesNothing(old(State()), ops)))
    {
      hide Lists, InMemory, IsList, PointsOf, Leads, OpsOf, Do, Run, CanRun, AddressesIn, Mask, LosesNothing;
      ghost var start, ops := State(), OpsOf(cmds, active, idle);
      LeadsStart(cmds, start, active, idle);
      ghost var end := Run(start, ops);
      assert cmds[0..] == cmds;
      var i := 0;
      while i < |cmds|
        invariant i <= |cmds| && Valid() && |mem[..]| == |start.mem|
        invariant Leads(State(), cmds[i..], active, idle, end)
      {
        assert cmds[i..][0] == cmds[i] && cmds[i..][1..] == cmds[i + 1..];
        LeadsOn(State(), cmds[i..], active, idle, end);
        Room(bpList[..], head, free, active, idle);
        match cmds[i] {
          case SetAt(addr) =>
            if free == NIL { break; }
            AddressIn(cmds, i, mem.Length);
            var node := SetBreakpoint(addr);
          case WatchOn(hasValue) =>
            if hasValue && free == NIL { break; }
            var node := SetWatchpoint(hasValue);
          case DeleteNo(no) =>
            ghost var was := active;
            var ok, k := DeleteBreakpoint(no);
            if ok { IndexIs(was, no, k); }
          case DeleteEvery => DeleteAll();
        }
        i := i + 1;
      }
      if i == |cmds| { LeadsOn(State(), cmds[i..], active, idle, end); }
    }

    /** Lines 138-148: the newest breakpoint at the address. */
    method FindBreakpoint(addr: nat) returns (p: int)
      requires Valid()
      ensures p == At(active, Newest(State().points, addr))
      ensures p == NIL <==> forall q | q in State().points :: !IsAt(q, addr)
    {
      ghost var points := State().points;
      hide Lists, InMemory, IsList, PointsOf, Newest;
      p := head;
      ghost var k := 0;
      Walk(bpList[..], head, free, active, idle, k);
      while p != NIL
        invariant k <= |active| && p == At(active, k)
        invariant k <= Newest(points, addr)
        decreases |active| - k
      {
        Walk(bpList[..], head, free, active, idle, k);
        PointAt(bpList[..], active, k);
        NewestPast(points, addr, k);
        assert bpList[p].inUse;
        if !bpList[p].watch && bpList[p].addr == addr { break; }
        p := bpList[p].next;
        k := k + 1;
      }
      NewestNone(points, addr);
    }

    /** The stop at a breakpoint (nemu/src/cpu/cpu.c:70-74). */
    method StopAt(addr: nat) returns (found: bool)
      requires Valid() && addr < mem.Length
      modifies mem
      ensures Valid() && (found <==> HasBreak(State().points, addr))
      ensures mem[..] == Stopped(old(State()), addr) && State().points == old(State()).points
    {
      hide Lists, InMemory, IsList, PointsOf, Newest;
      var p := FindBreakpoint(addr);
      ghost var k := Newest(State().points, addr);
      NewestOrNone(State().points, addr);
      Walk(bpList[..], head, free, active, idle, k);
      found := p != NIL;
      if found {
        PointAt(bpList[..], active, k);
        mem[bpList[p].addr] := bpList[p].oriByte;
      }
    }

    /** Lines 175-188. */
    method MaskBreakpoints()
      requires Valid()
      modifies mem
      ensures Valid() && mem[..] == Unarmed(old(State())) && State().points == old(State()).points
    {
      var p := head;
      ghost var k := 0;
      ghost var points := State().points;
      while p != NIL
        invariant k <= |active| && p == At(active, k)
        invariant InMemory(points[k..], mem.Length) && Mask(mem[..], points[k..]) == Unarmed(old(State()))
        decreases |active| - k
      {
        assert active[k] in active;
        assert bpList[p].inUse;
        if !bpList[p].watch {
          mem[bpList[p].addr] := bpList[p].oriByte;
        }
        p := bpList[p].next;
        k := k + 1;
      }
    }

    /** Lines 167-169. */
    method Rearm(p: nat)
      requires p < bpList.Length && bpList[p].addr < mem.Length
      modifies bpList, mem
      ensures bpList[..] == old(bpList[..][p := bpList[p].(oriByte := mem[bpList[p].addr], enable := true)])
      ensures mem[..] == old(mem[..][bpList[p].addr := INT3_CODE])
    {
      bpList[p] := bpList[p].(oriByte := mem[bpList[p].addr]);
      mem[bpList[p].addr] := INT3_CODE;
      bpList[p] := bpList[p].(enable := true);
    }

    /** Lines 150-173. */
    method ResumeBreakpoints()
      requires Valid()
      modifies bpList, mem
      ensures Valid() && (mem[..], State().points) == Resume(old(mem[..]), old(State()).points)
    {
      var p := head;
      ghost var k := 0;
      ghost var goal := Resume(mem[..], State().points);
      ResumeStart(mem[..], State().points);
      hide Lists, IsList, PointsOf, InMemory, HalfResumed;
      Walk(bpList[..], head, free, active, idle, k);
      while p != NIL
        invariant k <= |active| && p == At(active, k)
        invariant Lists(bpList[..], head, free, active, idle) && InPool(active, bpList.Length)
        invariant HalfResumed(mem[..], PointsOf(bpList[..], active), goal, k)
        decreases |active| - k
      {
        Walk(bpList[..], head, free, active, idle, k);
        assert bpList[p].inUse;
        ResumeStep(mem[..], PointsOf(bpList[..], active), goal, k);
        if !bpList[p].watch {
          ghost var bp := bpList[p].(oriByte := mem[bpList[p].addr], enable := true);
          FieldsOnly(bpList[..], head, free, active, idle, p, bp);
          PointChanged(bpList[..], active, k, bp);
          Rearm(p);
        }
        p := bpList[p].next;
        k := k + 1;
      }
      ResumeEnd(mem[..], PointsOf(bpList[..], active), goal);
    }
  }
}
