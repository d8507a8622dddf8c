/** The interrupt latch between the device threads and the CPU loop
    (nemu/src/device/i8259_pic.c, nemu/src/cpu/cpu.c): every interleaving of single reads and
    writes, with any number of device threads. */
module PicLatch {

  const IRQ_BASE: nat := 32
  const NO_INTR: nat := 255

  /** Where a device thread is in i8259_raise_intr(irq). */
  datatype Device =
    | Idle
    | Waiting(irq: nat)                 // at SDL_LockMutex
    | Holding(irq: nat)
    | Decided(irq: nat, write: bool)    // the priority test is done
    | Latched(irq: nat)                 // i8259_intr_no is written
    | Flagged(irq: nat)                 // cpu.intr is set

  /** Where the CPU thread is between two instructions. */
  datatype CpuPc =
    | Running
    | Seen                              // cpu.intr and IF were set
    | Queried(no: nat)                  // i8259_query_intr_no has returned no
    | AckHolding(no: nat)
    | AckCleared(no: nat)               // i8259_intr_no is reset
    | AckDone(no: nat)                  // cpu.intr is reset
    | Raising(no: nat)

  datatype Holder = Free | ByDevice(id: nat) | ByCpu

  /** since is history: the requests recorded since the latch was last reset. */
  datatype State =
    State(intrNo: nat, intr: bool, holder: Holder, devices: map<nat, Device>, cpu: CpuPc, since: set<nat>)

  datatype Step =
    | Call(d: nat, irq: nat) | Lock(d: nat) | GiveUp(d: nat)
    | Compare(d: nat) | Latch(d: nat) | Flag(d: nat) | Unlock(d: nat)
    | See | Query | AckLock | AckGiveUp | AckClear | AckUnflag | AckUnlock | Raise

  predicate Enabled(s: State, step: Step) {
    match step
    case Call(d, irq) => irq < 256 && (d in s.devices ==> s.devices[d].Idle?)
    case Lock(d) => d in s.devices && s.devices[d].Waiting? && s.holder.Free?
    case GiveUp(d) => d in s.devices && s.devices[d].Waiting?
    case Compare(d) => d in s.devices && s.devices[d].Holding?
    case Latch(d) => d in s.devices && s.devices[d].Decided?
    case Flag(d) => d in s.devices && s.devices[d].Latched?
    case Unlock(d) => d in s.devices && s.devices[d].Flagged?
    case See => s.cpu.Running? && s.intr
    case Query => s.cpu.Seen?
    case AckLock => s.cpu.Queried? && s.holder.Free?
    case AckGiveUp => s.cpu.Queried?
    case AckClear => s.cpu.AckHolding?
    case AckUnflag => s.cpu.AckCleared?
    case AckUnlock => s.cpu.AckDone?
    case Raise => s.cpu.Raising?
  }

  /** i8259_pic.c:22-23, in C's integer arithmetic. */
  predicate TakesPriority(irq: nat, intrNo: nat) { intrNo == NO_INTR || irq as int > intrNo - IRQ_BASE }

  function Apply(s: State, step: Step): State
    requires Enabled(s, step)
  {
    match step
    case Call(d, irq) => s.(devices := s.devices[d := Waiting(irq)])
    case Lock(d) => s.(devices := s.devices[d := Holding(s.devices[d].irq)], holder := ByDevice(d))
    case GiveUp(d) => s.(devices := s.devices[d := Idle])
    case Compare(d) =>
      s.(devices := s.devices[d := Decided(s.devices[d].irq, TakesPriority(s.devices[d].irq, s.intrNo))])
    case Latch(d) =>
      var irq := s.devices[d].irq;
      s.(devices := s.devices[d := Latched(irq)], since := s.since + {irq},
         intrNo := if s.devices[d].write then (irq + IRQ_BASE) % 256 else s.intrNo)
    case Flag(d) => s.(devices := s.devices[d := Flagged(s.devices[d].irq)], intr := true)
    case Unlock(d) => s.(devices := s.devices[d := Idle], holder := Free)
    case See => s.(cpu := Seen)
    case Query => s.(cpu := Queried(s.intrNo))
    case AckLock => s.(cpu := AckHolding(s.cpu.no), holder := ByCpu)
    case AckGiveUp => s.(cpu := Raising(s.cpu.no))
    case AckClear => s.(cpu := AckCleared(s.cpu.no), intrNo := NO_INTR, since := {})
    case AckUnflag => s.(cpu := AckDone(s.cpu.no), intr := false)
    case AckUnlock => s.(cpu := Raising(s.cpu.no), holder := Free)
    case Raise => s.(cpu := Running)
  }

  /** i8259_init, before any device thread has called. */
  ghost predicate Init(s: State) {
    s == State(NO_INTR, false, Free, s.devices, Running, {}) && forall d | d in s.devices :: s.devices[d].Idle?
  }

  /** Every request of the run is one of these. */
  ghost predicate Only(steps: seq<Step>, irqs: set<nat>) {
    forall k | 0 <= k < |steps| :: steps[k].Call? ==> steps[k].irq in irqs
  }

  ghost predicate Runs(s: State, steps: seq<Step>, t: State)
    decreases |steps|
  {
    if steps == [] then s == t
    else Enabled(s, steps[0]) && Runs(Apply(s, steps[0]), steps[1..], t)
  }

  // ---------- the invariants ----------

  /** The request whose number is the reserved one. */
  const RESERVED_IRQ: nat := 223

  predicate Critical(d: Device) { d.Holding? || d.Decided? || d.Latched? || d.Flagged? }

  /** The latch shows the highest request of the set. */
  ghost predicate Shows(intrNo: nat, since: set<nat>) {
    if since == {} then intrNo == NO_INTR
    else intrNo >= IRQ_BASE && intrNo - IRQ_BASE in since && forall x | x in since :: x <= intrNo - IRQ_BASE
  }

  /** The mutex is held by exactly the thread that is inside its critical section. */
  ghost predicate MutexInv(s: State) {
    && (forall d | d in s.devices :: Critical(s.devices[d]) <==> s.holder == ByDevice(d))
    && (s.holder.ByDevice? ==> s.holder.id in s.devices)
    && ((s.cpu.AckHolding? || s.cpu.AckCleared? || s.cpu.AckDone?) <==> s.holder.ByCpu?)
  }

  ghost predicate DeviceInv(s: State, dev: Device) {
    && (!dev.Idle? ==> dev.irq != RESERVED_IRQ && dev.irq < 256)
    && (dev.Decided? ==> dev.write == TakesPriority(dev.irq, s.intrNo))
    && (dev.Latched? ==> s.since != {})
    && (dev.Flagged? ==> s.intr && s.since != {})
  }

  /** cpu.intr is set exactly when something is latched, but for the two writers' moments. */
  ghost predicate FlagInv(s: State) {
    && (s.since == {} <==> s.intrNo == NO_INTR)
    && (s.intr && !s.cpu.AckCleared? ==> s.since != {})
    && (s.since != {} && !s.intr ==> s.holder.ByDevice? && s.holder.id in s.devices && s.devices[s.holder.id].Latched?)
  }

  ghost predicate CpuInv(s: State) {
    match s.cpu
    case Running => true
    case Seen => s.since != {}
    case Queried(n) => n != NO_INTR && s.since != {}
    case AckHolding(n) => n != NO_INTR && s.since != {}
    case AckCleared(n) => n != NO_INTR && s.since == {}
    case AckDone(n) => n != NO_INTR && s.since == {} && !s.intr
    case Raising(n) => n != NO_INTR
  }

  ghost predicate Inv(s: State) {
    MutexInv(s) && FlagInv(s) && CpuInv(s) && forall d | d in s.devices :: DeviceInv(s, s.devices[d])
  }

  /** What the priority test keeps up while no request wraps around. */
  ghost predicate Ordered(s: State) {
    && Shows(s.intrNo, s.since)
    && (forall d | d in s.devices && !s.devices[d].Idle? :: s.devices[d].irq < RESERVED_IRQ)
    && (s.cpu.Queried? || s.cpu.AckHolding? ==> s.cpu.no <= s.intrNo)
  }

  predicate ByCpuThread(step: Step) {
    || step.See? || step.Query? || step.AckLock? || step.AckGiveUp?
    || step.AckClear? || step.AckUnflag? || step.AckUnlock? || step.Raise?
  }

  lemma {:induction false} CpuStepKeepsInv(s: State, step: Step)
    requires Inv(s) && Enabled(s, step) && ByCpuThread(step)
    ensures Inv(Apply(s, step))
  {
  }

  /** Calling, locking and giving up. */
  lemma {:induction false} CallStepKeepsInv(s: State, step: Step)
    requires Inv(s) && Enabled(s, step) && (step.Call? || step.Lock? || step.GiveUp?)
    requires step.Call? ==> step.irq != RESERVED_IRQ
    ensures Inv(Apply(s, step))
  {
  }

  /** Inside the critical section, and leaving it. */
  lemma {:induction false} HoldStepKeepsInv(s: State, step: Step)
    requires Inv(s) && Enabled(s, step) && (step.Compare? || step.Latch? || step.Flag? || step.Unlock?)
    ensures Inv(Apply(s, step))
  {
  }

  lemma {:induction false} StepKeepsInv(s: State, step: Step)
    requires Inv(s) && Enabled(s, step) && (step.Call? ==> step.irq != RESERVED_IRQ)
    ensures Inv(Apply(s, step))
  {
    hide Inv, Enabled, Apply;
    if ByCpuThread(step) {
      CpuStepKeepsInv(s, step);
    } else if step.Call? || step.Lock? || step.GiveUp? {
      CallStepKeepsInv(s, step);
    } else {
      HoldStepKeepsInv(s, step);
    }
  }

  lemma {:induction false} StepKeepsOrder(s: State, step: Step)
    requires Inv(s) && Ordered(s) && Enabled(s, step) && (step.Call? ==> step.irq < RESERVED_IRQ)
    ensures Ordered(Apply(s, step))
  {
    hide MutexInv;
    assert step.Latch? ==> s.devices[step.d].Decided? && DeviceInv(s, s.devices[step.d]);
  }

  /** What is recorded, waited for or queried was requested. */
  ghost predicate From(s: State, irqs: set<nat>) {
    && s.since <= irqs
    && (forall d | d in s.devices && !s.devices[d].Idle? :: s.devices[d].irq in irqs)
    && (s.cpu.Queried? || s.cpu.AckHolding? ==> s.cpu.no >= IRQ_BASE && s.cpu.no - IRQ_BASE in irqs)
  }

  lemma StepKeepsFrom(s: State, step: Step, irqs: set<nat>)
    requires Inv(s) && Ordered(s) && From(s, irqs) && Enabled(s, step) && (step.Call? ==> step.irq in irqs)
    ensures From(Apply(s, step), irqs)
  {
    hide MutexInv;
    assert step.Query? ==> s.since != {};
  }

  lemma {:induction false} RunKeepsInv(s: State, steps: seq<Step>, t: State, irqs: set<nat>)
    requires Inv(s) && Runs(s, steps, t) && Only(steps, irqs) && RESERVED_IRQ !in irqs
    ensures Inv(t)
    ensures Ordered(s) && (forall x | x in irqs :: x < RESERVED_IRQ) ==> Ordered(t) && (From(s, irqs) ==> From(t, irqs))
    decreases |steps|
  {
    if steps != [] {
      hide Inv, Ordered, From, Enabled, Apply;
      StepKeepsInv(s, steps[0]);
      if Ordered(s) && forall x | x in irqs :: x < RESERVED_IRQ {
        StepKeepsOrder(s, steps[0]);
        if From(s, irqs) { StepKeepsFrom(s, steps[0], irqs); }
      }
      RunKeepsInv(Apply(s, steps[0]), steps[1..], t, irqs);
    }
  }

  /** A state of some run from i8259_init in which only these requests are raised. */
  ghost predicate Reachable(t: State, irqs: set<nat>) {
    exists s, steps :: Init(s) && Runs(s, steps, t) && Only(steps, irqs)
  }

  lemma {:induction false} ReachableInv(t: State, irqs: set<nat>)
    requires Reachable(t, irqs) && RESERVED_IRQ !in irqs
    ensures Inv(t)
    ensures (forall x | x in irqs :: x < RESERVED_IRQ) ==> Ordered(t) && From(t, irqs)
  {
    var s, steps :| Init(s) && Runs(s, steps, t) && Only(steps, irqs);
    hide Runs;
    RunKeepsInv(s, steps, t, irqs);
  }

  /** Whenever nobody is in a critical section, the latch shows the highest request since the
      last acknowledge, and cpu.intr says whether there is one. */
  lemma {:induction false} LatchIsHighest(t: State, irqs: set<nat>)
    requires Reachable(t, irqs) && (forall x | x in irqs :: x <= 222) && t.holder.Free?
    ensures Shows(t.intrNo, t.since) && (t.intr <==> t.since != {})
  {
    ReachableInv(t, irqs);
  }

  /** When the CPU holds the mutex to acknowledge, no request above the queried number is lost
      exactly when the latch still holds that number; it can only have grown. */
  lemma AcknowledgeDelivers(t: State, irqs: set<nat>)
    requires Reachable(t, irqs) && (forall x | x in irqs :: x <= 222) && t.cpu.AckHolding?
    ensures t.cpu.no <= t.intrNo
    ensures Shows(t.cpu.no, t.since) <==> t.intrNo == t.cpu.no
  {
    ReachableInv(t, irqs);
  }

  lemma RunStep(s: State, steps: seq<Step>, step: Step, t: State)
    requires Runs(s, steps, t) && Enabled(t, step)
    ensures Runs(s, steps + [step], Apply(t, step))
    decreases |steps|
  {
    if steps == [] {
      assert [step][1..] == [];
    } else {
      RunStep(Apply(s, steps[0]), steps[1..], step, t);
      assert (steps + [step])[1..] == steps[1..] + [step];
    }
  }

  lemma {:induction false} RunsConcat(s: State, a: seq<Step>, t: State, b: seq<Step>, u: State)
    requires Runs(s, a, t) && Runs(t, b, u)
    ensures Runs(s, a + b, u)
    decreases |a|
  {
    if a == [] {
      assert a + b == b;
    } else {
      RunsConcat(Apply(s, a[0]), a[1..], t, b, u);
      assert (a + b)[1..] == a[1..] + b;
    }
  }

  /** Two steps on their own. */
  lemma RunTwo(s: State, a: Step, b: Step)
    requires Enabled(s, a) && Enabled(Apply(s, a), b)
    ensures Runs(s, [a, b], Apply(Apply(s, a), b))
  {
  }

  /** One whole undisturbed call of i8259_raise_intr. */
  function WholeCall(d: nat, irq: nat): seq<Step> {
    [Call(d, irq), Lock(d)] + [Compare(d), Latch(d)] + [Flag(d), Unlock(d)]
  }

  lemma WholeCallRuns(s: State, d: nat, irq: nat)
    requires s.holder.Free? && irq < 256 && (d in s.devices ==> s.devices[d].Idle?)
    ensures Runs(s, WholeCall(d, irq), s.(devices := s.devices[d := Idle], since := s.since + {irq}, intr := true,
              intrNo := if TakesPriority(irq, s.intrNo) then (irq + IRQ_BASE) % 256 else s.intrNo))
  {
    hide Runs;
    var s2 := s.(devices := s.devices[d := Holding(irq)], holder := ByDevice(d));
    var s4 := s2.(devices := s.devices[d := Latched(irq)], since := s.since + {irq},
                  intrNo := if TakesPriority(irq, s.intrNo) then (irq + IRQ_BASE) % 256 else s.intrNo);
    var s6 := s4.(devices := s.devices[d := Idle], intr := true, holder := Free);
    CallAndLock(s, d, irq);
    CompareAndLatch(s2, d, irq, s.devices);
    FlagAndUnlock(s4, d, irq, s.devices);
    RunsConcat(s, [Call(d, irq), Lock(d)], s2, [Compare(d), Latch(d)], s4);
    RunsConcat(s, [Call(d, irq), Lock(d)] + [Compare(d), Latch(d)], s4, [Flag(d), Unlock(d)], s6);
  }

  lemma CallAndLock(s: State, d: nat, irq: nat)
    requires s.holder.Free? && irq < 256 && (d in s.devices ==> s.devices[d].Idle?)
    ensures Runs(s, [Call(d, irq), Lock(d)], s.(devices := s.devices[d := Holding(irq)], holder := ByDevice(d)))
  {
    hide Runs;
    RunTwo(s, Call(d, irq), Lock(d));
    assert s.devices[d := Waiting(irq)][d := Holding(irq)] == s.devices[d := Holding(irq)];
  }

  lemma CompareAndLatch(s: State, d: nat, irq: nat, others: map<nat, Device>)
    requires s.devices == others[d := Holding(irq)]
    ensures Runs(s, [Compare(d), Latch(d)], s.(devices := others[d := Latched(irq)], since := s.since + {irq},
              intrNo := if TakesPriority(irq, s.intrNo) then (irq + IRQ_BASE) % 256 else s.intrNo))
  {
    hide Runs;
    RunTwo(s, Compare(d), Latch(d));
    var write := TakesPriority(irq, s.intrNo);
    assert s.devices[d := Decided(irq, write)][d := Latched(irq)] == others[d := Latched(irq)];
  }

  lemma FlagAndUnlock(s: State, d: nat, irq: nat, others: map<nat, Device>)
    requires s.devices == others[d := Latched(irq)]
    ensures Runs(s, [Flag(d), Unlock(d)], s.(devices := others[d := Idle], intr := true, holder := Free))
  {
    hide Runs;
    RunTwo(s, Flag(d), Unlock(d));
    assert s.devices[d := Flagged(irq)][d := Idle] == others[d := Idle];
  }

  /** The CPU notices the pending interrupt and reads its number. */
  const WHOLE_QUERY: seq<Step> := [See, Query]

  /** The CPU acknowledges undisturbed. */
  const WHOLE_ACK: seq<Step> := [AckLock, AckClear] + [AckUnflag, AckUnlock]

  lemma WholeAckRuns(s: State)
    requires s.holder.Free? && s.cpu.Queried?
    ensures Runs(s, WHOLE_ACK, s.(cpu := Raising(s.cpu.no), intrNo := NO_INTR, intr := false, since := {}))
  {
    hide Runs;
    var s2 := Apply(Apply(s, AckLock), AckClear);
    RunTwo(s, AckLock, AckClear);
    RunTwo(s2, AckUnflag, AckUnlock);
    RunsConcat(s, [AckLock, AckClear], s2, [AckUnflag, AckUnlock], Apply(Apply(s2, AckUnflag), AckUnlock));
  }

  /** After a whole call on an idle machine the CPU reads the number of that call. */
  lemma CallThenQuery(s: State, d: nat, irq: nat) returns (t: State)
    requires s.intrNo == NO_INTR && s.holder.Free? && s.cpu.Running? && irq < 256
    requires d in s.devices ==> s.devices[d].Idle?
    ensures Runs(s, WholeCall(d, irq) + WHOLE_QUERY, t)
    ensures var no := (irq + IRQ_BASE) % 256;
            t == State(no, true, Free, s.devices[d := Idle], Queried(no), s.since + {irq})
  {
    hide Runs;
    WholeCallRuns(s, d, irq);
    var s1 := s.(devices := s.devices[d := Idle], since := s.since + {irq}, intr := true,
                 intrNo := (irq + IRQ_BASE) % 256);
    RunTwo(s1, See, Query);
    t := Apply(Apply(s1, See), Query);
    RunsConcat(s, WholeCall(d, irq), s1, WHOLE_QUERY, t);
  }

  /** A higher request between the query and the acknowledge. */
  lemma RequestOvertakes(low: nat, high: nat) returns (s: State, steps: seq<Step>, t: State)
    requires low < high <= 222
    ensures Init(s) && Runs(s, steps, t) && Call(1, high) in steps && Only(steps, {low, high})
    ensures t == State(high + IRQ_BASE, true, Free, map[0 := Idle, 1 := Idle], Queried(low + IRQ_BASE), {low, high})
  {
    hide Runs, Apply, Enabled;
    s := State(NO_INTR, false, Free, map[], Running, {});
    var s1 := CallThenQuery(s, 0, low);
    WholeCallRuns(s1, 1, high);
    t := s1.(devices := s1.devices[1 := Idle], since := s1.since + {high}, intr := true, intrNo := high + IRQ_BASE);
    steps := WholeCall(0, low) + WHOLE_QUERY + WholeCall(1, high);
    RunsConcat(s, WholeCall(0, low) + WHOLE_QUERY, s1, WholeCall(1, high), t);
    assert Call(1, high) in WholeCall(1, high);
  }

  /** A request between the query and the acknowledge is lost: the lower request is delivered,
      the higher one is wiped out, and nothing is left pending. */
  lemma RequestLost(low: nat, high: nat) returns (s: State, steps: seq<Step>, t: State)
    requires low < high <= 222
    ensures Init(s) && Runs(s, steps, t) && Call(1, high) in steps
    ensures t.cpu == Raising(low + IRQ_BASE) && t.intrNo == NO_INTR && !t.intr && t.devices == map[0 := Idle, 1 := Idle]
  {
    hide Runs, Apply, Enabled;
    s, steps, t := RequestOvertakes(low, high);
    var t' := t.(cpu := Raising(t.cpu.no), intrNo := NO_INTR, intr := false, since := {});
    WholeAckRuns(t);
    RunsConcat(s, steps, t, WHOLE_ACK, t');
    steps, t := steps + WHOLE_ACK, t';
  }

  /** Over all runs: every acknowledge delivers the highest request exactly when there are no two
      different requests. */
  lemma AlwaysDelivers(irqs: set<nat>)
    requires forall x | x in irqs :: x <= 222
    ensures (forall t | Reachable(t, irqs) && t.cpu.AckHolding? :: Shows(t.cpu.no, t.since)) <==>
              forall x, y | x in irqs && y in irqs :: x == y
  {
    hide Runs, Enabled, Apply, Reachable;
    if forall x, y | x in irqs && y in irqs :: x == y {
      forall t | Reachable(t, irqs) && t.cpu.AckHolding? ensures Shows(t.cpu.no, t.since) { ReachableInv(t, irqs); }
    } else {
      var low, high :| low in irqs && high in irqs && low < high;
      var t := MissedReachable(low, high, irqs);
      assert high in t.since;
    }
  }

  /** The CPU holds the mutex to acknowledge the lower request, with the higher one recorded. */
  lemma MissedReachable(low: nat, high: nat, irqs: set<nat>) returns (t: State)
    requires low in irqs && high in irqs && low < high <= 222
    ensures Reachable(t, irqs) && t.cpu == AckHolding(low + IRQ_BASE) && high in t.since
  {
    hide Runs;
    var s, steps, q := RequestOvertakes(low, high);
    RunStep(s, steps, AckLock, q);
    t := Apply(q, AckLock);
    assert Only(steps + [AckLock], irqs);
  }

  /** With request 223 the latched number is the reserved one. */
  lemma ReservedNumber() returns (s: State, steps: seq<Step>, t: State)
    ensures Init(s) && Runs(s, steps, t) && Only(steps, {RESERVED_IRQ}) && t.cpu == Queried(NO_INTR)
  {
    s := State(NO_INTR, false, Free, map[], Running, {});
    t := CallThenQuery(s, 0, RESERVED_IRQ);
    steps := WholeCall(0, RESERVED_IRQ) + WHOLE_QUERY;
  }

  /** The assertion that a pending interrupt has a real number holds in every run over a set of
      requests exactly when request 223 is not among them. */
  lemma PendingHasNumber(irqs: set<nat>)
    ensures (forall t | Reachable(t, irqs) :: t.cpu != Queried(NO_INTR)) <==> RESERVED_IRQ !in irqs
  {
    hide Runs, Enabled, Apply;
    if RESERVED_IRQ !in irqs {
      forall t | Reachable(t, irqs) ensures t.cpu != Queried(NO_INTR) { ReachableInv(t, irqs); }
    } else {
      var s, steps, t := ReservedNumber();
      assert Reachable(t, irqs);
    }
  }
}
