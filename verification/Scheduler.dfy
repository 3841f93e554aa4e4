/** Run-queue bookkeeping: bitmaps and counters that stand for scans of the task table. */
module Scheduler {
  const NUMCPU := 8
  const NPROC := 512
  const UINT32_MAX := 0xFFFF_FFFF
  const DEFAULT_PRIO := 0

  datatype ProcState = Unused | Used | Sleeping | Runnable | Running | Stopped | Zombie

  /** `home` is the CPU the task last ran on, or none; `mask` the CPUs it may use. */
  datatype Task = Task(state: ProcState, priority: int, home: int, mask: set<nat>)

  predicate ValidCpu(cpu: int) {
    0 <= cpu < NUMCPU
  }

  predicate Schedulable(s: ProcState) {
    s == Runnable || s == Running
  }

  // ----- what the counters count ---------------------------------------------------------------

  datatype Query = HomedOn(cpu: int) | NonDefault

  ghost predicate Counts(q: Query, t: Task) {
    && (t.state == Runnable || t.state == Running)
    && match q
       case HomedOn(cpu) => t.home == cpu
       case NonDefault => t.priority != DEFAULT_PRIO
  }

  ghost function Count(ts: seq<Task>, q: Query): (n: nat)
    ensures n <= |ts|
  {
    if ts == [] then 0 else Count(ts[..|ts| - 1], q) + if Counts(q, ts[|ts| - 1]) then 1 else 0
  }

  lemma {:induction false} CountUpdate(ts: seq<Task>, i: nat, t: Task, q: Query)
    requires i < |ts|
    ensures Count(ts[i := t], q) + (if Counts(q, ts[i]) then 1 else 0) == Count(ts, q) + if Counts(q, t) then 1 else 0
  {
    var n := |ts| - 1;
    if i < n {
      CountUpdate(ts[..n], i, t, q);
      assert ts[i := t][..n] == ts[..n][i := t];
    } else {
      assert ts[i := t][..n] == ts[..n];
    }
  }

  // ----- bookkeeping as a value ----------------------------------------------------------------

  datatype Books = Books(tasks: seq<Task>, slots: seq<set<nat>>, pressure: seq<int>, nonDefault: int)

  /** The bit of (cpu, task) is set exactly when the task is runnable with that home. */
  ghost predicate SlotsExact(b: Books) {
    && |b.slots| == NUMCPU
    && forall c, g {:trigger g in b.slots[c]} :: 0 <= c < NUMCPU ==>
         (g in b.slots[c] <==> 0 <= g < |b.tasks| && b.tasks[g].state == Runnable && b.tasks[g].home == c)
  }

  /** Every counter is the number of tasks it stands for, in a table of at most `NPROC` tasks. */
  ghost predicate CountersExact(b: Books) {
    && |b.pressure| == NUMCPU && |b.tasks| <= NPROC
    && (forall c {:trigger b.pressure[c]} :: 0 <= c < NUMCPU ==> b.pressure[c] == Count(b.tasks, HomedOn(c)))
    && b.nonDefault == Count(b.tasks, NonDefault)
  }

  ghost predicate Exact(b: Books) {
    SlotsExact(b) && CountersExact(b)
  }

  lemma CountPositive(ts: seq<Task>, i: nat, q: Query)
    requires i < |ts| && Counts(q, ts[i])
    ensures Count(ts, q) > 0
  {
  }

  /** One task changed, and its bit with it. */
  ghost predicate SlotsAdjusted(b: Books, b': Books, g: nat)
    requires g < |b.tasks|
  {
    && |b'.tasks| == |b.tasks| && b'.tasks == b.tasks[g := b'.tasks[g]] && |b.slots| == |b'.slots| == NUMCPU
    && forall c, h {:trigger h in b'.slots[c]} :: 0 <= c < NUMCPU ==>
         (h in b'.slots[c] <==>
            if h == g then b'.tasks[g].state == Runnable && b'.tasks[g].home == c else h in b.slots[c])
  }

  /** A counter moved by the change in one task. */
  ghost predicate Moved(n: int, n': int, t: Task, t': Task, q: Query) {
    n' + (if Counts(q, t) then 1 else 0) == n + if Counts(q, t') then 1 else 0
  }

  ghost predicate CountersAdjusted(b: Books, b': Books, g: nat)
    requires g < |b.tasks|
  {
    && |b'.tasks| == |b.tasks| && b'.tasks == b.tasks[g := b'.tasks[g]] && |b.pressure| == |b'.pressure| == NUMCPU
    && (forall c {:trigger b'.pressure[c]} :: 0 <= c < NUMCPU ==>
          Moved(b.pressure[c], b'.pressure[c], b.tasks[g], b'.tasks[g], HomedOn(c)))
    && Moved(b.nonDefault, b'.nonDefault, b.tasks[g], b'.tasks[g], NonDefault)
  }

  lemma AdjustedSlots(b: Books, b': Books, g: nat)
    requires SlotsExact(b) && g < |b.tasks| && SlotsAdjusted(b, b', g)
    ensures SlotsExact(b')
  {
  }

  lemma AdjustedCounters(b: Books, b': Books, g: nat)
    requires CountersExact(b) && g < |b.tasks| && CountersAdjusted(b, b', g)
    ensures CountersExact(b')
  {
    forall c | 0 <= c < NUMCPU ensures b'.pressure[c] == Count(b'.tasks, HomedOn(c)) {
      CountUpdate(b.tasks, g, b'.tasks[g], HomedOn(c));
      assert b.pressure[c] == Count(b.tasks, HomedOn(c));
    }
    CountUpdate(b.tasks, g, b'.tasks[g], NonDefault);
  }

  /** A counter that did not move with its task is wrong. */
  lemma UnmovedWrong(b: Books, b': Books, g: nat, cpu: int)
    requires CountersExact(b) && g < |b.tasks| && |b'.tasks| == |b.tasks| && b'.tasks == b.tasks[g := b'.tasks[g]]
    requires ValidCpu(cpu) && |b'.pressure| == NUMCPU && b'.pressure[cpu] == b.pressure[cpu]
    requires Counts(HomedOn(cpu), b.tasks[g]) != Counts(HomedOn(cpu), b'.tasks[g])
    ensures !CountersExact(b')
  {
    CountUpdate(b.tasks, g, b'.tasks[g], HomedOn(cpu));
    assert b.pressure[cpu] == Count(b.tasks, HomedOn(cpu));
  }

  /** A running task without a home becomes runnable and gets one: no counter takes it up. */
  ghost predicate Orphaned(t: Task, home: int, state: ProcState) {
    t.state == Running && state == Runnable && !ValidCpu(t.home) && ValidCpu(home)
  }

  lemma StateBooks(b: Books, b': Books, g: nat, home: int, state: ProcState)
    requires Exact(b) && g < |b.tasks| && SlotsAdjusted(b, b', g)
             && b'.tasks[g] == b.tasks[g].(home := home, state := state)
    requires |b'.pressure| == NUMCPU
    requires Orphaned(b.tasks[g], home, state) ==> b'.pressure == b.pressure
    requires !Orphaned(b.tasks[g], home, state) ==> CountersAdjusted(b, b', g)
    ensures Exact(b') <==> !Orphaned(b.tasks[g], home, state)
  {
    AdjustedSlots(b, b', g);
    if Orphaned(b.tasks[g], home, state) {
      UnmovedWrong(b, b', g, home);
    } else {
      AdjustedCounters(b, b', g);
    }
  }

  // ----- choosing a CPU ------------------------------------------------------------------------

  /** CPUs a task may be placed on: the allowed CPUs that are online or, if there are none, that
      exist. */
  function Eligible(mask: set<nat>, online: set<nat>, possible: set<nat>): set<nat> {
    if mask * online != {} then mask * online else mask * possible
  }

  /** A CPU a task may be placed on: it is allowed and online or, when no allowed CPU is online, it is
      allowed and exists. */
  ghost predicate MayUse(mask: set<nat>, online: set<nat>, possible: set<nat>, c: nat) {
    c in mask && (c in online || (c in possible && mask !! online))
  }

  lemma ApartExactly(s: set<nat>, t: set<nat>)
    ensures s * t == {} <==> s !! t
  {
    if s * t == {} {
      forall c | c in s ensures c !in t {
        assert c in t ==> c in s * t;
      }
    }
  }

  lemma EligibleExactly(mask: set<nat>, online: set<nat>, possible: set<nat>)
    ensures forall c: nat :: c in Eligible(mask, online, possible) <==> MayUse(mask, online, possible, c)
    ensures Eligible(mask, online, possible) == {} <==> mask !! online && mask !! possible
  {
    ApartExactly(mask, online);
    ApartExactly(mask, possible);
  }

  ghost predicate Cpus(s: set<nat>) {
    forall c :: c in s ==> c < NUMCPU
  }

  /** Loads are 32-bit words. */
  ghost predicate Loads(pressure: seq<int>) {
    |pressure| == NUMCPU && forall c :: 0 <= c < NUMCPU ==> 0 <= pressure[c] <= UINT32_MAX
  }

  /** A CPU of the set with the least load, the first of them in cyclic order from `first`. */
  ghost predicate LeastLoaded(pressure: seq<int>, eligible: set<nat>, first: nat, cpu: nat)
    requires |pressure| == NUMCPU && first < NUMCPU && Cpus(eligible)
  {
    && cpu in eligible
    && (forall c :: c in eligible ==> pressure[cpu] <= pressure[c])
    && (forall c :: c in eligible && pressure[c] == pressure[cpu] ==> Turn(first, cpu) <= Turn(first, c))
  }

  /** Where a search starts: where the last one ended if that CPU is allowed, else at the parent's CPU
      if that is, else at the lowest allowed. */
  ghost predicate StartsAt(next: int, parent: int, eligible: set<nat>, first: nat) {
    && first in eligible
    && if ValidCpu(next) && next in eligible then first == next
       else if ValidCpu(parent) && parent in eligible then first == parent
       else forall c :: c in eligible ==> first <= c
  }

  /** How far after `first` a CPU comes in cyclic order. */
  ghost function Turn(first: nat, cpu: nat): nat
    requires first < NUMCPU && cpu < NUMCPU
  {
    if first <= cpu then cpu - first else cpu + NUMCPU - first
  }

  /** Whether a CPU may run a task: one allowed CPU, or the home if it is allowed, or any allowed. */
  predicate CanScheduleOnCpu(t: Task, online: set<nat>, cpu: int) {
    var eligible := t.mask * online;
    && ValidCpu(cpu) && cpu in eligible
    && (|eligible| <= 1 || !(ValidCpu(t.home) && t.home in eligible) || cpu == t.home)
  }

  /** A task that becomes runnable without a home is given one. */
  ghost predicate Rehomed(t: Task, state: ProcState) {
    t.state != state && state == Runnable && !ValidCpu(t.home)
  }

  /** The choice of a CPU. It is allowed, it is online whenever some allowed CPU is, and no CPU that could
      have been chosen has a smaller load; of those with the same load it is the first from `first` on.
      None is chosen only when the task is allowed neither on a CPU that is online nor on one that
      exists. */
  ghost predicate Chosen(pressure: seq<int>, next: int, parent: int, mask: set<nat>, online: set<nat>,
                         possible: set<nat>, first: nat, cpu: int)
    requires |pressure| == NUMCPU && Cpus(online) && Cpus(possible)
  {
    if mask !! online && mask !! possible then cpu == parent
    else
      && cpu >= 0 && cpu in mask && first in mask && (cpu in online || (mask !! online && cpu in possible))
      && (forall c: nat :: c in mask && c in online ==> pressure[cpu] <= pressure[c])
      && (mask !! online ==> forall c: nat :: c in mask && c in possible ==> pressure[cpu] <= pressure[c])
      && (first in online || (mask !! online && first in possible))
      && (forall c: nat :: MayUse(mask, online, possible, c) && pressure[c] == pressure[cpu] ==>
            Turn(first, cpu) <= Turn(first, c))
      && (if ValidCpu(next) && MayUse(mask, online, possible, next) then first == next
          else if ValidCpu(parent) && MayUse(mask, online, possible, parent) then first == parent
          else forall c: nat :: MayUse(mask, online, possible, c) ==> first <= c)
  }

  lemma ChosenExactly(pressure: seq<int>, next: int, parent: int, mask: set<nat>, online: set<nat>,
                      possible: set<nat>, first: nat, cpu: nat)
    requires |pressure| == NUMCPU && Cpus(online) && Cpus(possible) && first < NUMCPU
    requires var eligible := Eligible(mask, online, possible);
      Cpus(eligible) && LeastLoaded(pressure, eligible, first, cpu) && StartsAt(next, parent, eligible, first)
    ensures Chosen(pressure, next, parent, mask, online, possible, first, cpu)
  {
    EligibleExactly(mask, online, possible);
    var eligible := Eligible(mask, online, possible);
    assert cpu in eligible && MayUse(mask, online, possible, cpu) && MayUse(mask, online, possible, first);
    forall c: nat | MayUse(mask, online, possible, c) ensures pressure[cpu] <= pressure[c] {
      assert c in eligible;
    }
    forall c: nat | c in mask && c in online ensures pressure[cpu] <= pressure[c] {
      assert MayUse(mask, online, possible, c);
    }
    forall c: nat | mask !! online && c in mask && c in possible ensures pressure[cpu] <= pressure[c] {
      assert MayUse(mask, online, possible, c);
    }
  }

  lemma OnlyMember(s: set<nat>, a: nat, b: nat)
    requires |s| <= 1 && a in s && b in s
    ensures a == b
  {
    assert |s - {a}| == |s| - 1;
    assert b !in s - {a};
  }

  /** A runnable task whose home is allowed can be run by one CPU only, the one whose bitmap shows
      it; if the home is no longer allowed, by every allowed CPU. */
  lemma PlacementFollowsHome(t: Task, online: set<nat>, cpu: nat)
    requires Cpus(online)
    ensures ValidCpu(t.home) && t.home in t.mask * online ==> (CanScheduleOnCpu(t, online, cpu) <==> cpu == t.home)
    ensures !(ValidCpu(t.home) && t.home in t.mask * online) ==>
            (CanScheduleOnCpu(t, online, cpu) <==> cpu in t.mask * online)
  {
    if ValidCpu(t.home) && t.home in t.mask * online && cpu in t.mask * online && |t.mask * online| <= 1 {
      OnlyMember(t.mask * online, t.home, cpu);
    }
  }

  lemma {:induction false} CountIdle(ts: seq<Task>, q: Query)
    requires forall i :: 0 <= i < |ts| ==> !Schedulable(ts[i].state)
    ensures Count(ts, q) == 0
  {
    if ts != [] {
      CountIdle(ts[..|ts| - 1], q);
    }
  }

  /** A running task that never had a home: made runnable, it counts on its new home, but the counter of
      that CPU does not move. */
  method RunningWithoutHome() returns (s: Scheduler)
    ensures fresh(s) && !Exact(s.State())
  {
    s := new Scheduler([Task(Used, DEFAULT_PRIO, -1, {0})]);
    s.SetTaskState(0, Running, {0}, {0});
    assert 0 in s.tasks[0].mask;
    s.SetTaskState(0, Runnable, {0}, {0});
  }

  class Scheduler {
    var tasks: seq<Task>
    var slots: seq<set<nat>>
    var pressure: seq<int>
    var nonDefault: int
    var nextInitialCpu: int

    ghost function State(): Books
      reads this
    {
      Books(tasks, slots, pressure, nonDefault)
    }

    /** With no task schedulable, empty bitmaps and zero counters are exact. */
    constructor (tasks: seq<Task>)
      requires |tasks| <= NPROC && forall i :: 0 <= i < |tasks| ==> !Schedulable(tasks[i].state)
      ensures Exact(State()) && this.tasks == tasks && nextInitialCpu == -1
    {
      this.tasks := tasks;
      slots, pressure, nonDefault, nextInitialCpu := seq(NUMCPU, _ => {}), seq(NUMCPU, _ => 0), 0, -1;
      new;
      forall c | 0 <= c < NUMCPU ensures pressure[c] == Count(tasks, HomedOn(c)) {
        CountIdle(tasks, HomedOn(c));
      }
      CountIdle(tasks, NonDefault);
    }

    /** Lowest CPU of a set. */
    method LowestCpu(eligible: set<nat>) returns (cpu: nat)
      requires eligible != {} && Cpus(eligible)
      ensures cpu in eligible && forall c :: c in eligible ==> cpu <= c
    {
      ghost var some :| some in eligible;
      cpu := 0;
      while cpu !in eligible
        invariant cpu <= some && forall c :: c in eligible ==> cpu <= c
        decreases some - cpu
      {
        cpu := cpu + 1;
      }
    }

    /** The least loaded CPU, searched once round from `first`. */
    method LeastFrom(eligible: set<nat>, first: nat) returns (cpu: nat)
      requires Loads(pressure) && first in eligible && Cpus(eligible)
      ensures LeastLoaded(pressure, eligible, first, cpu)
    {
      cpu := first;
      var least := UINT32_MAX;
      for offset := 0 to NUMCPU
        invariant cpu in eligible && if least == UINT32_MAX then cpu == first else least == pressure[cpu]
        invariant forall c :: c in eligible && Turn(first, c) < offset ==> least <= pressure[c]
        invariant forall c :: c in eligible && Turn(first, c) < offset && pressure[c] == least ==>
                    Turn(first, cpu) <= Turn(first, c)
        invariant cpu == first || Turn(first, cpu) < offset
      {
        var candidate := (first + offset) % NUMCPU;
        assert Turn(first, candidate) == offset;
        if candidate in eligible && pressure[candidate] < least {
          cpu, least := candidate, pressure[candidate];
        }
      }
    }

    /** Picks a home for a new task. */
    method SelectInitialCpu(mask: set<nat>, parentCpu: int, online: set<nat>, possible: set<nat>)
      returns (cpu: int, ghost first: nat)
      requires Loads(pressure) && Cpus(online) && Cpus(possible)
      modifies this`nextInitialCpu
      ensures Chosen(pressure, old(nextInitialCpu), parentCpu, mask, online, possible, first, cpu)
      ensures nextInitialCpu ==
              if mask !! online && mask !! possible then old(nextInitialCpu) else if cpu == NUMCPU - 1 then 0
                  else cpu + 1
    {
      var eligible := Eligible(mask, online, possible);
      EligibleExactly(mask, online, possible);
      first := 0;
      if eligible == {} {
        return parentCpu, 0;
      }
      var start := nextInitialCpu;
      if start < 0 || start >= NUMCPU || start !in eligible {
        start := parentCpu;
        if start < 0 || start >= NUMCPU || start !in eligible {
          start := LowestCpu(eligible);
        }
      }
      first := start;
      cpu := LeastFrom(eligible, start);
      ChosenExactly(pressure, nextInitialCpu, parentCpu, mask, online, possible, first, cpu);
      nextInitialCpu := (cpu + 1) % NUMCPU;
    }

    // ----- slots and counters ------------------------------------------------------------------

    method MarkRunnableSlot(cpu: int, g: nat)
      requires |slots| == NUMCPU
      modifies this`slots
      ensures slots == if ValidCpu(cpu) && g < |tasks| then old(slots)[cpu := old(slots)[cpu] + {g}] else old(slots)
    {
      if ValidCpu(cpu) && g < |tasks| {
        slots := slots[cpu := slots[cpu] + {g}];
      }
    }

    method ClearRunnableSlot(cpu: int, g: nat)
      requires |slots| == NUMCPU
      modifies this`slots
      ensures slots == if ValidCpu(cpu) && g < |tasks| then old(slots)[cpu := old(slots)[cpu] - {g}] else old(slots)
    {
      if ValidCpu(cpu) && g < |tasks| {
        slots := slots[cpu := slots[cpu] - {g}];
      }
    }

    /** Takes a task off a CPU's counter, which is not zero. */
    method DropPressure(cpu: int, g: nat)
      requires CountersExact(State()) && g < |tasks| && Counts(HomedOn(cpu), tasks[g])
      modifies this`pressure
      ensures pressure == if ValidCpu(cpu) then old(pressure)[cpu := old(pressure)[cpu] - 1] else old(pressure)
    {
      if ValidCpu(cpu) {
        CountPositive(tasks, g, HomedOn(cpu));
        assert pressure[cpu] != 0;
        pressure := pressure[cpu := pressure[cpu] - 1];
      }
    }

    method AddPressure(cpu: int)
      requires |pressure| == NUMCPU
      modifies this`pressure
      ensures pressure == if ValidCpu(cpu) then old(pressure)[cpu := old(pressure)[cpu] + 1] else old(pressure)
    {
      if ValidCpu(cpu) {
        pressure := pressure[cpu := pressure[cpu] + 1];
      }
    }

    method DropNonDefault(g: nat)
      requires nonDefault == Count(tasks, NonDefault) && g < |tasks| && Counts(NonDefault, tasks[g])
      modifies this`nonDefault
      ensures nonDefault == old(nonDefault) - 1
    {
      CountPositive(tasks, g, NonDefault);
      assert nonDefault != 0;
      nonDefault := nonDefault - 1;
    }

    // ----- the setters -------------------------------------------------------------------------

    method SetTaskPriority(g: nat, priority: int)
      requires Exact(State()) && g < |tasks|
      modifies this`tasks, this`nonDefault
      ensures Exact(State()) && tasks == old(tasks)[g := old(tasks)[g].(priority := priority)]
    {
      ghost var b := State();
      var t := tasks[g];
      if t.priority == priority {
        return;
      }
      if Schedulable(t.state) && (t.priority == DEFAULT_PRIO) != (priority == DEFAULT_PRIO) {
        if t.priority != DEFAULT_PRIO {
          DropNonDefault(g);
        } else {
          nonDefault := nonDefault + 1;
        }
      }
      tasks := tasks[g := t.(priority := priority)];
      AdjustedSlots(b, State(), g);
      AdjustedCounters(b, State(), g);
    }

    /** Counter updates of a change of home. */
    method CountHome(g: nat, cpu: int)
      requires CountersExact(State()) && g < |tasks| && tasks[g].home != cpu
      modifies this`pressure
      ensures CountersAdjusted(old(State()), Books(tasks[g := tasks[g].(home := cpu)], slots, pressure, nonDefault), g)
    {
      if Schedulable(tasks[g].state) {
        DropPressure(tasks[g].home, g);
        AddPressure(cpu);
      }
    }

    method SetTaskHomeCpu(g: nat, cpu: int)
      requires Exact(State()) && g < |tasks|
      modifies this`tasks, this`slots, this`pressure
      ensures Exact(State()) && tasks == old(tasks)[g := old(tasks)[g].(home := cpu)]
    {
      ghost var b := State();
      var t := tasks[g];
      if t.home == cpu {
        return;
      }
      if t.state == Runnable {
        ClearRunnableSlot(t.home, g);
      }
      CountHome(g, cpu);
      tasks := tasks[g := t.(home := cpu)];
      if t.state == Runnable {
        MarkRunnableSlot(cpu, g);
      }
      AdjustedSlots(b, State(), g);
      AdjustedCounters(b, State(), g);
    }

    /** Dispatch gives a task its home before it makes it run. */
    method Dispatch(g: nat, cpu: int, online: set<nat>, possible: set<nat>)
      requires Exact(State()) && g < |tasks| && tasks[g].state == Runnable && ValidCpu(cpu)
      requires Cpus(online) && Cpus(possible)
      modifies this
      ensures Exact(State()) && tasks == old(tasks)[g := old(tasks)[g].(state := Running, home := cpu)]
    {
      SetTaskHomeCpu(g, cpu);
      SetTaskState(g, Running, online, possible);
    }

    /** Counter updates of a change of state. */
    method CountState(g: nat, home: int, state: ProcState)
      requires CountersExact(State()) && g < |tasks|
      requires tasks[g].state != state && (home == tasks[g].home || (state == Runnable && !ValidCpu(tasks[g].home)))
      modifies this`pressure, this`nonDefault
      ensures |pressure| == NUMCPU
      ensures Orphaned(tasks[g], home, state) ==> pressure == old(pressure)
      ensures !Orphaned(tasks[g], home, state) ==>
                CountersAdjusted(old(State()), Books(tasks[g := tasks[g].(home := home, state := state)], slots,
                    pressure, nonDefault), g)
    {
      var t := tasks[g];
      var was, now := Schedulable(t.state), Schedulable(state);
      if was && !now {
        DropPressure(home, g);
      } else if !was && now {
        AddPressure(home);
      }
      if t.priority != DEFAULT_PRIO && was != now {
        if was {
          DropNonDefault(g);
        } else {
          nonDefault := nonDefault + 1;
        }
      }
    }

    /** A change of state, with a home found for a task that becomes runnable without one. The books
        stay exact in every case but one: a running task without a home becomes runnable and may be
        placed somewhere. */
    method SetTaskState(g: nat, state: ProcState, online: set<nat>, possible: set<nat>)
      requires Exact(State()) && g < |tasks| && Cpus(online) && Cpus(possible)
      modifies this
      ensures |tasks| == |old(tasks)|
      ensures tasks == old(tasks)[g := old(tasks)[g].(state := state, home := tasks[g].home)]
      ensures if Rehomed(old(tasks)[g], state)
              then exists first ::
                  Chosen(old(pressure), old(nextInitialCpu), -1, old(tasks)[g].mask, online, possible, first,
                      tasks[g].home)
              else tasks[g].home == old(tasks)[g].home
      ensures Exact(State()) <==> !(old(tasks)[g].state == Running && Rehomed(old(tasks)[g], state)
                                    && !(old(tasks)[g].mask !! online && old(tasks)[g].mask !! possible))
    {
      ghost var b := State();
      var t := tasks[g];
      if t.state == state {
        assert t == t.(state := state, home := t.home);
        return;
      }
      if t.state == Runnable {
        ClearRunnableSlot(t.home, g);
      }
      var home := t.home;
      if state == Runnable && !ValidCpu(home) {
        var cpu;
        ghost var first;
        cpu, first := SelectInitialCpu(t.mask, -1, online, possible);
        home := cpu;
      }
      CountState(g, home, state);
      tasks := tasks[g := t.(home := home, state := state)];
      if state == Runnable {
        MarkRunnableSlot(home, g);
      }
      StateBooks(b, State(), g, home, state);
    }
  }
}
