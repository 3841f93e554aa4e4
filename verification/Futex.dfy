/** Futex wait and wake as steps between lock operations. User stores, signals, timeouts and remaps
    happen between any two steps; a bucket's waiter set changes only under the bucket's lock. */
module Futex {
  const BUCKETS := 64

  datatype Option<T> = None | Some(value: T)

  datatype Sched = Running | Runnable | Sleeping

  /** A wake of up to `n` waiters of key `k`; with `k2 != 0`, up to `n2` more move to `k2`, and
      `wanted` may ask for the value of `k` to be compared first. */
  datatype Op = Op(k: nat, n: nat, k2: nat, n2: nat, wanted: Option<int>)

  datatype Result = Success | Eagain | Efault | Eintr | Etimedout

  datatype Pc =
    | User
    | Retry(val: int, slept: bool)
    | Wanting(val: int, slept: bool, b: nat)
    | Holding(val: int, slept: bool, b: nat)
    | Compared(val: int, b: nat, k: nat)
    | Published(val: int, b: nat, k: nat)
    | Parked(val: int)
    | Cleaning(val: int, ret: Result)
    | Removing(val: int, ret: Result, k: nat)
    | WakeFirst(op: Op)
    | WakeSecond(op: Op)
    | Scanning(op: Op, idx: nat, c1: nat, c2: nat)

  /** `key` is the published futex key, 0 for none; `last` is what the last wait returned; `timed` says that
      the wait has a deadline, and `expired` that it was reached in the last sleep. */
  datatype Thread = Thread(pc: Pc, st: Sched, key: nat, last: Result, timed: bool, expired: bool)

  /** `value` gives the word behind each key, `resolve` the key behind each thread's address. */
  datatype Machine = Machine(threads: seq<Thread>, waiters: seq<set<nat>>, locks: map<nat, nat>,
                             value: map<nat, int>, resolve: seq<nat>, bucketOf: nat -> nat)

  datatype Action =
    | BeginWait(t: nat, val: int, timed: bool)
    | GiveUp(t: nat, interrupted: bool)
    | FirstLoad(t: nat)
    | TakeBucket(t: nat)
    | SecondLoad(t: nat)
    | Publish(t: nat)
    | Sleep(t: nat)
    | Resume(t: nat, interrupted: bool, early: bool)
    | CleanStart(t: nat)
    | CleanFinish(t: nat)
    | BeginWake(t: nat, op: Op)
    | TakeFirst(t: nat)
    | TakeSecond(t: nat)
    | ScanOne(t: nat)
    | ScanEnd(t: nat)
    | Disturb(t: nat)
    | Dispatch(t: nat)
    | Expire(t: nat)
    | Store(k: nat, v: int)
    | Remap(t: nat, k: nat)

  ghost predicate Shaped(m: Machine) {
    && |m.waiters| == BUCKETS && |m.resolve| == |m.threads|
    && forall k :: m.bucketOf(k) < BUCKETS
  }

  ghost function Value(m: Machine, k: nat): int {
    if k in m.value then m.value[k] else 0
  }

  // ----- two buckets ---------------------------------------------------------------------------

  ghost function Low(h: nat -> nat, op: Op): nat {
    if op.k2 == 0 || h(op.k) <= h(op.k2) then h(op.k) else h(op.k2)
  }

  ghost function High(h: nat -> nat, op: Op): nat {
    if op.k2 == 0 || h(op.k2) <= h(op.k) then h(op.k) else h(op.k2)
  }

  /** The buckets a thread holds at a program point. */
  ghost predicate Holds(h: nat -> nat, pc: Pc, b: nat) {
    match pc
    case Holding(_, _, c) => b == c
    case Compared(_, c, _) => b == c
    case Published(_, c, _) => b == c
    case WakeSecond(op) => b == Low(h, op)
    case Scanning(op, _, _, _) => b == Low(h, op) || b == High(h, op)
    case _ => false
  }

  // ----- steps ---------------------------------------------------------------------------------

  ghost function At(m: Machine, t: nat, pc: Pc): Machine
    requires t < |m.threads|
  {
    m.(threads := m.threads[t := m.threads[t].(pc := pc)])
  }

  ghost function Return(m: Machine, t: nat, ret: Result): Machine
    requires t < |m.threads|
  {
    m.(threads := m.threads[t := m.threads[t].(pc := User, last := ret)])
  }

  ghost function Unlock(m: Machine, b: nat): Machine {
    m.(locks := m.locks - {b})
  }

  ghost function Lock(m: Machine, b: nat, t: nat): Machine {
    m.(locks := m.locks[b := t])
  }

  /** Takes a thread out of a waiter set and, if `gone`, clears its key. */
  ghost function Dequeue(m: Machine, x: nat, b: nat, gone: bool): Machine
    requires x < |m.threads| && b < |m.waiters|
  {
    m.(waiters := m.waiters[b := m.waiters[b] - {x}],
       threads := if gone then m.threads[x := m.threads[x].(key := 0)] else m.threads)
  }

  ghost function Enqueue(m: Machine, x: nat, b: nat, k: nat): Machine
    requires x < |m.threads| && b < |m.waiters|
  {
    m.(waiters := m.waiters[b := m.waiters[b] + {x}], threads := m.threads[x := m.threads[x].(key := k)])
  }

  ghost function Stamped(m: Machine, x: nat, expired: bool): Machine
    requires x < |m.threads|
  {
    m.(threads := m.threads[x := m.threads[x].(expired := expired)])
  }

  ghost function Awake(m: Machine, x: nat): Machine
    requires x < |m.threads|
  {
    m.(threads := m.threads[x := m.threads[x].(st := Runnable)])
  }

  ghost predicate CanRequeue(op: Op) {
    op.k2 != 0 && op.n2 > 0
  }

  /** Where a waker goes once it has its locks. */
  ghost function ScanStart(m: Machine, t: nat, op: Op): Machine
    requires t < |m.threads|
  {
    At(m, t, Scanning(op, if op.n == 0 && !CanRequeue(op) then |m.threads| else 0, 0, 0))
  }

  ghost predicate Refused(m: Machine, op: Op) {
    op.wanted.Some? && Value(m, op.k) != op.wanted.value
  }

  /** A scan that has woken and moved as many as it may stops early. */
  ghost predicate Sated(pc: Pc)
    requires pc.Scanning?
  {
    pc.c1 >= pc.op.n && (!CanRequeue(pc.op) || pc.c2 >= pc.op.n2)
  }

  /** What a scan does with the thread it examines. */
  datatype Verdict = Skip | Stale | Wake | Move

  ghost function Judge(m: Machine, pc: Pc): Verdict
    requires Shaped(m) && pc.Scanning? && pc.idx < |m.threads|
  {
    var x := m.threads[pc.idx];
    if pc.idx !in m.waiters[m.bucketOf(pc.op.k)] then Skip
    else if x.key == 0 then Stale
    else if x.key != pc.op.k || x.st.Running? then Skip
    else if pc.c1 < pc.op.n then Wake
    else if x.st.Sleeping? && CanRequeue(pc.op) && pc.c2 < pc.op.n2 then Move
    else Skip
  }

  ghost function Carry(m: Machine, x: nat, op: Op, v: Verdict): Machine
    requires Shaped(m) && x < |m.threads|
  {
    var b := m.bucketOf(op.k);
    match v
    case Skip => m
    case Stale => Dequeue(m, x, b, true)
    case Wake => Awake(Dequeue(m, x, b, true), x)
    case Move => Enqueue(Dequeue(m, x, b, false), x, m.bucketOf(op.k2), op.k2)
  }

  /** One thread examined by a scan. */
  ghost function Examine(m: Machine, t: nat): Machine
    requires Shaped(m) && t < |m.threads| && m.threads[t].pc.Scanning? && m.threads[t].pc.idx < |m.threads|
  {
    var pc := m.threads[t].pc;
    var v := Judge(m, pc);
    At(Carry(m, pc.idx, pc.op, v), t,
       Scanning(pc.op, pc.idx + 1, if v.Wake? then pc.c1 + 1 else pc.c1, if v.Move? then pc.c2 + 1 else pc.c2))
  }

  /** What a load that finds no page or another value makes the call return: a changed value is
      an error only before the first sleep. */
  ghost function LoadResult(m: Machine, t: nat, slept: bool): Result
    requires t < |m.resolve|
  {
    if m.resolve[t] == 0 then Efault else if slept then Success else Eagain
  }

  ghost predicate Step(m: Machine, act: Action, m': Machine)
    requires Shaped(m)
  {
    match act
    case Store(k, v) => m' == m.(value := m.value[k := v])
    case Remap(t, k) => t < |m.threads| && m' == m.(resolve := m.resolve[t := k])
    case Disturb(x) => x < |m.threads| && m.threads[x].st.Sleeping? && m' == Awake(m, x)
    case Dispatch(x) =>
      x < |m.threads| && m.threads[x].st.Runnable? && m' == m.(threads := m.threads[x := m.threads[x].(st := Running)])
    case Expire(x) =>
      && x < |m.threads| && m.threads[x].st.Sleeping? && m.threads[x].timed && m.bucketOf(m.threads[x].key) !in m.locks
      && m' == Awake(Dequeue(Stamped(m, x, true), x, m.bucketOf(m.threads[x].key), true), x)
    case _ => CanRun(m, act) && (WaitStep(m, act.t, act, m') || WakeStep(m, act.t, act, m'))
  }

  ghost predicate CanRun(m: Machine, act: Action) {
    && !act.Store? && !act.Remap? && !act.Disturb? && !act.Dispatch? && !act.Expire?
    && act.t < |m.threads| && m.threads[act.t].st.Running?
  }

  /** Steps of a thread that waits. */
  ghost predicate WaitStep(m: Machine, t: nat, act: Action, m': Machine)
    requires Shaped(m) && t < |m.threads|
  {
    var pc, key := m.threads[t].pc, m.threads[t].key;
    match act
    case BeginWait(_, val, timed) =>
      pc.User? && m' == m.(threads := m.threads[t := m.threads[t].(pc := Retry(val, false), timed := timed)])
    case GiveUp(_, interrupted) =>
      && pc.Retry? && m.threads[t].timed
      && m' == At(m, t, Cleaning(pc.val, if interrupted then Eintr else Etimedout))
    case FirstLoad(_) =>
      var k := m.resolve[t];
      && pc.Retry?
      && m' == if k == 0 || Value(m, k) != pc.val then At(m, t, Cleaning(pc.val, LoadResult(m, t, pc.slept)))
               else At(m, t, Wanting(pc.val, pc.slept, m.bucketOf(k)))
    case TakeBucket(_) =>
      pc.Wanting? && pc.b !in m.locks && m' == At(Lock(m, pc.b, t), t, Holding(pc.val, pc.slept, pc.b))
    case SecondLoad(_) =>
      var k := m.resolve[t];
      && pc.Holding?
      && m' == if k == 0 || Value(m, k) != pc.val
         then At(Unlock(m, pc.b), t, Cleaning(pc.val, LoadResult(m, t, pc.slept)))
               else if m.bucketOf(k) != pc.b then At(Unlock(m, pc.b), t, Retry(pc.val, pc.slept))
               else At(m, t, Compared(pc.val, pc.b, k))
    case Publish(_) =>
      && pc.Compared? && pc.b < BUCKETS
      && m' == At(Enqueue(Stamped(m, t, false), t, pc.b, pc.k), t, Published(pc.val, pc.b, pc.k))
    case Sleep(_) =>
      pc.Published? && m' == Unlock(m.(threads := m.threads[t := m.threads[t].(pc := Parked(pc.val), st := Sleeping)]),
          pc.b)
    case Resume(_, interrupted, early) =>
      && pc.Parked?
      && m' == if interrupted then At(m, t, Cleaning(pc.val, Eintr))
               else if key != 0 || (m.threads[t].expired && early) then At(m, t, Retry(pc.val, true))
               else Return(m, t, if m.threads[t].expired then Etimedout else Success)
    case CleanStart(_) =>
      pc.Cleaning? && m' == if key == 0 then Return(m, t, pc.ret) else At(m, t, Removing(pc.val, pc.ret, key))
    case CleanFinish(_) =>
      && pc.Removing? && m.bucketOf(pc.k) !in m.locks
      && m' == if key == pc.k then Return(Dequeue(m, t, m.bucketOf(pc.k), true), t, pc.ret)
               else if pc.ret == Eintr then At(m, t, Retry(pc.val, true))
               else Return(m, t, pc.ret)
    case _ => false
  }

  /** Steps of a thread that wakes. */
  ghost predicate WakeStep(m: Machine, t: nat, act: Action, m': Machine)
    requires Shaped(m) && t < |m.threads|
  {
    var pc := m.threads[t].pc;
    match act
    case BeginWake(_, op) => pc.User? && op.k != 0 && m' == At(m, t, WakeFirst(op))
    case TakeFirst(_) =>
      && pc.WakeFirst? && Low(m.bucketOf, pc.op) !in m.locks
      && m' == if Low(m.bucketOf, pc.op) < High(m.bucketOf, pc.op) then
                 At(Lock(m, Low(m.bucketOf, pc.op), t), t, WakeSecond(pc.op))
               else if Refused(m, pc.op) then At(m, t, User)
               else ScanStart(Lock(m, Low(m.bucketOf, pc.op), t), t, pc.op)
    case TakeSecond(_) =>
      && pc.WakeSecond? && High(m.bucketOf, pc.op) !in m.locks
      && m' == if Refused(m, pc.op) then At(Unlock(m, Low(m.bucketOf, pc.op)), t, User)
               else ScanStart(Lock(m, High(m.bucketOf, pc.op), t), t, pc.op)
    case ScanOne(_) => pc.Scanning? && pc.idx < |m.threads| && !Sated(pc) && m' == Examine(m, t)
    case ScanEnd(_) =>
      && pc.Scanning? && (pc.idx >= |m.threads| || Sated(pc))
      && m' == At(Unlock(Unlock(m, Low(m.bucketOf, pc.op)), High(m.bucketOf, pc.op)), t, User)
    case _ => false
  }

  // ----- invariants ----------------------------------------------------------------------------

  ghost predicate Owns(m: Machine, t: nat, b: nat) {
    b in m.locks && m.locks[b] == t
  }

  ghost predicate LocksOk(m: Machine) {
    && (forall b :: b in m.locks ==> b < BUCKETS && m.locks[b] < |m.threads|)
    && (forall t, b {:trigger Owns(m, t, b)} {:trigger Holds(m.bucketOf, m.threads[t].pc, b)} ::
          0 <= t < |m.threads| ==> (Holds(m.bucketOf, m.threads[t].pc, b) <==> Owns(m, t, b)))
  }

  /** The thread sleeps on key `k`. */
  ghost predicate Asleep(m: Machine, x: nat, k: nat) {
    x < |m.threads| && m.threads[x].st.Sleeping? && m.threads[x].key == k
  }

  ghost predicate NoSleepers(m: Machine, k: nat, idx: nat) {
    forall x: nat {:trigger Asleep(m, x, k)} :: x < idx ==> !Asleep(m, x, k)
  }

  /** The scan takes every sleeper it finds: it has threads left to wake, or to move to another key. */
  ghost predicate Wants(pc: Pc)
    requires pc.Scanning?
  {
    pc.c1 < pc.op.n || (pc.op.k2 != 0 && pc.op.k2 != pc.op.k && pc.c2 < pc.op.n2)
  }

  ghost predicate PcOk(m: Machine, th: Thread)
    requires Shaped(m)
  {
    match th.pc
    case Wanting(_, _, b) => b < BUCKETS
    case Compared(_, b, k) => k != 0 && m.bucketOf(k) == b
    case Published(_, b, k) => k != 0 && m.bucketOf(k) == b && th.key == k && !th.expired
    case Removing(_, _, k) => th.key == k != 0
    case User => th.key == 0
    case WakeFirst(op) => op.k != 0 && th.key == 0
    case WakeSecond(op) => op.k != 0 && Low(m.bucketOf, op) < High(m.bucketOf, op) && th.key == 0
    case Scanning(op, idx, c1, c2) =>
      && op.k != 0 && idx <= |m.threads| && c1 <= op.n && c2 <= op.n2 && th.key == 0
      && (Wants(th.pc) ==> NoSleepers(m, op.k, idx))
    case _ => true
  }

  ghost predicate ThreadOk(m: Machine, t: nat)
    requires Shaped(m) && t < |m.threads|
  {
    var th := m.threads[t];
    && (th.key != 0 ==> t in m.waiters[m.bucketOf(th.key)])
    && (!th.st.Running? ==> th.pc.Parked?)
    && (th.st.Sleeping? ==> th.key != 0)
    && PcOk(m, th)
  }

  ghost predicate Inv(m: Machine) {
    Shaped(m) && LocksOk(m) && forall t {:trigger ThreadOk(m, t)} :: 0 <= t < |m.threads| ==> ThreadOk(m, t)
  }

  // ----- every step keeps them -----------------------------------------------------------------

  /** Thread `t` moved: its own program point and locks changed, nobody else's. */
  ghost predicate Moved(m: Machine, m': Machine, t: nat)
    requires t < |m.threads|
  {
    && Shaped(m') && |m'.threads| == |m.threads| && m'.bucketOf == m.bucketOf
    && (forall x {:trigger m'.threads[x]} :: 0 <= x < |m.threads| && x != t ==> m'.threads[x].pc == m.threads[x].pc)
    && (forall b {:trigger b in m'.locks} :: b in m'.locks ==>
         b < BUCKETS && (m'.locks[b] == t || (b in m.locks && m.locks[b] == m'.locks[b])))
    && (forall b {:trigger b in m.locks} :: b in m.locks && m.locks[b] != t ==>
         b in m'.locks && m'.locks[b] == m.locks[b])
    && (forall b {:trigger Holds(m.bucketOf, m'.threads[t].pc, b)} {:trigger Owns(m', t, b)} ::
          Holds(m.bucketOf, m'.threads[t].pc, b) <==> Owns(m', t, b))
  }

  lemma MovedLocks(m: Machine, m': Machine, t: nat)
    requires Inv(m) && t < |m.threads| && Moved(m, m', t)
    ensures LocksOk(m')
  {
  }

  /** The locks a program point stands for. */
  lemma OwnLocks(m: Machine, t: nat)
    requires Inv(m) && t < |m.threads|
    ensures var pc := m.threads[t].pc;
      && (pc.Holding? || pc.Compared? || pc.Published? ==> Owns(m, t, pc.b))
      && (pc.WakeSecond? ==> Owns(m, t, Low(m.bucketOf, pc.op)))
      && (pc.Scanning? ==> Owns(m, t, Low(m.bucketOf, pc.op)) && Owns(m, t, High(m.bucketOf, pc.op)))
  {
  }

  /** Steps up to the comparison under the lock, and the steps after it. */
  ghost predicate Early(act: Action) {
    act.BeginWait? || act.FirstLoad? || act.TakeBucket? || act.SecondLoad?
  }

  lemma EarlyMoves(m: Machine, t: nat, act: Action, m': Machine)
    requires Inv(m) && t < |m.threads| && WaitStep(m, t, act, m') && Early(act)
    ensures Moved(m, m', t)
  {
    assert ThreadOk(m, t);
    OwnLocks(m, t);
    forall b ensures Holds(m.bucketOf, m'.threads[t].pc, b) <==> Owns(m', t, b) {
      assert Holds(m.bucketOf, m.threads[t].pc, b) <==> Owns(m, t, b);
    }
  }

  lemma LateMoves(m: Machine, t: nat, act: Action, m': Machine)
    requires Inv(m) && t < |m.threads| && WaitStep(m, t, act, m') && !Early(act)
    ensures Moved(m, m', t)
  {
    assert ThreadOk(m, t);
    OwnLocks(m, t);
    forall b ensures Holds(m.bucketOf, m'.threads[t].pc, b) <==> Owns(m', t, b) {
      assert Holds(m.bucketOf, m.threads[t].pc, b) <==> Owns(m, t, b);
    }
  }

  lemma WaitMoves(m: Machine, t: nat, act: Action, m': Machine)
    requires Inv(m) && t < |m.threads| && WaitStep(m, t, act, m')
    ensures Moved(m, m', t)
  {
    if Early(act) {
      EarlyMoves(m, t, act, m');
    } else {
      LateMoves(m, t, act, m');
    }
  }

  lemma WakeMoves(m: Machine, t: nat, act: Action, m': Machine)
    requires Inv(m) && t < |m.threads| && WakeStep(m, t, act, m') && !act.ScanOne?
    ensures Moved(m, m', t)
  {
    assert ThreadOk(m, t);
    OwnLocks(m, t);
    forall b ensures Holds(m.bucketOf, m'.threads[t].pc, b) <==> Owns(m', t, b) {
      assert Holds(m.bucketOf, m.threads[t].pc, b) <==> Owns(m, t, b);
    }
  }

  /** Program points and locks stay; only `x` and its places in the two buckets change. */
  lemma CarryKeeps(m: Machine, x: nat, op: Op, v: Verdict)
    requires Shaped(m) && x < |m.threads|
    ensures var m' := Carry(m, x, op, v);
      && m'.locks == m.locks && m'.bucketOf == m.bucketOf && m'.resolve == m.resolve
      && |m'.threads| == |m.threads| && |m'.waiters| == |m.waiters|
      && (forall y {:trigger m'.threads[y]} :: 0 <= y < |m.threads| ==>
            m'.threads[y].pc == m.threads[y].pc && (y != x ==> m'.threads[y] == m.threads[y]))
      && (forall y, b {:trigger y in m'.waiters[b]} :: 0 <= b < BUCKETS && y != x ==>
           (y in m'.waiters[b] <==> y in m.waiters[b]))
  {
  }

  lemma ExamineMoves(m: Machine, t: nat)
    requires Inv(m) && t < |m.threads| && m.threads[t].pc.Scanning? && m.threads[t].pc.idx < |m.threads|
    ensures Moved(m, Examine(m, t), t)
  {
    var pc := m.threads[t].pc;
    CarryKeeps(m, pc.idx, pc.op, Judge(m, pc));
    OwnLocks(m, t);
    forall b ensures Holds(m.bucketOf, Examine(m, t).threads[t].pc, b) <==> Owns(Examine(m, t), t, b) {
      assert Holds(m.bucketOf, m.threads[t].pc, b) <==> Owns(m, t, b);
    }
  }

  /** Thread `x` and its place in the waiter sets are as before. */
  ghost predicate Untouched(m: Machine, m': Machine, x: nat) {
    && x < |m.threads| == |m'.threads| && m'.threads[x] == m.threads[x] && |m.waiters| == |m'.waiters|
    && forall b {:trigger m'.waiters[b]} :: 0 <= b < |m.waiters| ==> (x in m'.waiters[b] <==> x in m.waiters[b])
  }

  lemma WaitLeaves(m: Machine, t: nat, act: Action, m': Machine, x: nat)
    requires Inv(m) && t < |m.threads| && WaitStep(m, t, act, m') && x != t && x < |m.threads|
    ensures Untouched(m, m', x)
  {
  }

  /** After a step of `t` that woke or moved nobody, a scan by somebody else still finds no sleeper
      behind it. */
  lemma ScanUndisturbed(m: Machine, m': Machine, t: nat, s: nat)
    requires Inv(m) && t < |m.threads| && Moved(m, m', t) && s < |m.threads| && s != t
    requires m.threads[s].pc.Scanning? && Wants(m.threads[s].pc)
    requires forall x: nat :: x < |m.threads| && x != t ==> Untouched(m, m', x)
    requires m'.threads[t].st.Sleeping? ==> m.threads[t].pc.Published? && m'.threads[t].key == m.threads[t].key
    ensures NoSleepers(m', m.threads[s].pc.op.k, m.threads[s].pc.idx)
  {
    var pc := m.threads[s].pc;
    assert ThreadOk(m, s) && ThreadOk(m, t);
    OwnLocks(m, s);
    OwnLocks(m, t);
    forall x: nat | x < pc.idx ensures !Asleep(m', x, pc.op.k) {
      assert !Asleep(m, x, pc.op.k);
      assert x != t ==> Untouched(m, m', x);
    }
  }

  lemma EarlyKeepsSelf(m: Machine, t: nat, act: Action, m': Machine)
    requires Inv(m) && t < |m.threads| && m.threads[t].st.Running? && WaitStep(m, t, act, m') && Moved(m, m', t)
    requires Early(act)
    ensures ThreadOk(m', t) && m'.threads[t].st.Running?
  {
    assert ThreadOk(m, t);
  }

  lemma CleanKeepsSelf(m: Machine, t: nat, act: Action, m': Machine)
    requires Inv(m) && t < |m.threads| && m.threads[t].st.Running? && WaitStep(m, t, act, m') && Moved(m, m', t)
    requires act.CleanStart? || act.CleanFinish? || act.Resume? || act.GiveUp?
    ensures ThreadOk(m', t) && m'.threads[t].st.Running?
  {
    assert ThreadOk(m, t);
  }

  lemma WaitKeepsSelf(m: Machine, t: nat, act: Action, m': Machine)
    requires Inv(m) && t < |m.threads| && m.threads[t].st.Running? && WaitStep(m, t, act, m') && Moved(m, m', t)
    ensures ThreadOk(m', t)
    ensures m'.threads[t].st.Sleeping? ==> m.threads[t].pc.Published? && m'.threads[t].key == m.threads[t].key
  {
    if Early(act) {
      EarlyKeepsSelf(m, t, act, m');
    } else if act.Publish? || act.Sleep? {
      assert ThreadOk(m, t);
    } else {
      CleanKeepsSelf(m, t, act, m');
    }
  }

  lemma WaitKeepsThread(m: Machine, t: nat, act: Action, m': Machine, x: nat)
    requires Inv(m) && t < |m.threads| && m.threads[t].st.Running? && WaitStep(m, t, act, m') && x < |m.threads|
    requires Moved(m, m', t)
    ensures ThreadOk(m', x)
  {
    WaitKeepsSelf(m, t, act, m');
    if x != t {
      forall y: nat | y < |m.threads| && y != t ensures Untouched(m, m', y) {
        WaitLeaves(m, t, act, m', y);
      }
      OthersKept(m, m', t, x);
    }
  }

  /** A step of `t` that touched nobody else keeps everybody else in order. */
  lemma OthersKept(m: Machine, m': Machine, t: nat, x: nat)
    requires Inv(m) && t < |m.threads| && Moved(m, m', t) && x < |m.threads| && x != t
    requires forall y: nat :: y < |m.threads| && y != t ==> Untouched(m, m', y)
    requires m'.threads[t].st.Sleeping? ==> m.threads[t].pc.Published? && m'.threads[t].key == m.threads[t].key
    ensures ThreadOk(m', x)
  {
    assert ThreadOk(m, x) && Untouched(m, m', x);
    if m.threads[x].pc.Scanning? && Wants(m.threads[x].pc) {
      ScanUndisturbed(m, m', t, x);
    }
  }

  lemma WakeKeepsThread(m: Machine, t: nat, act: Action, m': Machine, x: nat)
    requires Inv(m) && t < |m.threads| && m.threads[t].st.Running? && WakeStep(m, t, act, m') && !act.ScanOne?
             && x < |m.threads|
    requires Moved(m, m', t)
    ensures ThreadOk(m', x)
  {
    assert ThreadOk(m, t);
    if x != t {
      forall y: nat | y < |m.threads| && y != t ensures Untouched(m, m', y) {
      }
      OthersKept(m, m', t, x);
    }
  }

  ghost predicate CanExamine(m: Machine, t: nat) {
    && Inv(m) && t < |m.threads| && m.threads[t].st.Running?
    && m.threads[t].pc.Scanning? && m.threads[t].pc.idx < |m.threads|
  }

  lemma ExamineLeaves(m: Machine, t: nat, x: nat)
    requires CanExamine(m, t) && x < |m.threads| && x != t && x != m.threads[t].pc.idx
    ensures Untouched(m, Examine(m, t), x)
  {
    var pc := m.threads[t].pc;
    CarryKeeps(m, pc.idx, pc.op, Judge(m, pc));
  }

  /** What a scan can do to the thread it examines: nothing to its program point, and what it sleeps
      on changes only when it is moved to the second key, whose bucket the scanner holds. */
  lemma ExamineTarget(m: Machine, t: nat)
    requires CanExamine(m, t)
    ensures var (m', y, op) := (Examine(m, t), m.threads[t].pc.idx, m.threads[t].pc.op);
      var (th, th') := (m.threads[y], m'.threads[y]);
      && (th'.key != 0 ==> y in m'.waiters[m.bucketOf(th'.key)])
      && (th'.st.Running? <==> th.st.Running?) && (th'.st.Sleeping? ==> th.st.Sleeping? && th'.key != 0)
      && (th'.key == th.key || th'.key == 0 || (th'.key == op.k2 && Owns(m, t, m.bucketOf(op.k2))))
      && (Wants(m.threads[t].pc) ==> !Asleep(m', y, op.k))
  {
    OwnLocks(m, t);
    assert ThreadOk(m, m.threads[t].pc.idx) && ThreadOk(m, t);
  }

  /** The thread that scans. */
  lemma ExamineSelf(m: Machine, t: nat)
    requires CanExamine(m, t)
    ensures var (m', pc) := (Examine(m, t), m.threads[t].pc);
      && m'.threads[t].st.Running? && m'.threads[t].pc.Scanning? && m'.threads[t].pc.op == pc.op
      && m'.threads[t].pc.idx == pc.idx + 1 && pc.c1 <= m'.threads[t].pc.c1 <= pc.op.n
      && pc.c2 <= m'.threads[t].pc.c2 <= pc.op.n2
  {
    assert ThreadOk(m, t);
  }

  lemma ExamineKeepsScan(m: Machine, t: nat, s: nat)
    requires CanExamine(m, t) && s < |m.threads| && m.threads[s].pc.Scanning? && Wants(m.threads[s].pc)
    ensures var pc := m.threads[s].pc;
      NoSleepers(Examine(m, t), pc.op.k, if s == t then pc.idx + 1 else pc.idx)
  {
    var (m', pc, y) := (Examine(m, t), m.threads[s].pc, m.threads[t].pc.idx);
    assert ThreadOk(m, s);
    OwnLocks(m, s);
    ExamineTarget(m, t);
    ExamineSelf(m, t);
    forall x: nat | x < (if s == t then pc.idx + 1 else pc.idx) ensures !Asleep(m', x, pc.op.k) {
      if x != t && x != y {
        ExamineLeaves(m, t, x);
        assert !Asleep(m, x, pc.op.k);
      } else if x == y && s != t {
        assert !Asleep(m, x, pc.op.k);
      }
    }
  }

  lemma ExamineKeepsThread(m: Machine, t: nat, x: nat)
    requires CanExamine(m, t) && x < |m.threads| && Moved(m, Examine(m, t), t)
    ensures ThreadOk(Examine(m, t), x)
  {
    var (m', y) := (Examine(m, t), m.threads[t].pc.idx);
    assert ThreadOk(m, x);
    ExamineTarget(m, t);
    ExamineSelf(m, t);
    if m.threads[x].pc.Scanning? && Wants(m.threads[x].pc) {
      ExamineKeepsScan(m, t, x);
    }
    if x != y {
      if x != t {
        ExamineLeaves(m, t, x);
      } else {
        ExamineOwnPlace(m, t);
      }
    }
  }

  lemma ExamineOwnPlace(m: Machine, t: nat)
    requires CanExamine(m, t) && t != m.threads[t].pc.idx
    ensures Examine(m, t).threads[t].key == m.threads[t].key
    ensures forall b {:trigger Examine(m, t).waiters[b]} :: 0 <= b < BUCKETS ==>
            (t in Examine(m, t).waiters[b] <==> t in m.waiters[b])
  {
    var pc := m.threads[t].pc;
    CarryKeeps(m, pc.idx, pc.op, Judge(m, pc));
  }

  lemma EnvKeepsLocks(m: Machine, act: Action, m': Machine)
    requires Inv(m) && Step(m, act, m') && !CanRun(m, act)
    ensures Shaped(m') && LocksOk(m')
  {
    forall t, b | 0 <= t < |m'.threads| ensures Holds(m'.bucketOf, m'.threads[t].pc, b) <==> Owns(m', t, b) {
      assert Holds(m.bucketOf, m.threads[t].pc, b) <==> Owns(m, t, b);
    }
  }

  /** What signals, timeouts and dispatches do to a thread. */
  lemma EnvTouches(m: Machine, act: Action, m': Machine, x: nat)
    requires Inv(m) && Step(m, act, m') && !CanRun(m, act) && x < |m.threads| == |m'.threads|
    ensures var (th, th') := (m.threads[x], m'.threads[x]);
      && th'.pc == th.pc && (th'.key == th.key || (th'.key == 0 && th.st.Sleeping? && !th'.st.Sleeping?))
      && (th'.expired == th.expired || th.st.Sleeping?)
      && (!th'.st.Running? ==> !th.st.Running?) && (th'.st.Sleeping? ==> th.st.Sleeping? && th'.key == th.key)
  {
  }

  lemma EnvRegisters(m: Machine, act: Action, m': Machine, x: nat)
    requires Inv(m) && Step(m, act, m') && !CanRun(m, act) && Shaped(m') && x < |m.threads| == |m'.threads|
    ensures m'.bucketOf == m.bucketOf
    ensures m'.threads[x].key != 0 ==> x in m'.waiters[m.bucketOf(m'.threads[x].key)]
  {
    assert ThreadOk(m, x);
    EnvTouches(m, act, m', x);
  }

  lemma EnvKeepsThread(m: Machine, act: Action, m': Machine, t: nat)
    requires Inv(m) && Step(m, act, m') && !CanRun(m, act) && Shaped(m') && t < |m.threads| == |m'.threads|
    ensures ThreadOk(m', t)
  {
    assert ThreadOk(m, t);
    EnvTouches(m, act, m', t);
    EnvRegisters(m, act, m', t);
    if m.threads[t].pc.Scanning? && Wants(m.threads[t].pc) {
      var pc := m.threads[t].pc;
      forall x: nat | x < pc.idx ensures !Asleep(m', x, pc.op.k) {
        assert !Asleep(m, x, pc.op.k);
        EnvTouches(m, act, m', x);
      }
    }
  }

  lemma EnvKeeps(m: Machine, act: Action, m': Machine)
    requires Inv(m) && Step(m, act, m') && !CanRun(m, act)
    ensures Inv(m')
  {
    EnvKeepsLocks(m, act, m');
    forall t: nat | t < |m'.threads| ensures ThreadOk(m', t) {
      EnvKeepsThread(m, act, m', t);
    }
  }

  lemma StepKeepsInv(m: Machine, act: Action, m': Machine)
    requires Inv(m) && Step(m, act, m')
    ensures Inv(m')
  {
    if !CanRun(m, act) {
      EnvKeeps(m, act, m');
    } else {
      var t := act.t;
      if WaitStep(m, t, act, m') {
        WaitMoves(m, t, act, m');
      } else if act.ScanOne? {
        ExamineMoves(m, t);
      } else {
        WakeMoves(m, t, act, m');
      }
      MovedLocks(m, m', t);
      forall x: nat | x < |m'.threads| ensures ThreadOk(m', x) {
        if WaitStep(m, t, act, m') {
          WaitKeepsThread(m, t, act, m', x);
        } else if act.ScanOne? {
          ExamineKeepsThread(m, t, x);
        } else {
          WakeKeepsThread(m, t, act, m', x);
        }
      }
    }
  }

  // ----- no wake is lost -----------------------------------------------------------------------

  /** The thread saw its value under the lock of `k`'s bucket and will sleep, or sleeps, on `k`. */
  ghost predicate Committed(m: Machine, x: nat, k: nat) {
    && x < |m.threads|
    && (Asleep(m, x, k) || (m.threads[x].pc.Compared? && m.threads[x].pc.k == k) ||
         (m.threads[x].pc.Published? && m.threads[x].pc.k == k))
  }

  ghost predicate NobodyCommitted(m: Machine, k: nat) {
    forall x: nat :: !Committed(m, x, k)
  }

  /** A wake of `k` that ends with room to spare, to wake or to move threads, leaves nobody committed to
      `k`. */
  lemma WakeClears(m: Machine, t: nat, m': Machine, x: nat)
    requires Inv(m) && Step(m, ScanEnd(t), m') && Wants(m.threads[t].pc)
    ensures !Committed(m', x, m.threads[t].pc.op.k)
  {
    var k := m.threads[t].pc.op.k;
    OwnLocks(m, t);
    assert ThreadOk(m, t);
    if x < |m.threads| {
      assert ThreadOk(m, x);
      OwnLocks(m, x);
      assert !Asleep(m, x, k);
    }
  }

  /** While a wake scans the bucket of `k`, every thread committed to `k` is registered there. */
  lemma ScanFindsAll(m: Machine, t: nat, x: nat)
    requires Inv(m) && t < |m.threads| && m.threads[t].pc.Scanning? && Committed(m, x, m.threads[t].pc.op.k)
    ensures x in m.waiters[m.bucketOf(m.threads[t].pc.op.k)] && Asleep(m, x, m.threads[t].pc.op.k)
  {
    OwnLocks(m, t);
    OwnLocks(m, x);
    assert ThreadOk(m, t) && ThreadOk(m, x);
  }

  /** A step by which a thread commits to `k`: it saw the value it expects, or a requeue moved it. */
  ghost predicate Joins(m: Machine, act: Action, x: nat, k: nat) {
    && Shaped(m)
    && ((act == SecondLoad(x) && x < |m.threads| && m.threads[x].pc.Holding? && Value(m, k) == m.threads[x].pc.val)
        || (act.ScanOne? && act.t < |m.threads| && Requeues(m, m.threads[act.t].pc, x, k)))
  }

  ghost predicate Requeues(m: Machine, pc: Pc, x: nat, k: nat)
    requires Shaped(m)
  {
    pc.Scanning? && pc.idx == x < |m.threads| && pc.op.k2 == k && Judge(m, pc).Move?
  }

  /** Signals, timeouts and stores move no thread and put none to sleep. */
  lemma EnvLeaves(m: Machine, act: Action, m': Machine, x: nat)
    requires Inv(m) && Step(m, act, m') && !CanRun(m, act) && x < |m.threads|
    ensures |m'.threads| == |m.threads| && m'.threads[x].pc == m.threads[x].pc
    ensures m'.threads[x].st.Sleeping? ==> m.threads[x].st.Sleeping? && m'.threads[x].key == m.threads[x].key
  {
  }

  lemma WakeLeaves(m: Machine, t: nat, act: Action, m': Machine, x: nat)
    requires Inv(m) && t < |m.threads| && WakeStep(m, t, act, m') && !act.ScanOne? && x < |m.threads|
    ensures |m'.threads| == |m.threads| && m'.threads[x].st == m.threads[x].st && m'.threads[x].key == m.threads[x].key
    ensures x != t ==> m'.threads[x] == m.threads[x]
    ensures !Fresh(m'.threads[t].pc) && !m'.threads[t].pc.Compared? && !m'.threads[t].pc.Published?
  {
  }

  lemma WaitCommits(m: Machine, t: nat, act: Action, m': Machine, k: nat)
    requires Inv(m) && t < |m.threads| && WaitStep(m, t, act, m') && act.t == t && m.threads[t].st.Running?
    requires Committed(m', t, k) && !Committed(m, t, k)
    ensures Joins(m, act, t, k)
  {
    assert ThreadOk(m, t);
  }

  lemma BecomesCommitted(m: Machine, act: Action, m': Machine, x: nat, k: nat)
    requires Inv(m) && Step(m, act, m') && Committed(m', x, k) && !Committed(m, x, k)
    ensures Joins(m, act, x, k)
  {
    if !CanRun(m, act) {
      EnvLeaves(m, act, m', x);
    } else if WaitStep(m, act.t, act, m') {
      if x != act.t {
        WaitMoves(m, act.t, act, m');
        WaitLeaves(m, act.t, act, m', x);
      } else {
        WaitCommits(m, x, act, m', k);
      }
    } else if act.ScanOne? {
      var pc := m.threads[act.t].pc;
      CarryKeeps(m, pc.idx, pc.op, Judge(m, pc));
      assert ThreadOk(m, act.t);
    } else {
      WakeLeaves(m, act.t, act, m', x);
    }
  }

  ghost predicate Init(m: Machine) {
    && Shaped(m) && m.locks == map[]
    && forall t {:trigger m.threads[t]} :: 0 <= t < |m.threads| ==>
       m.threads[t].pc == User && m.threads[t].st == Running && m.threads[t].key == 0
  }

  ghost predicate IsRun(ms: seq<Machine>, acts: seq<Action>) {
    && |ms| == |acts| + 1 && Init(ms[0])
    && forall i: nat {:trigger StepAt(ms, acts, i)} :: i < |acts| ==> StepAt(ms, acts, i)
  }

  ghost predicate StepAt(ms: seq<Machine>, acts: seq<Action>, i: nat)
    requires |ms| == |acts| + 1 && i < |acts|
  {
    Shaped(ms[i]) && Step(ms[i], acts[i], ms[i + 1])
  }

  lemma {:induction false} RunKeepsInv(ms: seq<Machine>, acts: seq<Action>, n: nat)
    requires IsRun(ms, acts) && n <= |acts|
    ensures Inv(ms[n])
  {
    if n > 0 {
      RunKeepsInv(ms, acts, n - 1);
      assert StepAt(ms, acts, n - 1);
      StepKeepsInv(ms[n - 1], acts[n - 1], ms[n]);
    } else {
      forall t | 0 <= t < |ms[0].threads| ensures ThreadOk(ms[0], t) {
        assert ms[0].threads[t].pc == User;
      }
    }
  }

  lemma StaysOrJoins(ms: seq<Machine>, acts: seq<Action>, n: nat, x: nat, k: nat)
    requires IsRun(ms, acts) && n < |acts| && Committed(ms[n + 1], x, k)
    ensures Committed(ms[n], x, k) || Joins(ms[n], acts[n], x, k)
  {
    RunKeepsInv(ms, acts, n);
    assert StepAt(ms, acts, n);
    if !Committed(ms[n], x, k) {
      BecomesCommitted(ms[n], acts[n], ms[n + 1], x, k);
    }
  }

  /** Step `w` of a run ends a wake of `k`. */
  ghost predicate EndsWake(ms: seq<Machine>, acts: seq<Action>, w: nat, k: nat) {
    && w < |acts| && w < |ms| && acts[w].ScanEnd? && acts[w].t < |ms[w].threads|
    && ms[w].threads[acts[w].t].pc.Scanning? && ms[w].threads[acts[w].t].pc.op.k == k
  }

  lemma EndedWakeClears(ms: seq<Machine>, acts: seq<Action>, w: nat, x: nat, k: nat)
    requires IsRun(ms, acts) && EndsWake(ms, acts, w, k)
    requires Wants(ms[w].threads[acts[w].t].pc)
    ensures !Committed(ms[w + 1], x, k)
  {
    RunKeepsInv(ms, acts, w);
    assert StepAt(ms, acts, w);
    WakeClears(ms[w], acts[w].t, ms[w + 1], x);
  }

  /** In every run: whoever is committed to `k` after a wake of `k` ended with room to spare committed
      after that wake, and so saw the word as it was after the wake's caller changed it. */
  lemma {:induction false} NoLostWake(ms: seq<Machine>, acts: seq<Action>, w: nat, n: nat, x: nat, k: nat)
    returns (i: nat)
    requires IsRun(ms, acts) && w < n <= |acts| && EndsWake(ms, acts, w, k)
    requires Wants(ms[w].threads[acts[w].t].pc)
    requires Committed(ms[n], x, k)
    ensures w < i < n && Joins(ms[i], acts[i], x, k)
    decreases n
  {
    StaysOrJoins(ms, acts, n - 1, x, k);
    EndedWakeClears(ms, acts, w, x, k);
    if n - 1 == w || Joins(ms[n - 1], acts[n - 1], x, k) {
      i := n - 1;
    } else {
      i := NoLostWake(ms, acts, w, n - 1, x, k);
    }
  }

  // ----- what a wake counts --------------------------------------------------------------------

  /** The step took thread `x` off key `k`, where it was parked, and made it runnable. */
  ghost predicate Woken(m: Machine, m': Machine, x: nat, k: nat) {
    && x < |m.threads| == |m'.threads| && k != 0 && m.threads[x].pc.Parked? && m.threads[x].key == k
    && m'.threads[x].key == 0 && m'.threads[x].st.Runnable?
  }

  /** The step moved thread `x`, asleep on key `k`, to sleep on key `k2` and to that key's bucket. */
  ghost predicate Requeued(m: Machine, m': Machine, x: nat, k: nat, k2: nat) {
    && Shaped(m) && Shaped(m') && |m'.threads| == |m.threads| && k2 != 0 && Asleep(m, x, k) && Asleep(m', x, k2)
    && x in m'.waiters[m.bucketOf(k2)] && (m.bucketOf(k) != m.bucketOf(k2) ==> x !in m'.waiters[m.bucketOf(k)])
  }

  /** What a scan counts: threads woken and threads moved. */
  datatype Deed = Wakes | Moves

  ghost function Tally(pc: Pc, d: Deed): nat
    requires pc.Scanning?
  {
    if d.Wakes? then pc.c1 else pc.c2
  }

  /** The scan of thread `t` examined `x` in this step and woke it, or moved it to the second key. */
  ghost predicate DoneBy(m: Machine, act: Action, m': Machine, t: nat, op: Op, x: nat, d: Deed) {
    && act == ScanOne(t) && t < |m.threads| && m.threads[t].pc.Scanning? && m.threads[t].pc.op == op
    && m.threads[t].pc.idx == x && (if d.Wakes? then Woken(m, m', x, op.k) else Requeued(m, m', x, op.k, op.k2))
  }

  lemma WaitScanBefore(m: Machine, t: nat, act: Action, m': Machine)
    requires Inv(m) && t < |m.threads| && WaitStep(m, t, act, m')
    ensures |m'.threads| == |m.threads| && !m'.threads[t].pc.Scanning?
  {
  }

  lemma WakeScanBefore(m: Machine, t: nat, act: Action, m': Machine)
    requires Inv(m) && t < |m.threads| && WakeStep(m, t, act, m') && !act.ScanOne? && m'.threads[t].pc.Scanning?
    ensures m'.threads[t].pc.c1 == m'.threads[t].pc.c2 == 0
  {
  }

  /** A scanning thread was at the same point before, or has just examined a thread, or has just begun. */
  lemma ScanBefore(m: Machine, act: Action, m': Machine, t: nat)
    requires Inv(m) && Step(m, act, m') && t < |m.threads| == |m'.threads| && m'.threads[t].pc.Scanning?
    ensures || m'.threads[t].pc == m.threads[t].pc || m'.threads[t].pc.c1 == m'.threads[t].pc.c2 == 0
            || (act == ScanOne(t) && CanRun(m, act))
  {
    if !CanRun(m, act) {
      EnvLeaves(m, act, m', t);
    } else if WaitStep(m, act.t, act, m') {
      WaitScanBefore(m, act.t, act, m');
      if t != act.t {
        WaitLeaves(m, act.t, act, m', t);
      }
    } else if act.ScanOne? {
      var pc := m.threads[act.t].pc;
      CarryKeeps(m, pc.idx, pc.op, Judge(m, pc));
    } else {
      WakeLeaves(m, act.t, act, m', t);
      if t == act.t {
        WakeScanBefore(m, t, act, m');
      }
    }
  }

  lemma ExamineCounts(m: Machine, act: Action, m': Machine, t: nat, d: Deed)
    requires Inv(m) && act == ScanOne(t) && CanRun(m, act) && Step(m, act, m')
    ensures m.threads[t].pc.Scanning? && |m'.threads| == |m.threads|
    ensures var (pc, pc') := (m.threads[t].pc, m'.threads[t].pc);
      && pc'.Scanning? && pc'.op == pc.op && pc'.idx == pc.idx + 1
      && (Tally(pc', d) == Tally(pc, d)
          || (Tally(pc', d) == Tally(pc, d) + 1 && DoneBy(m, act, m', t, pc.op, pc.idx, d)))
  {
    var pc := m.threads[t].pc;
    CarryKeeps(m, pc.idx, pc.op, Judge(m, pc));
    assert ThreadOk(m, t) && ThreadOk(m, pc.idx);
  }

  ghost predicate Increasing(s: seq<nat>) {
    forall i, j :: 0 <= i < j < |s| ==> s[i] < s[j]
  }

  /** Steps `at` of a run, one after the other, by which the scan of `t` woke or moved the threads `xs`. */
  ghost predicate DeedsOf(ms: seq<Machine>, acts: seq<Action>, n: nat, t: nat, op: Op, d: Deed, at: seq<nat>,
                          xs: seq<nat>)
  {
    && |ms| == |acts| + 1 && |at| == |xs| && Increasing(at) && Increasing(xs)
    && forall j {:trigger at[j]} {:trigger xs[j]} :: 0 <= j < |at| ==>
         at[j] < n <= |acts| && DoneBy(ms[at[j]], acts[at[j]], ms[at[j] + 1], t, op, xs[j], d)
  }

  lemma DeedsMore(ms: seq<Machine>, acts: seq<Action>, n: nat, t: nat, op: Op, d: Deed, at: seq<nat>, xs: seq<nat>,
                  x: nat)
    requires DeedsOf(ms, acts, n, t, op, d, at, xs) && n < |acts| && DoneBy(ms[n], acts[n], ms[n + 1], t, op, x, d)
    requires forall j :: 0 <= j < |xs| ==> xs[j] < x
    ensures DeedsOf(ms, acts, n + 1, t, op, d, at + [n], xs + [x])
  {
  }

  lemma ScanStep(ms: seq<Machine>, acts: seq<Action>, n: nat, t: nat, d: Deed)
    requires IsRun(ms, acts) && n < |acts| && t < |ms[n + 1].threads| && ms[n + 1].threads[t].pc.Scanning?
    ensures t < |ms[n].threads|
    ensures var (pc, pc') := (ms[n].threads[t].pc, ms[n + 1].threads[t].pc);
      || pc' == pc || Tally(pc', d) == 0
      || (&& pc.Scanning? && pc'.op == pc.op && pc'.idx == pc.idx + 1
          && (Tally(pc', d) == Tally(pc, d)
              || (Tally(pc', d) == Tally(pc, d) + 1 && DoneBy(ms[n], acts[n], ms[n + 1], t, pc.op, pc.idx, d))))
  {
    RunKeepsInv(ms, acts, n);
    var m, act, m' := ms[n], acts[n], ms[n + 1];
    assert StepAt(ms, acts, n);
    SameCount(m, act, m');
    ScanBefore(m, act, m', t);
    if act == ScanOne(t) && CanRun(m, act) {
      ExamineCounts(m, act, m', t, d);
    }
  }

  /** In every run, a wake has woken exactly as many threads as it has counted, all of them parked on its
      key and all of them different; and it has moved exactly as many as it has counted. */
  lemma {:induction false} WakeCounts(ms: seq<Machine>, acts: seq<Action>, n: nat, t: nat, d: Deed)
    returns (at: seq<nat>, xs: seq<nat>)
    requires IsRun(ms, acts) && n <= |acts| && t < |ms[n].threads| && ms[n].threads[t].pc.Scanning?
    ensures var pc := ms[n].threads[t].pc;
      |xs| == Tally(pc, d) && DeedsOf(ms, acts, n, t, pc.op, d, at, xs) && forall j :: 0 <= j < |xs| ==> xs[j] < pc.idx
    decreases n
  {
    at, xs := [], [];
    if Tally(ms[n].threads[t].pc, d) > 0 && n > 0 {
      ScanStep(ms, acts, n - 1, t, d);
      var pc, pc' := ms[n - 1].threads[t].pc, ms[n].threads[t].pc;
      at, xs := WakeCounts(ms, acts, n - 1, t, d);
      if Tally(pc', d) > Tally(pc, d) {
        DeedsMore(ms, acts, n - 1, t, pc.op, d, at, xs, pc.idx);
        at, xs := at + [n - 1], xs + [pc.idx];
      }
    }
  }

  /** A wake that ends woke all it was asked for, or nobody is committed to its key any more; so did a requeue
      to another key, and it moved all it was asked to move or nobody is committed. */
  lemma WakeDoesItsWork(ms: seq<Machine>, acts: seq<Action>, w: nat, k: nat)
    returns (at: seq<nat>, xs: seq<nat>, at2: seq<nat>, xs2: seq<nat>)
    requires IsRun(ms, acts) && EndsWake(ms, acts, w, k)
    ensures var op := ms[w].threads[acts[w].t].pc.op;
      && DeedsOf(ms, acts, w, acts[w].t, op, Wakes, at, xs) && |xs| <= op.n
      && DeedsOf(ms, acts, w, acts[w].t, op, Moves, at2, xs2) && |xs2| <= op.n2
      && (|xs| == op.n || NobodyCommitted(ms[w + 1], k))
      && (op.k2 in {0, k} || |xs2| == op.n2 || NobodyCommitted(ms[w + 1], k))
  {
    at, xs := WakeCounts(ms, acts, w, acts[w].t, Wakes);
    at2, xs2 := WakeCounts(ms, acts, w, acts[w].t, Moves);
    RunKeepsInv(ms, acts, w);
    assert ThreadOk(ms[w], acts[w].t);
    if Wants(ms[w].threads[acts[w].t].pc) {
      var m' := ms[w + 1];
      forall x: nat ensures !Committed(m', x, k) {
        EndedWakeClears(ms, acts, w, x, k);
      }
    }
  }

  // ----- a wait that fails to match never sleeps -----------------------------------------------

  /** Program points of a wait that has not slept, or that returns because the value differed. */
  ghost predicate Fresh(pc: Pc) {
    match pc
    case Retry(_, slept) => !slept
    case Wanting(_, slept, _) => !slept
    case Holding(_, slept, _) => !slept
    case Cleaning(_, ret) => ret == Eagain
    case Removing(_, ret, _) => ret == Eagain
    case _ => false
  }

  lemma WaitFreshBefore(m: Machine, t: nat, act: Action, m': Machine)
    requires Inv(m) && t < |m.threads| && WaitStep(m, t, act, m') && act.t == t && Fresh(m'.threads[t].pc)
    ensures !act.Sleep? && (act.BeginWait? || Fresh(m.threads[t].pc))
  {
  }

  lemma FreshBefore(m: Machine, act: Action, m': Machine, t: nat)
    requires Inv(m) && Step(m, act, m') && t < |m.threads| == |m'.threads| && Fresh(m'.threads[t].pc)
    ensures act != Sleep(t)
    ensures (act.BeginWait? && act.t == t) || Fresh(m.threads[t].pc)
  {
    if !CanRun(m, act) {
      EnvLeaves(m, act, m', t);
    } else if WaitStep(m, act.t, act, m') {
      if t != act.t {
        WaitLeaves(m, act.t, act, m', t);
      } else {
        WaitFreshBefore(m, t, act, m');
      }
    } else if act.ScanOne? {
      var pc := m.threads[act.t].pc;
      CarryKeeps(m, pc.idx, pc.op, Judge(m, pc));
    } else {
      WakeLeaves(m, act.t, act, m', t);
    }
  }

  lemma SameCount(m: Machine, act: Action, m': Machine)
    requires Inv(m) && Step(m, act, m')
    ensures |m'.threads| == |m.threads|
  {
    if CanRun(m, act) && act.ScanOne? {
      var pc := m.threads[act.t].pc;
      CarryKeeps(m, pc.idx, pc.op, Judge(m, pc));
    } else if CanRun(m, act) && WaitStep(m, act.t, act, m') {
      WaitMoves(m, act.t, act, m');
    }
  }

  /** In every run, a wait about to return EAGAIN has not slept since it began. */
  lemma {:induction false} EagainWithoutSleep(ms: seq<Machine>, acts: seq<Action>, n: nat, t: nat) returns (i: nat)
    requires IsRun(ms, acts) && n <= |acts| && t < |ms[n].threads| && Fresh(ms[n].threads[t].pc)
    ensures i < n && acts[i].BeginWait? && acts[i].t == t
    ensures forall j {:trigger acts[j]} :: i <= j < n ==> acts[j] != Sleep(t)
    decreases n
  {
    RunKeepsInv(ms, acts, n);
    if n > 0 {
      RunKeepsInv(ms, acts, n - 1);
      assert StepAt(ms, acts, n - 1);
      SameCount(ms[n - 1], acts[n - 1], ms[n]);
      FreshBefore(ms[n - 1], acts[n - 1], ms[n], t);
      if acts[n - 1].BeginWait? && acts[n - 1].t == t {
        i := n - 1;
      } else {
        i := EagainWithoutSleep(ms, acts, n - 1, t);
      }
    }
  }

  // ----- lock order ----------------------------------------------------------------------------

  /** The thread cannot move until somebody else gives up a bucket. */
  ghost predicate Blocked(m: Machine, t: nat)
    requires t < |m.threads|
  {
    m.threads[t].pc.WakeSecond? && High(m.bucketOf, m.threads[t].pc.op) in m.locks
  }

  /** Buckets are taken in index order: a thread that waits for a second bucket holds a lower one. */
  lemma InIndexOrder(m: Machine, t: nat, b: nat)
    requires Inv(m) && t < |m.threads| && m.threads[t].pc.WakeSecond? && Owns(m, t, b)
    ensures b < High(m.bucketOf, m.threads[t].pc.op)
  {
    assert ThreadOk(m, t);
    assert Holds(m.bucketOf, m.threads[t].pc, b);
  }

  /** So the holder of the highest bucket taken can always move: bucket locks never deadlock. */
  lemma SomeHolderMoves(m: Machine) returns (t: nat, b: nat)
    requires Inv(m) && m.locks != map[]
    ensures t < |m.threads| && Owns(m, t, b) && !Blocked(m, t)
  {
    b :| b in m.locks;
    while exists c :: c in m.locks && c > b
      invariant b in m.locks
      decreases BUCKETS - b
    {
      var c :| c in m.locks && c > b;
      b := c;
    }
    t := m.locks[b];
    assert Owns(m, t, b);
    if m.threads[t].pc.WakeSecond? {
      InIndexOrder(m, t, b);
    }
  }
}
