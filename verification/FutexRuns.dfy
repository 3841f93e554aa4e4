/** What waits and wakes return and do, over whole runs of the futex machine. */
module FutexRuns {
  import opened Futex

  // ----- one step seen from one thread ---------------------------------------------------------

  ghost predicate Waiting(pc: Pc) {
    pc.Retry? || pc.Wanting? || pc.Holding? || pc.Compared? || pc.Published? || pc.Parked? || pc.Cleaning? ||
        pc.Removing?
  }

  ghost predicate OwnStep(m: Machine, act: Action, m': Machine, t: nat) {
    && Shaped(m) && CanRun(m, act) && act.t == t < |m.threads|
    && (WaitStep(m, t, act, m') || WakeStep(m, t, act, m'))
  }

  /** A step moves nobody but the thread that takes it. */
  lemma OwnOrSame(m: Machine, act: Action, m': Machine, t: nat)
    requires Inv(m) && Step(m, act, m') && t < |m.threads| == |m'.threads| && !OwnStep(m, act, m', t)
    ensures m'.threads[t].pc == m.threads[t].pc && m'.threads[t].timed == m.threads[t].timed
  {
    if CanRun(m, act) {
      if WaitStep(m, act.t, act, m') {
        WaitLeaves(m, act.t, act, m', t);
      } else if act.ScanOne? {
        ScanMovesNobody(m, act.t, t);
      } else {
        WakeLeaves(m, act.t, act, m', t);
      }
    }
  }

  lemma ScanMovesNobody(m: Machine, s: nat, t: nat)
    requires CanExamine(m, s) && t < |m.threads| && t != s
    ensures var th := Examine(m, s).threads[t]; th.pc == m.threads[t].pc && th.timed == m.threads[t].timed
  {
    var pc := m.threads[s].pc;
    CarryKeeps(m, pc.idx, pc.op, Judge(m, pc));
  }

  lemma RunStep(ms: seq<Machine>, acts: seq<Action>, n: nat, t: nat)
    requires IsRun(ms, acts) && n < |acts| && t < |ms[n + 1].threads|
    ensures Inv(ms[n]) && Inv(ms[n + 1]) && Step(ms[n], acts[n], ms[n + 1])
    ensures t < |ms[n].threads| == |ms[n + 1].threads|
  {
    RunKeepsInv(ms, acts, n);
    RunKeepsInv(ms, acts, n + 1);
    assert StepAt(ms, acts, n);
    SameCount(ms[n], acts[n], ms[n + 1]);
  }

  // ----- the wait a thread is in ---------------------------------------------------------------

  /** Step `b` began the wait that thread `t` is in at state `n`. */
  ghost predicate Began(ms: seq<Machine>, acts: seq<Action>, t: nat, b: nat, n: nat) {
    && |ms| == |acts| + 1 && b < n <= |acts| && acts[b].BeginWait? && acts[b].t == t
    && forall j {:trigger ms[j]} :: b < j <= n ==>
         && t < |ms[j].threads| && Waiting(ms[j].threads[t].pc)
         && ms[j].threads[t].pc.val == acts[b].val && ms[j].threads[t].timed == acts[b].timed
  }

  lemma WaitBegins(m: Machine, t: nat, act: Action, m': Machine)
    requires Shaped(m) && t < |m.threads| && WaitStep(m, t, act, m') && act.BeginWait?
    ensures |m'.threads| == |m.threads| && m'.threads[t].pc == Retry(act.val, false) && m'.threads[t].timed == act.timed
  {
  }

  lemma WaitGoesOn(m: Machine, t: nat, act: Action, m': Machine)
    requires Shaped(m) && t < |m.threads| == |m'.threads| && WaitStep(m, t, act, m') && !act.BeginWait?
    ensures Waiting(m.threads[t].pc) && m'.threads[t].timed == m.threads[t].timed
    ensures Waiting(m'.threads[t].pc) ==> m'.threads[t].pc.val == m.threads[t].pc.val
  {
  }

  lemma WakeIsNoWait(m: Machine, t: nat, act: Action, m': Machine)
    requires Inv(m) && t < |m.threads| == |m'.threads| && WakeStep(m, t, act, m')
    ensures !Waiting(m'.threads[t].pc)
  {
    if act.ScanOne? {
      var pc := m.threads[t].pc;
      CarryKeeps(m, pc.idx, pc.op, Judge(m, pc));
    }
  }

  lemma {:induction false} WaitBegan(ms: seq<Machine>, acts: seq<Action>, n: nat, t: nat) returns (b: nat)
    requires IsRun(ms, acts) && n <= |acts| && t < |ms[n].threads| && Waiting(ms[n].threads[t].pc)
    ensures Began(ms, acts, t, b, n)
    decreases n
  {
    b := 0;
    if n > 0 {
      RunStep(ms, acts, n - 1, t);
      var m, act, m' := ms[n - 1], acts[n - 1], ms[n];
      if !OwnStep(m, act, m', t) {
        OwnOrSame(m, act, m', t);
        b := WaitBegan(ms, acts, n - 1, t);
      } else if act.BeginWait? {
        WaitBegins(m, t, act, m');
        b := n - 1;
      } else {
        if !WaitStep(m, t, act, m') {
          WakeIsNoWait(m, t, act, m');
        }
        WaitGoesOn(m, t, act, m');
        b := WaitBegan(ms, acts, n - 1, t);
      }
    }
  }

  // ----- why a wait returns what it returns ----------------------------------------------------

  ghost predicate Load(act: Action, t: nat) {
    act == FirstLoad(t) || act == SecondLoad(t)
  }

  /** A load of the wait found a value other than the one expected. */
  ghost predicate SawOther(m: Machine, act: Action, t: nat, val: int) {
    Load(act, t) && t < |m.resolve| && m.resolve[t] != 0 && Value(m, m.resolve[t]) != val
  }

  ghost predicate SawNothing(m: Machine, act: Action, t: nat) {
    Load(act, t) && t < |m.resolve| && m.resolve[t] == 0
  }

  /** A wake found the thread parked on its key and cleared it. */
  ghost predicate WokenAt(m: Machine, act: Action, m': Machine, t: nat) {
    act.ScanOne? && act.t < |m.threads| && m.threads[act.t].pc.Scanning?
    && DoneBy(m, act, m', act.t, m.threads[act.t].pc.op, t, Wakes)
  }

  /** A signal was pending when the thread looked. */
  ghost predicate Interrupted(act: Action, t: nat) {
    act == GiveUp(t, true) || (act.Resume? && act.t == t && act.interrupted)
  }

  /** The deadline had passed when the thread looked, or passed while it slept. */
  ghost predicate Overdue(act: Action, t: nat) {
    act == GiveUp(t, false) || act == Expire(t)
  }

  ghost predicate Slept(acts: seq<Action>, t: nat, b: nat, n: nat)
    requires n <= |acts|
  {
    exists s :: b < s < n && acts[s] == Sleep(t)
  }

  ghost predicate Expired(acts: seq<Action>, t: nat, s: nat, n: nat)
    requires n <= |acts|
  {
    exists j :: s < j < n && acts[j] == Expire(t)
  }

  ghost predicate Woke(ms: seq<Machine>, acts: seq<Action>, t: nat, s: nat, n: nat)
    requires n <= |acts| < |ms|
  {
    exists j :: s < j < n && WokenAt(ms[j], acts[j], ms[j + 1], t)
  }

  ghost predicate Other(ms: seq<Machine>, acts: seq<Action>, t: nat, s: nat, n: nat, val: int)
    requires n <= |acts| < |ms|
  {
    exists j :: s < j < n && SawOther(ms[j], acts[j], t, val)
  }

  /** The reason for what a wait begun by step `b` returns, among the steps before `n`. */
  ghost predicate Why(ms: seq<Machine>, acts: seq<Action>, t: nat, b: nat, n: nat, ret: Result)
    requires b < n <= |acts| < |ms| && acts[b].BeginWait?
  {
    match ret
    case Eagain =>
      Other(ms, acts, t, b, n, acts[b].val) && !Slept(acts, t, b, n)
    case Efault => exists j :: b < j < n && SawNothing(ms[j], acts[j], t)
    case Success =>
      exists s :: b < s < n && acts[s] == Sleep(t)
        && (Woke(ms, acts, t, s, n) || Other(ms, acts, t, s, n, acts[b].val))
    case Eintr => exists j :: b < j < n && Interrupted(acts[j], t)
    case Etimedout => acts[b].timed && exists j :: b < j < n && Overdue(acts[j], t)
  }

  lemma WhyLater(ms: seq<Machine>, acts: seq<Action>, t: nat, b: nat, n: nat, ret: Result)
    requires b < n < |acts| < |ms| && acts[b].BeginWait? && Why(ms, acts, t, b, n, ret) && acts[n] != Sleep(t)
    ensures Why(ms, acts, t, b, n + 1, ret)
  {
    SleptLater(acts, t, b, n);
    EventsLater(ms, acts, t, b, n, acts[b].val);
    if ret.Success? {
      var s :| b < s < n && acts[s] == Sleep(t)
        && (Woke(ms, acts, t, s, n) || Other(ms, acts, t, s, n, acts[b].val));
      EventsLater(ms, acts, t, s, n, acts[b].val);
    }
  }

  lemma SleptLater(acts: seq<Action>, t: nat, b: nat, n: nat)
    requires b < n < |acts|
    ensures Slept(acts, t, b, n + 1) <==> Slept(acts, t, b, n) || acts[n] == Sleep(t)
  {
  }

  /** The sleep the thread is in or comes from, and what has become of its key since. */
  ghost predicate Sleeps(ms: seq<Machine>, acts: seq<Action>, t: nat, b: nat, n: nat, th: Thread)
    requires b < n <= |acts| < |ms|
  {
    exists s :: b < s < n && SleepsSince(ms, acts, t, s, n, th)
  }

  ghost predicate SleepsSince(ms: seq<Machine>, acts: seq<Action>, t: nat, s: nat, n: nat, th: Thread)
    requires s < n <= |acts| < |ms|
  {
    && acts[s] == Sleep(t)
    && if th.key != 0 then !th.expired
       else if th.expired then Expired(acts, t, s, n) else Woke(ms, acts, t, s, n)
  }

  ghost predicate History(ms: seq<Machine>, acts: seq<Action>, t: nat, b: nat, n: nat)
    requires Began(ms, acts, t, b, n)
  {
    var th := ms[n].threads[t];
    match th.pc
    case Retry(_, slept) => slept <==> Slept(acts, t, b, n)
    case Wanting(_, slept, _) => slept <==> Slept(acts, t, b, n)
    case Holding(_, slept, _) => slept <==> Slept(acts, t, b, n)
    case Parked(_) => Sleeps(ms, acts, t, b, n, th)
    case Cleaning(_, ret) => Why(ms, acts, t, b, n, ret)
    case Removing(_, ret, _) => Why(ms, acts, t, b, n, ret)
    case _ => true
  }

  // ----- steps of others -----------------------------------------------------------------------

  /** What a step of others can do to a parked thread's key. */
  lemma ParkedTouched(m: Machine, act: Action, m': Machine, t: nat)
    requires Inv(m) && Inv(m') && Step(m, act, m') && t < |m.threads| == |m'.threads| && m.threads[t].pc.Parked?
    requires !OwnStep(m, act, m', t)
    ensures Touched(m, act, m', t)
  {
    assert ThreadOk(m, t);
    if CanRun(m, act) {
      if WaitStep(m, act.t, act, m') {
        WaitLeaves(m, act.t, act, m', t);
      } else if act.ScanOne? {
        ParkedScanned(m, act, m', t);
      } else {
        WakeLeaves(m, act.t, act, m', t);
      }
    }
  }

  lemma ParkedScanned(m: Machine, act: Action, m': Machine, t: nat)
    requires Inv(m) && act.ScanOne? && CanExamine(m, act.t) && m' == Examine(m, act.t)
    requires t < |m.threads| && t != act.t && m.threads[t].pc.Parked?
    ensures |m'.threads| == |m.threads|
    ensures var (th, th') := (m.threads[t], m'.threads[t]);
      && th'.expired == th.expired
      && (th'.key == th.key || (th.key != 0 && (th'.key != 0 || WokenAt(m, act, m', t))))
  {
    var pc := m.threads[act.t].pc;
    CarryKeeps(m, pc.idx, pc.op, Judge(m, pc));
    assert ThreadOk(m, t) && ThreadOk(m, act.t);
  }

  ghost predicate Touched(m: Machine, act: Action, m': Machine, t: nat)
    requires t < |m.threads| == |m'.threads|
  {
    var th, th' := m.threads[t], m'.threads[t];
    || (th'.key == th.key && th'.expired == th.expired)
    || (th.key != 0 && th'.key != 0 && th'.expired == th.expired)
    || (th.key != 0 && th'.key == 0 && th'.expired == th.expired && WokenAt(m, act, m', t))
    || (th.key != 0 && th'.key == 0 && th'.expired && act == Expire(t))
  }

  lemma SinceLater(ms: seq<Machine>, acts: seq<Action>, t: nat, s: nat, n: nat)
    requires s < n < |acts| < |ms| && t < |ms[n].threads| == |ms[n + 1].threads|
    requires SleepsSince(ms, acts, t, s, n, ms[n].threads[t]) && Touched(ms[n], acts[n], ms[n + 1], t)
    ensures SleepsSince(ms, acts, t, s, n + 1, ms[n + 1].threads[t])
  {
    EventsLater(ms, acts, t, s, n, 0);
  }

  lemma EventsLater(ms: seq<Machine>, acts: seq<Action>, t: nat, s: nat, n: nat, val: int)
    requires s < n < |acts| < |ms|
    ensures Other(ms, acts, t, s, n + 1, val) <==> Other(ms, acts, t, s, n, val) || SawOther(ms[n], acts[n], t, val)
    ensures Expired(acts, t, s, n + 1) <==> Expired(acts, t, s, n) || acts[n] == Expire(t)
    ensures Woke(ms, acts, t, s, n + 1) <==> Woke(ms, acts, t, s, n) || WokenAt(ms[n], acts[n], ms[n + 1], t)
  {
  }

  lemma SleepsLater(ms: seq<Machine>, acts: seq<Action>, t: nat, b: nat, n: nat)
    requires b < n < |acts| < |ms| && t < |ms[n].threads| == |ms[n + 1].threads|
    requires Sleeps(ms, acts, t, b, n, ms[n].threads[t]) && Touched(ms[n], acts[n], ms[n + 1], t)
    ensures Sleeps(ms, acts, t, b, n + 1, ms[n + 1].threads[t])
  {
    var s :| b < s < n && SleepsSince(ms, acts, t, s, n, ms[n].threads[t]);
    SinceLater(ms, acts, t, s, n);
  }

  lemma HistoryOthers(ms: seq<Machine>, acts: seq<Action>, t: nat, b: nat, n: nat)
    requires Began(ms, acts, t, b, n + 1) && n > b && IsRun(ms, acts) && !OwnStep(ms[n], acts[n], ms[n + 1], t)
    requires Began(ms, acts, t, b, n) && History(ms, acts, t, b, n)
    ensures History(ms, acts, t, b, n + 1)
  {
    RunStep(ms, acts, n, t);
    OwnOrSame(ms[n], acts[n], ms[n + 1], t);
    NotSleep(ms[n], acts[n], ms[n + 1], t);
    var pc := ms[n].threads[t].pc;
    if pc.Parked? {
      ParkedTouched(ms[n], acts[n], ms[n + 1], t);
      SleepsLater(ms, acts, t, b, n);
    } else if pc.Cleaning? || pc.Removing? {
      WhyLater(ms, acts, t, b, n, pc.ret);
    }
  }

  lemma NotSleep(m: Machine, act: Action, m': Machine, t: nat)
    requires Inv(m) && Step(m, act, m') && !OwnStep(m, act, m', t)
    ensures act != Sleep(t)
  {
  }

  // ----- a thread's own steps ------------------------------------------------------------------

  ghost predicate OwnWait(ms: seq<Machine>, acts: seq<Action>, t: nat, b: nat, n: nat) {
    && IsRun(ms, acts) && b < n < |acts| && Began(ms, acts, t, b, n) && History(ms, acts, t, b, n)
    && Inv(ms[n]) && CanRun(ms[n], acts[n]) && acts[n].t == t && WaitStep(ms[n], t, acts[n], ms[n + 1])
    && Began(ms, acts, t, b, n + 1)
  }

  /** A load that fails gives the reason for the result; one that succeeds goes on. */
  lemma LoadStep(m: Machine, act: Action, m': Machine, t: nat)
    requires Shaped(m) && t < |m.threads| && Load(act, t) && WaitStep(m, t, act, m')
    ensures |m'.threads| == |m.threads|
    ensures var (pc, pc') := (m.threads[t].pc, m'.threads[t].pc);
      && (pc.Retry? || pc.Holding?)
      && if SawNothing(m, act, t) then pc' == Cleaning(pc.val, Efault)
         else if SawOther(m, act, t, pc.val) then pc' == Cleaning(pc.val, if pc.slept then Success else Eagain)
         else pc'.Compared? || ((pc'.Wanting? || pc'.Retry?) && pc'.slept == pc.slept)
  {
  }

  lemma HistoryLoad(ms: seq<Machine>, acts: seq<Action>, t: nat, b: nat, n: nat)
    requires OwnWait(ms, acts, t, b, n) && Load(acts[n], t)
    ensures History(ms, acts, t, b, n + 1)
  {
    LoadStep(ms[n], acts[n], ms[n + 1], t);
    SleptLater(acts, t, b, n);
    EventsLater(ms, acts, t, b, n, acts[b].val);
    var pc := ms[n].threads[t].pc;
    if SawOther(ms[n], acts[n], t, pc.val) && pc.slept {
      var s :| b < s < n && acts[s] == Sleep(t);
      EventsLater(ms, acts, t, s, n, acts[b].val);
    }
  }

  lemma HistorySleep(ms: seq<Machine>, acts: seq<Action>, t: nat, b: nat, n: nat)
    requires OwnWait(ms, acts, t, b, n) && acts[n].Sleep?
    ensures History(ms, acts, t, b, n + 1)
  {
    assert ThreadOk(ms[n], t);
    assert b < n < n + 1 && SleepsSince(ms, acts, t, n, n + 1, ms[n + 1].threads[t]);
  }

  lemma HistoryResume(ms: seq<Machine>, acts: seq<Action>, t: nat, b: nat, n: nat)
    requires OwnWait(ms, acts, t, b, n) && acts[n].Resume?
    ensures History(ms, acts, t, b, n + 1)
  {
    var s :| b < s < n && SleepsSince(ms, acts, t, s, n, ms[n].threads[t]);
    assert b < s < n + 1 && acts[s] == Sleep(t);
    assert acts[n].interrupted ==> Interrupted(acts[n], t);
  }

  lemma HistoryGiveUp(ms: seq<Machine>, acts: seq<Action>, t: nat, b: nat, n: nat)
    requires OwnWait(ms, acts, t, b, n) && acts[n].GiveUp?
    ensures History(ms, acts, t, b, n + 1)
  {
    assert b < n < n + 1 && (Interrupted(acts[n], t) || Overdue(acts[n], t));
  }

  lemma HistoryClean(ms: seq<Machine>, acts: seq<Action>, t: nat, b: nat, n: nat)
    requires OwnWait(ms, acts, t, b, n) && (acts[n].CleanStart? || acts[n].CleanFinish?)
    ensures History(ms, acts, t, b, n + 1)
  {
    assert ThreadOk(ms[n], t);
    WhyLater(ms, acts, t, b, n, ms[n].threads[t].pc.ret);
  }

  lemma HistoryOwn(ms: seq<Machine>, acts: seq<Action>, t: nat, b: nat, n: nat)
    requires OwnWait(ms, acts, t, b, n)
    ensures History(ms, acts, t, b, n + 1)
  {
    var act := acts[n];
    if Load(act, t) {
      HistoryLoad(ms, acts, t, b, n);
    } else if act.Sleep? {
      HistorySleep(ms, acts, t, b, n);
    } else if act.Resume? {
      HistoryResume(ms, acts, t, b, n);
    } else if act.GiveUp? {
      HistoryGiveUp(ms, acts, t, b, n);
    } else if act.CleanStart? || act.CleanFinish? {
      HistoryClean(ms, acts, t, b, n);
    } else {
      SleptLater(acts, t, b, n);
    }
  }

  lemma BeganBefore(ms: seq<Machine>, acts: seq<Action>, t: nat, b: nat, n: nat)
    requires Began(ms, acts, t, b, n + 1) && b < n
    ensures Began(ms, acts, t, b, n)
  {
  }

  lemma OwnIsWait(m: Machine, act: Action, m': Machine, t: nat)
    requires Inv(m) && OwnStep(m, act, m', t) && |m'.threads| == |m.threads| && Waiting(m'.threads[t].pc)
    ensures WaitStep(m, t, act, m')
  {
    if WakeStep(m, t, act, m') {
      WakeIsNoWait(m, t, act, m');
    }
  }

  lemma HistoryNext(ms: seq<Machine>, acts: seq<Action>, t: nat, b: nat, n: nat)
    requires IsRun(ms, acts) && b < n && Began(ms, acts, t, b, n + 1)
    requires Began(ms, acts, t, b, n) && History(ms, acts, t, b, n)
    ensures History(ms, acts, t, b, n + 1)
  {
    if OwnStep(ms[n], acts[n], ms[n + 1], t) {
      RunStep(ms, acts, n, t);
      OwnIsWait(ms[n], acts[n], ms[n + 1], t);
      HistoryOwn(ms, acts, t, b, n);
    } else {
      HistoryOthers(ms, acts, t, b, n);
    }
  }

  /** In every run, the state of a wait tells what has happened in it. */
  lemma {:induction false} HistoryHolds(ms: seq<Machine>, acts: seq<Action>, t: nat, b: nat, n: nat)
    requires IsRun(ms, acts) && Began(ms, acts, t, b, n)
    ensures History(ms, acts, t, b, n)
    decreases n
  {
    if b + 1 == n {
      BeginHistory(ms, acts, t, b);
    } else {
      BeganBefore(ms, acts, t, b, n - 1);
      HistoryHolds(ms, acts, t, b, n - 1);
      HistoryNext(ms, acts, t, b, n - 1);
    }
  }

  lemma BeginHistory(ms: seq<Machine>, acts: seq<Action>, t: nat, b: nat)
    requires IsRun(ms, acts) && Began(ms, acts, t, b, b + 1)
    ensures History(ms, acts, t, b, b + 1)
  {
    RunStep(ms, acts, b, t);
    if OwnStep(ms[b], acts[b], ms[b + 1], t) && WaitStep(ms[b], t, acts[b], ms[b + 1]) {
      WaitBegins(ms[b], t, acts[b], ms[b + 1]);
    }
  }

  // ----- what a wait returns -------------------------------------------------------------------

  /** Step `n` ends the wait of thread `t`. */
  ghost predicate Returns(ms: seq<Machine>, acts: seq<Action>, t: nat, n: nat) {
    && |ms| == |acts| + 1 && n < |acts| && t < |ms[n].threads| == |ms[n + 1].threads|
    && Waiting(ms[n].threads[t].pc) && ms[n + 1].threads[t].pc.User?
  }

  /** The three ways a wait ends. */
  ghost predicate Ended(th: Thread, th': Thread) {
    && th'.key == 0
    && match th.pc
       case Cleaning(_, ret) => th'.last == ret
       case Removing(_, ret, _) => th'.last == ret
       case Parked(_) => th.key == 0 && th'.last == if th.expired then Etimedout else Success
       case _ => false
  }

  lemma ReturnStep(m: Machine, act: Action, m': Machine, t: nat)
    requires Inv(m) && Step(m, act, m') && t < |m.threads| == |m'.threads|
    requires Waiting(m.threads[t].pc) && m'.threads[t].pc.User?
    ensures Ended(m.threads[t], m'.threads[t])
  {
    if !OwnStep(m, act, m', t) {
      OwnOrSame(m, act, m', t);
    }
    assert ThreadOk(m, t);
  }

  /** In every run, whatever a wait returns has its reason in that wait. EAGAIN: a load saw another value, and
      the thread did not sleep. EFAULT: a load found no page. Zero: the thread slept, and then a wake took it
      off its key, or a load saw another value. EINTR: a signal was pending. ETIMEDOUT: the wait has a
      deadline, and it passed. A thread that has returned is registered nowhere. */
  lemma WaitReturns(ms: seq<Machine>, acts: seq<Action>, n: nat, t: nat) returns (b: nat)
    requires IsRun(ms, acts) && Returns(ms, acts, t, n)
    ensures Began(ms, acts, t, b, n) && Why(ms, acts, t, b, n, ms[n + 1].threads[t].last)
    ensures ms[n + 1].threads[t].key == 0
  {
    b := WaitBegan(ms, acts, n, t);
    HistoryHolds(ms, acts, t, b, n);
    ReturnAt(ms, acts, n, t);
    if ms[n].threads[t].pc.Parked? {
      ParkedWhy(ms, acts, t, b, n, ms[n].threads[t]);
    }
  }

  lemma ReturnAt(ms: seq<Machine>, acts: seq<Action>, n: nat, t: nat)
    requires IsRun(ms, acts) && Returns(ms, acts, t, n)
    ensures Ended(ms[n].threads[t], ms[n + 1].threads[t])
  {
    RunStep(ms, acts, n, t);
    ReturnStep(ms[n], acts[n], ms[n + 1], t);
  }

  lemma ParkedWhy(ms: seq<Machine>, acts: seq<Action>, t: nat, b: nat, n: nat, th: Thread)
    requires IsRun(ms, acts) && Began(ms, acts, t, b, n) && Sleeps(ms, acts, t, b, n, th) && th.key == 0
    ensures Why(ms, acts, t, b, n, if th.expired then Etimedout else Success)
  {
    var s :| b < s < n && SleepsSince(ms, acts, t, s, n, th);
    if th.expired {
      ExpiredTimed(ms, acts, t, b, s, n);
    } else {
      assert b < s < n && acts[s] == Sleep(t) && Woke(ms, acts, t, s, n);
    }
  }

  lemma ExpiredTimed(ms: seq<Machine>, acts: seq<Action>, t: nat, b: nat, s: nat, n: nat)
    requires IsRun(ms, acts) && Began(ms, acts, t, b, n) && b < s < n && Expired(acts, t, s, n)
    ensures Why(ms, acts, t, b, n, Etimedout)
  {
    var j :| s < j < n && acts[j] == Expire(t);
    assert StepAt(ms, acts, j);
    assert ms[j].threads[t].timed && Overdue(acts[j], t);
  }

  /** A thread that a wake took off its key returns zero when it next runs, if no signal is pending. */
  lemma WokenReturns(m: Machine, t: nat, early: bool, m': Machine)
    requires Inv(m) && Step(m, Resume(t, false, early), m') && m.threads[t].key == 0 && !m.threads[t].expired
    ensures |m'.threads| == |m.threads| && m'.threads[t].pc == User && m'.threads[t].last == Success
    ensures m'.threads[t].key == 0
  {
  }

  // ----- when a wait sleeps --------------------------------------------------------------------

  ghost predicate NoLoad(acts: seq<Action>, t: nat, i: nat, n: nat) {
    forall j {:trigger acts[j]} :: i < j < n && j < |acts| ==> !Load(acts[j], t)
  }

  /** Between the loads, the wait is on the way to the bucket of the key the first load found. */
  lemma {:induction false} OnTheWay(ms: seq<Machine>, acts: seq<Action>, t: nat, i: nat, n: nat)
    requires IsRun(ms, acts) && i < n <= |acts| && t < |ms[n].threads| && acts[i] == FirstLoad(t)
             && NoLoad(acts, t, i, n)
    ensures t < |ms[i].threads| == |ms[i].resolve| && Shaped(ms[i]) && ms[i].threads[t].pc.Retry?
    ensures var (pc, pc', k) := (ms[i].threads[t].pc, ms[n].threads[t].pc, ms[i].resolve[t]);
      k != 0 && Value(ms[i], k) == pc.val ==>
        (pc'.Wanting? || pc'.Holding?) && pc'.val == pc.val && pc'.b == ms[i].bucketOf(k)
            && ms[n].bucketOf == ms[i].bucketOf
    decreases n
  {
    RunStep(ms, acts, n - 1, t);
    if i < n - 1 {
      OnTheWay(ms, acts, t, i, n - 1);
    }
    WayStep(ms[n - 1], acts[n - 1], ms[n], t);
  }

  lemma WayStep(m: Machine, act: Action, m': Machine, t: nat)
    requires Inv(m) && Step(m, act, m') && t < |m.threads| == |m'.threads|
    ensures m'.bucketOf == m.bucketOf
    ensures var (pc, pc') := (m.threads[t].pc, m'.threads[t].pc);
      && ((pc.Wanting? || pc.Holding?) && !Load(act, t) ==>
            (pc'.Wanting? || pc'.Holding?) && pc'.val == pc.val && pc'.b == pc.b)
      && (act == FirstLoad(t) ==> pc.Retry?)
      && (act == FirstLoad(t) && m.resolve[t] != 0 && Value(m, m.resolve[t]) == pc.val ==>
            pc'.Wanting? && pc'.val == pc.val && pc'.b == m.bucketOf(m.resolve[t]))
  {
    if !OwnStep(m, act, m', t) {
      OwnOrSame(m, act, m', t);
    }
    BucketsStay(m, act, m');
  }

  lemma BucketsStay(m: Machine, act: Action, m': Machine)
    requires Inv(m) && Step(m, act, m')
    ensures m'.bucketOf == m.bucketOf
  {
    if CanRun(m, act) {
      if WaitStep(m, act.t, act, m') {
        WaitMoves(m, act.t, act, m');
      } else if act.ScanOne? {
        ExamineMoves(m, act.t);
      } else {
        WakeMoves(m, act.t, act, m');
      }
    }
  }

  /** In every run, a wait whose two loads find the same key with the value it expects commits to that key; and
      it commits only to a key that the second load found with that value. */
  lemma LoadsCommit(ms: seq<Machine>, acts: seq<Action>, t: nat, i: nat, n: nat, k: nat)
    requires IsRun(ms, acts) && i < n < |acts| && t < |ms[n].threads|
    requires acts[i] == FirstLoad(t) && acts[n] == SecondLoad(t) && NoLoad(acts, t, i, n)
    ensures t < |ms[i].threads| == |ms[i].resolve| && t < |ms[n].resolve|
    ensures ms[i].threads[t].pc.Retry? && ms[n].threads[t].pc.Holding?
    ensures var val := ms[i].threads[t].pc.val;
      k != 0 && ms[i].resolve[t] == ms[n].resolve[t] == k && Value(ms[i], k) == Value(ms[n], k) == val ==>
        Committed(ms[n + 1], t, k) && ms[n + 1].threads[t].pc.Compared?
    ensures Committed(ms[n + 1], t, k) ==> ms[n].resolve[t] == k && Value(ms[n], k) == ms[n].threads[t].pc.val
  {
    OnTheWay(ms, acts, t, i, n);
    RunKeepsInv(ms, acts, n);
    assert StepAt(ms, acts, n);
    CompareStep(ms[n], ms[n + 1], t, k);
  }

  lemma CompareStep(m: Machine, m': Machine, t: nat, k: nat)
    requires Inv(m) && Step(m, SecondLoad(t), m')
    ensures |m'.threads| == |m.threads| && m.threads[t].pc.Holding?
    ensures var (pc, pc') := (m.threads[t].pc, m'.threads[t].pc);
      && (k == m.resolve[t] != 0 && Value(m, k) == pc.val && m.bucketOf(k) == pc.b ==> pc' == Compared(pc.val, pc.b, k))
      && (Committed(m', t, k) ==> m.resolve[t] == k && Value(m, k) == pc.val)
  {
    assert ThreadOk(m, t);
  }

  /** And it sleeps on that key. */
  lemma {:induction false} CommittedSleeps(ms: seq<Machine>, acts: seq<Action>, t: nat, n: nat, s: nat, k: nat)
    requires IsRun(ms, acts) && n <= s < |acts| && t < |ms[s].threads|
    requires t < |ms[n].threads| && ms[n].threads[t].pc.Compared? && ms[n].threads[t].pc.k == k
    requires acts[s] == Sleep(t) && forall j {:trigger acts[j]} :: n <= j < s ==> acts[j] != Sleep(t)
    ensures Asleep(ms[s + 1], t, k)
  {
    CommitmentHolds(ms, acts, t, n, s, k);
    RunKeepsInv(ms, acts, s);
    assert StepAt(ms, acts, s);
    assert ThreadOk(ms[s], t);
  }

  lemma {:induction false} CommitmentHolds(ms: seq<Machine>, acts: seq<Action>, t: nat, n: nat, s: nat, k: nat)
    requires IsRun(ms, acts) && n <= s <= |acts| && t < |ms[s].threads|
    requires t < |ms[n].threads| && ms[n].threads[t].pc.Compared? && ms[n].threads[t].pc.k == k
    requires forall j {:trigger acts[j]} :: n <= j < s ==> acts[j] != Sleep(t)
    ensures (ms[s].threads[t].pc.Compared? || ms[s].threads[t].pc.Published?) && ms[s].threads[t].pc.k == k
    decreases s
  {
    if n < s {
      RunStep(ms, acts, s - 1, t);
      CommitmentHolds(ms, acts, t, n, s - 1, k);
      PublishStep(ms[s - 1], acts[s - 1], ms[s], t);
    }
  }

  lemma PublishStep(m: Machine, act: Action, m': Machine, t: nat)
    requires Inv(m) && Step(m, act, m') && t < |m.threads| == |m'.threads| && act != Sleep(t)
    requires m.threads[t].pc.Compared? || m.threads[t].pc.Published?
    ensures (m'.threads[t].pc.Compared? || m'.threads[t].pc.Published?) && m'.threads[t].pc.k == m.threads[t].pc.k
  {
    if !OwnStep(m, act, m', t) {
      OwnOrSame(m, act, m', t);
    }
  }

  // ----- what a wake does ----------------------------------------------------------------------

  /** The step by which a wake gets the last bucket it needs. */
  ghost predicate LastBucket(m: Machine, act: Action, t: nat)
    requires Shaped(m) && t < |m.threads|
  {
    || (act == TakeSecond(t) && m.threads[t].pc.WakeSecond?)
    || (act == TakeFirst(t) && m.threads[t].pc.WakeFirst?
        && Low(m.bucketOf, m.threads[t].pc.op) == High(m.bucketOf, m.threads[t].pc.op))
  }

  /** With its buckets locked, a wake goes on to scan if and only if no value is asked for or the word has it.
      Otherwise it returns with no bucket locked and no waiter touched. */
  lemma RequeueChecked(m: Machine, act: Action, m': Machine, t: nat)
    requires Inv(m) && t < |m.threads| && LastBucket(m, act, t) && Step(m, act, m')
    ensures |m'.threads| == |m.threads|
    ensures var (op, pc') := (m.threads[t].pc.op, m'.threads[t].pc);
      && (pc'.Scanning? <==> (op.wanted.Some? ==> Value(m, op.k) == op.wanted.value))
      && (pc'.Scanning? ==>
            && pc'.op == op && pc'.c1 == pc'.c2 == 0
            && Owns(m', t, m.bucketOf(op.k)) && (op.k2 != 0 ==> Owns(m', t, m.bucketOf(op.k2))))
      && (!pc'.Scanning? ==> pc'.User? && m'.waiters == m.waiters && forall b :: !Owns(m', t, b))
    ensures forall x {:trigger m'.threads[x]} :: 0 <= x < |m.threads| && x != t ==> m'.threads[x] == m.threads[x]
  {
    OwnLocks(m, t);
    assert ThreadOk(m, t);
    WakeMoves(m, t, act, m');
    forall b ensures Holds(m.bucketOf, m'.threads[t].pc, b) <==> Owns(m', t, b) {
    }
  }

  /** What a scan does to the thread it examines, if that sleeps on its key: it wakes it while it may, then it
      moves it while it may, and otherwise leaves it. A thread on another key is left alone. */
  lemma ScanEffect(m: Machine, t: nat, m': Machine)
    requires Inv(m) && Step(m, ScanOne(t), m')
    ensures m.threads[t].pc.Scanning? && m.threads[t].pc.idx < |m.threads| == |m'.threads|
    ensures var pc := m.threads[t].pc; var (x, op) := (pc.idx, pc.op);
      && (Asleep(m, x, op.k) && pc.c1 < op.n ==> Woken(m, m', x, op.k))
      && (Asleep(m, x, op.k) && pc.c1 >= op.n && op.k2 != 0 && pc.c2 < op.n2 ==> Requeued(m, m', x, op.k, op.k2))
      && (Asleep(m, x, op.k) && pc.c1 >= op.n && !(op.k2 != 0 && pc.c2 < op.n2) ==> Asleep(m', x, op.k))
      && (x != t && m.threads[x].key != op.k ==> m'.threads[x] == m.threads[x])
  {
    var pc := m.threads[t].pc;
    CarryKeeps(m, pc.idx, pc.op, Judge(m, pc));
    assert ThreadOk(m, pc.idx) && ThreadOk(m, t);
  }

  // ----- nobody gets stuck ---------------------------------------------------------------------

  /** A running thread waits for a bucket that somebody holds. */
  ghost predicate ForBucket(m: Machine, t: nat)
    requires Shaped(m) && t < |m.threads|
  {
    match m.threads[t].pc
    case Wanting(_, _, b) => b in m.locks
    case Removing(_, _, k) => m.bucketOf(k) in m.locks
    case WakeFirst(op) => Low(m.bucketOf, op) in m.locks
    case WakeSecond(op) => High(m.bucketOf, op) in m.locks
    case _ => false
  }

  lemma WaitMovesOn(m: Machine, t: nat) returns (act: Action, m': Machine)
    requires Inv(m) && t < |m.threads| && m.threads[t].st.Running? && Waiting(m.threads[t].pc) && !ForBucket(m, t)
    ensures Step(m, act, m') && OwnStep(m, act, m', t)
  {
    assert ThreadOk(m, t);
    var pc, key, k := m.threads[t].pc, m.threads[t].key, m.resolve[t];
    match pc
    case Retry(val, slept) =>
      act := FirstLoad(t);
      m' := if k == 0 || Value(m, k) != val then At(m, t, Cleaning(val, LoadResult(m, t, slept)))
            else At(m, t, Wanting(val, slept, m.bucketOf(k)));
    case Wanting(val, slept, b) => act, m' := TakeBucket(t), At(Lock(m, b, t), t, Holding(val, slept, b));
    case Holding(val, slept, b) =>
      act := SecondLoad(t);
      m' := if k == 0 || Value(m, k) != val then At(Unlock(m, b), t, Cleaning(val, LoadResult(m, t, slept)))
            else if m.bucketOf(k) != b then At(Unlock(m, b), t, Retry(val, slept))
            else At(m, t, Compared(val, b, k));
    case Compared(val, b, c) =>
      act, m' := Publish(t), At(Enqueue(Stamped(m, t, false), t, b, c), t, Published(val, b, c));
    case Published(val, b, _) =>
      act := Sleep(t);
      m' := Unlock(m.(threads := m.threads[t := m.threads[t].(pc := Parked(val), st := Sleeping)]), b);
    case Parked(val) =>
      act := Resume(t, false, false);
      m' := if key != 0 then At(m, t, Retry(val, true))
            else Return(m, t, if m.threads[t].expired then Etimedout else Success);
    case Cleaning(val, ret) =>
      act, m' := CleanStart(t), if key == 0 then Return(m, t, ret) else At(m, t, Removing(val, ret, key));
    case Removing(val, ret, c) =>
      act, m' := CleanFinish(t), Return(Dequeue(m, t, m.bucketOf(c), true), t, ret);
  }

  lemma WakeMovesOn(m: Machine, t: nat) returns (act: Action, m': Machine)
    requires Inv(m) && t < |m.threads| && m.threads[t].st.Running? && !Waiting(m.threads[t].pc) && !ForBucket(m, t)
    ensures Step(m, act, m') && OwnStep(m, act, m', t)
  {
    assert ThreadOk(m, t);
    var pc := m.threads[t].pc;
    match pc
    case User => act, m' := BeginWait(t, 0, false), m.(threads := m.threads[t := m.threads[t].(pc := Retry(0, false),
        timed := false)]);
    case WakeFirst(op) =>
      act := TakeFirst(t);
      m' := if Low(m.bucketOf, op) < High(m.bucketOf, op) then At(Lock(m, Low(m.bucketOf, op), t), t, WakeSecond(op))
            else if Refused(m, op) then At(m, t, User)
            else ScanStart(Lock(m, Low(m.bucketOf, op), t), t, op);
    case WakeSecond(op) =>
      act := TakeSecond(t);
      m' := if Refused(m, op) then At(Unlock(m, Low(m.bucketOf, op)), t, User)
            else ScanStart(Lock(m, High(m.bucketOf, op), t), t, op);
    case Scanning(op, idx, _, _) =>
      if idx < |m.threads| && !Sated(pc) {
        act, m' := ScanOne(t), Examine(m, t);
      } else {
        act := ScanEnd(t);
        m' := At(Unlock(Unlock(m, Low(m.bucketOf, op)), High(m.bucketOf, op)), t, User);
      }
  }

  /** A running thread can always take its next step, unless it waits for a bucket; and if some bucket is
      locked, the holder of one can take its next step. */
  lemma SomebodyMoves(m: Machine, t: nat) returns (who: nat, act: Action, m': Machine)
    requires Inv(m) && t < |m.threads| && m.threads[t].st.Running?
    ensures who < |m.threads| && OwnStep(m, act, m', who) && Step(m, act, m')
    ensures ForBucket(m, t) || who == t
  {
    who := t;
    if ForBucket(m, t) {
      ghost var b;
      who, b := SomeHolderMoves(m);
      HolderRuns(m, who, b);
    }
    if Waiting(m.threads[who].pc) {
      act, m' := WaitMovesOn(m, who);
    } else {
      act, m' := WakeMovesOn(m, who);
    }
  }

  lemma HolderRuns(m: Machine, t: nat, b: nat)
    requires Inv(m) && t < |m.threads| && Owns(m, t, b) && !Blocked(m, t)
    ensures m.threads[t].st.Running? && !ForBucket(m, t)
  {
    assert ThreadOk(m, t);
    assert Holds(m.bucketOf, m.threads[t].pc, b) <==> Owns(m, t, b);
  }
}
