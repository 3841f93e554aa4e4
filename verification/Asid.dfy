/** User address-space identifiers: their allocator, and the machine it lives in, where CPUs cache
    translations tagged with identifiers and flush at different times. */
module Asid {
  const ASID_COUNT := 1024
  const FIRST_ASID := 1

  // ----- the allocator's state -----------------------------------------------------------------

  datatype Asids = Asids(active: seq<bool>, retired: seq<bool>, epoch: seq<nat>, clock: nat, next: nat)

  ghost predicate Ok(s: Asids) {
    && |s.active| == |s.retired| == |s.epoch| == ASID_COUNT && FIRST_ASID <= s.next < ASID_COUNT
    && forall a {:trigger s.active[a]} :: 0 <= a < ASID_COUNT && s.active[a] ==> !s.retired[a]
  }

  predicate IsAsid(a: int) {
    FIRST_ASID <= a < ASID_COUNT
  }

  ghost predicate IsFree(s: Asids, a: int)
    requires Ok(s)
  {
    IsAsid(a) && !s.active[a] && !s.retired[a]
  }

  /** The identifier `offset` places after the cursor, in cyclic order. */
  function Slot(next: nat, offset: nat): (a: nat)
    requires IsAsid(next)
    ensures IsAsid(a)
  {
    FIRST_ASID + (next - FIRST_ASID + offset) % (ASID_COUNT - 1)
  }

  /** Every identifier is somewhere on the cycle. */
  lemma SlotReaches(next: nat, a: nat) returns (offset: nat)
    requires IsAsid(next) && IsAsid(a)
    ensures offset < ASID_COUNT - 1 && Slot(next, offset) == a
  {
    offset := if next <= a then a - next else a - next + ASID_COUNT - 1;
  }

  /** `a` is the first free identifier from the cursor on. */
  ghost predicate FirstFree(s: Asids, a: nat)
    requires Ok(s)
  {
    exists k :: FreeAfter(s, k) && a == Slot(s.next, k)
  }

  ghost predicate FreeAfter(s: Asids, k: nat)
    requires Ok(s)
  {
    IsFree(s, Slot(s.next, k)) && forall j :: 0 <= j < k ==> !IsFree(s, Slot(s.next, j))
  }

  ghost function Taken(s: Asids, a: nat): Asids
    requires Ok(s) && IsAsid(a)
  {
    s.(active := s.active[a := true], next := if a + 1 < ASID_COUNT then a + 1 else FIRST_ASID)
  }

  ghost function Retired(s: Asids, a: nat): Asids
    requires Ok(s) && IsAsid(a)
  {
    s.(active := s.active[a := false], retired := s.retired[a := true],
       epoch := s.epoch[a := s.clock + 1], clock := s.clock + 1)
  }

  ghost predicate Reclaims(s: Asids, e: nat, a: int)
    requires Ok(s)
  {
    IsAsid(a) && !s.active[a] && s.retired[a] && s.epoch[a] <= e
  }

  /** Retired identifiers whose epoch is old enough become free; nothing else changes. */
  ghost predicate Reclaimed(s: Asids, s': Asids, e: nat, upTo: nat)
    requires Ok(s)
  {
    && s' == s.(retired := s'.retired, epoch := s'.epoch) && |s'.retired| == |s'.epoch| == ASID_COUNT
    && forall a {:trigger s'.retired[a]} :: 0 <= a < ASID_COUNT ==>
         if a < upTo && Reclaims(s, e, a) then !s'.retired[a] && s'.epoch[a] == 0
         else s'.retired[a] == s.retired[a] && s'.epoch[a] == s.epoch[a]
  }

  // ----- the allocator -------------------------------------------------------------------------

  class UserAsids {
    const active: array<bool>
    const retired: array<bool>
    const epoch: array<nat>
    var clock: nat
    var next: nat

    ghost function State(): Asids
      reads this, active, retired, epoch
    {
      Asids(active[..], retired[..], epoch[..], clock, next)
    }

    ghost predicate Valid()
      reads this, active, retired, epoch
    {
      active != retired && active.Length == retired.Length == epoch.Length == ASID_COUNT && Ok(State())
    }

    constructor ()
      ensures Valid() && clock == 0 && next == FIRST_ASID
      ensures forall a :: IsAsid(a) ==> IsFree(State(), a)
    {
      active := new bool[ASID_COUNT](_ => false);
      retired := new bool[ASID_COUNT](_ => false);
      epoch := new nat[ASID_COUNT](_ => 0);
      clock, next := 0, FIRST_ASID;
    }

    /** One locked scan of `allocate_user_asid`: takes the first free identifier, or finds none. */
    method TryAllocate() returns (asid: nat)
      requires Valid()
      modifies this`next, active
      ensures Valid()
      ensures asid != 0 ==> FirstFree(old(State()), asid) && State() == Taken(old(State()), asid)
      ensures asid != 0 ==> 1 <= asid <= 1023 && active[asid] && next == if asid == 1023 then 1 else asid + 1
      ensures asid == 0 ==> State() == old(State()) && forall a :: IsAsid(a) ==> !IsFree(State(), a)
    {
      ghost var s := State();
      for offset := 0 to ASID_COUNT - 1
        invariant State() == s && forall j :: 0 <= j < offset ==> !IsFree(s, Slot(s.next, j))
      {
        asid := Slot(next, offset);
        if !active[asid] && !retired[asid] {
          assert FreeAfter(s, offset);
          active[asid] := true;
          next := if asid + 1 < ASID_COUNT then asid + 1 else FIRST_ASID;
          return;
        }
      }
      forall a | IsAsid(a) ensures !IsFree(s, a) {
        var k := SlotReaches(s.next, a);
      }
      asid := 0;
    }

    /** The locked loop after the flush. */
    method FinishReclaim(e: nat)
      requires Valid()
      modifies retired, epoch
      ensures Valid() && Reclaimed(old(State()), State(), e, ASID_COUNT)
    {
      ghost var s := State();
      for asid := FIRST_ASID to ASID_COUNT
        invariant Valid() && Reclaimed(s, State(), e, asid)
      {
        if !active[asid] && retired[asid] && epoch[asid] <= e {
          retired[asid] := false;
          epoch[asid] := 0;
        }
      }
    }

    method Retire(asid: nat)
      requires Valid()
      modifies this`clock, active, retired, epoch
      ensures Valid() && State() == if 1 <= asid <= 1023 then Retired(old(State()), asid) else old(State())
      ensures 1 <= asid <= 1023 ==> !active[asid] && retired[asid] && epoch[asid] == clock == old(clock) + 1
    {
      if asid < FIRST_ASID || asid >= ASID_COUNT {
        return;
      }
      active[asid] := false;
      retired[asid] := true;
      clock := clock + 1;
      epoch[asid] := clock;
    }
  }

  // ----- the machine ---------------------------------------------------------------------------

  type Space = nat

  /** A cached translation: the identifier it is tagged with and the space that created it. */
  datatype Entry = Entry(asid: nat, space: Space)

  datatype Phase = Idle | Flushing(epoch: nat, flushed: set<nat>)

  /** `holders` are the live address spaces by identifier; a CPU runs an identifier or 0. */
  datatype Machine = Machine(asids: Asids, phase: Phase, tlbs: seq<set<Entry>>, running: seq<nat>,
                             holders: map<nat, Space>)

  datatype Action =
    | Allocate(space: Space, asid: nat)
    | Retire(asid: nat)
    | StartReclaim
    | Flush(cpu: nat)
    | Finish
    | Switch(cpu: nat, asid: nat)
    | Fill(cpu: nat)
    | Evict(cpu: nat, entry: Entry)

  ghost predicate Shaped(m: Machine) {
    Ok(m.asids) && |m.tlbs| == |m.running|
  }

  ghost predicate NoneFree(s: Asids)
    requires Ok(s)
  {
    forall a :: IsAsid(a) ==> !IsFree(s, a)
  }

  ghost predicate Step(m: Machine, act: Action, m': Machine)
    requires Shaped(m)
  {
    match act
    case Allocate(space, a) =>
      FirstFree(m.asids, a) && m' == m.(asids := Taken(m.asids, a), holders := m.holders[a := space])
    case Retire(a) =>
      && a in m.holders && IsAsid(a) && a !in m.running
      && m' == m.(asids := Retired(m.asids, a), holders := m.holders - {a})
    case StartReclaim =>
      m.phase.Idle? && NoneFree(m.asids) && m' == m.(phase := Flushing(m.asids.clock, {}))
    case Flush(cpu) =>
      && cpu < |m.tlbs|
      && m' == m.(tlbs := m.tlbs[cpu := {}],
                  phase := if m.phase.Idle? then Idle else m.phase.(flushed := m.phase.flushed + {cpu}))
    case Finish =>
      && m.phase.Flushing? && (forall cpu: nat :: cpu < |m.tlbs| ==> cpu in m.phase.flushed)
      && Reclaimed(m.asids, m'.asids, m.phase.epoch, ASID_COUNT) && m' == m.(asids := m'.asids, phase := Idle)
    case Switch(cpu, a) =>
      cpu < |m.running| && (a == 0 || a in m.holders) && m' == m.(running := m.running[cpu := a])
    case Fill(cpu) =>
      && cpu < |m.running| && m.running[cpu] in m.holders
      && m' == m.(tlbs := m.tlbs[cpu := m.tlbs[cpu] + {Entry(m.running[cpu], m.holders[m.running[cpu]])}])
    case Evict(cpu, e) =>
      cpu < |m.tlbs| && m' == m.(tlbs := m.tlbs[cpu := m.tlbs[cpu] - {e}])
  }

  // ----- invariants ----------------------------------------------------------------------------

  ghost predicate Cached(m: Machine, cpu: nat, e: Entry) {
    cpu < |m.tlbs| && e in m.tlbs[cpu]
  }

  /** A cached entry belongs to the space that holds its identifier, or the identifier is retired;
      and not if the flush in progress has already passed this CPU. */
  ghost predicate EntryOk(m: Machine, cpu: nat, e: Entry)
    requires Ok(m.asids)
  {
    && IsAsid(e.asid)
    && (if e.asid in m.holders then m.holders[e.asid] == e.space else m.asids.retired[e.asid])
    && (m.phase.Flushing? && cpu in m.phase.flushed && m.asids.retired[e.asid] ==>
         m.asids.epoch[e.asid] > m.phase.epoch)
  }

  ghost predicate Inv(m: Machine) {
    && Shaped(m)
    && (forall a :: a in m.holders <==> IsAsid(a) && m.asids.active[a])
    && (forall cpu {:trigger m.running[cpu]} :: 0 <= cpu < |m.running| ==>
         m.running[cpu] == 0 || m.running[cpu] in m.holders)
    && (m.phase.Flushing? ==> m.phase.epoch <= m.asids.clock)
    && (forall a {:trigger m.asids.epoch[a]} :: 0 <= a < ASID_COUNT ==> m.asids.epoch[a] <= m.asids.clock)
    && (forall cpu, e {:trigger Cached(m, cpu, e)} :: Cached(m, cpu, e) ==> EntryOk(m, cpu, e))
  }

  lemma StepKeepsEntry(m: Machine, act: Action, m': Machine, cpu: nat, e: Entry)
    requires Inv(m) && Step(m, act, m') && Ok(m'.asids) && Cached(m', cpu, e)
    ensures EntryOk(m', cpu, e)
  {
    if Cached(m, cpu, e) {
      assert EntryOk(m, cpu, e);
      if act.Finish? {
        assert m'.asids.retired[e.asid] || Reclaims(m.asids, m.phase.epoch, e.asid) || e.asid in m.holders;
      }
    } else {
      assert act.Fill? && cpu == act.cpu;
    }
  }

  lemma StepKeepsInv(m: Machine, act: Action, m': Machine)
    requires Inv(m) && Step(m, act, m')
    ensures Inv(m')
  {
    assert Ok(m'.asids);
    forall a | 0 <= a < ASID_COUNT ensures m'.asids.epoch[a] <= m'.asids.clock {
      assert m.asids.epoch[a] <= m.asids.clock;
      assert act.Finish? && m'.asids.retired[a] ==> m.asids.retired[a];
    }
    forall cpu, e | Cached(m', cpu, e) ensures EntryOk(m', cpu, e) {
      StepKeepsEntry(m, act, m', cpu, e);
    }
  }

  /** Nobody else holds a free identifier, and no CPU has an entry tagged with it. */
  lemma FreeIsClean(m: Machine, a: nat)
    requires Inv(m) && IsFree(m.asids, a)
    ensures a !in m.holders && a !in m.running
    ensures forall cpu, e {:trigger Cached(m, cpu, e)} :: Cached(m, cpu, e) ==> e.asid != a
  {
  }

  // ----- runs ----------------------------------------------------------------------------------

  /** After boot: everything free and every TLB empty of user entries. */
  ghost predicate Init(m: Machine) {
    && Shaped(m) && m.phase == Idle && m.holders == map[]
    && (forall a {:trigger m.asids.active[a]} :: 0 <= a < ASID_COUNT ==> !m.asids.active[a])
    && (forall a {:trigger m.asids.epoch[a]} :: 0 <= a < ASID_COUNT ==> m.asids.epoch[a] == 0)
    && (forall cpu {:trigger m.tlbs[cpu]} :: 0 <= cpu < |m.tlbs| ==> m.tlbs[cpu] == {} && m.running[cpu] == 0)
  }

  ghost predicate IsRun(ms: seq<Machine>, acts: seq<Action>) {
    && |ms| == |acts| + 1 && Init(ms[0])
    && forall i {:trigger acts[i]} :: 0 <= i < |acts| ==> Shaped(ms[i]) && Step(ms[i], acts[i], ms[i + 1])
  }

  lemma {:induction false} RunKeepsInv(ms: seq<Machine>, acts: seq<Action>, n: nat)
    requires IsRun(ms, acts) && n <= |acts|
    ensures Inv(ms[n])
  {
    if n > 0 {
      RunKeepsInv(ms, acts, n - 1);
      assert Step(ms[n - 1], acts[n - 1], ms[n]);
      StepKeepsInv(ms[n - 1], acts[n - 1], ms[n]);
    } else {
      assert forall cpu: nat, e :: !Cached(ms[0], cpu, e);
      forall cpu | 0 <= cpu < |ms[0].running| ensures ms[0].running[cpu] == 0 {
        assert ms[0].tlbs[cpu] == {};
      }
    }
  }

  /** In every run, an identifier handed out is held by no other live space and no CPU has an entry
      tagged with it. */
  lemma HandedOutClean(ms: seq<Machine>, acts: seq<Action>, n: nat)
    requires IsRun(ms, acts) && n < |acts| && acts[n].Allocate?
    ensures acts[n].asid !in ms[n].holders && acts[n].asid !in ms[n].running
    ensures forall cpu, e {:trigger Cached(ms[n], cpu, e)} :: Cached(ms[n], cpu, e) ==> e.asid != acts[n].asid
  {
    RunKeepsInv(ms, acts, n);
    assert Step(ms[n], acts[n], ms[n + 1]);
    FreeIsClean(ms[n], acts[n].asid);
  }

  /** In every run, a CPU that runs a space can only hit translations that space created. */
  lemma HitsOwnEntries(ms: seq<Machine>, acts: seq<Action>, n: nat, cpu: nat, e: Entry)
    requires IsRun(ms, acts) && n <= |acts| && Cached(ms[n], cpu, e)
    requires cpu < |ms[n].running| && e.asid == ms[n].running[cpu]
    ensures e.asid in ms[n].holders && e.space == ms[n].holders[e.asid]
  {
    RunKeepsInv(ms, acts, n);
    assert EntryOk(ms[n], cpu, e);
    assert ms[n].running[cpu] in ms[n].holders;
  }

  /** A flush that began while `a` was retired frees it: between the start and the end it stays
      retired with an epoch the flush covers, and the end makes it free. */
  lemma {:induction false} ReclaimFrees(ms: seq<Machine>, acts: seq<Action>, i: nat, j: nat, a: nat)
    requires IsRun(ms, acts) && i < j < |acts| && acts[i].StartReclaim? && acts[j].Finish?
    requires forall k {:trigger acts[k]} :: i < k < j ==> !acts[k].Finish?
    requires IsAsid(a) && Shaped(ms[i]) && ms[i].asids.retired[a]
    ensures Shaped(ms[j + 1]) && IsFree(ms[j + 1].asids, a)
  {
    StaysCovered(ms, acts, i, j, a);
    RunKeepsInv(ms, acts, j + 1);
    assert Step(ms[j], acts[j], ms[j + 1]);
    assert Reclaims(ms[j].asids, ms[j].phase.epoch, a);
    assert !ms[j + 1].asids.retired[a];
  }

  ghost predicate Covered(m: Machine, a: nat) {
    Shaped(m) && IsAsid(a) && m.phase.Flushing? && m.asids.retired[a] && m.asids.epoch[a] <= m.phase.epoch
  }

  lemma {:induction false} StaysCovered(ms: seq<Machine>, acts: seq<Action>, i: nat, j: nat, a: nat)
    requires IsRun(ms, acts) && i < j <= |acts| && acts[i].StartReclaim?
    requires forall k {:trigger acts[k]} :: i < k < j ==> !acts[k].Finish?
    requires IsAsid(a) && Shaped(ms[i]) && ms[i].asids.retired[a]
    ensures Covered(ms[j], a)
    decreases j
  {
    RunKeepsInv(ms, acts, j - 1);
    RunKeepsInv(ms, acts, j);
    assert Step(ms[j - 1], acts[j - 1], ms[j]);
    if i < j - 1 {
      StaysCovered(ms, acts, i, j - 1, a);
    }
  }

  // ----- an allocation never gets stuck --------------------------------------------------------

  lemma {:induction false} LeastFree(s: Asids, k: nat) returns (j: nat)
    requires Ok(s) && IsFree(s, Slot(s.next, k))
    ensures j <= k && FreeAfter(s, j)
  {
    if i: nat :| i < k && IsFree(s, Slot(s.next, i)) {
      j := LeastFree(s, i);
    } else {
      j := k;
    }
  }

  /** Whatever the state, the next step of an allocation can be taken: the first free identifier while there is
      one, and else the start of a flush, the flush of one more CPU, or the end of the flush. */
  lemma AllocationMoves(m: Machine, space: Space) returns (act: Action, m': Machine)
    requires Inv(m)
    ensures Step(m, act, m')
    ensures !NoneFree(m.asids) ==> act.Allocate? && act.space == space
    ensures NoneFree(m.asids) && m.phase.Idle? ==> act.StartReclaim?
    ensures NoneFree(m.asids) && m.phase.Flushing? ==>
              act.Finish? || (act.Flush? && act.cpu !in m.phase.flushed && act.cpu in m'.phase.flushed)
  {
    if !NoneFree(m.asids) {
      var a :| IsAsid(a) && IsFree(m.asids, a);
      var k := SlotReaches(m.asids.next, a);
      var j := LeastFree(m.asids, k);
      var b := Slot(m.asids.next, j);
      act := Allocate(space, b);
      m' := m.(asids := Taken(m.asids, b), holders := m.holders[b := space]);
    } else if m.phase.Idle? {
      act, m' := StartReclaim, m.(phase := Flushing(m.asids.clock, {}));
    } else if cpu: nat :| cpu < |m.tlbs| && cpu !in m.phase.flushed {
      act := Flush(cpu);
      m' := m.(tlbs := m.tlbs[cpu := {}], phase := m.phase.(flushed := m.phase.flushed + {cpu}));
    } else {
      act := Finish;
      var asids := Swept(m.asids, m.phase.epoch);
      m' := m.(asids := asids, phase := Idle);
    }
  }

  ghost function Swept(s: Asids, e: nat): (s': Asids)
    requires Ok(s)
    ensures Reclaimed(s, s', e, ASID_COUNT)
  {
    s.(retired := seq(ASID_COUNT, a requires 0 <= a < ASID_COUNT => s.retired[a] && !Reclaims(s, e, a)),
       epoch := seq(ASID_COUNT, a requires 0 <= a < ASID_COUNT => if Reclaims(s, e, a) then 0 else s.epoch[a]))
  }
}
