/** The page-table operations themselves: resolving a write fault, mapping, unmapping, the batched copy
    of a range at fork with its roll-back, and the teardown of the tables. */
module AddressSpaces {
  import opened Frames
  import opened Cow
  import opened ForkSteps
  import opened PageCounts
  import opened Teardown
  import BuddyTree
  import PhysicalMemory

  const COW_RETAIN_BATCH_PAGES := 32
  const UNMAP_BATCH_PAGES := 256

  /** Decisions of the world outside, by page number: the frames the allocator offers for a copy and for the
      two interior tables. */
  datatype World = World(pick: nat -> int, upper: nat -> int, lower: nat -> int)

  datatype Candidate = Candidate(page: nat, pte: Pte)

  ghost predicate Lists(cands: seq<Candidate>, p: nat) {
    exists i :: 0 <= i < |cands| && cands[i].page == p
  }

  /** The candidates are the mapped pages of a range, in order. */
  ghost predicate Listed(cands: seq<Candidate>, ptes: map<Addr, Pte>, space: nat, lo: nat, hi: nat) {
    && (forall i {:trigger cands[i]} :: 0 <= i < |cands| ==>
          lo <= cands[i].page < hi && Addr(space, cands[i].page) in ptes
              && ptes[Addr(space, cands[i].page)] == cands[i].pte)
    && (forall i, j :: 0 <= i < j < |cands| ==> cands[i].page < cands[j].page)
    && (forall p: nat :: lo <= p < hi && Addr(space, p) in ptes ==> Lists(cands, p))
  }

  lemma ListedMore(cands: seq<Candidate>, ptes: map<Addr, Pte>, space: nat, lo: nat, hi: nat)
    requires Listed(cands, ptes, space, lo, hi) && lo <= hi
    ensures Addr(space, hi) !in ptes ==> Listed(cands, ptes, space, lo, hi + 1)
    ensures Addr(space, hi) in ptes ==> Listed(cands + [Candidate(hi, ptes[Addr(space, hi)])], ptes, space, lo, hi + 1)
  {
    if Addr(space, hi) in ptes {
      var more := cands + [Candidate(hi, ptes[Addr(space, hi)])];
      forall p: nat | lo <= p < hi + 1 && Addr(space, p) in ptes ensures Lists(more, p) {
        if p < hi {
          var i :| 0 <= i < |cands| && cands[i].page == p;
          assert more[i].page == p;
        } else {
          assert more[|cands|].page == p;
        }
      }
    }
  }

  /** The references a batch holds for its candidates `i` to `n`. */
  ghost function Held(cands: seq<Candidate>, mask: seq<bool>, i: nat, n: nat): multiset<Frame>
    requires n <= |mask| <= |cands|
  {
    if n <= i then multiset{} else Held(cands, mask, i, n - 1) + Mark(cands[n - 1], mask[n - 1])
  }

  ghost function Mark(c: Candidate, retained: bool): multiset<Frame> {
    if retained then multiset{c.pte.frame} else multiset{}
  }

  lemma {:induction false} HeldFront(cands: seq<Candidate>, mask: seq<bool>, i: nat, n: nat)
    requires i < n <= |mask| <= |cands|
    ensures Held(cands, mask, i, n) == Held(cands, mask, i + 1, n) + Mark(cands[i], mask[i])
    decreases n
  {
    if i + 1 < n {
      HeldFront(cands, mask, i, n - 1);
    }
  }

  lemma {:induction false} HeldSame(cands: seq<Candidate>, mask: seq<bool>, ok: bool, n: nat)
    requires n <= |mask| < |cands|
    ensures Held(cands, mask + [ok], 0, n) == Held(cands, mask, 0, n)
  {
    if n > 0 {
      HeldSame(cands, mask, ok, n - 1);
    }
  }

  lemma HeldMore(cands: seq<Candidate>, mask: seq<bool>, ok: bool)
    requires |mask| < |cands|
    ensures Held(cands, mask + [ok], 0, |mask| + 1) == Held(cands, mask, 0, |mask|) + Mark(cands[|mask|], ok)
  {
    HeldSame(cands, mask, ok, |mask|);
  }

  /** What is held from candidate `i` on. */
  ghost function Rest(cands: seq<Candidate>, mask: seq<bool>, i: nat): multiset<Frame>
    requires |mask| <= |cands|
  {
    Held(cands, mask, i, |mask|)
  }

  lemma RestStep(cands: seq<Candidate>, mask: seq<bool>, i: nat)
    requires i < |mask| <= |cands|
    ensures var (f, hand, rest) := (cands[i].pte.frame, Rest(cands, mask, i), Rest(cands, mask, i + 1));
      if mask[i] then f in hand && rest == hand - multiset{f} else rest == hand
  {
    HeldFront(cands, mask, i, |mask|);
  }

  lemma BatchStep(pending: seq<Frame>, hand: multiset<Frame>, i: nat)
    requires i < |pending|
    ensures pending[i] in hand + multiset(pending[i..]) && pending[..i + 1][..i] == pending[..i]
    ensures hand + multiset(pending[i..]) - multiset{pending[i]} == hand + multiset(pending[i + 1..])
  {
    assert pending[i..] == [pending[i]] + pending[i + 1..];
  }

  lemma {:induction false} ReleasedSize(v: VM, frames: seq<Frame>)
    ensures |ReleasedAll(v, frames).refs| == |v.refs|
  {
    if frames != [] {
      ReleasedSize(v, frames[..|frames| - 1]);
    }
  }

  lemma HandMore(hand: multiset<Frame>, kept: multiset<Frame>, more: multiset<Frame>)
    ensures hand + kept + more == hand + (kept + more) && hand + (kept + more) + multiset([]) == hand + (kept + more)
  {
  }

  /** The pages that an unmap passes over. */
  ghost function Spared(reserved: set<nat>, n: nat, free: bool): set<nat> {
    if n == 1 && !free then {} else reserved
  }

  /** Why page `p` cannot be copied in state `v`: a counted frame has no room for a reference or the child no
      room for the entry, or there is no free frame for a page without a count or for an interior
      table. */
  ghost predicate Stuck(v: VM, w: World, parent: nat, child: nat, p: nat) {
    var (a, c) := (Addr(parent, p), Addr(child, p));
    && a in v.ptes
    && if v.ptes[a].frame < |v.refs|
       then v.refs[v.ptes[a].frame] >= MAX_REFS || c in v.ptes || !CanWalk(v, c, w.upper(p), w.lower(p))
       else !CanMap(v, c, w.pick(p), w.upper(p), w.lower(p))
  }

  /** The candidates with a reference have counts, and the counts of those without allow none. */
  ghost predicate Spent(cands: seq<Candidate>, mask: seq<bool>, refs: seq<nat>) {
    forall i {:trigger mask[i]} :: 0 <= i < |mask| <= |cands| ==>
      if mask[i] then cands[i].pte.frame < |refs|
      else cands[i].pte.frame < |refs| ==> refs[cands[i].pte.frame] >= MAX_REFS
  }

  lemma SpentGrown(cands: seq<Candidate>, mask: seq<bool>, refs: seq<nat>, refs': seq<nat>)
    requires Spent(cands, mask, refs) && Grown(refs, refs')
    ensures Spent(cands, mask, refs')
  {
  }

  /** The next reference, taken if it can be. */
  lemma RetainNext(v0: VM, v: VM, other: seq<nat>, hand: multiset<Frame>, parent: nat, child: nat, lo: nat, mid: nat,
                   f: Frame)
    requires Tally(v, other, hand) && Forked(v0, v, parent, child, lo, mid) && !Free(v0, f)
    requires !IsTable(v, f) && f !in v.blocks
    ensures Tally(Retained(v, f), other, hand + if CanRetain(v, f) then multiset{f} else multiset{})
    ensures Forked(v0, Retained(v, f), parent, child, lo, mid) && |Retained(v, f).refs| == |v.refs|
  {
    ForkedRetain(v0, v, parent, child, lo, mid, f);
    if CanRetain(v, f) {
      RetainTally(v, other, hand, f);
    } else {
      assert hand + multiset{} == hand;
    }
  }

  lemma RetainStep(v0: VM, v: VM, other: seq<nat>, cands: seq<Candidate>, mask: seq<bool>, parent: nat, child: nat,
                   lo: nat,
                   mid: nat, hi: nat)
    requires |mask| < |cands| && Listed(cands, v.ptes, parent, mid, hi) && !Free(v0, cands[|mask|].pte.frame)
    requires Tally(v, other, Rest(cands, mask, 0)) && Forked(v0, v, parent, child, lo, mid)
    ensures var (f, ok) := (cands[|mask|].pte.frame, CanRetain(v, cands[|mask|].pte.frame));
      && Tally(Retained(v, f), other, Rest(cands, mask + [ok], 0)) && Forked(v0, Retained(v, f), parent, child, lo, mid)
      && |Retained(v, f).refs| == |v.refs|
  {
    var c := cands[|mask|];
    MappedNoTable(v, other, Rest(cands, mask, 0), Addr(parent, c.page));
    RetainNext(v0, v, other, Rest(cands, mask, 0), parent, child, lo, mid, c.pte.frame);
    HeldMore(cands, mask, CanRetain(v, c.pte.frame));
  }

  lemma RetainSpends(v0: VM, v: VM, cands: seq<Candidate>, mask: seq<bool>)
    requires |mask| < |cands| && !Free(v0, cands[|mask|].pte.frame) && Grown(v0.refs, v.refs)
    ensures var (f, ok) := (cands[|mask|].pte.frame, CanRetain(v, cands[|mask|].pte.frame));
      Spent(cands, mask, v.refs) ==> Spent(cands, mask + [ok], Retained(v, f).refs)
  {
    var f := cands[|mask|].pte.frame;
    assert f < |v0.refs| ==> v.refs[f] >= v0.refs[f];
    if Spent(cands, mask, v.refs) {
      SpentGrown(cands, mask, v.refs, Retained(v, f).refs);
    }
  }

  lemma KeptRefs(v0: VM, v: VM, v': VM)
    requires Kept(v0, v) && v'.bytes == v.bytes && v'.overlays == v.overlays && v'.objects == v.objects
    requires |v'.refs| == |v.refs| && v'.tables == v.tables && v'.blocks == v.blocks
    ensures Kept(v0, v')
  {
    forall f: Frame | !Free(v0, f) ensures Byte(v', f) == Byte(v0, f) {
      assert Byte(v, f) == Byte(v0, f);
    }
  }

  /** A page could not be forked: the entries are those of `before`, and tables may have been made for it. */
  ghost predicate PageStopped(v0: VM, before: VM, v: VM, parent: nat, child: nat, lo: nat, at: nat) {
    && v.ptes == before.ptes && Kept(v0, v) && TablesGrew(before, v) && TablesFor(v0, v, parent, child, lo, at + 1)
  }

  /** The failure touched nothing. */
  lemma StoppedSame(v0: VM, v: VM, parent: nat, child: nat, lo: nat, at: nat)
    requires Forked(v0, v, parent, child, lo, at) && lo <= at && Addr(parent, at) in v0.ptes
    ensures PageStopped(v0, v, v, parent, child, lo, at)
  {
    forall k | k in v.tables && k !in v0.tables ensures TableFor(v0, parent, child, lo, at + 1, k) {
      TableForMore(v0, parent, child, lo, at, k);
    }
  }

  /** The failure came after the walk. */
  lemma StoppedWalk(v0: VM, before: VM, w: VM, v: VM, parent: nat, child: nat, lo: nat, at: nat)
    requires Forking(v0, w, parent, child, lo, at, at + 1) && TablesGrew(before, w)
    requires v == w.(refs := v.refs, ptes := v.ptes) && |v.refs| == |w.refs| && v.ptes == before.ptes
    ensures PageStopped(v0, before, v, parent, child, lo, at)
  {
    KeptRefs(v0, w, v);
  }

  lemma StoppedRefs(v0: VM, before: VM, v: VM, v': VM, parent: nat, child: nat, lo: nat, at: nat)
    requires PageStopped(v0, before, v, parent, child, lo, at) && v' == v.(refs := v'.refs) && |v'.refs| == |v.refs|
    ensures PageStopped(v0, before, v', parent, child, lo, at)
  {
    KeptRefs(v0, v, v');
  }

  /** The frame for a copy survives the walk. */
  lemma DuplicateWalk(v0: VM, v: VM, parent: nat, child: nat, lo: nat, p: nat, from: Frame, pick: int, upper: int,
                      lower: int)
    requires Forked(v0, v, parent, child, lo, p) && lo <= p && Addr(parent, p) in v0.ptes && Free(v, pick)
    requires from >= |v0.refs|
    ensures var w := Walked(Allocated(v, pick, Byte(v, from)), Addr(child, p), upper, lower).0;
      && Forking(v0, w, parent, child, lo, p, p + 1) && TablesGrew(v, w) && CopiedInto(v0, w, from, pick)
      && Grown(v.refs, w.refs)
  {
    var v1 := Allocated(v, pick, Byte(v, from));
    ForkedAlloc(v0, v, parent, child, lo, p, pick, Byte(v, from));
    ForkingWalk(v0, v1, parent, child, lo, p, upper, lower);
    WalkOnlyTables(v1, Addr(child, p), upper, lower);
    assert Byte(v, from) == Byte(v0, from) && !Free(v1, pick);
    GrownTwice(v.refs, v1.refs, Walked(v1, Addr(child, p), upper, lower).0.refs);
  }

  lemma GrownTwice(a: seq<nat>, b: seq<nat>, c: seq<nat>)
    requires Grown(a, b) && Grown(b, c)
    ensures Grown(a, c)
  {
    forall f | 0 <= f < |a| ensures c[f] >= a[f] {
      assert b[f] >= a[f] && c[f] >= b[f];
    }
  }

  /** The walk does not look at entries. */
  lemma WithTablePtes(v: VM, v1: VM, k: Table, pick: int)
    requires v1 == v.(ptes := v1.ptes)
    ensures WithTable(v1, k, pick).0 == WithTable(v, k, pick).0.(ptes := v1.ptes)
    ensures WithTable(v1, k, pick).1 == WithTable(v, k, pick).1 && WithTable(v, k, pick).0.ptes == v.ptes
  {
  }

  lemma WalkedPtes(v: VM, v1: VM, a: Addr, upper: int, lower: int)
    requires v1 == v.(ptes := v1.ptes)
    ensures Walked(v1, a, upper, lower).0 == Walked(v, a, upper, lower).0.(ptes := v1.ptes)
    ensures Walked(v1, a, upper, lower).1 == Walked(v, a, upper, lower).1 && Walked(v, a, upper, lower).0.ptes == v.ptes
  {
    WithTablePtes(v, v1, UpperOf(a), upper);
    var w, w1 := WithTable(v, UpperOf(a), upper), WithTable(v1, UpperOf(a), upper);
    if w.1 {
      WithTablePtes(w.0, w1.0, LowerOf(a), lower);
    }
  }

  /** Sharing a page, from the walk on: `w` is the state after it with the parent's entry still as it was. */
  lemma ShareWalk(v0: VM, v: VM, v1: VM, other: seq<nat>, hand: multiset<Frame>, parent: nat, child: nat, lo: nat,
                  p: nat,
                  f: Frame, flags: Flags, upper: int, lower: int)
    requires Forked(v0, v, parent, child, lo, p) && lo <= p && parent != child && f in hand && Tally(v1, other, hand)
    requires Addr(parent, p) in v0.ptes && v0.ptes[Addr(parent, p)].frame == f < |v0.refs|
    requires flags == Shared(v0.ptes[Addr(parent, p)].flags) && v1 == SetPte(v, Addr(parent, p), Pte(f, flags))
    ensures var (c, v2) := (Addr(child, p), Walked(v1, Addr(child, p), upper, lower).0);
      && Tally(v2, other, hand) && v2.ptes == v1.ptes && Grown(v.refs, v2.refs)
      && PageStopped(v0, v, v2.(ptes := v.ptes), parent, child, lo, p)
    ensures var (c, v2) := (Addr(child, p), Walked(v1, Addr(child, p), upper, lower).0);
      Walked(v1, c, upper, lower).1 && c !in v1.ptes ==>
        && Tally(SetPte(v2, c, Pte(f, Installed(flags))), other, hand - multiset{f})
        && Forked(v0, SetPte(v2, c, Pte(f, Installed(flags))), parent, child, lo, p + 1)
  {
    var c := Addr(child, p);
    var w, v2 := Walked(v, c, upper, lower).0, Walked(v1, c, upper, lower).0;
    WalkTally(v1, other, hand, c, upper, lower);
    WalkedPtes(v, v1, c, upper, lower);
    ForkingWalk(v0, v, parent, child, lo, p, upper, lower);
    WalkOnlyTables(v, c, upper, lower);
    StoppedWalk(v0, v, w, w, parent, child, lo, p);
    assert v2.(ptes := v.ptes) == w;
    if Walked(v1, c, upper, lower).1 && c !in v1.ptes {
      MapTally(v2, other, hand, c, Pte(f, Installed(flags)));
      ForkedShare(v0, w, SetPte(v2, c, Pte(f, Installed(flags))), parent, child, lo, p);
    }
  }

  /** Copying a page, from the walk on. */
  lemma CopyWalk(v0: VM, v: VM, other: seq<nat>, hand: multiset<Frame>, parent: nat, child: nat, lo: nat, p: nat,
                 pick: Frame, upper: int, lower: int)
    requires Forked(v0, v, parent, child, lo, p) && lo <= p && parent != child && Tally(v, other, hand) && Free(v, pick)
    requires Addr(parent, p) in v0.ptes && v0.ptes[Addr(parent, p)].frame >= |v0.refs|
    ensures var v1 := Allocated(v, pick, Byte(v, v0.ptes[Addr(parent, p)].frame));
      var (w, walked) := Walked(v1, Addr(child, p), upper, lower);
      && Balanced(w, other, hand + multiset{pick}) && w.ptes == v.ptes && Grown(v.refs, w.refs)
      && PageStopped(v0, v, w, parent, child, lo, p)
  {
    var from, c := v0.ptes[Addr(parent, p)].frame, Addr(child, p);
    var v1 := Allocated(v, pick, Byte(v, from));
    var w := Walked(v1, c, upper, lower).0;
    AllocTally(v, other, hand, pick, Byte(v, from));
    WalkTally(v1, other, hand + multiset{pick}, c, upper, lower);
    WalkedPtes(v1, v1, c, upper, lower);
    DuplicateWalk(v0, v, parent, child, lo, p, from, pick, upper, lower);
    StoppedWalk(v0, v, w, w, parent, child, lo, p);
  }

  lemma CopyOutcome(v0: VM, v: VM, other: seq<nat>, hand: multiset<Frame>, parent: nat, child: nat, lo: nat, p: nat,
                    pick: Frame, upper: int, lower: int)
    requires Forked(v0, v, parent, child, lo, p) && lo <= p && parent != child && Tally(v, other, hand) && Free(v, pick)
    requires Addr(parent, p) in v0.ptes && v0.ptes[Addr(parent, p)].frame >= |v0.refs|
    ensures var (was, c) := (v0.ptes[Addr(parent, p)], Addr(child, p));
      var (w, walked) := Walked(Allocated(v, pick, Byte(v, was.frame)), c, upper, lower);
      && Balanced(w, other, hand + multiset{pick}) && PageStopped(v0, v, w, parent, child, lo, p)
      && Grown(v.refs, w.refs)
      && (walked && c !in w.ptes ==>
            && Balanced(SetPte(w, c, Pte(pick, Installed(was.flags))), other, hand)
            && Forked(v0, SetPte(w, c, Pte(pick, Installed(was.flags))), parent, child, lo, p + 1))
  {
    var c := Addr(child, p);
    var (w, walked) := Walked(Allocated(v, pick, Byte(v, v0.ptes[Addr(parent, p)].frame)), c, upper, lower);
    CopyWalk(v0, v, other, hand, parent, child, lo, p, pick, upper, lower);
    if walked && c !in w.ptes {
      CopyMapped(v0, v, w, other, hand, parent, child, lo, p, pick, upper, lower);
    }
  }

  lemma CopyMapped(v0: VM, v: VM, w: VM, other: seq<nat>, hand: multiset<Frame>, parent: nat, child: nat, lo: nat,
                   p: nat, pick: Frame, upper: int, lower: int)
    requires Forked(v0, v, parent, child, lo, p) && lo <= p && parent != child && Free(v, pick)
    requires Addr(parent, p) in v0.ptes && v0.ptes[Addr(parent, p)].frame >= |v0.refs|
    requires (w, true) == Walked(Allocated(v, pick, Byte(v, v0.ptes[Addr(parent, p)].frame)), Addr(child, p), upper,
             lower)
    requires Tally(w, other, hand + multiset{pick}) && Addr(child, p) !in w.ptes && Built(w, Addr(child, p))
    ensures var (was, c) := (v0.ptes[Addr(parent, p)], Addr(child, p));
      && Balanced(SetPte(w, c, Pte(pick, Installed(was.flags))), other, hand)
      && Forked(v0, SetPte(w, c, Pte(pick, Installed(was.flags))), parent, child, lo, p + 1)
  {
    var was, c := v0.ptes[Addr(parent, p)], Addr(child, p);
    DuplicateWalk(v0, v, parent, child, lo, p, was.frame, pick, upper, lower);
    MapTally(w, other, hand + multiset{pick}, c, Pte(pick, Installed(was.flags)));
    assert hand + multiset{pick} - multiset{pick} == hand;
    ForkedCopy(v0, w, SetPte(w, c, Pte(pick, Installed(was.flags))), parent, child, lo, p, pick);
  }

  /** Giving the reference back and the parent its entry. */
  lemma ReopenTally(v: VM, other: seq<nat>, hand: multiset<Frame>, a: Addr, original: Pte)
    requires Tally(v, other, hand) && original.frame in hand && a in v.ptes && v.ptes[a].frame == original.frame
    ensures Droppable(v, original.frame)
    ensures Balanced(SetPte(Released(v, original.frame), a, original), other, hand - multiset{original.frame})
  {
    ReleaseTally(v, other, hand, original.frame);
    FlagsTally(Released(v, original.frame), other, hand - multiset{original.frame}, a, original);
  }

  lemma PutBack(ptes: map<Addr, Pte>, ptes': map<Addr, Pte>, a: Addr)
    requires a in ptes && a in ptes' && ptes' == ptes[a := ptes'[a]]
    ensures ptes'[a := ptes[a]] == ptes
  {
  }

  lemma ShareUndone(v2: VM, other: seq<nat>, hand: multiset<Frame>, a: Addr, original: Pte, v0: VM, v: VM, parent: nat,
                    child: nat, lo: nat, p: nat)
    requires Balanced(v2, other, hand) && original.frame in hand && a in v.ptes && v.ptes[a] == original
    requires a in v2.ptes && v2.ptes[a].frame == original.frame && v2.ptes == v.ptes[a := v2.ptes[a]]
    requires PageStopped(v0, v, v2.(ptes := v.ptes), parent, child, lo, p)
    ensures Droppable(v2, original.frame)
    ensures var w := SetPte(Released(v2, original.frame), a, original);
      Balanced(w, other, hand - multiset{original.frame}) && PageStopped(v0, v, w, parent, child, lo, p)
  {
    ReopenTally(v2, other, hand, a, original);
    var w := SetPte(Released(v2, original.frame), a, original);
    PutBack(v.ptes, v2.ptes, a);
    StoppedRefs(v0, v, v2.(ptes := v.ptes), w, parent, child, lo, p);
  }

  /** A fork that stopped at page `at`, before any roll-back. */
  ghost predicate Stopped(v0: VM, before: VM, v: VM, w: World, parent: nat, child: nat, lo: nat, at: nat,
                          ranges: seq<Range>)
  {
    v in StoppedStates(v0, before, w, parent, child, lo, at, ranges)
  }

  ghost function StoppedStates(v0: VM, before: VM, w: World, parent: nat, child: nat, lo: nat, at: nat,
                               ranges: seq<Range>): iset<VM>
  {
    iset v: VM | && Forked(v0, before, parent, child, lo, at) && PageStopped(v0, before, v, parent, child, lo, at)
                 && RangesCover(ranges, v0, parent, lo, at, at + 1) && Stuck(before, w, parent, child, at)
  }

  /** The scan of a batch finds the entries from before the fork, all of frames in use. */
  lemma ListedSame(cands: seq<Candidate>, v0: VM, v: VM, other: seq<nat>, parent: nat, child: nat, lo: nat, start: nat,
                   hi: nat)
    requires Listed(cands, v.ptes, parent, start, hi) && Forked(v0, v, parent, child, lo, start) && lo <= start
    requires Tally(v0, other, multiset{})
    ensures Listed(cands, v0.ptes, parent, start, hi)
    ensures forall i {:trigger cands[i]} :: 0 <= i < |cands| ==> !Free(v0, cands[i].pte.frame)
  {
    forall p: nat | start <= p < hi ensures SamePte(v0, v, Addr(parent, p)) {
    }
    forall i | 0 <= i < |cands|
      ensures Addr(parent, cands[i].page) in v0.ptes && v0.ptes[Addr(parent, cands[i].page)] == cands[i].pte
      ensures !Free(v0, cands[i].pte.frame)
    {
      assert SamePte(v0, v, Addr(parent, cands[i].page));
      if Free(v0, cands[i].pte.frame) {
        FreeUnmapped(v0, other, cands[i].pte.frame, Addr(parent, cands[i].page));
      }
    }
    forall p: nat | start <= p < hi && Addr(parent, p) in v0.ptes ensures Lists(cands, p) {
      assert SamePte(v0, v, Addr(parent, p));
    }
  }

  /** The proof's view of one batch of a fork. */
  datatype Batch = Batch(v0: VM, other: seq<nat>, cands: seq<Candidate>, mask: seq<bool>, lo: nat, start: nat, hi: nat)

  ghost predicate BatchOk(b: Batch, cands: seq<Candidate>, mask: seq<bool>, parent: nat, child: nat) {
    && b.lo <= b.start <= b.hi && parent != child && NoneWritableCow(b.v0)
    && Listed(cands, b.v0.ptes, parent, b.start, b.hi) && |mask| == |cands| && b.cands == cands && b.mask == mask
  }

  /** The batch before candidate `i`, with the fork done up to page `mid`. */
  ghost predicate BatchAt(b: Batch, v: VM, ranges: seq<Range>, parent: nat, child: nat, i: nat, mid: nat) {
    i <= |b.mask| <= |b.cands| && v in BatchStates(b, ranges, parent, child, i, mid)
  }

  ghost function BatchStates(b: Batch, ranges: seq<Range>, parent: nat, child: nat, i: nat, mid: nat): iset<VM>
    requires i <= |b.mask| <= |b.cands|
  {
    iset v: VM | && Balanced(v, b.other, Rest(b.cands, b.mask, i)) && Forked(b.v0, v, parent, child, b.lo, mid)
                 && RangesCover(ranges, b.v0, parent, b.lo, mid, mid) && Spent(b.cands, b.mask, v.refs)
  }

  lemma BatchMoves(b: Batch, v: VM, refs: seq<nat>, ranges: seq<Range>, parent: nat, child: nat, i: nat, p: nat,
                   i': nat,
                   mid': nat)
    requires i < |b.mask| <= |b.cands| && Balanced(v, b.other, Rest(b.cands, b.mask, i + 1)) && i' == i + 1
             && mid' == p + 1
    requires Forked(b.v0, v, parent, child, b.lo, p + 1) && RangesCover(ranges, b.v0, parent, b.lo, p + 1, p + 1)
    requires Spent(b.cands, b.mask, refs) && Grown(refs, v.refs)
    ensures BatchAt(b, v, ranges, parent, child, i', mid')
  {
    SpentGrown(b.cands, b.mask, refs, v.refs);
  }

  /** The fork reaches `mid'` when no candidate lies before it. */
  lemma GapSkip(cands: seq<Candidate>, v0: VM, v: VM, ranges: seq<Range>, parent: nat, child: nat, lo: nat, start: nat,
                hi: nat,
                i: nat, mid: nat, mid': nat)
    requires Listed(cands, v0.ptes, parent, start, hi) && i <= |cands| && lo <= start <= mid <= mid' <= hi
    requires forall j :: 0 <= j < i ==> cands[j].page < mid
    requires i < |cands| ==> mid' <= cands[i].page
    requires Forked(v0, v, parent, child, lo, mid) && RangesCover(ranges, v0, parent, lo, mid, mid)
    ensures Forked(v0, v, parent, child, lo, mid') && RangesCover(ranges, v0, parent, lo, mid', mid')
  {
  }

  /** The candidates before `i` are the ones before page `mid`. */
  ghost predicate Splits(cands: seq<Candidate>, i: nat, mid: nat) {
    forall j {:trigger cands[j]} :: 0 <= j < |cands| ==> if j < i then cands[j].page < mid else mid <= cands[j].page
  }

  lemma SplitsNext(b: Batch, cands: seq<Candidate>, mask: seq<bool>, parent: nat, child: nat, i: nat)
    requires BatchOk(b, cands, mask, parent, child) && i < |cands|
    ensures Splits(cands, i + 1, cands[i].page + 1) && b.start <= cands[i].page < b.hi
  {
  }

  /** What the next candidate of a batch finds. */
  lemma BatchReady(b: Batch, cands: seq<Candidate>, mask: seq<bool>, v: VM, ranges: seq<Range>, parent: nat, child: nat,
                   i: nat, mid: nat)
    requires BatchOk(b, cands, mask, parent, child) && i < |cands| && b.start <= mid && Splits(cands, i, mid)
    requires BatchAt(b, v, ranges, parent, child, i, mid)
    ensures var (c, hand, hand') := (cands[i], Rest(cands, mask, i), Rest(cands, mask, i + 1));
      && b.lo <= c.page && Addr(parent, c.page) in b.v0.ptes && b.v0.ptes[Addr(parent, c.page)] == c.pte
      && Forked(b.v0, v, parent, child, b.lo, c.page) && RangesCover(ranges, b.v0, parent, b.lo, c.page, c.page)
      && if mask[i] then c.pte.frame < |v.refs| && c.pte.frame in hand && hand' == hand - multiset{c.pte.frame}
         else hand' == hand && (c.pte.frame < |v.refs| ==> v.refs[c.pte.frame] >= MAX_REFS)
  {
    GapSkip(cands, b.v0, v, ranges, parent, child, b.lo, b.start, b.hi, i, mid, cands[i].page);
    RestStep(cands, mask, i);
  }

  // ----- the range -----------------------------------------------------------------------------

  const PGSIZE := 4096
  const WORD := 0x1_0000_0000_0000_0000

  /** First page of a copy, and the page after the last, with 64-bit address arithmetic. */
  function CopyLo(start: nat): nat {
    start / PGSIZE
  }

  function CopyHi(start: nat, size: nat): nat {
    (((start + size) % WORD + PGSIZE - 1) % WORD) / PGSIZE
  }

  ghost predicate Copies(start: nat, size: nat, p: nat) {
    CopyLo(start) <= p < CopyHi(start, size)
  }

  /** The page shares a byte with the range. */
  ghost predicate MeetsRange(start: nat, size: nat, p: nat) {
    p * 4096 < start + size && start < (p + 1) * 4096
  }

  lemma CopiesMet(start: nat, size: nat, p: nat)
    requires size > 0 && start + size + 4096 <= 0x1_0000_0000_0000_0000
    ensures Copies(start, size, p) <==> MeetsRange(start, size, p)
  {
  }

  lemma LastPageLeft(start: nat, size: nat) returns (p: nat)
    requires 0 < size < 0x1_0000_0000_0000_0000 && start < 0x1_0000_0000_0000_0000 < start + size + 4096
    ensures MeetsRange(start, size, p) && !Copies(start, size, p)
  {
    p := (start + size - 1) / PGSIZE;
    if start + size >= WORD {
      assert (start + size) % WORD == start + size - WORD;
    }
  }

  /** The pages copied are those the range meets if and only if the rounded end of the range is an address. */
  lemma CopyRangeExact(start: nat, size: nat)
    requires 0 < size < 0x1_0000_0000_0000_0000 && start < 0x1_0000_0000_0000_0000
    ensures (forall p: nat :: Copies(start, size, p) <==> MeetsRange(start, size, p)) <==>
              start + size + 4096 <= 0x1_0000_0000_0000_0000
  {
    if start + size + PGSIZE <= WORD {
      forall p: nat ensures Copies(start, size, p) <==> MeetsRange(start, size, p) {
        CopiesMet(start, size, p);
      }
    } else {
      var p := LastPageLeft(start, size);
      assert Copies(start, size, p) != MeetsRange(start, size, p);
    }
  }

  ghost predicate Downgrades(v0: VM, parent: nat, lo: nat, hi: nat) {
    exists p: nat :: lo <= p < hi && Downgraded(v0, parent, p)
  }

  lemma RangesTell(ranges: seq<Range>, v0: VM, parent: nat, lo: nat, hi: nat)
    requires RangesCover(ranges, v0, parent, lo, hi, hi)
    ensures |ranges| > 0 <==> Downgrades(v0, parent, lo, hi)
  {
    if |ranges| > 0 {
      assert InRange(ranges[0], ranges[0].start);
      assert InRanges(ranges, ranges[0].start);
    }
    if Downgrades(v0, parent, lo, hi) {
      var p: nat :| lo <= p < hi && Downgraded(v0, parent, p);
      assert InRanges(ranges, p);
    }
  }

  lemma ForkedNone(v: VM, parent: nat, child: nat, lo: nat)
    ensures Forked(v, v, parent, child, lo, lo)
  {
  }

  class AddressSpaces {
    var refs: seq<nat>
    var bytes: map<Frame, Page>
    var ptes: map<Addr, Pte>
    var overlays: map<Addr, Frame>
    var tables: map<Table, Frame>
    const objects: set<Addr>
    const reserved: set<nat>
    const blocks: set<Frame>
    ghost const region: BuddyTree.Region
    ghost var mem: PhysicalMemory.Mem

    ghost function State(): VM
      reads this
    {
      VM(refs, bytes, ptes, overlays, objects, tables, blocks)
    }

    /** The page manager `mem` agrees with the counts; every call below is made on it too. */
    ghost predicate Managed()
      reads this
    {
      (mem, refs) in Agreeing(region, blocks)
    }

    // ----- the page manager --------------------------------------------------------------------

    method RetainPage(f: Frame) returns (ok: bool)
      modifies this`refs, this`mem
      ensures old(Managed()) ==> Managed()
      ensures ok == CanRetain(old(State()), f) && State() == Retained(old(State()), f)
    {
      ok := f < |refs| && 0 < refs[f] < MAX_REFS;
      if Managed() {
        LinkedRetain(region, mem, State(), f);
      }
      mem := PhysicalMemory.Retain(region, mem, f);
      if ok {
        refs := refs[f := refs[f] + 1];
      }
    }

    /** Drops a reference. The manager stops the kernel on a page without one and inside a block of several;
        no operation here asks for either. */
    method FreePage(f: Frame)
      requires Droppable(State(), f)
      modifies this`refs, this`mem
      ensures old(Managed()) ==> Managed()
      ensures mem == PhysicalMemory.Release(region, old(mem), f)
      ensures State() == Released(old(State()), f)
    {
      if Managed() {
        LinkedRelease(region, mem, State(), f);
      }
      mem := PhysicalMemory.Release(region, mem, f);
      if f < |refs| {
        refs := refs[f := refs[f] - 1];
      }
    }

    /** Takes the offered frame, if it is free. */
    method TryAllocPage(pick: int, page: Page) returns (ok: bool)
      modifies this`refs, this`bytes, this`mem
      ensures old(Managed()) ==> Managed()
      ensures ok == Free(old(State()), pick)
      ensures State() == if ok then Allocated(old(State()), pick, page) else old(State())
    {
      ok := 0 <= pick < |refs| && refs[pick] == 0;
      if ok {
        if Managed() {
          LinkedAlloc(region, mem, State(), pick, page);
          mem := Taken(region, mem, pick);
        }
        refs := refs[pick := 1];
        bytes := bytes[pick := page];
      }
    }

    /** The table, made in the frame offered if it is missing. */
    method TakeTable(k: Table, pick: int) returns (ok: bool)
      modifies this`refs, this`bytes, this`tables, this`mem
      ensures old(Managed()) ==> Managed()
      ensures (State(), ok) == WithTable(old(State()), k, pick)
    {
      ok := true;
      if k !in tables {
        ok := TryAllocPage(pick, []);
        if ok {
          tables := tables[k := pick];
        }
      }
    }

    /** Walks to the entry of an address, making tables. */
    method Walk(a: Addr, upper: int, lower: int) returns (ok: bool)
      modifies this`refs, this`bytes, this`tables, this`mem
      ensures old(Managed()) ==> Managed()
      ensures (State(), ok) == Walked(old(State()), a, upper, lower)
    {
      ok := TakeTable(UpperOf(a), upper);
      if ok {
        ok := TakeTable(LowerOf(a), lower);
      }
    }

    /** The entry is set unless the walk fails or there is one; the tables made stay. */
    method MapPages(a: Addr, f: Frame, flags: Flags, upper: int, lower: int) returns (ok: bool)
      modifies this`refs, this`bytes, this`tables, this`ptes, this`mem
      ensures old(Managed()) ==> Managed()
      ensures var (v1, walked) := Walked(old(State()), a, upper, lower);
        && ok == (walked && a !in old(ptes))
        && State() == if ok then SetPte(v1, a, Pte(f, flags.(accessed := true, dirty := true))) else v1
    {
      ok := Walk(a, upper, lower);
      if a in ptes {
        ok := false;
      }
      if ok {
        ptes := ptes[a := Pte(f, Installed(flags))];
      }
    }

    /** A new page for an address that has none: the frame goes back when it cannot be mapped. */
    method MapNewPage(a: Addr, flags: Flags, page: Page, pick: int, upper: int, lower: int) returns (ok: bool)
      requires BlocksLive(State())
      modifies this`refs, this`bytes, this`tables, this`ptes, this`mem
      ensures old(Managed()) ==> Managed()
      ensures (State(), ok) == MapNew(old(State()), a, flags, page, pick, upper, lower)
    {
      ok := TryAllocPage(pick, page);
      if !ok {
        return;
      }
      ghost var v1 := State();
      WalkOnlyTables(v1, a, upper, lower);
      ok := MapPages(a, pick, flags, upper, lower);
      if !ok {
        FreePage(pick);
      }
    }

    // ----- write faults ------------------------------------------------------------------------

    method MoveOverlay(a: Addr, pick: Frame)
      requires a in ptes && Droppable(State(), ptes[a].frame)
      modifies this`refs, this`overlays, this`mem
      ensures old(Managed()) ==> Managed()
      ensures State() == OverlayMoved(old(State()), a, pick)
    {
      var owned := a in objects && a in overlays && overlays[a] == ptes[a].frame;
      var _ := RetainPage(pick);
      if owned {
        FreePage(ptes[a].frame);
      }
      overlays := overlays[a := pick];
    }

    method ResolveCowPage(a: Addr, pick: int, roomy: bool) returns (ok: bool)
      requires BlocksLive(State()) && (a in ptes ==> ptes[a].frame !in blocks)
      modifies this`refs, this`bytes, this`ptes, this`overlays, this`mem
      ensures old(Managed()) ==> Managed()
      ensures (State(), ok) == Resolve(old(State()), a, pick, roomy)
    {
      if a !in ptes || !ptes[a].flags.user || !ptes[a].flags.cow {
        return false;
      }
      var pte := ptes[a];
      if pte.frame >= |refs| || refs[pte.frame] == 0 {
        return false;
      }
      var n := refs[pte.frame];
      var owned := a in objects && a in overlays && overlays[a] == pte.frame;
      if (a !in objects && n == 1) || (a in objects && owned && n <= 2) {
        ptes := ptes[a := Pte(pte.frame, Opened(pte.flags))];
        return true;
      }
      ok := TryAllocPage(pick, if pte.frame in bytes then bytes[pte.frame] else []);
      if ok {
        ok := MoveToCopy(a, pick, roomy);
      }
    }

    /** The copy takes the place of the page it was made of, in the entry and in the overlay. */
    method MoveToCopy(a: Addr, pick: Frame, roomy: bool) returns (ok: bool)
      requires a in ptes && ptes[a].frame != pick && pick < |refs| && refs[pick] == 1 && pick !in blocks
      requires ptes[a].frame < |refs| && refs[ptes[a].frame] > 0 && ptes[a].frame !in blocks
      requires OverlayOwned(State(), a) ==> refs[ptes[a].frame] > 1
      modifies this`refs, this`ptes, this`overlays, this`mem
      ensures old(Managed()) ==> Managed()
      ensures ok == (a !in objects || roomy)
      ensures State() == if a !in objects then Remapped(old(State()), a, pick)
                         else if !roomy then Released(old(State()), pick)
                         else Remapped(OverlayMoved(old(State()), a, pick), a, pick)
    {
      var pte := ptes[a];
      if a in objects {
        if !roomy {
          FreePage(pick);
          return false;
        }
        MoveOverlay(a, pick);
      }
      ptes := ptes[a := Pte(pick, Opened(pte.flags))];
      FreePage(pte.frame);
      ok := true;
    }

    // ----- unmapping ---------------------------------------------------------------------------

    /** Gives back every reference of a batch. */
    method ReleasePagesBatch(pending: seq<Frame>, ghost other: seq<nat>, ghost hand: multiset<Frame>)
      requires Balanced(State(), other, hand + multiset(pending))
      modifies this`refs, this`mem
      ensures old(Managed()) ==> Managed()
      ensures Balanced(State(), other, hand) && State() == ReleasedAll(old(State()), pending)
      ensures old(Managed()) ==> PhysicalMemory.BatchClean(region, old(mem), pending, |pending|)
      ensures old(Managed()) ==> mem == PhysicalMemory.ReleaseAll(region, old(mem), pending)
    {
      if Managed() {
        ReleaseBatch(region, mem, State(), other, hand, pending);
      }
      for i := 0 to |pending|
        invariant Balanced(State(), other, hand + multiset(pending[i..]))
        invariant State() == ReleasedAll(old(State()), pending[..i])
        invariant old(Managed()) ==> Managed() && mem == PhysicalMemory.ReleaseAll(region, old(mem), pending[..i])
      {
        BatchStep(pending, hand, i);
        assert pending[..i + 1][..i] == pending[..i];
        ReleaseTally(State(), other, hand + multiset(pending[i..]), pending[i]);
        FreePage(pending[i]);
      }
      assert hand + multiset(pending[|pending|..]) == hand && pending[..|pending|] == pending;
    }

    /** Clears one entry, if there is one, and queues its reference. */
    method ClearOne(a: Addr, pending: seq<Frame>, ghost other: seq<nat>, ghost hand: multiset<Frame>)
      returns (pending': seq<Frame>)
      requires Balanced(State(), other, hand + multiset(pending))
      modifies this`ptes
      ensures old(Managed()) ==> Managed()
      ensures Balanced(State(), other, hand + multiset(pending')) && |pending'| <= |pending| + 1
      ensures ptes == old(ptes) - {a}
    {
      pending' := pending;
      if a in ptes {
        pending' := pending + [ptes[a].frame];
        ClearTally(State(), other, hand + multiset(pending), a);
        assert hand + multiset(pending) + multiset{ptes[a].frame} == hand + multiset(pending');
        ptes := ptes - {a};
      } else {
        assert ptes - {a} == ptes;
      }
    }

    /** The end of a batch: the references go back, or stay with the caller. */
    method FlushPending(pending: seq<Frame>, free: bool, ghost other: seq<nat>, ghost hand: multiset<Frame>)
      returns (ghost kept: multiset<Frame>)
      requires Balanced(State(), other, hand + multiset(pending))
      modifies this`refs, this`mem
      ensures old(Managed()) ==> Managed()
      ensures kept == (if free then multiset{} else multiset(pending)) && Balanced(State(), other, hand + kept)
      ensures |refs| == |old(refs)| && (!free ==> refs == old(refs))
    {
      kept := multiset(pending);
      if free {
        kept := multiset{};
        ReleasePagesBatch(pending, other, hand);
        ReleasedSize(old(State()), pending);
        assert hand + kept == hand;
      }
    }

    /** Clears one entry and ends the batch when it is full. */
    method UnmapPage(a: Addr, pending: seq<Frame>, free: bool, ghost other: seq<nat>, ghost hand: multiset<Frame>)
      returns (pending': seq<Frame>, ghost kept: multiset<Frame>)
      requires |pending| < UNMAP_BATCH_PAGES && Balanced(State(), other, hand + multiset(pending))
      modifies this`refs, this`ptes, this`mem
      ensures old(Managed()) ==> Managed()
      ensures |pending'| < UNMAP_BATCH_PAGES && Balanced(State(), other, hand + kept + multiset(pending'))
      ensures (free ==> kept == multiset{}) && (!free ==> refs == old(refs)) && |refs| == |old(refs)|
      ensures ptes == old(ptes) - {a}
    {
      kept := multiset{};
      pending' := ClearOne(a, pending, other, hand);
      assert hand + kept == hand;
      if |pending'| == UNMAP_BATCH_PAGES {
        kept := FlushPending(pending', free, other, hand);
        pending' := [];
        assert hand + kept + multiset(pending') == hand + kept;
      }
    }

    /** Unmaps `n` pages from `first`, in batches, and gives their references back or, without `free`, leaves
        them to the caller. Only a single page unmapped without `free` may be a reserved one. */
    method VmUnmap(space: nat, first: nat, n: nat, free: bool, ghost other: seq<nat>, ghost hand: multiset<Frame>)
      returns (ghost kept: multiset<Frame>)
      requires Balanced(State(), other, hand)
      modifies this`refs, this`ptes, this`mem
      ensures old(Managed()) ==> Managed()
      ensures Balanced(State(), other, hand + kept) && (free ==> kept == multiset{}) && (!free ==> refs == old(refs))
      ensures Unmapped(old(State()), State(), space, first, first + n, Spared(reserved, n, free))
    {
      var pending: seq<Frame> := [];
      kept := multiset{};
      assert hand + kept + multiset(pending) == hand;
      ghost var spared := Spared(reserved, n, free);
      for p := first to first + n
        invariant |pending| < UNMAP_BATCH_PAGES
        invariant Balanced(State(), other, hand + kept + multiset(pending))
        invariant (free ==> kept == multiset{}) && (!free ==> refs == old(refs))
        invariant Unmapped(old(State()), State(), space, first, p, spared)
        invariant old(Managed()) ==> Managed()
      {
        if p !in reserved || (n == 1 && !free) {
          ghost var more;
          pending, more := UnmapPage(Addr(space, p), pending, free, other, hand + kept);
          HandMore(hand, kept, more);
          kept := kept + more;
        }
      }
      ghost var last := FlushPending(pending, free, other, hand + kept);
      HandMore(hand, kept, last);
      kept := kept + last;
    }

    /** Unmaps a list of at most 256 pages in any order; a longer list stops the kernel. */
    method VmUnmapSparse(space: nat, pages: seq<nat>, free: bool, ghost other: seq<nat>, ghost hand: multiset<Frame>)
      returns (panicked: bool, ghost kept: multiset<Frame>)
      requires Balanced(State(), other, hand)
      modifies this`refs, this`ptes, this`mem
      ensures old(Managed()) ==> Managed()
      ensures panicked <==> |pages| > 256
      ensures panicked ==> State() == old(State()) && kept == multiset{}
      ensures Balanced(State(), other, hand + kept) && (free ==> kept == multiset{}) && (!free ==> refs == old(refs))
      ensures !panicked ==> ptes == old(ptes) - set p | p in pages && p !in reserved :: Addr(space, p)
    {
      kept := multiset{};
      var pending: seq<Frame> := [];
      assert hand + kept == hand && hand + multiset(pending) == hand;
      if |pages| > UNMAP_BATCH_PAGES {
        return true, kept;
      }
      ghost var gone: set<Addr> := {};
      for i := 0 to |pages|
        invariant Balanced(State(), other, hand + multiset(pending)) && refs == old(refs)
        invariant old(Managed()) ==> Managed()
        invariant ptes == old(ptes) - gone && gone == set p | p in pages[..i] && p !in reserved :: Addr(space, p)
      {
        assert pages[..i + 1] == pages[..i] + [pages[i]];
        if pages[i] !in reserved {
          pending := ClearOne(Addr(space, pages[i]), pending, other, hand);
          gone := gone + {Addr(space, pages[i])};
        }
      }
      assert pages[..|pages|] == pages;
      kept := FlushPending(pending, free, other, hand);
      panicked := false;
    }

    // ----- fork --------------------------------------------------------------------------------

    method ScanBatch(space: nat, lo: nat, hi: nat) returns (cands: seq<Candidate>)
      requires lo <= hi
      ensures Listed(cands, ptes, space, lo, hi)
    {
      cands := [];
      for p := lo to hi
        invariant Listed(cands, ptes, space, lo, p)
      {
        ListedMore(cands, ptes, space, lo, p);
        if Addr(space, p) in ptes {
          cands := cands + [Candidate(p, ptes[Addr(space, p)])];
        }
      }
    }

    method RetainOne(ghost parent: nat, ghost child: nat, cands: seq<Candidate>, mask: seq<bool>,
                     ghost v0: VM, ghost other: seq<nat>, ghost lo: nat, ghost mid: nat, ghost hi: nat)
      returns (ok: bool)
      requires |mask| < |cands| && Listed(cands, ptes, parent, mid, hi) && !Free(v0, cands[|mask|].pte.frame)
      requires Balanced(State(), other, Rest(cands, mask, 0)) && Forked(v0, State(), parent, child, lo, mid)
      modifies this`refs, this`mem
      ensures old(Managed()) ==> Managed()
      ensures Balanced(State(), other, Rest(cands, mask + [ok], 0)) && Forked(v0, State(), parent, child, lo, mid)
      ensures Spent(cands, mask, old(refs)) ==> Spent(cands, mask + [ok], refs)
    {
      RetainStep(v0, State(), other, cands, mask, parent, child, lo, mid, hi);
      RetainSpends(v0, State(), cands, mask);
      ok := RetainPage(cands[|mask|].pte.frame);
    }

    /** One reference for every candidate that can take one. */
    method RetainCandidates(parent: nat, child: nat, cands: seq<Candidate>,
                            ghost v0: VM, ghost other: seq<nat>, ghost lo: nat, ghost mid: nat, ghost hi: nat)
      returns (mask: seq<bool>)
      requires Balanced(State(), other, multiset{}) && Forked(v0, State(), parent, child, lo, mid)
      requires forall i {:trigger cands[i]} :: 0 <= i < |cands| ==> !Free(v0, cands[i].pte.frame)
      requires Listed(cands, ptes, parent, mid, hi)
      modifies this`refs, this`mem
      ensures old(Managed()) ==> Managed()
      ensures |mask| == |cands| && Balanced(State(), other, Rest(cands, mask, 0))
      ensures Forked(v0, State(), parent, child, lo, mid)
      ensures Spent(cands, mask, refs)
    {
      mask := [];
      for i := 0 to |cands|
        invariant |mask| == i && Balanced(State(), other, Rest(cands, mask, 0))
        invariant old(Managed()) ==> Managed()
        invariant Forked(v0, State(), parent, child, lo, mid) && Spent(cands, mask, refs)
      {
        var ok := RetainOne(parent, child, cands, mask, v0, other, lo, mid, hi);
        mask := mask + [ok];
      }
    }

    method ReleaseMarked(cands: seq<Candidate>, mask: seq<bool>, i: nat, ghost other: seq<nat>)
      requires i < |mask| == |cands| && Balanced(State(), other, Rest(cands, mask, i))
      modifies this`refs, this`mem
      ensures old(Managed()) ==> Managed()
      ensures Balanced(State(), other, Rest(cands, mask, i + 1)) && |refs| == |old(refs)|
    {
      RestStep(cands, mask, i);
      if mask[i] {
        ReleaseTally(State(), other, Rest(cands, mask, i), cands[i].pte.frame);
        FreePage(cands[i].pte.frame);
      }
    }

    /** Gives back the references of the candidates from `first` on. */
    method ReleaseUnconsumed(cands: seq<Candidate>, mask: seq<bool>, first: nat, ghost other: seq<nat>)
      requires first <= |cands| == |mask| && Balanced(State(), other, Rest(cands, mask, first))
      modifies this`refs, this`mem
      ensures old(Managed()) ==> Managed()
      ensures Balanced(State(), other, multiset{}) && |refs| == |old(refs)|
    {
      for i := first to |cands|
        invariant Balanced(State(), other, Rest(cands, mask, i)) && |refs| == |old(refs)|
        invariant old(Managed()) ==> Managed()
      {
        ReleaseMarked(cands, mask, i, other);
      }
    }

    /** Takes write permission from the parent's entry, if it has it, and records the page. */
    method TakeWrite(parent: nat, cand: Candidate, ranges: seq<Range>, ghost v0: VM, ghost lo: nat)
      returns (childFlags: Flags, ranges': seq<Range>)
      requires Addr(parent, cand.page) in v0.ptes && v0.ptes[Addr(parent, cand.page)] == cand.pte && NoneWritableCow(v0)
      requires cand.pte.frame < |v0.refs| && lo <= cand.page
               && RangesCover(ranges, v0, parent, lo, cand.page, cand.page)
      requires Addr(parent, cand.page) in ptes && ptes[Addr(parent, cand.page)] == cand.pte
      modifies this`ptes
      ensures old(Managed()) ==> Managed()
      ensures childFlags == Shared(cand.pte.flags) && RangesCover(ranges', v0, parent, lo, cand.page + 1, cand.page + 1)
      ensures State() == SetPte(old(State()), Addr(parent, cand.page), Pte(cand.pte.frame, childFlags))
    {
      var a, flags := Addr(parent, cand.page), cand.pte.flags;
      childFlags, ranges' := flags, ranges;
      if flags.writable || flags.cow {
        childFlags := flags.(writable := false, cow := true);
        if flags.writable {
          RecordCovers(ranges, v0, parent, lo, cand.page);
          ranges' := Record(ranges, cand.page);
          ptes := ptes[a := Pte(cand.pte.frame, childFlags)];
        }
      }
    }

    /** The child's entry for a page that the parent has just given up writing. */
    method MapShared(parent: nat, child: nat, p: nat, f: Frame, flags: Flags, upper: int, lower: int,
                     ghost v0: VM, ghost v: VM, ghost other: seq<nat>, ghost hand: multiset<Frame>, ghost lo: nat)
      returns (ok: bool)
      requires Forked(v0, v, parent, child, lo, p) && lo <= p && parent != child && f in hand
               && Balanced(State(), other, hand)
      requires Addr(parent, p) in v0.ptes && v0.ptes[Addr(parent, p)].frame == f < |v0.refs|
      requires flags == Shared(v0.ptes[Addr(parent, p)].flags) && State() == SetPte(v, Addr(parent, p), Pte(f, flags))
      modifies this`refs, this`bytes, this`tables, this`ptes, this`mem
      ensures old(Managed()) ==> Managed()
      ensures ok ==> Balanced(State(), other, hand - multiset{f}) && Forked(v0, State(), parent, child, lo, p + 1)
      ensures !ok ==> Balanced(State(), other, hand) && ptes == old(ptes)
      ensures !ok ==> PageStopped(v0, v, State().(ptes := v.ptes), parent, child, lo, p)
      ensures ok <==> Addr(child, p) !in v.ptes && CanWalk(v, Addr(child, p), upper, lower)
      ensures ok ==> Grown(v.refs, refs)
    {
      WalkExactly(State(), Addr(child, p), upper, lower);
      ShareWalk(v0, v, State(), other, hand, parent, child, lo, p, f, flags, upper, lower);
      ok := MapPages(Addr(child, p), f, flags, upper, lower);
    }

    /** Shares one retained page: the parent loses write permission, the child gets an entry. */
    method ShareCandidate(parent: nat, child: nat, cand: Candidate, upper: int, lower: int, ranges: seq<Range>,
                          ghost v0: VM, ghost other: seq<nat>, ghost hand: multiset<Frame>, ghost lo: nat)
      returns (ok: bool, ranges': seq<Range>)
      requires Forked(v0, State(), parent, child, lo, cand.page) && lo <= cand.page && parent != child
      requires Addr(parent, cand.page) in v0.ptes && v0.ptes[Addr(parent, cand.page)] == cand.pte && NoneWritableCow(v0)
      requires cand.pte.frame < |refs| && cand.pte.frame in hand && Balanced(State(), other, hand)
      requires RangesCover(ranges, v0, parent, lo, cand.page, cand.page)
      modifies this`refs, this`bytes, this`tables, this`ptes, this`mem
      ensures old(Managed()) ==> Managed()
      ensures Balanced(State(), other, hand - multiset{cand.pte.frame})
      ensures RangesCover(ranges', v0, parent, lo, if ok then cand.page + 1 else cand.page, cand.page + 1)
      ensures ok ==> Forked(v0, State(), parent, child, lo, cand.page + 1) && Grown(old(refs), refs)
      ensures !ok ==> PageStopped(v0, old(State()), State(), parent, child, lo, cand.page)
      ensures ok <==> Addr(child, cand.page) !in old(ptes)
                      && CanWalk(old(State()), Addr(child, cand.page), upper, lower)
    {
      ghost var v := State();
      var a, f := Addr(parent, cand.page), cand.pte.frame;
      assert SamePte(v0, v, a);
      var childFlags;
      childFlags, ranges' := TakeWrite(parent, cand, ranges, v0, lo);
      FlagsTally(v, other, hand, a, Pte(f, childFlags));
      ok := MapShared(parent, child, cand.page, f, childFlags, upper, lower, v0, v, other, hand, lo);
      if !ok {
        UndoShare(a, cand.pte, v0, v, other, hand, parent, child, lo, cand.page);
      }
    }

    /** The child could not be given its entry: the parent's entry and the reference are put back. */
    method UndoShare(a: Addr, original: Pte, ghost v0: VM, ghost v: VM, ghost other: seq<nat>,
                     ghost hand: multiset<Frame>, ghost parent: nat, ghost child: nat, ghost lo: nat, ghost p: nat)
      requires Balanced(State(), other, hand) && original.frame in hand && a in v.ptes && v.ptes[a] == original
      requires a in ptes && ptes[a].frame == original.frame && ptes == v.ptes[a := ptes[a]]
      requires PageStopped(v0, v, State().(ptes := v.ptes), parent, child, lo, p)
      modifies this`refs, this`ptes, this`mem
      ensures old(Managed()) ==> Managed()
      ensures Balanced(State(), other, hand - multiset{original.frame})
      ensures PageStopped(v0, v, State(), parent, child, lo, p)
    {
      ShareUndone(State(), other, hand, a, original, v0, v, parent, child, lo, p);
      FreePage(original.frame);
      ptes := ptes[a := original];
    }

    /** Gives one reference back. */
    method GiveBackOne(f: Frame, ghost other: seq<nat>, ghost hand: multiset<Frame>)
      requires Balanced(State(), other, hand + multiset{f})
      modifies this`refs, this`mem
      ensures old(Managed()) ==> Managed()
      ensures Balanced(State(), other, hand) && |refs| == |old(refs)|
    {
      ReleaseTally(State(), other, hand + multiset{f}, f);
      assert hand + multiset{f} - multiset{f} == hand;
      FreePage(f);
    }

    method MapCopy(parent: nat, child: nat, p: nat, pick: Frame, flags: Flags, upper: int, lower: int,
                   ghost v0: VM, ghost v: VM, ghost other: seq<nat>, ghost hand: multiset<Frame>, ghost lo: nat)
      returns (ok: bool)
      requires Forked(v0, v, parent, child, lo, p) && lo <= p && parent != child && Tally(v, other, hand)
               && Free(v, pick)
      requires Addr(parent, p) in v0.ptes && v0.ptes[Addr(parent, p)].frame >= |v0.refs|
      requires v0.ptes[Addr(parent, p)].flags == flags
      requires State() == Allocated(v, pick, Byte(v, v0.ptes[Addr(parent, p)].frame))
      modifies this`refs, this`bytes, this`tables, this`ptes, this`mem
      ensures old(Managed()) ==> Managed()
      ensures ok ==> Balanced(State(), other, hand) && Forked(v0, State(), parent, child, lo, p + 1)
      ensures !ok ==> Balanced(State(), other, hand + multiset{pick})
      ensures !ok ==> PageStopped(v0, v, State(), parent, child, lo, p)
      ensures ok <==> CanMap(v, Addr(child, p), pick, upper, lower)
      ensures ok ==> Grown(v.refs, refs)
    {
      WalkExactly(State(), Addr(child, p), upper, lower);
      CopyOutcome(v0, v, other, hand, parent, child, lo, p, pick, upper, lower);
      ok := MapPages(Addr(child, p), pick, flags, upper, lower);
    }

    /** Copies one page that has no reference count into a fresh frame for the child. */
    method DuplicateCandidate(parent: nat, child: nat, cand: Candidate, pick: int, upper: int, lower: int,
                              ghost v0: VM, ghost other: seq<nat>, ghost hand: multiset<Frame>, ghost lo: nat)
      returns (ok: bool)
      requires Forked(v0, State(), parent, child, lo, cand.page) && lo <= cand.page && parent != child
      requires Addr(parent, cand.page) in v0.ptes && v0.ptes[Addr(parent, cand.page)] == cand.pte
      requires cand.pte.frame >= |refs| && Balanced(State(), other, hand)
      modifies this`refs, this`bytes, this`tables, this`ptes, this`mem
      ensures old(Managed()) ==> Managed()
      ensures Balanced(State(), other, hand)
      ensures ok ==> Forked(v0, State(), parent, child, lo, cand.page + 1) && Grown(old(refs), refs)
      ensures !ok ==> PageStopped(v0, old(State()), State(), parent, child, lo, cand.page)
      ensures ok <==> CanMap(old(State()), Addr(child, cand.page), pick, upper, lower)
    {
      ghost var v := State();
      ok := TryAllocPage(pick, if cand.pte.frame in bytes then bytes[cand.pte.frame] else []);
      if !ok {
        StoppedSame(v0, v, parent, child, lo, cand.page);
        return;
      }
      ok := MapCopy(parent, child, cand.page, pick, cand.pte.flags, upper, lower, v0, v, other, hand, lo);
      if !ok {
        ghost var w := State();
        GiveBackOne(pick, other, hand);
        StoppedRefs(v0, v, w, State(), parent, child, lo, cand.page);
      }
    }

    method CopyCandidate(parent: nat, child: nat, cand: Candidate, retained: bool, w: World, ranges: seq<Range>,
                         ghost v0: VM, ghost other: seq<nat>, ghost hand: multiset<Frame>,
                         ghost hand': multiset<Frame>, ghost lo: nat)
      returns (ok: bool, ranges': seq<Range>)
      requires Forked(v0, State(), parent, child, lo, cand.page) && lo <= cand.page && parent != child
      requires Addr(parent, cand.page) in v0.ptes && v0.ptes[Addr(parent, cand.page)] == cand.pte && NoneWritableCow(v0)
      requires RangesCover(ranges, v0, parent, lo, cand.page, cand.page) && Balanced(State(), other, hand)
      requires retained ==>
                 cand.pte.frame < |refs| && cand.pte.frame in hand && hand' == hand - multiset{cand.pte.frame}
      requires !retained ==> hand' == hand && (cand.pte.frame < |refs| ==> refs[cand.pte.frame] >= MAX_REFS)
      modifies this`refs, this`bytes, this`tables, this`ptes, this`mem
      ensures old(Managed()) ==> Managed()
      ensures Balanced(State(), other, hand')
      ensures ok ==> RangesCover(ranges', v0, parent, lo, cand.page + 1, cand.page + 1)
      ensures ok ==> Forked(v0, State(), parent, child, lo, cand.page + 1) && Grown(old(refs), refs)
      ensures !ok ==> Stopped(v0, old(State()), State(), w, parent, child, lo, cand.page, ranges')
    {
      assert SamePte(v0, State(), Addr(parent, cand.page));
      ok, ranges' := false, ranges;
      var p := cand.page;
      if retained {
        ok, ranges' := ShareCandidate(parent, child, cand, w.upper(p), w.lower(p), ranges, v0, other, hand, lo);
      } else if cand.pte.frame >= |refs| {
        ok := DuplicateCandidate(parent, child, cand, w.pick(p), w.upper(p), w.lower(p), v0, other, hand, lo);
      } else {
        StoppedSame(v0, State(), parent, child, lo, cand.page);
      }
    }

    /** The references of the candidates behind the one that failed go back. */
    method AbandonBatch(ghost parent: nat, ghost child: nat, cands: seq<Candidate>, mask: seq<bool>, i: nat,
                        ghost w: World, ghost b: Batch, ghost before: VM, ghost ranges: seq<Range>)
      requires i < |cands| == |mask| && Balanced(State(), b.other, Rest(cands, mask, i + 1))
      requires Stopped(b.v0, before, State(), w, parent, child, b.lo, cands[i].page, ranges)
      modifies this`refs, this`mem
      ensures old(Managed()) ==> Managed()
      ensures Balanced(State(), b.other, multiset{})
      ensures Stopped(b.v0, before, State(), w, parent, child, b.lo, cands[i].page, ranges)
    {
      ghost var v := State();
      ReleaseUnconsumed(cands, mask, i + 1, b.other);
      StoppedRefs(b.v0, before, v, State(), parent, child, b.lo, cands[i].page);
    }

    method TryCandidate(parent: nat, child: nat, cands: seq<Candidate>, mask: seq<bool>, i: nat, w: World,
                        ranges: seq<Range>, ghost b: Batch, ghost mid: nat)
      returns (ok: bool, ranges': seq<Range>, i': nat, ghost mid': nat)
      requires BatchOk(b, cands, mask, parent, child) && i < |cands| && b.start <= mid && Splits(cands, i, mid)
      requires BatchAt(b, State(), ranges, parent, child, i, mid)
      modifies this`refs, this`bytes, this`tables, this`ptes, this`mem
      ensures old(Managed()) ==> Managed()
      ensures i' == i + 1 && mid' == cands[i].page + 1
      ensures ok ==> BatchAt(b, State(), ranges', parent, child, i', mid')
      ensures !ok ==> Balanced(State(), b.other, Rest(cands, mask, i + 1))
      ensures !ok ==> Stopped(b.v0, old(State()), State(), w, parent, child, b.lo, cands[i].page, ranges')
    {
      BatchReady(b, cands, mask, State(), ranges, parent, child, i, mid);
      ghost var before := State();
      ok, ranges' := CopyCandidate(parent, child, cands[i], mask[i], w, ranges, b.v0, b.other,
                                   Rest(cands, mask, i), Rest(cands, mask, i + 1), b.lo);
      i', mid' := i + 1, cands[i].page + 1;
      if ok {
        BatchMoves(b, State(), before.refs, ranges', parent, child, i, cands[i].page, i', mid');
      }
    }

    /** The next candidate of a batch, or all of the failure clean-up of the batch. */
    method NextCandidate(parent: nat, child: nat, cands: seq<Candidate>, mask: seq<bool>, i: nat, w: World,
                         ranges: seq<Range>,
                         ghost b: Batch, ghost mid: nat)
      returns (ok: bool, ranges': seq<Range>, ghost before: VM, i': nat, ghost mid': nat)
      requires BatchOk(b, cands, mask, parent, child) && i < |cands| && b.start <= mid && Splits(cands, i, mid)
      requires BatchAt(b, State(), ranges, parent, child, i, mid)
      modifies this`refs, this`bytes, this`tables, this`ptes, this`mem
      ensures old(Managed()) ==> Managed()
      ensures i' == i + 1 && mid' == cands[i].page + 1
      ensures ok ==> BatchAt(b, State(), ranges', parent, child, i', mid')
      ensures !ok ==> Balanced(State(), b.other, multiset{})
      ensures !ok ==> Stopped(b.v0, before, State(), w, parent, child, b.lo, cands[i].page, ranges')
    {
      before := State();
      ok, ranges', i', mid' := TryCandidate(parent, child, cands, mask, i, w, ranges, b, mid);
      if !ok {
        AbandonBatch(parent, child, cands, mask, i, w, b, before, ranges');
      }
    }

    method CopyRetained(parent: nat, child: nat, cands: seq<Candidate>, mask: seq<bool>, w: World, ranges: seq<Range>,
                        ghost b: Batch)
      returns (ok: bool, at: nat, ranges': seq<Range>, ghost before: VM, ghost mid: nat)
      requires BatchOk(b, cands, mask, parent, child) && BatchAt(b, State(), ranges, parent, child, 0, b.start)
      modifies this`refs, this`bytes, this`tables, this`ptes, this`mem
      ensures old(Managed()) ==> Managed()
      ensures ok ==> BatchAt(b, State(), ranges', parent, child, |cands|, mid)
      ensures ok ==> b.start <= mid <= b.hi && Splits(cands, |cands|, mid)
      ensures !ok ==> Balanced(State(), b.other, multiset{})
      ensures !ok ==> b.start <= at < b.hi && Stopped(b.v0, before, State(), w, parent, child, b.lo, at, ranges')
    {
      ok, at, ranges', before, mid := true, 0, ranges, State(), b.start;
      var i := 0;
      while i < |cands|
        invariant i <= |cands| && b.start <= mid <= b.hi && Splits(cands, i, mid)
        invariant BatchAt(b, State(), ranges', parent, child, i, mid)
        invariant old(Managed()) ==> Managed()
      {
        at := cands[i].page;
        SplitsNext(b, cands, mask, parent, child, i);
        ok, ranges', before, i, mid := NextCandidate(parent, child, cands, mask, i, w, ranges', b, mid);
        if !ok {
          return;
        }
      }
      ok := true;
    }

    /** Copies the pages of one batch. On failure, `at` is the page that failed and the state still
        has the entries of `before`. */
    method CopyBatch(parent: nat, child: nat, start: nat, hi: nat, w: World, ranges: seq<Range>,
                     ghost v0: VM, ghost other: seq<nat>, ghost lo: nat)
      returns (ok: bool, at: nat, ranges': seq<Range>, ghost before: VM)
      requires Forked(v0, State(), parent, child, lo, start) && lo <= start <= hi && parent != child
      requires NoneWritableCow(v0) && Tally(v0, other, multiset{}) && Balanced(State(), other, multiset{})
      requires RangesCover(ranges, v0, parent, lo, start, start)
      modifies this`refs, this`bytes, this`tables, this`ptes, this`mem
      ensures old(Managed()) ==> Managed()
      ensures Balanced(State(), other, multiset{})
      ensures ok ==> Forked(v0, State(), parent, child, lo, hi) && RangesCover(ranges', v0, parent, lo, hi, hi)
      ensures !ok ==> start <= at < hi && Stopped(v0, before, State(), w, parent, child, lo, at, ranges')
    {
      var cands := ScanBatch(parent, start, hi);
      ListedSame(cands, v0, State(), other, parent, child, lo, start, hi);
      var mask := RetainCandidates(parent, child, cands, v0, other, lo, start, hi);
      ghost var b := Batch(v0, other, cands, mask, lo, start, hi);
      ghost var mid;
      ok, at, ranges', before, mid := CopyRetained(parent, child, cands, mask, w, ranges, b);
      if ok {
        GapSkip(cands, v0, State(), ranges', parent, child, lo, start, hi, |cands|, mid, hi);
      }
    }

    // ----- roll-back ---------------------------------------------------------------------------

    /** Gives write permission back on one page that still shows the copy-on-write mark. */
    method ReopenPage(parent: nat, p: nat, ghost v: VM, ghost pages: set<nat>, ghost other: seq<nat>)
      requires ReopensPages(v, State(), parent, pages) && Balanced(State(), other, multiset{})
      modifies this`ptes
      ensures old(Managed()) ==> Managed()
      ensures ReopensPages(v, State(), parent, pages + {p}) && Balanced(State(), other, multiset{})
    {
      var a := Addr(parent, p);
      if a in ptes && ptes[a].flags.cow {
        FlagsTally(State(), other, multiset{}, a, Pte(ptes[a].frame, Opened(ptes[a].flags)));
        ptes := ptes[a := Pte(ptes[a].frame, Opened(ptes[a].flags))];
      }
    }

    method FailCopy(parent: nat, ranges: seq<Range>, ghost other: seq<nat>)
      requires Balanced(State(), other, multiset{})
      modifies this`ptes
      ensures old(Managed()) ==> Managed()
      ensures Reopens(old(State()), State(), parent, ranges) && Balanced(State(), other, multiset{})
    {
      ghost var v := State();
      ghost var pages: set<nat> := {};
      for i := 0 to |ranges|
        invariant ReopensPages(v, State(), parent, pages) && Balanced(State(), other, multiset{})
                  && Exactly(pages, ranges[..i])
        invariant old(Managed()) ==> Managed()
      {
        ghost var done := pages;
        var p := ranges[i].start;
        while p < ranges[i].end
          invariant ranges[i].start <= p && (p <= ranges[i].end || p == ranges[i].start)
          invariant ReopensPages(v, State(), parent, pages) && Balanced(State(), other, multiset{})
          invariant forall q: nat :: q in pages <==> q in done || ranges[i].start <= q < p
          invariant old(Managed()) ==> Managed()
        {
          ReopenPage(parent, p, v, pages, other);
          pages := pages + {p};
          p := p + 1;
        }
        forall q: nat ensures q in pages <==> InRanges(ranges[..i + 1], q) {
          InRangesMore(ranges, i, q);
        }
      }
      assert ranges[..|ranges|] == ranges;
    }

    // ----- the whole copy ----------------------------------------------------------------------

    /** Undoes a copy that stopped at page `at`. */
    method RollBack(parent: nat, child: nat, at: nat, ranges: seq<Range>,
                    ghost w: World, ghost v0: VM, ghost before: VM, ghost other: seq<nat>, ghost lo: nat)
      requires Stopped(v0, before, State(), w, parent, child, lo, at, ranges) && parent != child && lo <= at
      requires NoneWritableCow(v0) && Balanced(State(), other, multiset{})
      modifies this`refs, this`ptes, this`mem
      ensures old(Managed()) ==> Managed()
      ensures FailedAt(v0, State(), parent, child, lo, at, reserved) && Balanced(State(), other, multiset{})
    {
      ghost var v1 := State();
      ghost var kept := VmUnmap(child, 0, at, true, other, multiset{});
      assert multiset{} + kept == multiset{};
      ghost var v2 := State();
      FailCopy(parent, ranges, other);
      FailRestores(v0, before, v1, v2, State(), parent, child, lo, at, reserved, ranges);
    }

    method CopyPages(parent: nat, child: nat, lo: nat, hi: nat, w: World, ghost other: seq<nat>)
      returns (r: int, ghost at: nat, ghost before: VM)
      requires lo <= hi && parent != child && NoneWritableCow(State()) && Balanced(State(), other, multiset{})
      modifies this`refs, this`bytes, this`tables, this`ptes, this`mem
      ensures old(Managed()) ==> Managed()
      ensures Balanced(State(), other, multiset{})
      ensures r >= 0 ==> Forked(old(State()), State(), parent, child, lo, hi)
      ensures r >= 0 ==> r == if Downgrades(old(State()), parent, lo, hi) then 1 else 0
      ensures r < 0 ==> r == -1 && lo <= at < hi && FailedAt(old(State()), State(), parent, child, lo, at, reserved)
      ensures r < 0 ==> Forked(old(State()), before, parent, child, lo, at) && Stuck(before, w, parent, child, at)
    {
      ghost var v0 := State();
      before := v0;
      var ranges, start := [], lo;
      at := lo;
      ForkedNone(v0, parent, child, lo);
      while start < hi
        invariant lo <= start <= hi && Forked(v0, State(), parent, child, lo, start)
        invariant Balanced(State(), other, multiset{}) && RangesCover(ranges, v0, parent, lo, start, start)
        invariant old(Managed()) ==> Managed()
      {
        var end := if hi - start > COW_RETAIN_BATCH_PAGES then start + COW_RETAIN_BATCH_PAGES else hi;
        var ok, stop;
        ok, stop, ranges, before := CopyBatch(parent, child, start, end, w, ranges, v0, other, lo);
        if !ok {
          at := stop;
          RollBack(parent, child, stop, ranges, w, v0, before, other, lo);
          return -1, at, before;
        }
        start := end;
      }
      RangesTell(ranges, v0, parent, lo, hi);
      r := if |ranges| > 0 then 1 else 0;
    }

    /** Copies the mappings of `[start, start + size)` from one table to another, sharing frames. */
    method VmCopy(parent: nat, child: nat, start: nat, size: nat, w: World, ghost other: seq<nat>)
      returns (r: int, ghost at: nat, ghost before: VM)
      requires start < WORD && size < WORD
      requires parent != child && NoneWritableCow(State()) && Balanced(State(), other, multiset{})
      modifies this`refs, this`bytes, this`tables, this`ptes, this`mem
      ensures old(Managed()) ==> Managed()
      ensures Balanced(State(), other, multiset{})
      ensures size == 0 || CopyHi(start, size) < CopyLo(start) ==>
                State() == old(State()) && r == if size == 0 then 0 else -1
      ensures size > 0 && CopyLo(start) <= CopyHi(start, size) && r >= 0 ==>
                && Forked(old(State()), State(), parent, child, CopyLo(start), CopyHi(start, size))
                && r == if Downgrades(old(State()), parent, CopyLo(start), CopyHi(start, size)) then 1 else 0
      ensures size > 0 && CopyLo(start) <= CopyHi(start, size) && r < 0 ==>
                && r == -1 && CopyLo(start) <= at < CopyHi(start, size)
                && FailedAt(old(State()), State(), parent, child, CopyLo(start), at, reserved)
                && Forked(old(State()), before, parent, child, CopyLo(start), at) && Stuck(before, w, parent, child, at)
    {
      at, before := 0, State();
      if size == 0 {
        return 0, 0, before;
      }
      var lo, hi := CopyLo(start), CopyHi(start, size);
      if hi < lo {
        return -1, 0, before;
      }
      r, at, before := CopyPages(parent, child, lo, hi, w, other);
    }

    // ----- teardown ----------------------------------------------------------------------------

    /** Gives one interior table back, with whatever entries are left in it. */
    method FreeTable(k: Table, ghost v: VM, ghost other: seq<nat>, ghost gone: set<Table>)
      requires Balanced(v, other, multiset{}) && State() == Without(v, gone) && k in tables
      modifies this`refs, this`tables, this`ptes, this`mem
      ensures old(Managed()) ==> Managed()
      ensures State() == Without(v, gone + {k})
    {
      DropTable(v, other, gone, k);
      FreePage(tables[k]);
      tables := tables - {k};
      ptes := EntriesBut(ptes, {k});
    }

    /** Gives the lower tables of one upper table back. */
    method FreeLower(space: nat, u: nat, ghost v: VM, ghost other: seq<nat>)
      requires Balanced(v, other, multiset{}) && State() == Without(v, Swept(v, space, u, 0))
      modifies this`refs, this`tables, this`ptes, this`mem
      ensures old(Managed()) ==> Managed()
      ensures State() == Without(v, Swept(v, space, u, ENTRIES))
    {
      for l := 0 to ENTRIES
        invariant old(Managed()) ==> Managed()
        invariant State() == Without(v, Swept(v, space, u, l))
      {
        var k := Table(space, 0, u * ENTRIES + l);
        SweptLower(v, space, u, l);
        if k in tables {
          FreeTable(k, v, other, Swept(v, space, u, l));
        }
      }
    }

    /** Gives one upper table back, its lower ones first. */
    method FreeUpper(space: nat, u: nat, ghost v: VM, ghost other: seq<nat>)
      requires Balanced(v, other, multiset{}) && State() == Without(v, Swept(v, space, u, 0)) && Rooted(v, space)
      modifies this`refs, this`tables, this`ptes, this`mem
      ensures old(Managed()) ==> Managed()
      ensures State() == Without(v, Swept(v, space, u + 1, 0))
    {
      var k := Table(space, 1, u);
      SweptUpper(v, space, u);
      if k in tables {
        FreeLower(space, u, v, other);
        FreeTable(k, v, other, Swept(v, space, u, ENTRIES));
      }
    }

    method FreeUppers(space: nat, ghost v: VM, ghost other: seq<nat>)
      requires Balanced(v, other, multiset{}) && State() == Without(v, Swept(v, space, 0, 0)) && Rooted(v, space)
      modifies this`refs, this`tables, this`ptes, this`mem
      ensures old(Managed()) ==> Managed()
      ensures State() == Without(v, Swept(v, space, ENTRIES, 0))
    {
      for u := 0 to ENTRIES
        invariant old(Managed()) ==> Managed()
        invariant State() == Without(v, Swept(v, space, u, 0))
      {
        FreeUpper(space, u, v, other);
      }
    }

    /** Gives all interior tables of a space back. Entries left in them are lost. */
    method FreeWalk(space: nat, ghost other: seq<nat>)
      requires Balanced(State(), other, multiset{}) && Rooted(State(), space)
      modifies this`refs, this`tables, this`ptes, this`mem
      ensures old(Managed()) ==> Managed()
      ensures State() == Without(old(State()), TablesOf(old(State()), space))
      ensures Balanced(State(), other, multiset{}) <==> NoneLeft(old(State()), space)
    {
      ghost var v := State();
      SweptAll(v, space);
      WithoutNone(v);
      TeardownExactly(v, other, space);
      FreeUppers(space, v, other);
    }
  }
}
