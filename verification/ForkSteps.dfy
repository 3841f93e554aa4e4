/** How a fork advances over the range page by page, and what its roll-back restores. */
module ForkSteps {
  import opened Frames
  import opened Cow

  /** A reference to a frame in use changes nothing the fork depends on. */
  lemma ForkedRetain(v0: VM, v: VM, parent: nat, child: nat, lo: nat, mid: nat, f: Frame)
    requires Forked(v0, v, parent, child, lo, mid) && !Free(v0, f)
    ensures Forked(v0, Retained(v, f), parent, child, lo, mid)
  {
    var v' := Retained(v, f);
    forall p: nat | lo <= p < mid ensures PageForked(v0, v', parent, child, p) {
      assert PageForked(v0, v, parent, child, p);
    }
    forall a | !InFork(parent, child, lo, mid, a) ensures SamePte(v0, v', a) {
      assert SamePte(v0, v, a);
    }
    forall g: Frame | !Free(v0, g) ensures Byte(v', g) == Byte(v0, g) {
      assert Byte(v, g) == Byte(v0, g);
    }
    forall g | 0 <= g < |v0.refs| ensures v'.refs[g] >= v0.refs[g] {
      assert v.refs[g] >= v0.refs[g];
    }
  }

  // ----- the walk ------------------------------------------------------------------------------

  lemma TableForMore(v0: VM, parent: nat, child: nat, lo: nat, p: nat, k: Table)
    requires lo <= p && Addr(parent, p) in v0.ptes
    ensures TableFor(v0, parent, child, lo, p, k) || k == UpperOf(Addr(child, p)) || k == LowerOf(Addr(child, p)) ==>
              TableFor(v0, parent, child, lo, p + 1, k)
  {
  }

  /** A table made on the way to page `p`. */
  lemma ForkingTable(v0: VM, v: VM, parent: nat, child: nat, lo: nat, p: nat, k: Table, pick: int)
    requires Forking(v0, v, parent, child, lo, p, p + 1) && lo <= p && Addr(parent, p) in v0.ptes
    requires k == UpperOf(Addr(child, p)) || k == LowerOf(Addr(child, p))
    ensures Forking(v0, WithTable(v, k, pick).0, parent, child, lo, p, p + 1)
  {
    var v' := WithTable(v, k, pick).0;
    OneTable(v, k, pick);
    forall f: Frame | !Free(v0, f) ensures Byte(v', f) == Byte(v0, f) {
      assert Byte(v, f) == Byte(v0, f);
      assert f < |v0.refs| ==> v.refs[f] >= v0.refs[f];
    }
    forall f | 0 <= f < |v0.refs| ensures v'.refs[f] >= v0.refs[f] {
      assert v.refs[f] >= v0.refs[f];
    }
    forall q: nat | lo <= q < p ensures PageForked(v0, v', parent, child, q) {
      assert PageForked(v0, v, parent, child, q);
      TableKeepsPage(v0, v, parent, child, q, k, pick);
    }
    forall a | !InFork(parent, child, lo, p, a) ensures SamePte(v0, v', a) {
      assert SamePte(v0, v, a);
    }
    forall j | j in v'.tables && j !in v0.tables ensures TableFor(v0, parent, child, lo, p + 1, j) {
      if j !in v.tables {
        TableForMore(v0, parent, child, lo, p, k);
      }
    }
  }

  lemma TableKeepsPage(v0: VM, v: VM, parent: nat, child: nat, q: nat, k: Table, pick: int)
    requires PageForked(v0, v, parent, child, q)
    ensures PageForked(v0, WithTable(v, k, pick).0, parent, child, q)
  {
  }

  /** The walk to the next page of the child. */
  lemma ForkingWalk(v0: VM, v: VM, parent: nat, child: nat, lo: nat, p: nat, upper: int, lower: int)
    requires Forked(v0, v, parent, child, lo, p) && lo <= p && Addr(parent, p) in v0.ptes
    ensures Forking(v0, Walked(v, Addr(child, p), upper, lower).0, parent, child, lo, p, p + 1)
  {
    var c := Addr(child, p);
    forall j | j in v.tables && j !in v0.tables ensures TableFor(v0, parent, child, lo, p + 1, j) {
      TableForMore(v0, parent, child, lo, p, j);
    }
    ForkingTable(v0, v, parent, child, lo, p, UpperOf(c), upper);
    var (v1, ok) := WithTable(v, UpperOf(c), upper);
    if ok {
      ForkingTable(v0, v1, parent, child, lo, p, LowerOf(c), lower);
    }
  }

  // ----- one page ------------------------------------------------------------------------------

  /** Both entries of page `p` replaced, nothing else. */
  ghost predicate PageSet(v: VM, v': VM, parent: nat, child: nat, p: nat, now: Pte, copy: Pte) {
    v' == v.(ptes := v.ptes[Addr(parent, p) := now][Addr(child, p) := copy])
  }

  lemma PageSetKeeps(v0: VM, v: VM, v': VM, parent: nat, child: nat, lo: nat, p: nat, now: Pte, copy: Pte)
    requires Forking(v0, v, parent, child, lo, p, p + 1) && PageSet(v, v', parent, child, p, now, copy) && lo <= p
    requires PageForked(v0, v', parent, child, p)
    ensures Forked(v0, v', parent, child, lo, p + 1)
  {
    forall a | !InFork(parent, child, lo, p + 1, a) ensures SamePte(v0, v', a) {
      assert SamePte(v0, v, a);
    }
    forall q: nat | lo <= q < p + 1 ensures PageForked(v0, v', parent, child, q) {
      if q < p {
        assert PageForked(v0, v, parent, child, q);
      }
    }
    forall g: Frame | !Free(v0, g) ensures Byte(v', g) == Byte(v0, g) {
      assert Byte(v, g) == Byte(v0, g);
    }
  }

  /** The next page is shared. */
  lemma ForkedShare(v0: VM, v: VM, v': VM, parent: nat, child: nat, lo: nat, p: nat)
    requires Forking(v0, v, parent, child, lo, p, p + 1) && lo <= p && parent != child && Built(v, Addr(child, p))
    requires Addr(parent, p) in v0.ptes && v0.ptes[Addr(parent, p)].frame < |v0.refs| && Addr(child, p) !in v.ptes
    requires var was := v0.ptes[Addr(parent, p)];
      PageSet(v, v', parent, child, p, was.(flags := Shared(was.flags)), was.(flags := Installed(Shared(was.flags))))
    ensures Forked(v0, v', parent, child, lo, p + 1)
  {
    var was := v0.ptes[Addr(parent, p)];
    assert SamePte(v0, v, Addr(child, p));
    PageSetKeeps(v0, v, v', parent, child, lo, p, was.(flags := Shared(was.flags)),
                 was.(flags := Installed(Shared(was.flags))));
  }

  /** A frame taken for a page, and not yet mapped. */
  lemma ForkedAlloc(v0: VM, v: VM, parent: nat, child: nat, lo: nat, p: nat, g: Frame, page: Page)
    requires Forked(v0, v, parent, child, lo, p) && Free(v, g)
    ensures Forked(v0, Allocated(v, g, page), parent, child, lo, p) && Free(v0, g)
  {
    var v' := Allocated(v, g, page);
    assert v.refs[g] >= v0.refs[g];
    forall f: Frame | !Free(v0, f) ensures Byte(v', f) == Byte(v0, f) {
      assert Byte(v, f) == Byte(v0, f);
    }
    forall f | 0 <= f < |v0.refs| ensures v'.refs[f] >= v0.refs[f] {
      assert v.refs[f] >= v0.refs[f];
    }
    forall q: nat | lo <= q < p ensures PageForked(v0, v', parent, child, q) {
      assert PageForked(v0, v, parent, child, q);
    }
    forall a | !InFork(parent, child, lo, p, a) ensures SamePte(v0, v', a) {
      assert SamePte(v0, v, a);
    }
  }

  /** The next page is copied into a frame that was free. */
  lemma ForkedCopy(v0: VM, v: VM, v': VM, parent: nat, child: nat, lo: nat, p: nat, g: Frame)
    requires Forking(v0, v, parent, child, lo, p, p + 1) && lo <= p && parent != child && Built(v, Addr(child, p))
    requires Addr(parent, p) in v0.ptes && v0.ptes[Addr(parent, p)].frame >= |v0.refs| && Addr(child, p) !in v.ptes
    requires CopiedInto(v0, v, v0.ptes[Addr(parent, p)].frame, g)
    requires v' == SetPte(v, Addr(child, p), Pte(g, Installed(v0.ptes[Addr(parent, p)].flags)))
    ensures Forked(v0, v', parent, child, lo, p + 1)
  {
    var was := v0.ptes[Addr(parent, p)];
    assert SamePte(v0, v, Addr(parent, p)) && SamePte(v0, v, Addr(child, p));
    assert v.ptes == v.ptes[Addr(parent, p) := was];
    PageSetKeeps(v0, v, v', parent, child, lo, p, was, Pte(g, Installed(was.flags)));
  }

  // ----- roll-back -----------------------------------------------------------------------------

  datatype Range = Range(start: nat, end: nat)

  ghost predicate InRange(r: Range, p: nat) {
    r.start <= p < r.end
  }

  ghost predicate InRanges(ranges: seq<Range>, p: nat) {
    exists i :: 0 <= i < |ranges| && InRange(ranges[i], p)
  }

  /** Adds a page to the list of changed ranges, growing the last range when it ends there. */
  function Record(ranges: seq<Range>, p: nat): seq<Range> {
    if |ranges| > 0 && ranges[|ranges| - 1].end == p
    then ranges[|ranges| - 1 := Range(ranges[|ranges| - 1].start, p + 1)]
    else ranges + [Range(p, p + 1)]
  }

  /** The parent's entry at `p` is one a fork takes write permission from. */
  ghost predicate Downgraded(v0: VM, parent: nat, p: nat) {
    var a := Addr(parent, p);
    a in v0.ptes && v0.ptes[a].frame < |v0.refs| && v0.ptes[a].flags.writable
  }

  /** The ranges hold every page before `mid` that lost write permission, and otherwise only pages
      before `end` that had it. */
  ghost predicate RangesCover(ranges: seq<Range>, v0: VM, parent: nat, lo: nat, mid: nat, end: nat) {
    && (forall i :: 0 <= i < |ranges| ==> ranges[i].start < ranges[i].end)
    && (forall p: nat {:trigger InRanges(ranges, p)} :: lo <= p < mid && Downgraded(v0, parent, p) ==>
         InRanges(ranges, p))
    && (forall p: nat {:trigger InRanges(ranges, p)} :: InRanges(ranges, p) ==>
         lo <= p < end && Downgraded(v0, parent, p))
  }

  lemma RecordAdds(ranges: seq<Range>, p: nat, q: nat)
    requires forall i :: 0 <= i < |ranges| ==> ranges[i].start < ranges[i].end
    ensures InRanges(Record(ranges, p), q) <==> InRanges(ranges, q) || q == p
  {
    var r := Record(ranges, p);
    if InRanges(ranges, q) {
      var i :| 0 <= i < |ranges| && InRange(ranges[i], q);
      assert InRange(r[i], q);
    }
    if q == p {
      assert InRange(r[|r| - 1], q);
    }
    if InRanges(r, q) && q != p {
      var i :| 0 <= i < |r| && InRange(r[i], q);
      assert InRange(ranges[i], q);
    }
  }

  lemma RecordCovers(ranges: seq<Range>, v0: VM, parent: nat, lo: nat, p: nat)
    requires RangesCover(ranges, v0, parent, lo, p, p) && Downgraded(v0, parent, p) && lo <= p
    ensures RangesCover(Record(ranges, p), v0, parent, lo, p + 1, p + 1)
  {
    forall q: nat ensures InRanges(Record(ranges, p), q) <==> InRanges(ranges, q) || q == p {
      RecordAdds(ranges, p, q);
    }
  }

  ghost function Reopened(p: Pte): Pte {
    if p.flags.cow then p.(flags := Opened(p.flags)) else p
  }

  /** Entries of the listed pages get write permission back. */
  ghost predicate ReopensPages(v: VM, v': VM, parent: nat, pages: set<nat>) {
    && v' == v.(ptes := v'.ptes) && v'.ptes.Keys == v.ptes.Keys
    && (forall a {:trigger v'.ptes[a]} :: a in v.ptes ==>
          v'.ptes[a] == if a.space == parent && a.page in pages then Reopened(v.ptes[a]) else v.ptes[a])
  }

  ghost predicate Exactly(pages: set<nat>, ranges: seq<Range>) {
    forall p: nat :: p in pages <==> InRanges(ranges, p)
  }

  ghost predicate Reopens(v: VM, v': VM, parent: nat, ranges: seq<Range>) {
    exists pages :: ReopensPages(v, v', parent, pages) && Exactly(pages, ranges)
  }

  lemma InRangesMore(ranges: seq<Range>, i: nat, p: nat)
    requires i < |ranges|
    ensures InRanges(ranges[..i + 1], p) <==> InRanges(ranges[..i], p) || InRange(ranges[i], p)
  {
  }

  /** The way back, from the state `v1` at the failure: the child unmapped, the recorded pages reopened. */
  ghost predicate RolledBack(v0: VM, v1: VM, v2: VM, v3: VM, parent: nat, child: nat, lo: nat, at: nat,
                             reserved: set<nat>, ranges: seq<Range>) {
    && Unmapped(v1, v2, child, 0, at, reserved) && Reopens(v2, v3, parent, ranges)
    && RangesCover(ranges, v0, parent, lo, at, at + 1)
  }

  lemma RestoredEntry(v0: VM, v: VM, v1: VM, v2: VM, v3: VM, parent: nat, child: nat, lo: nat, at: nat,
                      reserved: set<nat>, ranges: seq<Range>, a: Addr)
    requires NoneWritableCow(v0) && Forked(v0, v, parent, child, lo, at) && parent != child && lo <= at
    requires v1.ptes == v.ptes && RolledBack(v0, v1, v2, v3, parent, child, lo, at, reserved, ranges)
    requires a.space != child || (a.page < lo && a.page in reserved) || at <= a.page
    ensures SamePte(v0, v3, a)
  {
    var pages :| ReopensPages(v2, v3, parent, pages) && Exactly(pages, ranges);
    assert a in v2.ptes <==> a in v1.ptes;
    if InFork(parent, child, lo, at, a) {
      assert PageForked(v0, v, parent, child, a.page);
      assert Downgraded(v0, parent, a.page) <==> InRanges(ranges, a.page);
    } else {
      assert SamePte(v0, v, a);
      assert a in v0.ptes && a.space == parent && InRanges(ranges, a.page) ==> Downgraded(v0, parent, a.page);
    }
  }

  lemma FailRestores(v0: VM, v: VM, v1: VM, v2: VM, v3: VM, parent: nat, child: nat, lo: nat, at: nat,
                     reserved: set<nat>, ranges: seq<Range>)
    requires NoneWritableCow(v0) && Forked(v0, v, parent, child, lo, at) && parent != child && lo <= at
    requires v1.ptes == v.ptes && Kept(v0, v1) && TablesGrew(v, v1) && TablesFor(v0, v1, parent, child, lo, at + 1)
    requires RolledBack(v0, v1, v2, v3, parent, child, lo, at, reserved, ranges)
    ensures FailedAt(v0, v3, parent, child, lo, at, reserved)
  {
    var pages :| ReopensPages(v2, v3, parent, pages) && Exactly(pages, ranges);
    forall f: Frame | !Free(v0, f) ensures Byte(v3, f) == Byte(v0, f) {
      assert Byte(v1, f) == Byte(v0, f);
    }
    forall p: nat | lo <= p < at && Addr(parent, p) in v0.ptes ensures Built(v3, Addr(child, p)) {
      assert PageForked(v0, v, parent, child, p);
    }
    forall p: nat | lo <= p < at && p in reserved ensures Leftover(v0, v3, parent, child, p) {
      var c := Addr(child, p);
      assert PageForked(v0, v, parent, child, p);
      assert c in v2.ptes <==> c in v1.ptes;
    }
    forall a: Addr | a.space != child || (a.page < lo && a.page in reserved) || at <= a.page
      ensures SamePte(v0, v3, a)
    {
      RestoredEntry(v0, v, v1, v2, v3, parent, child, lo, at, reserved, ranges, a);
    }
  }

  /** No entry of the child below the failing page that unmapping takes, and no entry of the parent on a
      reserved page of the copied range. */
  ghost predicate NothingToLose(v0: VM, parent: nat, child: nat, lo: nat, at: nat, reserved: set<nat>) {
    && (forall p: nat :: p < at && p !in reserved ==> Addr(child, p) !in v0.ptes)
    && NoneReserved(v0, parent, lo, at, reserved)
  }

  /** The child has the tables for every page of the range that the parent maps. */
  ghost predicate TablesThere(v0: VM, parent: nat, child: nat, lo: nat, hi: nat) {
    forall p: nat {:trigger Built(v0, Addr(child, p))} ::
      lo <= p < hi && Addr(parent, p) in v0.ptes ==> Built(v0, Addr(child, p))
  }

  /** Every count is what it was, but for the frames of interior tables. */
  ghost predicate CountsButTables(v0: VM, v: VM) {
    && |v.refs| == |v0.refs|
    && forall f {:trigger v.refs[f]} :: 0 <= f < |v0.refs| ==>
         v.refs[f] + Count(v0.tables, f) == v0.refs[f] + Count(v.tables, f)
  }

  lemma LostUnless(v0: VM, v: VM, parent: nat, child: nat, lo: nat, at: nat, reserved: set<nat>)
    requires FailedAt(v0, v, parent, child, lo, at, reserved) && v.ptes == v0.ptes
    ensures NothingToLose(v0, parent, child, lo, at, reserved)
  {
    forall p: nat | p < at && p !in reserved ensures Addr(child, p) !in v0.ptes {
      assert Doomed(child, 0, at, reserved, Addr(child, p));
    }
    forall p: nat | lo <= p < at && p in reserved ensures Addr(parent, p) !in v0.ptes {
      assert Leftover(v0, v, parent, child, p);
    }
  }

  lemma KeptWhen(v0: VM, v: VM, parent: nat, child: nat, lo: nat, at: nat, reserved: set<nat>)
    requires FailedAt(v0, v, parent, child, lo, at, reserved) && NothingToLose(v0, parent, child, lo, at, reserved)
    ensures v.ptes == v0.ptes
  {
    forall a ensures SamePte(v0, v, a) {
      FailedEntry(v0, v, parent, child, lo, at, reserved, a);
      if Doomed(child, 0, at, reserved, a) {
        assert a == Addr(child, a.page);
      }
    }
    forall a ensures a in v.ptes <==> a in v0.ptes {
      assert SamePte(v0, v, a);
    }
    forall a | a in v.ptes ensures v.ptes[a] == v0.ptes[a] {
      assert SamePte(v0, v, a);
    }
  }

  lemma SameOwnersCounts(v0: VM, v: VM, other: seq<nat>)
    requires Tally(v0, other, multiset{}) && Tally(v, other, multiset{})
    requires v.ptes == v0.ptes && v.overlays == v0.overlays
    ensures CountsButTables(v0, v)
  {
    forall f | 0 <= f < |v0.refs| ensures v.refs[f] + Count(v0.tables, f) == v0.refs[f] + Count(v.tables, f) {
      assert v0.refs[f] == Owners(v0, f) + other[f] && v.refs[f] == Owners(v, f) + other[f];
    }
  }

  /** A table more shows in the count of its frame. */
  lemma TableShows(v0: VM, v: VM, k: Table)
    requires TablesAlone(v) && TablesGrew(v0, v) && CountsButTables(v0, v) && k in v.tables && k !in v0.tables
    ensures v.refs[v.tables[k]] > v0.refs[v.tables[k]]
  {
    CountExtends(v0.tables, v.tables, k);
  }

  lemma SameCountsTables(v0: VM, v: VM)
    requires TablesAlone(v) && TablesGrew(v0, v) && CountsButTables(v0, v) && v.refs == v0.refs
    ensures v.tables == v0.tables
  {
    forall k | k in v.tables ensures k in v0.tables {
      if k !in v0.tables {
        TableShows(v0, v, k);
      }
    }
  }

  lemma TableThere(v0: VM, parent: nat, child: nat, lo: nat, hi: nat, k: Table)
    requires TableFor(v0, parent, child, lo, hi, k) && TablesThere(v0, parent, child, lo, hi)
    ensures k in v0.tables
  {
    var p: nat :| lo <= p < hi && Addr(parent, p) in v0.ptes
                  && (k == UpperOf(Addr(child, p)) || k == LowerOf(Addr(child, p)));
    assert Built(v0, Addr(child, p));
  }

  /** After a failed fork the tables of entries and overlays, and every count but those of interior tables, are as
      they were if and only if there was nothing to lose. In any case no byte of a frame in use changed. */
  lemma AllOrNothing(v0: VM, v: VM, other: seq<nat>, parent: nat, child: nat, lo: nat, at: nat, reserved: set<nat>)
    requires Tally(v0, other, multiset{}) && Tally(v, other, multiset{})
    requires FailedAt(v0, v, parent, child, lo, at, reserved)
    ensures v.ptes == v0.ptes && CountsButTables(v0, v) <==> NothingToLose(v0, parent, child, lo, at, reserved)
    ensures forall f: Frame {:trigger Byte(v, f)} :: !Free(v0, f) ==> Byte(v, f) == Byte(v0, f)
  {
    if NothingToLose(v0, parent, child, lo, at, reserved) {
      KeptWhen(v0, v, parent, child, lo, at, reserved);
      SameOwnersCounts(v0, v, other);
    } else if v.ptes == v0.ptes {
      LostUnless(v0, v, parent, child, lo, at, reserved);
    }
  }

  /** Every count is back exactly when, besides, no interior table was made; and none was made if the child had all
      tables up to the page that failed, and only if it had all those before it. */
  lemma TablesStay(v0: VM, v: VM, other: seq<nat>, parent: nat, child: nat, lo: nat, at: nat, reserved: set<nat>)
    requires Tally(v0, other, multiset{}) && Tally(v, other, multiset{})
    requires FailedAt(v0, v, parent, child, lo, at, reserved)
    ensures v.ptes == v0.ptes && v.refs == v0.refs <==>
              NothingToLose(v0, parent, child, lo, at, reserved) && v.tables == v0.tables
    ensures TablesThere(v0, parent, child, lo, at + 1) ==> v.tables == v0.tables
    ensures v.tables == v0.tables ==> TablesThere(v0, parent, child, lo, at)
    ensures NothingToLose(v0, parent, child, lo, at, reserved) && v.tables == v0.tables ==> OnlyFreeBytes(v0, v)
  {
    AllOrNothing(v0, v, other, parent, child, lo, at, reserved);
    if v.ptes == v0.ptes && v.refs == v0.refs {
      SameOwnersCounts(v0, v, other);
      SameCountsTables(v0, v);
    }
    if NothingToLose(v0, parent, child, lo, at, reserved) && v.tables == v0.tables {
      TallyDetermines(v0, v, other);
    }
    if TablesThere(v0, parent, child, lo, at + 1) {
      forall k | k in v.tables ensures k in v0.tables {
        if TableFor(v0, parent, child, lo, at + 1, k) {
          TableThere(v0, parent, child, lo, at + 1, k);
        }
      }
    }
    if v.tables == v0.tables {
      forall p: nat | lo <= p < at && Addr(parent, p) in v0.ptes ensures Built(v0, Addr(child, p)) {
        assert Built(v, Addr(child, p));
      }
    }
  }

  // ----- failing states ------------------------------------------------------------------------

  /** Page 5 of space 0, writable, before its fork into space 1, which makes two tables. */
  ghost function Single(): Pte {
    Pte(0, Flags(true, true, false, false, false, 0))
  }

  ghost function BeforeFork(): VM {
    VM([1, 0, 0], map[], map[Addr(0, 5) := Single()], map[], {}, map[], {})
  }

  ghost function ChildPte(): Pte {
    Single().(flags := Installed(Shared(Single().flags)))
  }

  /** After the fork, with the parent's entry `now` and with or without the child's. */
  ghost function AfterFork(now: Pte, child: bool): VM {
    var ptes := map[Addr(0, 5) := now];
    VM([if child then 2 else 1, 1, 1], map[], if child then ptes[Addr(1, 5) := ChildPte()] else ptes, map[], {},
       map[Table(1, 1, 0) := 1][Table(1, 0, 0) := 2], {})
  }

  ghost function SharedPte(): Pte {
    Single().(flags := Shared(Single().flags))
  }

  lemma ForkOfOne()
    ensures Forked(BeforeFork(), AfterFork(SharedPte(), true), 0, 1, 5, 6)
  {
    var v0, v := BeforeFork(), AfterFork(SharedPte(), true);
    assert PageForked(v0, v, 0, 1, 5);
    forall k | k in v.tables && k !in v0.tables ensures TableFor(v0, 0, 1, 5, 6, k) {
      assert Addr(0, 5) in v0.ptes && (k == UpperOf(Addr(1, 5)) || k == LowerOf(Addr(1, 5)));
    }
  }

  lemma OwnersOfOne(now: Pte, child: bool, f: Frame)
    requires now.frame == 0
    ensures Owners(BeforeFork(), f) == if f == 0 then 1 else 0
    ensures Owners(AfterFork(now, child), f) == if f == 0 then (if child then 2 else 1) else if f <= 2 then 1 else 0
  {
    var m: map<Addr, Frame> := map[Addr(0, 5) := 0];
    CountPut(map[], Addr(0, 5), 0, f);
    CountPut(m, Addr(1, 5), 0, f);
    CountPut(map[], Table(1, 1, 0), 1, f);
    CountPut(map[Table(1, 1, 0) := 1], Table(1, 0, 0), 2, f);
    assert FrameOf(BeforeFork().ptes) == m;
    assert FrameOf(AfterFork(now, child).ptes) == if child then m[Addr(1, 5) := 0] else m;
  }

  lemma TallyOfOne(now: Pte, child: bool, v: VM)
    requires now.frame == 0 && (v == BeforeFork() || v == AfterFork(now, child))
    ensures Tally(v, [0, 0, 0], multiset{})
  {
    var other := [0, 0, 0];
    forall f | 0 <= f < |v.refs| ensures v.refs[f] == Owners(v, f) + other[f] + multiset{}[f] {
      OwnersOfOne(now, child, f);
    }
  }

  lemma RollBackOfOne(reserved: set<nat>)
    ensures FailedAt(BeforeFork(), AfterFork(Single(), 5 in reserved), 0, 1, 5, 6, reserved)
  {
    var keep, ranges := 5 in reserved, [Range(5, 6)];
    var v, v2, v3 := AfterFork(SharedPte(), true), AfterFork(SharedPte(), keep), AfterFork(Single(), keep);
    ForkOfOne();
    assert InRange(ranges[0], 5);
    assert ReopensPages(v2, v3, 0, {5}) && Exactly({5}, ranges);
    assert TableFor(BeforeFork(), 0, 1, 5, 7, Table(1, 1, 0)) && TableFor(BeforeFork(), 0, 1, 5, 7, Table(1, 0, 0));
    FailRestores(BeforeFork(), v, v, v2, v3, 0, 1, 5, 6, reserved, ranges);
  }

  /** A fork that fails behind a reserved page: the child keeps that page and its reference, and the parent
      can write it again. */
  lemma ReservedPageStays() returns (v0: VM, v: VM)
    ensures FailedAt(v0, v, 0, 1, 5, 6, {5}) && Tally(v0, [0, 0, 0], multiset{}) && Tally(v, [0, 0, 0], multiset{})
    ensures v.ptes != v0.ptes && v.refs[0] == v0.refs[0] + 1 && Apart(v0, true) && !Apart(v, false)
  {
    v0, v := BeforeFork(), AfterFork(Single(), true);
    RollBackOfOne({5});
    TallyOfOne(Single(), true, v0);
    TallyOfOne(Single(), true, v);
    assert Addr(1, 5) in v.ptes && v.ptes[Addr(0, 5)].frame == v.ptes[Addr(1, 5)].frame;
  }

  /** A fork into an empty child that fails behind its first page: there was nothing to lose, and yet the child's
      two new tables keep their frames. */
  lemma NewTablesStay() returns (v0: VM, v: VM)
    ensures FailedAt(v0, v, 0, 1, 5, 6, {}) && Tally(v0, [0, 0, 0], multiset{}) && Tally(v, [0, 0, 0], multiset{})
    ensures NothingToLose(v0, 0, 1, 5, 6, {}) && v.ptes == v0.ptes && v.refs == [1, 1, 1] && v0.refs == [1, 0, 0]
  {
    v0, v := BeforeFork(), AfterFork(Single(), false);
    RollBackOfOne({});
    TallyOfOne(Single(), false, v0);
    TallyOfOne(Single(), false, v);
  }
}
