/** The physical page manager: a reference count for every page on top of the buddy allocator. */
module PhysicalMemory {
  import opened Dyadic
  import opened BuddyTree
  import opened Buddy

  const UINT16_MAX := 0xFFFF

  /** What the manager's state stands for: the live blocks and one count per page. */
  datatype Mem = Mem(live: set<Path>, refs: seq<nat>)

  /** A page's count is positive exactly when a live block holds the page. */
  ghost predicate RefsOk(g: Region, m: Mem) {
    && |m.refs| == g.pages
    && (forall p :: 0 <= p < g.pages ==> m.refs[p] <= UINT16_MAX && (m.refs[p] > 0 <==> Covered(g, m.live, p)))
  }

  ghost predicate MemOk(g: Region, m: Mem) {
    g.Ok() && LiveOk(g, m.live) && RefsOk(g, m)
  }

  /** The one-page block of a page. */
  ghost function Leaf(g: Region, p: int): (q: Path)
    requires g.Ok() && 0 <= p < g.pages
    ensures |q| == g.level && Offset(g.level, q) == p && Size(g.level, q) == 1
  {
    NodeAt(g.level, g.level, p)
  }

  ghost predicate SinglePage(g: Region, m: Mem, p: int) {
    g.Ok() && 0 <= p < g.pages && Leaf(g, p) in m.live
  }

  // ----- retain and release as functions -------------------------------------------------------

  ghost predicate CanRetain(g: Region, m: Mem, p: int) {
    0 <= p < |m.refs| && 0 < m.refs[p] < 0xFFFF
  }

  /** One `retain_page`. */
  ghost function Retain(g: Region, m: Mem, p: int): Mem {
    if CanRetain(g, m, p) then m.(refs := m.refs[p := m.refs[p] + 1]) else m
  }

  /** One `free_page` of a page that was allocated on its own; anything else is left alone. */
  ghost function Release(g: Region, m: Mem, p: int): Mem {
    if !SinglePage(g, m, p) || p >= |m.refs| || m.refs[p] == 0 then m
    else if m.refs[p] > 1 then m.(refs := m.refs[p := m.refs[p] - 1])
    else Mem(m.live - {Leaf(g, p)}, m.refs[p := 0])
  }

  ghost function RetainAll(g: Region, m: Mem, pages: seq<int>): Mem {
    if pages == [] then m
    else Retain(g, RetainAll(g, m, pages[..|pages| - 1]), pages[|pages| - 1])
  }

  ghost function ReleaseAll(g: Region, m: Mem, pages: seq<int>): Mem {
    if pages == [] then m
    else Release(g, ReleaseAll(g, m, pages[..|pages| - 1]), pages[|pages| - 1])
  }

  lemma LeafOnly(g: Region, live: set<Path>, p: int, q: Path)
    requires g.Ok() && LiveOk(g, live) && 0 <= p < g.pages && q in live && InRange(g.level, q, p)
    ensures Size(g.level, q) == 1 ==> q == Leaf(g, p)
    ensures Leaf(g, p) in live ==> q == Leaf(g, p)
  {
    Pow2Compare(0, g.level - |q|);
    if Size(g.level, q) == 1 {
      OffsetInjective(g.level, q, Leaf(g, p));
    }
    if Leaf(g, p) in live {
      HolderRelated(g, q, Leaf(g, p), p);
    }
  }

  lemma FreeNotSingle(g: Region, m: Mem, p: int)
    requires g.Ok() && IsFree(g, m.live, p)
    ensures !SinglePage(g, m, p)
  {
  }

  lemma CoveredWithout(g: Region, live: set<Path>, q: Path, p: int)
    requires LiveOk(g, live) && q in live
    ensures Covered(g, live - {q}, p) <==> Covered(g, live, p) && !InRange(g.level, q, p)
  {
    if Covered(g, live, p) && !InRange(g.level, q, p) {
      var r :| r in live && |r| <= g.level && InRange(g.level, r, p);
      assert r in live - {q};
    }
    if InRange(g.level, q, p) {
      GiveLive(g, live, q);
      assert IsFree(g, live - {q}, p);
    }
  }

  lemma CoveredWith(g: Region, live: set<Path>, q: Path, p: int)
    requires |q| <= g.level
    ensures Covered(g, live + {q}, p) <==> Covered(g, live, p) || InRange(g.level, q, p)
  {
  }

  lemma ReleaseKeepsOk(g: Region, m: Mem, p: int)
    requires MemOk(g, m)
    ensures MemOk(g, Release(g, m, p))
  {
    if SinglePage(g, m, p) && m.refs[p] == 1 {
      GiveLive(g, m.live, Leaf(g, p));
      forall x | 0 <= x < g.pages ensures Covered(g, m.live - {Leaf(g, p)}, x) <==> Covered(g, m.live, x) && x != p {
        CoveredWithout(g, m.live, Leaf(g, p), x);
      }
    }
  }

  /** A release undoes a retain, even of a page whose count was one. */
  lemma ReleaseUndoesRetain(g: Region, m: Mem, p: int)
    requires MemOk(g, m) && CanRetain(g, m, p) && SinglePage(g, m, p)
    ensures Release(g, Retain(g, m, p), p) == m
  {
  }

  /** The buddy's counter is the number of pages whose count is zero. */
  lemma FreeIsZeroCount(g: Region, m: Mem)
    requires MemOk(g, m)
    ensures FreeSet(g, m.live) == set p: int | 0 <= p < g.pages && m.refs[p] == 0
  {
  }

  ghost predicate AllOnes(g: Region, m: Mem, q: Path)
    requires |q| <= g.level
  {
    forall p :: InRange(g.level, q, p) ==> 0 <= p < |m.refs| && m.refs[p] == 1
  }

  /** Counts of the pages of `q` set to `n`. */
  ghost predicate SetRange(g: Region, refs: seq<nat>, refs': seq<nat>, q: Path, n: nat)
    requires |q| <= g.level
  {
    |refs'| == |refs| && forall p :: 0 <= p < |refs| ==> refs'[p] == if InRange(g.level, q, p) then n else refs[p]
  }

  lemma TakeKeepsOk(g: Region, m: Mem, q: Path, refs': seq<nat>)
    requires MemOk(g, m) && |q| <= g.level && AllFree(g, m.live, q) && SetRange(g, m.refs, refs', q, 1)
    ensures MemOk(g, Mem(m.live + {q}, refs'))
  {
    TakeLive(g, m.live, q);
    forall p | 0 <= p < g.pages ensures refs'[p] > 0 <==> Covered(g, m.live + {q}, p) {
      CoveredWith(g, m.live, q, p);
    }
  }

  lemma GiveKeepsOk(g: Region, m: Mem, q: Path, refs': seq<nat>)
    requires MemOk(g, m) && q in m.live && SetRange(g, m.refs, refs', q, 0)
    ensures MemOk(g, Mem(m.live - {q}, refs'))
  {
    GiveLive(g, m.live, q);
    forall p | 0 <= p < g.pages ensures refs'[p] > 0 <==> Covered(g, m.live - {q}, p) {
      CoveredWithout(g, m.live, q, p);
    }
  }

  /** The live block that holds a page. */
  ghost predicate Holds(g: Region, m: Mem, q: Path, p: int) {
    q in m.live && |q| <= g.level && InRange(g.level, q, p)
  }

  /** The caller errors on which `free_page` panics: a free page, the inside of a longer block, or a
      longer block one of whose pages is shared. */
  ghost predicate FreeMisuse(g: Region, m: Mem, p: int) {
    && 0 <= p < g.pages
    && forall q :: Holds(g, m, q, p) ==> Size(g.level, q) > 1 && (Offset(g.level, q) != p || !AllOnes(g, m, q))
  }

  /** What a successful `free_page` does to the state. */
  ghost predicate Freed(g: Region, m: Mem, m': Mem, p: int) {
    if !(0 <= p < g.pages) then m' == m
    else if SinglePage(g, m, p) then m' == Release(g, m, p)
    else exists q ::
        Holds(g, m, q, p) && Offset(g.level, q) == p && m'.live == m.live - {q} && SetRange(g, m.refs, m'.refs, q, 0)
  }

  /** A live block that starts at the page and none of whose pages is shared: what `free_pages` takes. */
  ghost predicate Unshared(g: Region, m: Mem, q: Path, p: int) {
    Holds(g, m, q, p) && Offset(g.level, q) == p && AllOnes(g, m, q)
  }

  /** What a successful `free_pages` does to the state. */
  ghost predicate BlockFreed(g: Region, m: Mem, m': Mem, p: int) {
    exists q :: Unshared(g, m, q, p) && m'.live == m.live - {q} && SetRange(g, m.refs, m'.refs, q, 0)
  }

  lemma HolderUnique(g: Region, m: Mem, q: Path, p: int)
    requires MemOk(g, m) && Holds(g, m, q, p)
    ensures forall r :: Holds(g, m, r, p) ==> r == q
  {
    forall r | Holds(g, m, r, p) ensures r == q {
      HolderRelated(g, r, q, p);
    }
  }

  /** A block just taken can be given back whole, and giving it back restores the state before. */
  lemma BlockFreeUndoesAlloc(g: Region, m: Mem, q: Path, m1: Mem, m2: Mem)
    requires MemOk(g, m) && |q| <= g.level && AllFree(g, m.live, q)
    requires m1.live == m.live + {q} && SetRange(g, m.refs, m1.refs, q, 1)
    ensures Unshared(g, m1, q, Offset(g.level, q))
    ensures BlockFreed(g, m1, m2, Offset(g.level, q)) ==> m2 == m
  {
    TakeKeepsOk(g, m, q, m1.refs);
    var p := Offset(g.level, q);
    assert InRange(g.level, q, p);
    assert q !in m.live by {
      assert IsFree(g, m.live, p);
    }
    HolderUnique(g, m1, q, p);
    if BlockFreed(g, m1, m2, p) {
      assert m2.refs == m.refs by {
        forall i | 0 <= i < |m.refs| ensures m2.refs[i] == m.refs[i] {
          if InRange(g.level, q, i) {
            assert IsFree(g, m.live, i);
          }
        }
      }
    }
  }

  /** Page `i` of a batch is in range but is not a page allocated on its own when its turn comes. */
  ghost predicate BatchMisuse(g: Region, m: Mem, pages: seq<int>, i: int) {
    0 <= i < |pages| && 0 <= pages[i] < g.pages && !SinglePage(g, ReleaseAll(g, m, pages[..i]), pages[i])
  }

  ghost predicate BatchClean(g: Region, m: Mem, pages: seq<int>, n: int) {
    forall i {:trigger BatchMisuse(g, m, pages, i)} :: 0 <= i < n ==> !BatchMisuse(g, m, pages, i)
  }

  lemma ReleaseAllStep(g: Region, m: Mem, pages: seq<int>, i: int)
    requires 0 <= i < |pages|
    ensures ReleaseAll(g, m, pages[..i + 1]) == Release(g, ReleaseAll(g, m, pages[..i]), pages[i])
  {
    assert pages[..i + 1][..i] == pages[..i];
  }

  lemma RetainAllStep(g: Region, m: Mem, pages: seq<int>, i: int)
    requires 0 <= i < |pages|
    ensures RetainAll(g, m, pages[..i + 1]) == Retain(g, RetainAll(g, m, pages[..i]), pages[i])
  {
    assert pages[..i + 1][..i] == pages[..i];
  }

  ghost predicate MaskOk(g: Region, m: Mem, pages: seq<int>, mask: seq<bool>) {
    && |mask| <= |pages|
    && forall i :: 0 <= i < |mask| ==> mask[i] == CanRetain(g, RetainAll(g, m, pages[..i]), pages[i])
  }

  lemma MaskMore(g: Region, m: Mem, pages: seq<int>, mask: seq<bool>, ok: bool)
    requires MaskOk(g, m, pages, mask) && |mask| < |pages|
    requires ok == CanRetain(g, RetainAll(g, m, pages[..|mask|]), pages[|mask|])
    ensures MaskOk(g, m, pages, mask + [ok])
  {
  }

  class PhysicalMemoryManager {
    const buddy: BuddySystem
    const refcounts: array<nat>

    ghost function Abs(): Mem
      reads buddy, refcounts
    {
      Mem(buddy.live, refcounts[..])
    }

    ghost function G(): Region
      reads buddy
    {
      buddy.G()
    }

    ghost predicate Valid()
      reads buddy, buddy.tree, refcounts
    {
      && buddy.Valid()
      && refcounts as object != buddy.tree as object
      && RefsOk(G(), Abs())
    }

    constructor (b: BuddySystem)
      requires b.Valid() && b.live == {}
      ensures Valid() && buddy == b && fresh(refcounts)
      ensures forall p :: 0 <= p < refcounts.Length ==> refcounts[p] == 0
    {
      buddy := b;
      refcounts := new nat[b.pageCount](_ => 0);
    }

    /** Sets the counts of a whole block. */
    method SetCounts(start: nat, blockPages: nat, n: nat, ghost q: Path)
      requires |q| <= buddy.level && start == Offset(buddy.level, q) && blockPages == Size(buddy.level, q)
      requires start + blockPages <= refcounts.Length
      modifies refcounts
      ensures SetRange(G(), old(refcounts[..]), refcounts[..], q, n)
    {
      var i := 0;
      while i < blockPages
        invariant 0 <= i <= blockPages
        invariant forall p :: 0 <= p < refcounts.Length ==>
          refcounts[p] == if start <= p < start + i then n else old(refcounts[p])
      {
        refcounts[start + i] := n;
        i := i + 1;
      }
    }

    /** A block of pages, each with count one; nothing when no aligned run is free. The checks for a
        live count and for an index outside the region can never fire. */
    method TryAllocPages(count: int) returns (r: int, ghost k: nat, ghost q: Path)
      requires Valid() && count < 0x8000_0000
      modifies buddy`live, buddy`freePageCount, buddy.tree, refcounts
      ensures Valid()
      ensures r == -1 ==> Abs() == old(Abs()) && (count > 0 ==> NoneAligned(G(), old(buddy.live), k))
      ensures count > 0 ==> count <= Pow2(k) && (k > 0 ==> Pow2(k - 1) < count)
      ensures r != -1 ==>
                && FirstFit(G(), old(buddy.live), k, q) && r == Offset(buddy.level, q)
                && buddy.live == old(buddy.live) + {q}
      ensures r != -1 ==> SetRange(G(), old(refcounts[..]), refcounts[..], q, 1)
      ensures r != -1 ==> forall p :: InRange(buddy.level, q, p) ==> 0 <= p < refcounts.Length && old(refcounts[p]) == 0
    {
      if count <= 0 {
        return -1, 0, [];
      }
      ghost var m := Abs();
      r, k, q := buddy.Alloc(count);
      if r == -1 {
        return;
      }
      forall p | InRange(buddy.level, q, p) ensures 0 <= p < refcounts.Length && m.refs[p] == 0 {
        assert IsFree(G(), m.live, p);
      }
      CountBlock(r, q);
      TakeKeepsOk(G(), m, q, refcounts[..]);
    }

    /** Gives each page of a fresh block count one; the query finds the block it just made. */
    method CountBlock(r: nat, ghost q: Path)
      requires buddy.Valid() && q in buddy.live && r == Offset(buddy.level, q) && refcounts.Length == buddy.pageCount
      modifies refcounts
      ensures SetRange(G(), old(refcounts[..]), refcounts[..], q, 1)
    {
      assert InRange(buddy.level, q, r);
      var block, q' := buddy.QueryPage(r);
      OnlyHolder(G(), buddy.live, q, r, q');
      assert block.inRange && !block.isFree && block.blockOffset == r;
      SetCounts(r, block.blockPages, 1, q);
    }

    /** One page with count one, or nothing when no page is free. */
    method TryAllocPage() returns (r: int, ghost q: Path)
      requires Valid()
      modifies buddy`live, buddy`freePageCount, buddy.tree, refcounts
      ensures Valid()
      ensures r == -1 ==> Abs() == old(Abs()) && NoneAligned(G(), old(buddy.live), 0)
      ensures r != -1 ==> 0 <= r < refcounts.Length && old(refcounts[r]) == 0
      ensures r != -1 ==> FirstFit(G(), old(buddy.live), 0, q) && r == Offset(buddy.level, q)
      ensures r != -1 ==> Abs() == Mem(old(buddy.live) + {q}, old(refcounts[..])[r := 1])
    {
      ghost var m := Abs();
      ghost var k;
      r, k, q := buddy.Alloc(0);
      Pow2Compare(0, k);
      if r == -1 {
        return;
      }
      assert IsFree(G(), m.live, r);
      refcounts[r] := 1;
      TakeKeepsOk(G(), m, q, refcounts[..]);
    }

    /** Clears the counts of a block, stopping at the first that is not one. */
    method ClearCounts(start: nat, blockPages: nat, ghost q: Path) returns (ok: bool)
      requires |q| <= buddy.level && start == Offset(buddy.level, q) && blockPages == Size(buddy.level, q)
      requires start + blockPages <= refcounts.Length
      modifies refcounts
      ensures ok <==> AllOnes(G(), old(Abs()), q)
      ensures ok ==> SetRange(G(), old(refcounts[..]), refcounts[..], q, 0)
    {
      var i := 0;
      while i < blockPages
        invariant 0 <= i <= blockPages
        invariant forall p :: start <= p < start + i ==> old(refcounts[p]) == 1
        invariant forall p :: 0 <= p < refcounts.Length ==>
                  refcounts[p] == if start <= p < start + i then 0 else old(refcounts[p])
      {
        if refcounts[start + i] != 1 {
          assert InRange(buddy.level, q, start + i);
          return false;
        }
        refcounts[start + i] := 0;
        i := i + 1;
      }
      ok := true;
    }

    /** Gives back a whole block whose pages all have count one. */
    method ReleaseBlock(start: nat, blockPages: nat, ghost q: Path) returns (ok: bool)
      requires Valid() && Holds(G(), Abs(), q, start)
      requires start == Offset(buddy.level, q) && blockPages == Size(buddy.level, q)
      modifies buddy`live, buddy`freePageCount, buddy.tree, refcounts
      ensures ok <==> AllOnes(G(), old(Abs()), q)
      ensures ok ==>
                Valid() && buddy.live == old(buddy.live) - {q} && SetRange(G(), old(refcounts[..]), refcounts[..], q, 0)
    {
      ghost var m := Abs();
      ok := ClearCounts(start, blockPages, q);
      if ok {
        GiveKeepsOk(G(), m, q, refcounts[..]);
        buddy.Free(start);
      }
    }

    method FreePage(page: int) returns (panicked: bool)
      requires Valid()
      modifies buddy`live, buddy`freePageCount, buddy.tree, refcounts
      ensures panicked <==> FreeMisuse(G(), old(Abs()), page)
      ensures !panicked ==> Valid() && Freed(G(), old(Abs()), Abs(), page)
    {
      ghost var m := Abs();
      if page < 0 || page >= refcounts.Length {
        return false;
      }
      var block, q := buddy.QueryPage(page);
      if !block.inRange || block.isFree {
        return true;
      }
      HolderUnique(G(), m, q, page);
      LeafOnly(G(), m.live, page, q);
      if block.blockPages > 1 {
        if block.blockOffset != page {
          return true;
        }
        var ok := ReleaseBlock(page, block.blockPages, q);
        return !ok;
      }
      ReleaseSingle(page);
      panicked := false;
    }

    /** Gives back a whole block. A single page must not be shared either. */
    method FreePages(page: int) returns (panicked: bool)
      requires Valid()
      modifies buddy`live, buddy`freePageCount, buddy.tree, refcounts
      ensures panicked <==> !exists q :: Unshared(G(), old(Abs()), q, page)
      ensures !panicked ==> Valid() && BlockFreed(G(), old(Abs()), Abs(), page)
    {
      ghost var m := Abs();
      if page < 0 {
        return true;
      }
      var block, q := buddy.QueryPage(page);
      if !block.inRange || block.isFree {
        return true;
      }
      HolderUnique(G(), m, q, page);
      if block.blockOffset != page {
        return true;
      }
      var ok := ReleaseBlock(page, block.blockPages, q);
      panicked := !ok;
      assert ok ==> Unshared(G(), m, q, page);
    }

    /** Drops one reference of a page allocated on its own. */
    method ReleaseSingle(page: nat)
      requires Valid() && SinglePage(G(), Abs(), page)
      modifies buddy`live, buddy`freePageCount, buddy.tree, refcounts
      ensures Valid() && Abs() == Release(G(), old(Abs()), page)
    {
      ghost var m := Abs();
      assert Holds(G(), m, Leaf(G(), page), page);
      ReleaseKeepsOk(G(), m, page);
      if refcounts[page] > 1 {
        refcounts[page] := refcounts[page] - 1;
      } else {
        refcounts[page] := 0;
        buddy.Free(page);
      }
    }

    method RetainPage(page: int) returns (ok: bool)
      requires Valid()
      modifies refcounts
      ensures Valid() && ok == CanRetain(G(), old(Abs()), page) && Abs() == Retain(G(), old(Abs()), page)
    {
      if page < 0 || page >= refcounts.Length {
        return false;
      }
      if refcounts[page] == 0 || refcounts[page] == UINT16_MAX {
        return false;
      }
      refcounts[page] := refcounts[page] + 1;
      ok := true;
    }

    /** The batch is the fold of the single retains; bit `i` tells whether retain `i` succeeded. */
    method RetainPagesBatch(pages: seq<int>) returns (mask: seq<bool>)
      requires Valid() && |pages| <= 64
      modifies refcounts
      ensures Valid() && Abs() == RetainAll(G(), old(Abs()), pages)
      ensures |mask| == |pages| && MaskOk(G(), old(Abs()), pages, mask)
    {
      ghost var g, m := G(), Abs();
      mask := [];
      var i := 0;
      while i < |pages|
        invariant 0 <= i <= |pages| && |mask| == i && Valid() && G() == g
        invariant Abs() == RetainAll(g, m, pages[..i])
        invariant MaskOk(g, m, pages, mask)
      {
        RetainAllStep(g, m, pages, i);
        var ok := RetainPage(pages[i]);
        MaskMore(g, m, pages, mask, ok);
        mask := mask + [ok];
        i := i + 1;
      }
      assert pages[..|pages|] == pages;
    }

    /** The batch is the fold of the single releases, for pages allocated on their own; a null page
        is passed as a negative index. */
    method ReleasePagesBatch(pages: seq<int>) returns (panicked: bool)
      requires Valid()
      modifies buddy`live, buddy`freePageCount, buddy.tree, refcounts
      ensures panicked <==> !BatchClean(G(), old(Abs()), pages, |pages|)
      ensures !panicked ==> Valid() && Abs() == ReleaseAll(G(), old(Abs()), pages)
    {
      ghost var g, m := G(), Abs();
      var i := 0;
      while i < |pages|
        invariant 0 <= i <= |pages| && Valid() && G() == g
        invariant Abs() == ReleaseAll(g, m, pages[..i])
        invariant BatchClean(g, m, pages, i)
      {
        ReleaseAllStep(g, m, pages, i);
        var bad := ReleaseBatched(pages[i]);
        assert bad == BatchMisuse(g, m, pages, i);
        if bad {
          return true;
        }
        i := i + 1;
      }
      assert pages[..|pages|] == pages;
      panicked := false;
    }

    method ReleaseBatched(page: int) returns (bad: bool)
      requires Valid()
      modifies buddy`live, buddy`freePageCount, buddy.tree, refcounts
      ensures Valid() && bad == (0 <= page < G().pages && !SinglePage(G(), old(Abs()), page))
      ensures Abs() == Release(G(), old(Abs()), page)
    {
      if page < 0 || page >= refcounts.Length {
        return false;
      }
      var block, q := buddy.QueryPage(page);
      if !block.inRange || block.isFree {
        FreeNotSingle(G(), Abs(), page);
        return true;
      }
      LeafOnly(G(), buddy.live, page, q);
      if block.blockPages != 1 || block.blockOffset != page {
        return true;
      }
      ReleaseSingle(page);
      bad := false;
    }
  }
}
