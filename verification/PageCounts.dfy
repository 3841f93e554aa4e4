/** The counts that page-table code works with are those of the physical page manager, call by call, and none
    of its releases makes the manager panic. */
module PageCounts {
  import opened Frames
  import opened BuddyTree
  import P = PhysicalMemory

  /** The page manager has these counts, and of the pages in use exactly those of `blocks` were not allocated on
      their own. */
  ghost predicate Agrees(g: Region, m: P.Mem, refs: seq<nat>, blocks: set<Frame>) {
    && P.MemOk(g, m) && refs == m.refs && (forall f :: f in blocks ==> f < |refs| && refs[f] > 0)
    && forall p {:trigger P.SinglePage(g, m, p)} :: 0 <= p < g.pages && m.refs[p] > 0 ==>
         (P.SinglePage(g, m, p) <==> p !in blocks)
  }

  ghost function Agreeing(g: Region, blocks: set<Frame>): iset<(P.Mem, seq<nat>)> {
    iset s: (P.Mem, seq<nat>) | Agrees(g, s.0, s.1, blocks)
  }

  ghost predicate Linked(g: Region, m: P.Mem, v: VM) {
    Agrees(g, m, v.refs, v.blocks)
  }

  /** One retain, on both sides. */
  lemma LinkedRetain(g: Region, m: P.Mem, v: VM, f: Frame)
    requires Linked(g, m, v)
    ensures CanRetain(v, f) <==> P.CanRetain(g, m, f)
    ensures Linked(g, P.Retain(g, m, f), Retained(v, f))
  {
    var m' := P.Retain(g, m, f);
    forall p | 0 <= p < g.pages && m'.refs[p] > 0 ensures P.SinglePage(g, m', p) <==> p !in v.blocks {
      assert P.SinglePage(g, m, p) <==> p !in v.blocks;
    }
  }

  lemma StaysSingle(g: Region, m: P.Mem, f: int, p: int)
    requires P.MemOk(g, m) && 0 <= p < g.pages && P.Release(g, m, f).refs[p] > 0
    ensures P.SinglePage(g, P.Release(g, m, f), p) <==> P.SinglePage(g, m, p)
  {
  }

  /** One release that is not a misuse, on both sides; the page manager does not panic. */
  lemma LinkedRelease(g: Region, m: P.Mem, v: VM, f: Frame)
    requires Linked(g, m, v) && Droppable(v, f)
    ensures f < g.pages ==> P.SinglePage(g, m, f)
    ensures Linked(g, P.Release(g, m, f), Released(v, f))
  {
    var m' := P.Release(g, m, f);
    P.ReleaseKeepsOk(g, m, f);
    assert f < g.pages ==> P.SinglePage(g, m, f);
    forall p | 0 <= p < g.pages && m'.refs[p] > 0 ensures P.SinglePage(g, m', p) <==> p !in v.blocks {
      StaysSingle(g, m, f, p);
    }
  }

  /** A frame free to copy into is a page that no live block holds. */
  lemma SameFree(g: Region, m: P.Mem, v: VM, p: nat)
    requires Linked(g, m, v) && p < g.pages
    ensures Free(v, p) <==> !Covered(g, m.live, p)
  {
  }

  ghost function Taken(g: Region, m: P.Mem, f: Frame): P.Mem
    requires g.Ok() && f < g.pages == |m.refs|
  {
    P.Mem(m.live + {P.Leaf(g, f)}, m.refs[f := 1])
  }

  /** A page from the allocator, on both sides. */
  lemma LinkedAlloc(g: Region, m: P.Mem, v: VM, f: Frame, page: Page)
    requires Linked(g, m, v) && f < g.pages && Free(v, f)
    ensures Linked(g, Taken(g, m, f), Allocated(v, f, page))
  {
    var m' := Taken(g, m, f);
    P.TakeKeepsOk(g, m, P.Leaf(g, f), m'.refs);
    forall p | 0 <= p < g.pages && m'.refs[p] > 0 ensures P.SinglePage(g, m', p) <==> p !in v.blocks {
      if p != f {
        assert P.SinglePage(g, m, p) <==> p !in v.blocks;
        assert P.Leaf(g, p) != P.Leaf(g, f);
      }
    }
  }

  // ----- batches -------------------------------------------------------------------------------

  ghost function RetainedAll(v: VM, frames: seq<Frame>): VM {
    if frames == [] then v else Retained(RetainedAll(v, frames[..|frames| - 1]), frames[|frames| - 1])
  }

  lemma CleanMore(g: Region, m: P.Mem, pages: seq<Frame>)
    requires pages != []
    requires var n := |pages| - 1;
      && P.BatchClean(g, m, pages[..n], n)
      && (pages[n] < g.pages ==> P.SinglePage(g, P.ReleaseAll(g, m, pages[..n]), pages[n]))
    ensures P.BatchClean(g, m, pages, |pages|)
  {
    var n := |pages| - 1;
    forall i | 0 <= i < |pages| ensures !P.BatchMisuse(g, m, pages, i) {
      if i < n {
        assert pages[..n][..i] == pages[..i];
        assert !P.BatchMisuse(g, m, pages[..n], i);
      }
    }
  }

  /** A batch of references in hand: the page manager releases all of them without a panic, and both sides
      agree afterwards. */
  lemma {:induction false} ReleaseBatch(g: Region, m: P.Mem, v: VM, other: seq<nat>, hand: multiset<Frame>,
                                        pages: seq<Frame>)
    requires Linked(g, m, v) && Tally(v, other, hand + multiset(pages))
    ensures P.BatchClean(g, m, pages, |pages|)
    ensures Linked(g, P.ReleaseAll(g, m, pages), ReleasedAll(v, pages)) && Tally(ReleasedAll(v, pages), other, hand)
    decreases |pages|
  {
    if pages == [] {
      assert hand + multiset(pages) == hand;
    } else {
      var n := |pages| - 1;
      var last := multiset{pages[n]};
      assert pages == pages[..n] + [pages[n]];
      assert hand + multiset(pages) == (hand + last) + multiset(pages[..n]);
      ReleaseBatch(g, m, v, other, hand + last, pages[..n]);
      ReleaseTally(ReleasedAll(v, pages[..n]), other, hand + last, pages[n]);
      LinkedRelease(g, P.ReleaseAll(g, m, pages[..n]), ReleasedAll(v, pages[..n]), pages[n]);
      assert hand + last - last == hand;
      CleanMore(g, m, pages);
    }
  }

  /** A batch of retains: both sides agree on each and afterwards. */
  lemma {:induction false} RetainBatch(g: Region, m: P.Mem, v: VM, pages: seq<Frame>)
    requires Linked(g, m, v)
    ensures Linked(g, P.RetainAll(g, m, pages), RetainedAll(v, pages))
  {
    if pages != [] {
      var n := |pages| - 1;
      RetainBatch(g, m, v, pages[..n]);
      LinkedRetain(g, P.RetainAll(g, m, pages[..n]), RetainedAll(v, pages[..n]), pages[n]);
    }
  }
}
