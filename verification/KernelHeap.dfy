/** The kernel heap on its page allocator: chunks are live blocks of the buddy system, so that they never
    overlap, and an emptied chunk's pages go back. */
module KernelHeap {
  import opened Dyadic
  import opened BuddyTree
  import opened Buddy
  import opened Liballoc

  const UINT32_MAX := 0xFFFF_FFFF

  // ----- chunks and pages ----------------------------------------------------------------------

  /** Block `q` of the buddy system at address `base` holds the chunk. */
  ghost predicate HoldsChunk(g: Region, base: nat, q: Path, c: Chunk) {
    |q| <= g.level && c.base == base + Offset(g.level, q) * PGSIZE && c.size <= Size(g.level, q) * PGSIZE
  }

  ghost function SetOf(paths: seq<Path>): set<Path> {
    set q | q in paths
  }

  /** Every chunk lies in a live block, and there are no other live blocks. */
  ghost predicate Backed(g: Region, live: set<Path>, base: nat, cs: seq<Chunk>, paths: seq<Path>) {
    && |paths| == |cs| && live == SetOf(paths)
    && forall m {:trigger cs[m]} {:trigger paths[m]} :: 0 <= m < |cs| ==> HoldsChunk(g, base, paths[m], cs[m])
  }

  lemma NotBoth(g: Region, live: set<Path>, p: Path, q: Path, page: int)
    requires |p| <= g.level && |q| <= g.level && p in live && AllFree(g, live, q)
    ensures !(InRange(g.level, p, page) && InRange(g.level, q, page))
  {
    if InRange(g.level, p, page) {
      assert Covered(g, live, page);
      assert !IsFree(g, live, page);
    }
  }

  /** A live block and a free one share no page. */
  lemma PagesApart(g: Region, live: set<Path>, p: Path, q: Path)
    requires |p| <= g.level && |q| <= g.level && p in live && AllFree(g, live, q)
    ensures var (a, b) := (Offset(g.level, p), Offset(g.level, q));
      a + Size(g.level, p) <= b || b + Size(g.level, q) <= a
  {
    var a, b := Offset(g.level, p), Offset(g.level, q);
    NotBoth(g, live, p, q, if a < b then b else a);
  }

  lemma OfferFits(g: Region, live: set<Path>, base: nat, cs: seq<Chunk>, paths: seq<Path>, q: Path, k: nat, size: nat)
    requires base > 0 && Backed(g, live, base, cs, paths) && FirstFit(g, live, k, q) && NewPages(size) <= Pow2(k)
    ensures OfferOk(cs, base + Offset(g.level, q) * PGSIZE, size)
    ensures HoldsChunk(g, base, q, NewChunk(base + Offset(g.level, q) * PGSIZE, size))
  {
    var c := NewChunk(base + Offset(g.level, q) * PGSIZE, size);
    forall m | 0 <= m < |cs| ensures ChunksApart(cs[m], c) {
      assert HoldsChunk(g, base, paths[m], cs[m]);
      PagesApart(g, live, paths[m], q);
    }
  }

  /** Chunks that hold a byte lie in different blocks. */
  lemma PathsDistinct(g: Region, live: set<Path>, base: nat, cs: seq<Chunk>, paths: seq<Path>, m: nat, n: nat)
    requires HeapOk(cs) && Backed(g, live, base, cs, paths) && m < |cs| && n < |cs| && m != n
    ensures paths[m] != paths[n]
  {
    assert cs[m].base > 0 && cs[n].base > 0;
    assert ChunkOk(cs[m]) && ChunkOk(cs[n]);
    assert GapStart(cs[m], 0) <= GapEnd(cs[m], 0) && GapStart(cs[n], 0) <= GapEnd(cs[n], 0);
    GapWithinFree(cs[m], 0);
    GapWithinFree(cs[n], 0);
    if m < n {
      assert ChunksApart(cs[m], cs[n]);
    } else {
      assert ChunksApart(cs[n], cs[m]);
    }
  }

  lemma SetMore(paths: seq<Path>, q: Path)
    ensures SetOf(paths + [q]) == SetOf(paths) + {q}
  {
  }

  lemma SetLess(paths: seq<Path>, m: nat)
    requires m < |paths| && forall x :: 0 <= x < |paths| && x != m ==> paths[x] != paths[m]
    ensures SetOf(paths[..m] + paths[m + 1..]) == SetOf(paths) - {paths[m]}
  {
    var rest := paths[..m] + paths[m + 1..];
    forall q | q in paths && q != paths[m] ensures q in rest {
      var y :| 0 <= y < |paths| && paths[y] == q;
      assert rest[if y < m then y else y - 1] == q;
    }
    forall q | q in rest ensures q in paths && q != paths[m] {
      var x :| 0 <= x < |rest| && rest[x] == q;
      assert paths[if x < m then x else x + 1] == q;
    }
  }

  lemma WithoutPath(g: Region, live: set<Path>, base: nat, cs: seq<Chunk>, paths: seq<Path>, m: nat)
    requires HeapOk(cs) && Backed(g, live, base, cs, paths) && Fits32(cs) && m < |cs|
    ensures Backed(g, live - {paths[m]}, base, cs[..m] + cs[m + 1..], paths[..m] + paths[m + 1..])
    ensures Fits32(cs[..m] + cs[m + 1..]) && paths[m] in live
  {
    forall x | 0 <= x < |paths| && x != m ensures paths[x] != paths[m] {
      PathsDistinct(g, live, base, cs, paths, x, m);
    }
    SetLess(paths, m);
    var cs', paths' := cs[..m] + cs[m + 1..], paths[..m] + paths[m + 1..];
    forall x | 0 <= x < |cs'| ensures HoldsChunk(g, base, paths'[x], cs'[x]) {
      var y := if x < m then x else x + 1;
      assert paths'[x] == paths[y] && cs'[x] == cs[y];
    }
  }

  lemma ClearedBacked(g: Region, live: set<Path>, base: nat, cs: seq<Chunk>, cs': seq<Chunk>, paths: seq<Path>,
                      m: nat, i: nat)
    requires Backed(g, live, base, cs, paths) && Fits32(cs) && m < |cs| && |cs[m].blocks| > 1
    requires i < |cs[m].blocks| && cs[m].blocks[i].size + MINOR <= cs[m].usage && Shrank(cs, cs', m, i)
    ensures Backed(g, live, base, cs', paths) && Fits32(cs')
  {
    forall x | 0 <= x < |cs'| ensures HoldsChunk(g, base, paths[x], cs'[x]) {
      assert HoldsChunk(g, base, paths[x], cs[x]);
    }
  }

  /** Allocating in a chunk, or in a new one in block `q`, keeps every chunk in its block. */
  lemma GrewBacked(g: Region, live: set<Path>, base: nat, cs: seq<Chunk>, cs': seq<Chunk>, paths: seq<Path>,
                   m: nat, i: nat, req: nat, offer: nat, q: Path)
    requires Backed(g, live, base, cs, paths) && Fits32(cs) && Grew(cs, cs', m, i, req, offer)
    requires var size := req + ALIGNMENT + ALIGN_INFO;
      m == |cs| ==> HoldsChunk(g, base, q, NewChunk(offer, size)) && NewChunk(offer, size).size <= UINT32_MAX
    ensures if m < |cs| then Backed(g, live, base, cs', paths) else Backed(g, live + {q}, base, cs', paths + [q])
    ensures Fits32(cs')
  {
    if m == |cs| {
      SetMore(paths, q);
      forall x | 0 <= x < |cs'| ensures HoldsChunk(g, base, (paths + [q])[x], cs'[x]) {
        if x < |cs| {
          assert HoldsChunk(g, base, paths[x], cs[x]);
        }
      }
    } else {
      forall x | 0 <= x < |cs'| ensures HoldsChunk(g, base, paths[x], cs'[x]) {
        assert HoldsChunk(g, base, paths[x], cs[x]);
      }
    }
  }

  /** The 32-bit fields of the tags hold their values. */
  ghost predicate Fits32(cs: seq<Chunk>) {
    forall m {:trigger cs[m]} :: 0 <= m < |cs| ==> cs[m].size <= UINT32_MAX
  }

  lemma FieldsFit(cs: seq<Chunk>, m: nat, i: nat)
    requires HeapOk(cs) && Fits32(cs) && m < |cs| && i < |cs[m].blocks|
    ensures cs[m].usage < 0x1_0000_0000 && cs[m].blocks[i].req < cs[m].blocks[i].size < 0x1_0000_0000
  {
    assert ChunkOk(cs[m]) && BlocksSized(cs[m]);
    GapWithinFree(cs[m], 0);
    BlocksInside(cs[m], i);
  }

  lemma UndoneAt(cs: seq<Chunk>, cs1: seq<Chunk>, cs2: seq<Chunk>, live: set<Path>, live1: set<Path>, live2: set<Path>,
                 paths1: seq<Path>, m: nat, i: nat, req: nat, offer: nat)
    requires HeapOk(cs) && NoneEmpty(cs) && Grew(cs, cs1, m, i, req, offer)
    requires if m < |cs| then live1 == live else TookPages(live, live1, paths1, m)
    requires FreedAt(cs1, cs2, live1, live2, paths1, m, i)
    ensures cs2 == cs && live2 == live
  {
    FreeUndoesMalloc(cs, cs1, cs2, m, i, req, offer);
  }

  class KernelHeap {
    const heap: Liballoc
    const buddy: BuddySystem
    const base: nat
    ghost var paths: seq<Path>

    ghost predicate Valid()
      reads this, heap, buddy, buddy.tree
    {
      && heap.Valid() && buddy.Valid() && base > 0 && heap.heapSize + PAGES_PER_CHUNK * PGSIZE <= UINT32_MAX
      && Backed(buddy.G(), buddy.live, base, heap.chunks, paths) && Fits32(heap.chunks)
    }

    constructor (heapSize: nat, pages: nat, base: nat)
      requires base > 0 && pages <= 0x8000_0000 && heapSize + PAGES_PER_CHUNK * PGSIZE <= UINT32_MAX
      ensures Valid() && heap.chunks == [] && buddy.live == {}
    {
      heap := new Liballoc(heapSize);
      buddy := new BuddySystem.Initialize(pages);
      this.base, paths := base, [];
    }

    /** Pages for a chunk with room for a block of `size` bytes, or none when no aligned run of the rounded
        number of pages is free. */
    method NewChunkPages(size: nat) returns (offer: nat, ghost k: nat, ghost q: Path)
      requires Valid() && size < heap.heapSize + ALIGNMENT + ALIGN_INFO
      modifies buddy`live, buddy`freePageCount, buddy.tree
      ensures buddy.Valid() && LeastPower(NewPages(size), k)
      ensures offer == 0 ==> NoneAligned(buddy.G(), old(buddy.live), k) && buddy.live == old(buddy.live)
      ensures offer != 0 ==> OfferOk(heap.chunks, offer, size) && q !in old(buddy.live)
      ensures offer != 0 ==> buddy.live == old(buddy.live) + {q}
      ensures offer != 0 ==> HoldsChunk(buddy.G(), base, q, NewChunk(offer, size))
    {
      var r;
      r, k, q := buddy.Alloc(NewPages(size));
      offer := 0;
      if r != -1 {
        OfferFits(buddy.G(), old(buddy.live), base, heap.chunks, paths, q, k, size);
        offer := base + r * PGSIZE;
      }
    }

    /** The block goes into a gap of a chunk. */
    method PlaceInGap(req: nat, m: nat, i: nat) returns (p: nat)
      requires Valid() && m < |heap.chunks| && i <= |heap.chunks[m].blocks|
      requires Room(heap.chunks[m], i, req + ALIGNMENT + ALIGN_INFO)
      modifies heap
      ensures Valid() && p != 0 && p % 16 == 0 && Grew(old(heap.chunks), heap.chunks, m, i, req, 0)
      ensures PointsTo(heap.chunks, p, m, i)
    {
      p := heap.Place(m, i, req, 0);
      GrewBacked(buddy.G(), buddy.live, base, old(heap.chunks), heap.chunks, paths, m, i, req, 0, []);
    }

    /** The block goes into a new chunk. */
    method PlaceInNew(req: nat, pages: nat, ghost live: set<Path>, ghost q: Path) returns (p: nat)
      requires heap.Valid() && buddy.Valid() && base > 0 && heap.heapSize + PAGES_PER_CHUNK * PGSIZE <= UINT32_MAX
      requires Backed(buddy.G(), live, base, heap.chunks, paths) && Fits32(heap.chunks) && buddy.live == live + {q}
      requires var size := req + ALIGNMENT + ALIGN_INFO;
        req < heap.heapSize && OfferOk(heap.chunks, pages, size)
            && HoldsChunk(buddy.G(), base, q, NewChunk(pages, size))
      modifies this, heap
      ensures Valid() && p != 0 && p % 16 == 0 && paths == old(paths) + [q]
      ensures Grew(old(heap.chunks), heap.chunks, |old(heap.chunks)|, 0, req, pages)
      ensures |heap.chunks| == |old(heap.chunks)| + 1 && PointsTo(heap.chunks, p, |old(heap.chunks)|, 0)
    {
      ghost var m := |heap.chunks|;
      p := heap.Place(|heap.chunks|, 0, req, pages);
      GrewBacked(buddy.G(), live, base, old(heap.chunks), heap.chunks, paths, m, 0, req, pages, q);
      paths := paths + [q];
    }

    method Find(req: nat) returns (found: bool, m: nat, i: nat, bestSize: int, tight: bool)
      requires Valid()
      modifies heap`best
      ensures Valid()
      ensures found ==> m < |heap.chunks| && i <= |heap.chunks[m].blocks|
      ensures found ==> Room(heap.chunks[m], i, req + ALIGNMENT + ALIGN_INFO)
      ensures !found ==> NoRoomIn(heap.chunks, req)
    {
      found, m, i, bestSize, tight := heap.SearchAll(req + ALIGNMENT + ALIGN_INFO);
    }

    method Bet(m: nat, free: int, bestSize: int)
      requires Valid() && m < |heap.chunks|
      modifies heap`best
      ensures Valid()
    {
      heap.BetNew(m, free, bestSize);
    }

    /** A new chunk for the block, if the buddy system has the pages. */
    method MallocNew(req: nat, bestSize: int, tight: bool) returns (p: nat, ghost offer: nat, ghost k: nat)
      requires Valid() && req < heap.heapSize
      modifies this, heap, buddy`live, buddy`freePageCount, buddy.tree
      ensures Valid() && LeastPower(NewPages(req + ALIGNMENT + ALIGN_INFO), k)
      ensures p == 0 ==> heap.chunks == old(heap.chunks) && buddy.live == old(buddy.live)
      ensures p == 0 ==> NoneAligned(buddy.G(), buddy.live, k)
      ensures p != 0 ==> p % 16 == 0 && Grew(old(heap.chunks), heap.chunks, |old(heap.chunks)|, 0, req, offer)
      ensures p != 0 ==> PointsTo(heap.chunks, p, |old(heap.chunks)|, 0)
      ensures p != 0 ==> TookPages(old(buddy.live), buddy.live, paths, |old(heap.chunks)|)
    {
      var pages;
      ghost var q;
      pages, k, q := NewChunkPages(req + ALIGNMENT + ALIGN_INFO);
      p, offer := 0, pages;
      if pages != 0 {
        p := PlaceInNew(req, pages, old(buddy.live), q);
        if !tight {
          Bet(|heap.chunks| - 1, NewPages(req + ALIGNMENT + ALIGN_INFO) * PGSIZE - MAJOR, bestSize);
        }
      }
    }

    /** Returns an aligned pointer to `req` bytes inside a block of their own. In range, it fails only when no
        chunk has a gap large enough and the buddy system has no run of pages for a new chunk. */
    method Malloc(req: nat) returns (p: nat, ghost m: nat, ghost i: nat, ghost offer: nat, ghost k: nat)
      requires Valid()
      modifies this, heap, buddy`live, buddy`freePageCount, buddy.tree
      ensures Valid()
      ensures p == 0 ==> heap.chunks == old(heap.chunks) && buddy.live == old(buddy.live)
      ensures p == 0 && 0 < req < heap.heapSize ==> NoRoomIn(heap.chunks, req) && NoneAligned(buddy.G(), buddy.live, k)
      ensures p == 0 && 0 < req < heap.heapSize ==> LeastPower(NewPages(req + ALIGNMENT + ALIGN_INFO), k)
      ensures p != 0 ==> 0 < req < heap.heapSize && p % 16 == 0
      ensures p != 0 ==> Grew(old(heap.chunks), heap.chunks, m, i, req, offer) && PointsTo(heap.chunks, p, m, i)
      ensures p != 0 && m < |old(heap.chunks)| ==> buddy.live == old(buddy.live)
      ensures p != 0 && m == |old(heap.chunks)| ==> TookPages(old(buddy.live), buddy.live, paths, m)
    {
      p, m, i, offer, k := 0, 0, 0, 0, 0;
      if req == 0 || req >= heap.heapSize {
        return;
      }
      var found, x, y, bestSize, tight := Find(req);
      if found {
        m, i := x, y;
        p := PlaceInGap(req, x, y);
      } else {
        m := |heap.chunks|;
        p, offer, k := MallocNew(req, bestSize, tight);
      }
    }

    /** Frees the block of pages at an address. */
    method FreePages(address: nat, ghost q: Path)
      requires buddy.Valid() && q in buddy.live && |q| <= buddy.level
      requires address == base + Offset(buddy.level, q) * PGSIZE
      modifies buddy`live, buddy`freePageCount, buddy.tree
      ensures buddy.Valid() && buddy.live == old(buddy.live) - {q}
    {
      buddy.Free((address - base) / PGSIZE);
    }

    /** The pages of an emptied chunk go back to the buddy system. */
    method FreeChunk(chunk: nat, ghost cs: seq<Chunk>, ghost m: nat)
      requires heap.Valid() && buddy.Valid() && base > 0 && heap.heapSize + PAGES_PER_CHUNK * PGSIZE <= UINT32_MAX
      requires HeapOk(cs) && Fits32(cs) && Backed(buddy.G(), buddy.live, base, cs, paths)
      requires m < |cs| && chunk == cs[m].base && heap.chunks == cs[..m] + cs[m + 1..]
      modifies this, buddy`live, buddy`freePageCount, buddy.tree
      ensures Valid() && buddy.live == old(buddy.live) - {old(paths)[m]}
              && paths == old(paths)[..m] + old(paths)[m + 1..]
    {
      assert HoldsChunk(buddy.G(), base, paths[m], cs[m]);
      WithoutPath(buddy.G(), buddy.live, base, cs, paths, m);
      FreePages(chunk, paths[m]);
      paths := paths[..m] + paths[m + 1..];
    }

    /** The block is out of its chunk; the pages of a chunk left without blocks go back. */
    method FinishFree(released: nat, ghost cs: seq<Chunk>, ghost m: nat, ghost i: nat)
      requires heap.Valid() && buddy.Valid() && base > 0 && heap.heapSize + PAGES_PER_CHUNK * PGSIZE <= UINT32_MAX
      requires HeapOk(cs) && Fits32(cs) && Backed(buddy.G(), buddy.live, base, cs, paths)
      requires m < |cs| && i < |cs[m].blocks| && cs[m].blocks[i].size + MINOR <= cs[m].usage
      requires Shrank(cs, heap.chunks, m, i) && released == if |cs[m].blocks| > 1 then 0 else cs[m].base
      modifies this, buddy`live, buddy`freePageCount, buddy.tree
      ensures Valid() && FreedAt(cs, heap.chunks, old(buddy.live), buddy.live, old(paths), m, i)
    {
      if released != 0 {
        FreeChunk(released, cs, m);
      } else {
        assert cs[m].base > 0;
        ClearedBacked(buddy.G(), buddy.live, base, cs, heap.chunks, paths, m, i);
      }
    }

    /** Frees a pointer: a pointer to a live block frees that block and no other, and the pages of a chunk left
        without blocks go back; a pointer that leads to no live tag stops the kernel, here `ok` is false. */
    method Free(p: nat) returns (ok: bool, ghost m: nat, ghost i: nat)
      requires Valid()
      modifies this, heap, buddy`live, buddy`freePageCount, buddy.tree
      ensures Valid()
      ensures p == 0 || !ok ==> heap.chunks == old(heap.chunks) && buddy.live == old(buddy.live)
      ensures ok && p != 0 ==> FreedAt(old(heap.chunks), heap.chunks, old(buddy.live), buddy.live, old(paths), m, i)
      ensures forall x: nat, y: nat {:trigger PointsTo(old(heap.chunks), p, x, y)} ::
                PointsTo(old(heap.chunks), p, x, y) ==> ok && m == x && i == y
    {
      var released;
      ghost var cs := heap.chunks;
      ok, released, m, i := heap.Free(p);
      if ok && p != 0 {
        FinishFree(released, cs, m, i);
      }
    }

    /** Freeing what was just allocated gives chunks, pages and the buddy tree back exactly. */
    method MallocThenFree(req: nat)
      requires Valid()
      modifies this, heap, buddy`live, buddy`freePageCount, buddy.tree
      ensures Valid() && heap.chunks == old(heap.chunks) && buddy.live == old(buddy.live)
      ensures buddy.tree[..] == old(buddy.tree[..])
    {
      ghost var cs, live, t := heap.chunks, buddy.live, buddy.tree[..];
      var p;
      ghost var m, i, offer, k;
      p, m, i, offer, k := Malloc(req);
      if p != 0 {
        ghost var cs1, live1, paths1 := heap.chunks, buddy.live, paths;
        var ok;
        ghost var m', i';
        ok, m', i' := Free(p);
        assert PointsTo(cs1, p, m, i);
        UndoneAt(cs, cs1, heap.chunks, live, live1, buddy.live, paths1, m, i, req, offer);
      }
      TreeIsFunctionOfLive(buddy.G(), live, t, buddy.tree[..]);
    }
  }

  /** The pages of chunk `m` are a new block. */
  ghost predicate TookPages(live: set<Path>, live': set<Path>, paths: seq<Path>, m: nat) {
    m < |paths| && paths[m] !in live && live' == live + {paths[m]}
  }

  /** Block `i` of chunk `m` is gone; with the last block of a chunk its pages are free again. */
  ghost predicate FreedAt(cs: seq<Chunk>, cs': seq<Chunk>, live: set<Path>, live': set<Path>, paths: seq<Path>,
                          m: nat, i: nat) {
    && m < |cs| == |paths| && i < |cs[m].blocks| && cs[m].blocks[i].size + MINOR <= cs[m].usage
    && Shrank(cs, cs', m, i)
    && live' == if |cs[m].blocks| > 1 then live else live - {paths[m]}
  }

  /** The pointer is that of live block `i` of chunk `m`. */
  ghost predicate PointsTo(cs: seq<Chunk>, p: nat, m: nat, i: nat) {
    m < |cs| && i < |cs[m].blocks| && p == Pointer(cs[m].blocks[i])
  }

  /** 2^k is the least power of two not below `n`. */
  ghost predicate LeastPower(n: nat, k: nat) {
    n <= Pow2(k) && (k > 0 ==> Pow2(k - 1) < n)
  }
}
