/** The kernel heap: chunks of pages from the buddy allocator, each cut into tagged blocks, with
    returned pointers aligned inside their blocks. Lists are sequences here, and addresses numbers. */
module Liballoc {
  const PGSIZE := 4096
  const MAJOR := 36
  const MINOR := 36
  const ALIGNMENT := 16
  const ALIGN_INFO := 16
  const PAGES_PER_CHUNK := 32

  /** A block: the address of its tag, the bytes after the tag, and the bytes asked for. */
  datatype Block = Block(at: nat, size: nat, req: nat)

  datatype Chunk = Chunk(base: nat, size: nat, usage: nat, blocks: seq<Block>)

  function End(b: Block): nat {
    b.at + MINOR + b.size
  }

  /** Gap `i` lies before block `i`; the last one ends with the chunk. */
  function GapStart(c: Chunk, i: nat): nat
    requires i <= |c.blocks|
  {
    if i == 0 then c.base + MAJOR else End(c.blocks[i - 1])
  }

  function GapEnd(c: Chunk, i: nat): nat
    requires i <= |c.blocks|
  {
    if i == |c.blocks| then c.base + c.size else c.blocks[i].at
  }

  ghost function Sum(bs: seq<Block>): nat {
    if bs == [] then 0 else Sum(bs[..|bs| - 1]) + MINOR + bs[|bs| - 1].size
  }

  /** No gap is negative, so the blocks are in address order, disjoint and inside the chunk; and
      `usage` is the header plus all blocks with their tags. */
  ghost predicate ChunkOk(c: Chunk) {
    && (forall i {:trigger GapStart(c, i)} :: 0 <= i <= |c.blocks| ==> GapStart(c, i) <= GapEnd(c, i))
    && c.usage == MAJOR + Sum(c.blocks)
  }

  lemma {:induction false} BlocksApart(c: Chunk, i: nat, j: nat)
    requires ChunkOk(c) && i < j < |c.blocks|
    ensures End(c.blocks[i]) <= c.blocks[j].at
    decreases j
  {
    assert GapStart(c, j) <= GapEnd(c, j);
    if i < j - 1 {
      BlocksApart(c, i, j - 1);
    }
  }

  lemma BlocksInside(c: Chunk, i: nat)
    requires ChunkOk(c) && i < |c.blocks|
    ensures c.base + MAJOR <= c.blocks[i].at && End(c.blocks[i]) <= c.base + c.size
  {
    assert GapStart(c, 0) <= GapEnd(c, 0) && GapStart(c, |c.blocks|) <= GapEnd(c, |c.blocks|);
    if i > 0 {
      BlocksApart(c, 0, i);
    }
    if i < |c.blocks| - 1 {
      BlocksApart(c, i, |c.blocks| - 1);
    }
  }

  // ----- gaps and free space -------------------------------------------------------------------

  lemma {:induction false} SumSplit(bs: seq<Block>, i: nat)
    requires i <= |bs|
    ensures Sum(bs) == Sum(bs[..i]) + Sum(bs[i..])
    decreases |bs|
  {
    if i < |bs| {
      var n := |bs| - 1;
      SumSplit(bs[..n], i);
      assert bs[..n][..i] == bs[..i] && bs[..n][i..] == bs[i..][..n - i];
    } else {
      assert bs[..i] == bs;
    }
  }

  lemma SumJoin(a: seq<Block>, b: seq<Block>)
    ensures Sum(a + b) == Sum(a) + Sum(b)
  {
    SumSplit(a + b, |a|);
    assert (a + b)[..|a|] == a && (a + b)[|a|..] == b;
  }

  lemma SumLast(a: seq<Block>, b: Block)
    ensures Sum(a + [b]) == Sum(a) + MINOR + b.size
  {
  }

  lemma {:induction false} SumBefore(c: Chunk, i: nat)
    requires ChunkOk(c) && i <= |c.blocks|
    ensures c.base + MAJOR + Sum(c.blocks[..i]) <= GapStart(c, i)
  {
    if i > 0 {
      SumBefore(c, i - 1);
      assert GapStart(c, i - 1) <= GapEnd(c, i - 1);
      assert c.blocks[..i][..i - 1] == c.blocks[..i - 1];
    }
  }

  lemma {:induction false} SumAfter(c: Chunk, i: nat)
    requires ChunkOk(c) && i <= |c.blocks|
    ensures GapEnd(c, i) + Sum(c.blocks[i..]) <= c.base + c.size
    decreases |c.blocks| - i
  {
    if i < |c.blocks| {
      SumAfter(c, i + 1);
      assert GapStart(c, i + 1) <= GapEnd(c, i + 1);
      SumSplit(c.blocks[i..], 1);
      assert c.blocks[i..][..1] == [c.blocks[i]] && c.blocks[i..][1..] == c.blocks[i + 1..];
      assert Sum([c.blocks[i]]) == MINOR + c.blocks[i].size by {
        assert [c.blocks[i]][..0] == [];
      }
    }
  }

  /** A gap is never larger than the chunk's free space, so a chunk can be passed over on its usage
      alone. */
  lemma GapWithinFree(c: Chunk, i: nat)
    requires ChunkOk(c) && i <= |c.blocks|
    ensures c.usage <= c.size && GapEnd(c, i) - GapStart(c, i) <= c.size - c.usage
  {
    SumBefore(c, i);
    SumAfter(c, i);
    SumSplit(c.blocks, i);
    assert GapStart(c, i) <= GapEnd(c, i);
  }

  // ----- placing and removing ------------------------------------------------------------------

  predicate Room(c: Chunk, i: nat, size: nat)
    requires i <= |c.blocks|
  {
    GapStart(c, i) + size + MINOR <= GapEnd(c, i)
  }

  ghost predicate NoRoom(c: Chunk, size: nat) {
    forall i {:trigger Room(c, i, size)} :: 0 <= i <= |c.blocks| ==> !Room(c, i, size)
  }

  ghost function Inserted(bs: seq<Block>, i: nat, b: Block): seq<Block>
    requires i <= |bs|
  {
    bs[..i] + [b] + bs[i..]
  }

  ghost function Removed(bs: seq<Block>, i: nat): seq<Block>
    requires i < |bs|
  {
    bs[..i] + bs[i + 1..]
  }

  /** A block at the start of gap `i`. */
  ghost function Placed(c: Chunk, i: nat, size: nat, req: nat): Chunk
    requires i <= |c.blocks|
  {
    c.(blocks := Inserted(c.blocks, i, Block(GapStart(c, i), size, req)), usage := c.usage + size + MINOR)
  }

  ghost function Cleared(c: Chunk, i: nat): Chunk
    requires i < |c.blocks| && c.blocks[i].size + MINOR <= c.usage
  {
    c.(blocks := Removed(c.blocks, i), usage := c.usage - (c.blocks[i].size + MINOR))
  }

  lemma SumBetween(front: seq<Block>, b: Block, back: seq<Block>)
    ensures Sum(front + [b] + back) == Sum(front + back) + MINOR + b.size
  {
    SumJoin(front, back);
    SumJoin(front + [b], back);
    SumLast(front, b);
  }

  lemma SumInserted(bs: seq<Block>, i: nat, b: Block)
    requires i <= |bs|
    ensures Sum(Inserted(bs, i, b)) == Sum(bs) + MINOR + b.size
  {
    var front, back := bs[..i], bs[i..];
    assert bs == front + back;
    assert Inserted(bs, i, b) == front + [b] + back;
    SumBetween(front, b, back);
  }

  lemma InsertRemoved(bs: seq<Block>, i: nat)
    requires i < |bs|
    ensures Inserted(Removed(bs, i), i, bs[i]) == bs
  {
  }

  lemma PlacedOk(c: Chunk, i: nat, size: nat, req: nat)
    requires ChunkOk(c) && i <= |c.blocks| && Room(c, i, size)
    ensures ChunkOk(Placed(c, i, size, req))
  {
    var c' := Placed(c, i, size, req);
    SumInserted(c.blocks, i, Block(GapStart(c, i), size, req));
    forall j | 0 <= j <= |c'.blocks| ensures GapStart(c', j) <= GapEnd(c', j) {
      if j <= i {
        assert GapStart(c, j) <= GapEnd(c, j);
      } else if j > i + 1 {
        assert GapStart(c, j - 1) <= GapEnd(c, j - 1);
      }
    }
  }

  lemma ClearedOk(c: Chunk, i: nat)
    requires ChunkOk(c) && i < |c.blocks|
    ensures c.blocks[i].size + MINOR <= c.usage && ChunkOk(Cleared(c, i))
  {
    InsertRemoved(c.blocks, i);
    SumInserted(Removed(c.blocks, i), i, c.blocks[i]);
    var c' := Cleared(c, i);
    forall j | 0 <= j <= |c'.blocks| ensures GapStart(c', j) <= GapEnd(c', j) {
      if j < i {
        assert GapStart(c, j) <= GapEnd(c, j);
      } else if j == i {
        assert GapStart(c, i) <= GapEnd(c, i) && GapStart(c, i + 1) <= GapEnd(c, i + 1);
      } else {
        assert GapStart(c, j + 1) <= GapEnd(c, j + 1);
      }
    }
  }

  /** Freeing a block just placed gives the chunk back as it was. */
  lemma ClearPlaced(c: Chunk, i: nat, size: nat, req: nat)
    requires i <= |c.blocks|
    ensures Cleared(Placed(c, i, size, req), i) == c
  {
  }

  // ----- alignment -----------------------------------------------------------------------------

  /** Bytes skipped so that the pointer after the alignment record is a multiple of the alignment. */
  function Pad(p: nat): nat {
    var diff := (p + ALIGN_INFO) % ALIGNMENT;
    if diff != 0 then ALIGNMENT - diff else 0
  }

  function Aligned(p: nat): nat {
    p + ALIGN_INFO + Pad(p)
  }

  /** What `_align` stores just before the aligned pointer. */
  function AlignInfo(p: nat): nat {
    Pad(p) + ALIGN_INFO
  }

  /** `_unalign`: steps back by the stored distance when that is plausible. */
  function Unaligned(p: nat, stored: nat): int {
    if stored < ALIGNMENT + ALIGN_INFO then p - stored else p
  }

  lemma AlignRoundTrip(p: nat)
    ensures Aligned(p) % ALIGNMENT == 0 && p + ALIGN_INFO <= Aligned(p) < p + ALIGN_INFO + ALIGNMENT
    ensures Unaligned(Aligned(p), AlignInfo(p)) == p
  {
  }

  /** The pointer a caller gets for a block. */
  function Pointer(b: Block): nat {
    Aligned(b.at + MINOR)
  }

  /** The bytes asked for, and the alignment record before them, lie inside the block. */
  lemma PointerInside(b: Block)
    requires b.size == b.req + ALIGNMENT + ALIGN_INFO
    ensures Pointer(b) % 16 == 0
    ensures b.at + MINOR <= Pointer(b) - ALIGN_INFO && Pointer(b) + b.req <= End(b)
  {
  }

  // ----- heaps ---------------------------------------------------------------------------------

  ghost predicate ChunksApart(c: Chunk, d: Chunk) {
    c.base + c.size <= d.base || d.base + d.size <= c.base
  }

  ghost predicate BlocksSized(c: Chunk) {
    forall i {:trigger c.blocks[i]} :: 0 <= i < |c.blocks| ==>
        c.blocks[i].size == c.blocks[i].req + ALIGNMENT + ALIGN_INFO
  }

  /** Every chunk in order, and no two chunks overlap. */
  ghost predicate HeapOk(cs: seq<Chunk>) {
    && (forall m {:trigger cs[m]} :: 0 <= m < |cs| ==> cs[m].base > 0 && ChunkOk(cs[m]) && BlocksSized(cs[m]))
    && (forall m, n {:trigger cs[m], cs[n]} :: 0 <= m < n < |cs| ==> ChunksApart(cs[m], cs[n]))
  }

  /** Two live blocks never share a byte, and so neither do the callers' bytes in them. */
  lemma LiveApart(cs: seq<Chunk>, m: nat, i: nat, n: nat, j: nat)
    requires HeapOk(cs) && m < |cs| && n < |cs| && i < |cs[m].blocks| && j < |cs[n].blocks| && (m != n || i != j)
    ensures var (a, b) := (cs[m].blocks[i], cs[n].blocks[j]);
      (End(a) <= b.at || End(b) <= a.at)
      && (Pointer(a) + a.req <= Pointer(b) - ALIGN_INFO || Pointer(b) + b.req <= Pointer(a) - ALIGN_INFO)
  {
    var (a, b) := (cs[m].blocks[i], cs[n].blocks[j]);
    assert ChunkOk(cs[m]) && BlocksSized(cs[m]) && ChunkOk(cs[n]) && BlocksSized(cs[n]);
    PointerInside(a);
    PointerInside(b);
    if m == n {
      BlocksApart(cs[m], if i < j then i else j, if i < j then j else i);
    } else {
      BlocksInside(cs[m], i);
      BlocksInside(cs[n], j);
      assert m < n ==> ChunksApart(cs[m], cs[n]);
      assert n < m ==> ChunksApart(cs[n], cs[m]);
    }
  }

  function NewPages(size: nat): nat {
    var need := (size + MAJOR + MINOR + PGSIZE - 1) / PGSIZE;
    if need < PAGES_PER_CHUNK then PAGES_PER_CHUNK else need
  }

  function NewChunk(base: nat, size: nat): Chunk {
    Chunk(base, NewPages(size) * PGSIZE, MAJOR, [])
  }

  lemma NewChunkFits(base: nat, size: nat)
    ensures ChunkOk(NewChunk(base, size)) && Room(NewChunk(base, size), 0, size)
  {
  }

  /** One more block: in gap `g` of chunk `m`, or in a new chunk at the end of the list. */
  ghost predicate Grew(cs: seq<Chunk>, cs': seq<Chunk>, m: nat, g: nat, req: nat, offer: nat) {
    var size := req + ALIGNMENT + ALIGN_INFO;
    if m < |cs| then g <= |cs[m].blocks| && Room(cs[m], g, size) && cs' == cs[m := Placed(cs[m], g, size, req)]
    else m == |cs| && g == 0 && cs' == cs + [Placed(NewChunk(offer, size), 0, size, req)]
  }

  /** The memory the page allocator offers overlaps no chunk. */
  ghost predicate OfferOk(cs: seq<Chunk>, offer: nat, size: nat) {
    offer > 0 && forall m {:trigger cs[m]} :: 0 <= m < |cs| ==> ChunksApart(cs[m], NewChunk(offer, size))
  }

  lemma InsertedSized(c: Chunk, i: nat, size: nat, req: nat)
    requires BlocksSized(c) && i <= |c.blocks| && size == req + ALIGNMENT + ALIGN_INFO
    ensures BlocksSized(Placed(c, i, size, req))
  {
  }

  lemma GrewOk(cs: seq<Chunk>, cs': seq<Chunk>, m: nat, g: nat, req: nat, offer: nat)
    requires HeapOk(cs) && Grew(cs, cs', m, g, req, offer)
    requires m == |cs| ==> OfferOk(cs, offer, req + ALIGNMENT + ALIGN_INFO)
    ensures HeapOk(cs') && m < |cs'| && g < |cs'[m].blocks| && cs'[m].blocks[g].req == req
  {
    var size := req + ALIGNMENT + ALIGN_INFO;
    var c := if m < |cs| then cs[m] else NewChunk(offer, size);
    if m == |cs| {
      NewChunkFits(offer, size);
    } else {
      assert ChunkOk(cs[m]) && BlocksSized(cs[m]);
    }
    PlacedOk(c, g, size, req);
    InsertedSized(c, g, size, req);
    forall x, y | 0 <= x < y < |cs'| ensures ChunksApart(cs'[x], cs'[y]) {
      if y < |cs| {
        assert ChunksApart(cs[x], cs[y]);
      } else {
        assert ChunksApart(cs[x], NewChunk(offer, size));
      }
    }
  }

  lemma ClearedSized(c: Chunk, i: nat)
    requires BlocksSized(c) && i < |c.blocks| && c.blocks[i].size + MINOR <= c.usage
    ensures BlocksSized(Cleared(c, i))
  {
  }

  /** One block less; a chunk left without blocks goes back. */
  ghost predicate Shrank(cs: seq<Chunk>, cs': seq<Chunk>, m: nat, i: nat)
    requires m < |cs| && i < |cs[m].blocks| && cs[m].blocks[i].size + MINOR <= cs[m].usage
  {
    if |cs[m].blocks| > 1 then cs' == cs[m := Cleared(cs[m], i)] else cs' == cs[..m] + cs[m + 1..]
  }

  lemma ShrankOk(cs: seq<Chunk>, cs': seq<Chunk>, m: nat, i: nat)
    requires HeapOk(cs) && m < |cs| && i < |cs[m].blocks| && cs[m].blocks[i].size + MINOR <= cs[m].usage
    requires Shrank(cs, cs', m, i)
    ensures HeapOk(cs')
  {
    if |cs[m].blocks| > 1 {
      ClearedOk(cs[m], i);
      ClearedSized(cs[m], i);
      forall x, y | 0 <= x < y < |cs'| ensures ChunksApart(cs'[x], cs'[y]) {
        assert ChunksApart(cs[x], cs[y]);
      }
    } else {
      forall x | 0 <= x < |cs'| ensures cs'[x] == cs[if x < m then x else x + 1] {
      }
      forall x, y | 0 <= x < y < |cs'| ensures ChunksApart(cs'[x], cs'[y]) {
        assert ChunksApart(cs[if x < m then x else x + 1], cs[if y < m then y else y + 1]);
      }
    }
  }

  /** Freeing the block just allocated gives the list of chunks back as it was, if no chunk of the
      list was empty. */
  lemma FreeUndoesMalloc(cs: seq<Chunk>, cs1: seq<Chunk>, cs2: seq<Chunk>, m: nat, g: nat, req: nat, offer: nat)
    requires HeapOk(cs) && Grew(cs, cs1, m, g, req, offer) && (m < |cs| ==> cs[m].blocks != [])
    requires m < |cs1| && g < |cs1[m].blocks| && cs1[m].blocks[g].size + MINOR <= cs1[m].usage && Shrank(cs1, cs2, m, g)
    ensures cs2 == cs
  {
    if m < |cs| {
      ClearPlaced(cs[m], g, req + ALIGNMENT + ALIGN_INFO, req);
    }
  }

  // ----- the allocator -------------------------------------------------------------------------

  ghost predicate Owns(cs: seq<Chunk>, base: nat) {
    exists m :: 0 <= m < |cs| && cs[m].base == base
  }

  ghost predicate NoRoomIn(cs: seq<Chunk>, req: nat) {
    forall k {:trigger cs[k]} :: 0 <= k < |cs| ==> NoRoom(cs[k], req + ALIGNMENT + ALIGN_INFO)
  }

  ghost predicate NoneEmpty(cs: seq<Chunk>) {
    forall m {:trigger cs[m]} :: 0 <= m < |cs| ==> cs[m].blocks != []
  }

  /** The alignment record of every live block is in place. */
  ghost predicate InfoOk(cs: seq<Chunk>, info: map<nat, nat>) {
    forall m, i {:trigger cs[m].blocks[i]} :: 0 <= m < |cs| && 0 <= i < |cs[m].blocks| ==>
      Stored(info, cs[m].blocks[i])
  }

  ghost predicate Stored(info: map<nat, nat>, b: Block) {
    Pointer(b) in info && info[Pointer(b)] == AlignInfo(b.at + MINOR)
  }

  /** The record of a new block overwrites no other's. */
  lemma InfoKept(cs: seq<Chunk>, cs': seq<Chunk>, info: map<nat, nat>, m: nat, g: nat, b: Block)
    requires HeapOk(cs') && InfoOk(cs, info) && m < |cs'| && g < |cs'[m].blocks| && cs'[m].blocks[g] == b
    requires m <= |cs| <= |cs'| <= |cs| + 1 && (forall k :: 0 <= k < |cs'| && k != m ==> k < |cs| && cs'[k] == cs[k])
    requires if m < |cs| then |cs'| == |cs| && g <= |cs[m].blocks| && cs'[m].blocks == Inserted(cs[m].blocks, g, b)
             else cs'[m].blocks == [b]
    ensures InfoOk(cs', info[Pointer(b) := AlignInfo(b.at + MINOR)])
  {
    forall x, i | 0 <= x < |cs'| && 0 <= i < |cs'[x].blocks|
      ensures Stored(info[Pointer(b) := AlignInfo(b.at + MINOR)], cs'[x].blocks[i])
    {
      if x != m || i != g {
        LiveApart(cs', x, i, m, g);
        if x != m {
          assert Stored(info, cs[x].blocks[i]);
        } else {
          assert Stored(info, cs[m].blocks[if i < g then i else i - 1]);
        }
      }
    }
  }

  lemma OwnsKept(cs: seq<Chunk>, cs': seq<Chunk>, base: nat)
    requires |cs| <= |cs'| && forall k :: 0 <= k < |cs| ==> cs'[k].base == cs[k].base
    ensures Owns(cs, base) ==> Owns(cs', base)
  {
  }

  lemma OwnsWithout(cs: seq<Chunk>, m: nat, base: nat)
    requires m < |cs| && base != cs[m].base
    ensures Owns(cs, base) ==> Owns(cs[..m] + cs[m + 1..], base)
  {
    if Owns(cs, base) {
      var k :| 0 <= k < |cs| && cs[k].base == base;
      assert (cs[..m] + cs[m + 1..])[if k < m then k else k - 1].base == base;
    }
  }

  lemma ShrankInfo(cs: seq<Chunk>, cs': seq<Chunk>, info: map<nat, nat>, m: nat, i: nat)
    requires InfoOk(cs, info) && NoneEmpty(cs) && m < |cs| && i < |cs[m].blocks|
             && cs[m].blocks[i].size + MINOR <= cs[m].usage
    requires Shrank(cs, cs', m, i)
    ensures InfoOk(cs', info) && NoneEmpty(cs')
  {
  }

  lemma NullIsNoPointer(cs: seq<Chunk>)
    ensures forall x, y {:trigger cs[x].blocks[y]} :: 0 <= x < |cs| && 0 <= y < |cs[x].blocks| ==>
            Pointer(cs[x].blocks[y]) != 0
  {
  }

  method FindGap(c: Chunk, size: nat) returns (found: bool, g: nat)
    requires ChunkOk(c)
    ensures found ==> g <= |c.blocks| && Room(c, g, size)
    ensures !found ==> NoRoom(c, size)
  {
    g := 0;
    while g <= |c.blocks|
      invariant g <= |c.blocks| + 1 && forall i {:trigger Room(c, i, size)} :: 0 <= i < g ==> !Room(c, i, size)
    {
      if Room(c, g, size) {
        return true, g;
      }
      g := g + 1;
    }
    found := false;
  }

  class Liballoc {
    var chunks: seq<Chunk>
    var best: nat
    var info: map<nat, nat>
    const heapSize: nat

    ghost predicate Valid()
      reads this
    {
      HeapOk(chunks) && NoneEmpty(chunks) && InfoOk(chunks, info) && (best == 0 || Owns(chunks, best))
    }

    constructor (heapSize: nat)
      ensures Valid() && chunks == [] && this.heapSize == heapSize
    {
      chunks, best, info, this.heapSize := [], 0, map[], heapSize;
    }

    /** Looks for room from chunk `start` on, and remembers the chunk with the most free space. A
        chunk whose free space is too small is passed over unsearched; `tight` says whether the last
        one was. */
    method Search(start: nat, size: nat, bestSize: int)
      returns (found: bool, m: nat, g: nat, bestSize': int, tight: bool)
      requires HeapOk(chunks) && (best == 0 || Owns(chunks, best)) && start <= |chunks|
      modifies this`best
      ensures best == 0 || Owns(chunks, best)
      ensures found ==> m < |chunks| && g <= |chunks[m].blocks| && Room(chunks[m], g, size)
      ensures !found ==> forall k {:trigger chunks[k]} :: start <= k < |chunks| ==> NoRoom(chunks[k], size)
    {
      m, g, found, bestSize', tight := start, 0, false, bestSize, false;
      while m < |chunks|
        invariant start <= m <= |chunks| && (best == 0 || Owns(chunks, best))
        invariant forall k {:trigger chunks[k]} :: start <= k < m ==> NoRoom(chunks[k], size)
      {
        var c := chunks[m];
        var diff := c.size - c.usage;
        if bestSize' < diff {
          best, bestSize' := c.base, diff;
        }
        tight := diff < size + MINOR;
        if tight {
          forall i | 0 <= i <= |c.blocks| ensures !Room(c, i, size) {
            GapWithinFree(c, i);
          }
        } else {
          found, g := FindGap(c, size);
          if found {
            return;
          }
        }
        m := m + 1;
      }
    }

    /** Index of the best bet. */
    method BestIndex() returns (m: nat)
      requires best != 0 && Owns(chunks, best)
      ensures m < |chunks| && chunks[m].base == best
    {
      m := 0;
      while chunks[m].base != best
        invariant m < |chunks| && forall k :: 0 <= k < m ==> chunks[k].base != best
        decreases |chunks| - m
      {
        m := m + 1;
      }
    }

    /** The whole search: from the best bet if it looks roomy, and then from the root. */
    method SearchAll(size: nat) returns (found: bool, m: nat, g: nat, bestSize: int, tight: bool)
      requires HeapOk(chunks) && (best == 0 || Owns(chunks, best))
      modifies this`best
      ensures best == 0 || Owns(chunks, best)
      ensures found ==> m < |chunks| && g <= |chunks[m].blocks| && Room(chunks[m], g, size)
      ensures !found ==> forall k {:trigger chunks[k]} :: 0 <= k < |chunks| ==> NoRoom(chunks[k], size)
    {
      bestSize := 0;
      var start := 0;
      if best != 0 {
        var b := BestIndex();
        bestSize := chunks[b].size - chunks[b].usage;
        start := if bestSize > size + MINOR then b else 0;
      }
      found, m, g, bestSize, tight := Search(start, size, bestSize);
      if !found && start != 0 {
        found, m, g, bestSize, tight := Search(0, size, bestSize);
      }
    }

    method Install(m: nat, g: nat, ghost req: nat, ghost offer: nat, c': Chunk, b: Block)
      requires Valid() && m <= |chunks| && (m == |chunks| ==> OfferOk(chunks, offer, req + ALIGNMENT + ALIGN_INFO))
      requires Grew(chunks, if m < |chunks| then chunks[m := c'] else chunks + [c'], m, g, req, offer)
      requires g < |c'.blocks| && c'.blocks[g] == b
      modifies this`chunks, this`info
      ensures Valid() && chunks == if m < |old(chunks)| then old(chunks)[m := c'] else old(chunks) + [c']
    {
      ghost var cs := chunks;
      chunks := if m < |chunks| then chunks[m := c'] else chunks + [c'];
      GrewOk(cs, chunks, m, g, req, offer);
      InfoKept(cs, chunks, info, m, g, b);
      info := info[Pointer(b) := AlignInfo(b.at + MINOR)];
      OwnsKept(cs, chunks, best);
    }

    /** Writes the block, its tag and its alignment record. */
    method Place(m: nat, g: nat, req: nat, offer: nat) returns (p: nat)
      requires Valid() && m <= |chunks|
      requires if m < |chunks| then g <= |chunks[m].blocks| && Room(chunks[m], g, req + ALIGNMENT + ALIGN_INFO)
               else g == 0 && OfferOk(chunks, offer, req + ALIGNMENT + ALIGN_INFO)
      modifies this`chunks, this`info
      ensures Valid() && Grew(old(chunks), chunks, m, g, req, offer)
      ensures m < |chunks| && g < |chunks[m].blocks| && p == Pointer(chunks[m].blocks[g])
              && chunks[m].blocks[g].req == req
      ensures p != 0 && p % 16 == 0
    {
      var size := req + ALIGNMENT + ALIGN_INFO;
      var c := if m < |chunks| then chunks[m] else NewChunk(offer, size);
      var b := Block(GapStart(c, g), size, req);
      var c' := c.(blocks := c.blocks[..g] + [b] + c.blocks[g..], usage := c.usage + size + MINOR);
      assert c' == Placed(c, g, size, req);
      p := Aligned(b.at + MINOR);
      AlignRoundTrip(b.at + MINOR);
      Install(m, g, req, offer, c', b);
    }

    /** A new chunk that is looked at again becomes the best bet if it has the most free space. */
    method BetNew(m: nat, free: int, bestSize: int)
      requires Valid() && m < |chunks|
      modifies this`best
      ensures Valid()
    {
      if bestSize < free {
        best := chunks[m].base;
      }
    }

    /** The block whose tag is at `t`. */
    method FindBlock(t: int) returns (found: bool, m: nat, i: nat)
      ensures found ==> m < |chunks| && i < |chunks[m].blocks| && chunks[m].blocks[i].at == t
      ensures !found ==> forall x, y {:trigger chunks[x].blocks[y]} ::
              0 <= x < |chunks| && 0 <= y < |chunks[x].blocks| ==> chunks[x].blocks[y].at != t
    {
      m, i := 0, 0;
      while m < |chunks|
        invariant m <= |chunks|
        invariant forall x, y {:trigger chunks[x].blocks[y]} :: 0 <= x < m && 0 <= y < |chunks[x].blocks| ==>
                  chunks[x].blocks[y].at != t
      {
        i := 0;
        while i < |chunks[m].blocks|
          invariant i <= |chunks[m].blocks|
          invariant forall y :: 0 <= y < i ==> chunks[m].blocks[y].at != t
        {
          if chunks[m].blocks[i].at == t {
            return true, m, i;
          }
          i := i + 1;
        }
        m := m + 1;
      }
      found := false;
    }

    /** Takes a block out of its chunk, and an emptied chunk out of the list. */
    method Unlink(m: nat, i: nat) returns (released: nat)
      requires Valid() && m < |chunks| && i < |chunks[m].blocks|
      modifies this`chunks, this`best
      ensures Valid() && old(chunks)[m].blocks[i].size + MINOR <= old(chunks)[m].usage
              && Shrank(old(chunks), chunks, m, i)
      ensures released == if |old(chunks)[m].blocks| > 1 then 0 else old(chunks)[m].base
    {
      ghost var cs := chunks;
      var c := chunks[m];
      ClearedOk(c, i);
      var c' := c.(blocks := c.blocks[..i] + c.blocks[i + 1..], usage := c.usage - (c.blocks[i].size + MINOR));
      released := 0;
      if c'.blocks != [] {
        chunks := chunks[m := c'];
        OwnsKept(cs, chunks, best);
        if best != 0 {
          var b := BestIndex();
          if c'.size - c'.usage > chunks[b].size - chunks[b].usage {
            assert chunks[m].base == c.base;
            best := c.base;
          }
        }
      } else {
        released := c.base;
        chunks := chunks[..m] + chunks[m + 1..];
        if best == c.base {
          best := 0;
        }
        OwnsWithout(cs, m, best);
      }
      ShrankOk(cs, chunks, m, i);
      ShrankInfo(cs, chunks, info, m, i);
    }

    /** Frees a pointer. A pointer to a live block frees that block and no other; one that leads to no
        live tag stops the kernel, here `ok` is false. */
    method Free(p: nat) returns (ok: bool, released: nat, ghost m: nat, ghost i: nat)
      requires Valid()
      modifies this`chunks, this`best
      ensures Valid()
      ensures p == 0 || !ok ==> chunks == old(chunks) && released == 0
      ensures ok && p != 0 ==> m < |old(chunks)| && i < |old(chunks)[m].blocks|
      ensures ok && p != 0 ==>
                old(chunks)[m].blocks[i].size + MINOR <= old(chunks)[m].usage && Shrank(old(chunks), chunks, m, i)
      ensures ok && p != 0 ==> released == if |old(chunks)[m].blocks| > 1 then 0 else old(chunks)[m].base
      ensures forall x, y {:trigger old(chunks)[x].blocks[y]} ::
                0 <= x < |old(chunks)| && 0 <= y < |old(chunks)[x].blocks| && Pointer(old(chunks)[x].blocks[y]) == p ==>
                    ok && (m, i) == (x, y)
    {
      ok, released, m, i := true, 0, 0, 0;
      ghost var cs := chunks;
      if p == 0 {
        NullIsNoPointer(cs);
        return;
      }
      var stored := if p in info then info[p] else 0;
      var found, x, y := FindBlock(Unaligned(p, stored) - MINOR);
      forall a, b | 0 <= a < |cs| && 0 <= b < |cs[a].blocks| && Pointer(cs[a].blocks[b]) == p
        ensures found && (x, y) == (a, b)
      {
        assert Stored(info, cs[a].blocks[b]);
        AlignRoundTrip(cs[a].blocks[b].at + MINOR);
        if found && (x, y) != (a, b) {
          LiveApart(cs, x, y, a, b);
        }
      }
      if !found {
        return false, 0, 0, 0;
      }
      m, i := x, y;
      released := Unlink(x, y);
    }
  }
}
