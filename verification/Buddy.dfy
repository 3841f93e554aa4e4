/** The buddy allocator of physical pages. Its tree is kept in an array indexed like a heap; every
    operation is proved against the set of live blocks. */
module Buddy {
  import opened Dyadic
  import opened Words
  import opened BuddyTree

  datatype PageQueryResult = PageQueryResult(inRange: bool, isFree: bool, blockOffset: nat, blockPages: nat)

  // ----- searching for a free run --------------------------------------------------------------

  /** No node of 2^k pages below `p` is free. */
  ghost predicate NoRun(g: Region, live: set<Path>, p: Path, k: nat) {
    forall x :: p <= x && |x| + k == g.level ==> !AllFree(g, live, x)
  }

  /** `q` is the free node of 2^k pages below `p` with the lowest offset. */
  ghost predicate Lowest(g: Region, live: set<Path>, p: Path, k: nat, q: Path) {
    && p <= q && |q| + k == g.level && AllFree(g, live, q)
    && forall x :: p <= x && |x| + k == g.level && Offset(g.level, x) < Offset(g.level, q) ==> !AllFree(g, live, x)
  }

  lemma NoneFreeNoRun(g: Region, live: set<Path>, p: Path, k: nat)
    requires |p| <= g.level && NoneFree(g, live, p)
    ensures NoRun(g, live, p, k)
  {
    forall x | p <= x && |x| + k == g.level ensures !AllFree(g, live, x) {
      NoneFreeBelow(g, live, p, x);
      if AllFree(g, live, x) {
        NotBoth(g, live, x);
      }
    }
  }

  lemma SelfOnly(g: Region, live: set<Path>, p: Path, k: nat)
    requires |p| + k == g.level
    ensures if AllFree(g, live, p) then Lowest(g, live, p, k, p) else NoRun(g, live, p, k)
  {
    forall x | p <= x && |x| + k == g.level ensures x == p {
    }
  }

  lemma SearchBoth(g: Region, live: set<Path>, p: Path, k: nat)
    requires |p| + k < g.level
    requires NoRun(g, live, p + [false], k) && NoRun(g, live, p + [true], k)
    ensures NoRun(g, live, p, k)
  {
    forall x | p <= x && |x| + k == g.level ensures !AllFree(g, live, x) {
      SubtreeCases(p, x);
    }
  }

  lemma SearchLeft(g: Region, live: set<Path>, p: Path, k: nat, q: Path)
    requires |p| + k < g.level && Lowest(g, live, p + [false], k, q)
    ensures Lowest(g, live, p, k, q)
  {
    assert p <= p + [false];
    forall x | p <= x && |x| + k == g.level && Offset(g.level, x) < Offset(g.level, q) ensures !AllFree(g, live, x) {
      SubtreeCases(p, x);
      if p + [true] <= x {
        SiblingsApart(g.level, p, q, x);
      }
    }
  }

  lemma SearchRight(g: Region, live: set<Path>, p: Path, k: nat, q: Path)
    requires |p| + k < g.level
    requires NoRun(g, live, p + [false], k) && Lowest(g, live, p + [true], k, q)
    ensures Lowest(g, live, p, k, q)
  {
    assert p <= p + [true];
    forall x | p <= x && |x| + k == g.level && Offset(g.level, x) < Offset(g.level, q) ensures !AllFree(g, live, x) {
      SubtreeCases(p, x);
    }
  }

  /** An aligned run of 2^k pages is free. */
  ghost predicate AlignedFree(g: Region, live: set<Path>, m: nat, k: nat) {
    FreeRun(g, live, m * Pow2(k), Pow2(k))
  }

  lemma AlignedFreeIsNode(g: Region, live: set<Path>, m: nat, k: nat) returns (p: Path)
    requires g.Ok() && AlignedFree(g, live, m, k)
    ensures |p| + k == g.level && Offset(g.level, p) == m * Pow2(k) && AllFree(g, live, p)
  {
    var a := m * Pow2(k);
    assert IsFree(g, live, a) && IsFree(g, live, a + Pow2(k) - 1);
    Pow2Compare(g.level, k);
    p := AlignedIsNode(g.level, k, m);
  }

  lemma NodeIsAligned(g: Region, live: set<Path>, p: Path) returns (m: nat)
    requires |p| <= g.level
    ensures Offset(g.level, p) == m * Pow2(g.level - |p|)
    ensures AllFree(g, live, p) ==> AlignedFree(g, live, m, g.level - |p|)
  {
    IndexRange(p);
    OffsetAligned(g.level, p);
    m := Index(p) + 1 - Pow2(|p|);
  }

  ghost predicate NoneAligned(g: Region, live: set<Path>, k: nat) {
    forall m: nat :: !AlignedFree(g, live, m, k)
  }

  /** `q` is a free block of 2^k pages inside the region, and no aligned run before it is free. */
  ghost predicate FirstFit(g: Region, live: set<Path>, k: nat, q: Path) {
    && |q| + k == g.level && AllFree(g, live, q) && Offset(g.level, q) + Pow2(k) <= g.pages
    && forall m: nat {:trigger AlignedFree(g, live, m, k)} :: m * Pow2(k) < Offset(g.level, q) ==>
       !AlignedFree(g, live, m, k)
  }

  lemma NoRunAligned(g: Region, live: set<Path>, k: nat)
    requires g.Ok() && NoRun(g, live, [], k)
    ensures NoneAligned(g, live, k)
  {
    forall m: nat ensures !AlignedFree(g, live, m, k) {
      if AlignedFree(g, live, m, k) {
        var p := AlignedFreeIsNode(g, live, m, k);
      }
    }
  }

  lemma LowestAligned(g: Region, live: set<Path>, k: nat, q: Path)
    requires g.Ok() && Lowest(g, live, [], k, q)
    ensures FirstFit(g, live, k, q)
  {
    assert IsFree(g, live, Offset(g.level, q) + Pow2(k) - 1);
    forall m: nat | m * Pow2(k) < Offset(g.level, q) ensures !AlignedFree(g, live, m, k) {
      if AlignedFree(g, live, m, k) {
        var p := AlignedFreeIsNode(g, live, m, k);
      }
    }
  }

  /** First fit and "nothing fits" exclude each other, so the allocator's answer is decided by the
      free pages alone. */
  lemma FirstFitDecides(g: Region, live: set<Path>, k: nat, q: Path)
    requires FirstFit(g, live, k, q)
    ensures !NoneAligned(g, live, k)
  {
    var m := NodeIsAligned(g, live, q);
  }

  // ----- keeping the tree canonical ------------------------------------------------------------

  lemma TakeNode(g: Region, live: set<Path>, p: Path, t: seq<NodeState>, t': seq<NodeState>)
    requires |t| == 2 * Pow2(g.level) - 1 && |p| <= g.level && CanonicalAt(g, live, t, p)
    requires Index(p) < |t| && t' == t[Index(p) := Used]
    ensures CanonicalAt(g, live + {p}, t', p) && SameOutside(g, t, t', p)
  {
    AtUpdate(g, t, t', p, Used);
    forall x | p <= x && |x| <= g.level ensures At(t', x) == StateOf(g, live + {p}, x) {
      if x != p {
        StateLocal(g, live, live + {p}, p, x);
      }
    }
  }

  lemma GiveNode(g: Region, live: set<Path>, p: Path, t: seq<NodeState>, t': seq<NodeState>)
    requires |t| == 2 * Pow2(g.level) - 1 && |p| <= g.level && CanonicalAt(g, live, t, p)
    requires g.Ok() && LiveOk(g, live) && p in live
    requires Index(p) < |t| && t' == t[Index(p) := Unused]
    ensures CanonicalAt(g, live - {p}, t', p) && SameOutside(g, t, t', p)
  {
    AtUpdate(g, t, t', p, Unused);
    GiveLive(g, live, p);
    assert NotUnder(live - {p}, p);
    StateMeaning(g, live - {p}, p);
    forall x | p <= x && |x| <= g.level ensures At(t', x) == StateOf(g, live - {p}, x) {
      if x != p {
        StateLocal(g, live, live - {p}, p, x);
      }
    }
  }

  /** Work in one subtree leaves the sibling canonical. */
  lemma OutsideCanonical(g: Region, live: set<Path>, t: seq<NodeState>, t': seq<NodeState>, c: Path, d: Path)
    requires |c| == |d| && c != d
    requires SameOutside(g, t, t', c) && CanonicalAt(g, live, t, d)
    ensures CanonicalAt(g, live, t', d)
  {
  }

  lemma OutsideTransitive(g: Region, t0: seq<NodeState>, t1: seq<NodeState>, t2: seq<NodeState>, p: Path, c: Path)
    requires SameOutside(g, t0, t1, p) && SameOutside(g, t1, t2, c) && p <= c
    ensures SameOutside(g, t0, t2, p)
  {
  }

  lemma CanonicalBelow(g: Region, live: set<Path>, t: seq<NodeState>, p: Path, c: Path)
    requires CanonicalAt(g, live, t, p) && p <= c
    ensures CanonicalAt(g, live, t, c)
  {
  }

  // ----- the largest free block ----------------------------------------------------------------

  /** `n` is the size of the largest free node below `p`, or 0 when there is none. */
  ghost predicate MaxFree(g: Region, live: set<Path>, p: Path, n: nat) {
    && (n > 0 ==> exists q :: p <= q && |q| <= g.level && AllFree(g, live, q) && Size(g.level, q) == n)
    && (forall q :: p <= q && |q| <= g.level && AllFree(g, live, q) ==> Size(g.level, q) <= n)
  }

  lemma MaxFreeSelf(g: Region, live: set<Path>, p: Path)
    requires |p| <= g.level && AllFree(g, live, p)
    ensures MaxFree(g, live, p, Size(g.level, p))
  {
    forall q | p <= q && |q| <= g.level ensures Size(g.level, q) <= Size(g.level, p) {
      PrefixInside(g.level, p, q);
    }
  }

  lemma MaxFreeNone(g: Region, live: set<Path>, p: Path)
    requires |p| <= g.level && NoneFree(g, live, p)
    ensures MaxFree(g, live, p, 0)
  {
    forall q | p <= q && |q| <= g.level ensures !AllFree(g, live, q) {
      NoneFreeBelow(g, live, p, q);
      if AllFree(g, live, q) {
        NotBoth(g, live, q);
      }
    }
  }

  lemma MaxFreeJoin(g: Region, live: set<Path>, p: Path, l: nat, r: nat)
    requires |p| < g.level && !AllFree(g, live, p)
    requires MaxFree(g, live, p + [false], l) && MaxFree(g, live, p + [true], r)
    ensures MaxFree(g, live, p, if l > r then l else r)
  {
    var n := if l > r then l else r;
    if n > 0 {
      var c := p + [l <= r];
      var q :| c <= q && |q| <= g.level && AllFree(g, live, q) && Size(g.level, q) == n;
      assert p <= c;
    }
    forall q | p <= q && |q| <= g.level && AllFree(g, live, q) ensures Size(g.level, q) <= n {
      SubtreeCases(p, q);
    }
  }

  /** The recursion over states that computes the maximum. */
  ghost function MaxFreeSize(g: Region, live: set<Path>, p: Path): nat
    requires |p| <= g.level
    decreases g.level - |p|
  {
    var s := StateOf(g, live, p);
    if s.Unused? then Size(g.level, p)
    else if s.Used? || s.Full? || |p| == g.level then 0
    else
      var l, r := MaxFreeSize(g, live, p + [false]), MaxFreeSize(g, live, p + [true]);
      if l > r then l else r
  }

  lemma {:induction false} MaxFreeSizeIsMax(g: Region, live: set<Path>, p: Path)
    requires g.Ok() && LiveOk(g, live) && |p| <= g.level && NotUnder(live, p)
    ensures MaxFree(g, live, p, MaxFreeSize(g, live, p))
    decreases g.level - |p|
  {
    StateMeaning(g, live, p);
    var s := StateOf(g, live, p);
    if s.Unused? {
      MaxFreeSelf(g, live, p);
    } else if s.Used? || s.Full? {
      MaxFreeNone(g, live, p);
    } else {
      ChildNotUnder(live, p, false);
      ChildNotUnder(live, p, true);
      MaxFreeSizeIsMax(g, live, p + [false]);
      MaxFreeSizeIsMax(g, live, p + [true]);
      MaxFreeJoin(g, live, p, MaxFreeSize(g, live, p + [false]), MaxFreeSize(g, live, p + [true]));
    }
  }

  /** A free block of `n` pages holds an aligned free run of every smaller power of two. */
  lemma RunInBlock(g: Region, live: set<Path>, q: Path, k: nat)
    requires |q| <= g.level && AllFree(g, live, q) && Pow2(k) <= Size(g.level, q)
    ensures !NoneAligned(g, live, k)
  {
    Pow2Compare(g.level - |q|, k);
    var x := Leftmost(g.level, q, g.level - k);
    AllFreeBelow(g, live, q, x);
    var m := NodeIsAligned(g, live, x);
    assert AlignedFree(g, live, m, k);
  }

  lemma MaxFreeDecides(g: Region, live: set<Path>, n: nat, k: nat)
    requires g.Ok() && MaxFree(g, live, [], n)
    ensures NoneAligned(g, live, k) <==> n < Pow2(k)
  {
    if m: nat :| AlignedFree(g, live, m, k) {
      var p := AlignedFreeIsNode(g, live, m, k);
      assert [] <= p;
    } else if Pow2(k) <= n {
      var q :| [] <= q && |q| <= g.level && AllFree(g, live, q) && Size(g.level, q) == n;
      RunInBlock(g, live, q, k);
    }
  }

  lemma {:induction false} Leftmost(level: nat, q: Path, d: nat) returns (x: Path)
    requires |q| <= d <= level
    ensures q <= x && |x| == d
    decreases d - |q|
  {
    if |q| == d {
      x := q;
    } else {
      x := Leftmost(level, q + [false], d);
      assert q <= q + [false];
    }
  }

  // ----- which block holds a page --------------------------------------------------------------

  lemma OnlyHolder(g: Region, live: set<Path>, x: Path, page: int, q: Path)
    requires LiveOk(g, live) && x in live && InRange(g.level, x, page)
    ensures !IsFree(g, live, page)
    ensures q in live && InRange(g.level, q, page) ==> x == q
  {
    if q in live && InRange(g.level, q, page) {
      HolderRelated(g, x, q, page);
    }
  }

  lemma NoLiveBelowFree(g: Region, live: set<Path>, p: Path)
    requires LiveOk(g, live) && |p| <= g.level && AllFree(g, live, p)
    ensures forall x :: x in live ==> !(p <= x)
  {
    forall x | x in live ensures !(p <= x) {
      FreeApart(g, live, p, x);
    }
  }

  lemma WrongSide(g: Region, p: Path, x: Path, target: int, right: bool)
    requires |p| < g.level && p <= x && x != p && |x| <= g.level
    requires right == (target >= Offset(g.level, p + [true]))
    ensures p + [right] <= x || Offset(g.level, x) != target
  {
    SubtreeCases(p, x);
    OffsetChild(g.level, p, true);
    OffsetChild(g.level, p, false);
    if p + [false] <= x {
      PrefixInside(g.level, p + [false], x);
    } else {
      PrefixInside(g.level, p + [true], x);
    }
  }

  /** Inner nodes are stored before the leaves. */
  lemma InnerIndex(level: nat, p: Path)
    ensures |p| < level <==> Index(p) < Pow2(level) - 1
  {
  }

  /** The nodes behind slot `idx` hold the states of a region with no live block. */
  ghost predicate DoneAbove(g: Region, t: seq<NodeState>, idx: int) {
    forall p {:trigger At(t, p)} :: |p| <= g.level && Index(p) > idx ==> At(t, p) == StateOf(g, {}, p)
  }

  lemma DoneLeaves(g: Region, t: seq<NodeState>)
    requires forall p {:trigger At(t, p)} :: |p| == g.level ==> At(t, p) == StateOf(g, {}, p)
    ensures DoneAbove(g, t, Pow2(g.level) - 2)
  {
    forall p | |p| <= g.level && Index(p) > Pow2(g.level) - 2 ensures At(t, p) == StateOf(g, {}, p) {
      InnerIndex(g.level, p);
    }
  }

  lemma DoneChildren(g: Region, t: seq<NodeState>, p: Path)
    requires |p| < g.level && DoneAbove(g, t, Index(p))
    ensures Summarize(At(t, p + [false]), At(t, p + [true])) == StateOf(g, {}, p)
  {
    IndexChild(p, false);
    IndexChild(p, true);
    assert At(t, p + [false]) == StateOf(g, {}, p + [false]) && At(t, p + [true]) == StateOf(g, {}, p + [true]);
  }

  lemma DoneOne(g: Region, t: seq<NodeState>, t': seq<NodeState>, p: Path)
    requires |t| == 2 * Pow2(g.level) - 1 && |p| < g.level && Index(p) < |t| && DoneAbove(g, t, Index(p))
    requires t' == t[Index(p) := StateOf(g, {}, p)]
    ensures DoneAbove(g, t', Index(p) - 1)
  {
    AtUpdate(g, t, t', p, StateOf(g, {}, p));
    forall x | |x| <= g.level && Index(x) > Index(p) - 1 ensures At(t', x) == StateOf(g, {}, x) {
      if x != p && Index(x) == Index(p) {
        IndexInjective(x, p);
      }
    }
  }

  lemma LeafSlot(level: nat, p: Path)
    requires |p| == level
    ensures Index(p) == Pow2(level) - 1 + Offset(level, p) < 2 * Pow2(level) - 1
  {
    IndexBound(p, level);
    OffsetFromIndex(level, p);
  }

  lemma EmptyCount(g: Region)
    ensures |FreeSet(g, {})| == g.pages
  {
    IntervalSize(0, g.pages);
    assert FreeSet(g, {}) == Interval(0, g.pages);
  }

  /** What a walk down the tree hands to a child. */
  lemma DownTo(g: Region, live: set<Path>, t: seq<NodeState>, p: Path, right: bool)
    requires |p| < g.level && NotUnder(live, p) && p !in live && CanonicalAt(g, live, t, p)
    ensures NotUnder(live, p + [right]) && CanonicalAt(g, live, t, p + [right])
    ensures Index(p + [right]) == 2 * Index(p) + if right then 2 else 1
    ensures Size(g.level, p) / 2 == Size(g.level, p + [right])
    ensures Offset(g.level, p + [right]) == Offset(g.level, p) + if right then Size(g.level, p + [right]) else 0
  {
  }

  lemma ReadState(g: Region, live: set<Path>, t: seq<NodeState>, p: Path)
    requires |p| <= g.level && CanonicalAt(g, live, t, p) && |t| == 2 * Pow2(g.level) - 1
    ensures Index(p) < |t| && t[Index(p)] == StateOf(g, live, p)
    ensures t[Index(p)].Split? ==> |p| < g.level && p !in live
  {
    IndexBound(p, g.level);
    assert At(t, p) == StateOf(g, live, p);
  }

  /** What a walk reads at a node. */
  lemma ReadNode(g: Region, live: set<Path>, t: seq<NodeState>, p: Path)
    requires g.Ok() && LiveOk(g, live) && |p| <= g.level && NotUnder(live, p) && CanonicalAt(g, live, t, p)
    requires |t| == 2 * Pow2(g.level) - 1
    ensures Index(p) < |t|
    ensures t[Index(p)].Unused? <==> AllFree(g, live, p)
    ensures t[Index(p)].Used? || t[Index(p)].Full? <==> NoneFree(g, live, p)
    ensures t[Index(p)].Used? <==> p in live
    ensures t[Index(p)].Split? ==> |p| < g.level
    ensures |p| == g.level && t[Index(p)].Full? ==> Offset(g.level, p) >= g.pages
  {
    IndexBound(p, g.level);
    StateMeaning(g, live, p);
    assert At(t, p) == StateOf(g, live, p);
  }

  class BuddySystem {
    var pageCount: nat
    var capacityPages: nat
    var freePageCount: nat
    var level: nat
    var tree: array<NodeState>
    ghost var live: set<Path>

    ghost function G(): Region
      reads this
    {
      Region(level, pageCount)
    }

    /** The fields no allocation changes fit together. */
    ghost predicate Shape()
      reads this
    {
      G().Ok() && capacityPages == Pow2(level) && tree.Length == 2 * Pow2(level) - 1
    }

    ghost predicate Valid()
      reads this, tree
    {
      && Shape()
      && LiveOk(G(), live)
      && Canonical(G(), live, tree[..])
      && freePageCount == |FreeSet(G(), live)|
    }

    /** An empty tree over `totalPages` pages: leaves past the end are full, the rest unused. */
    constructor Initialize(totalPages: nat)
      requires totalPages <= 0x8000_0000
      ensures Valid() && fresh(tree)
      ensures live == {} && pageCount == if totalPages == 0 then 1 else totalPages
    {
      var pages := if totalPages == 0 then 1 else totalPages;
      var capacity, k := CapacityPagesFor(pages);
      pageCount, capacityPages, freePageCount := pages, capacity, pages;
      var l := LevelFor(capacity, k);
      level := l;
      tree := new NodeState[2 * capacity - 1](_ => Unused);
      live := {};
      new;
      MarkUnusableLeaves();
      RebuildParentStates();
      EmptyCount(G());
    }

    static method CapacityPagesFor(pages: nat) returns (capacity: nat, ghost k: nat)
      requires 1 <= pages <= 0x8000_0000
      ensures capacity == Pow2(k) && pages <= capacity
    {
      capacity := NextPowerOfTwo(pages);
      k := NextPowerOfTwoIsLeast(pages);
    }

    static method LevelFor(capacity: nat, ghost k: nat) returns (l: nat)
      requires capacity == Pow2(k)
      ensures l == k
    {
      l := 0;
      ShiftLeftOne(0);
      Pow2Compare(0, k);
      while ShiftLeft(1, l) < capacity
        invariant l <= k && ShiftLeft(1, l) == Pow2(l)
        decreases k - l
      {
        Pow2Compare(l, k);
        l := l + 1;
        ShiftLeftOne(l);
      }
      Pow2Compare(l, k);
    }

    method MarkUnusableLeaves()
      requires Shape()
      modifies tree
      ensures forall p {:trigger At(tree[..], p)} :: |p| == level ==> At(tree[..], p) == StateOf(G(), {}, p)
    {
      ShiftLeftOne(level);
      var leafStart := ShiftLeft(1, level) - 1;
      var i := 0;
      while i < capacityPages
        invariant 0 <= i <= capacityPages
        invariant forall x :: leafStart <= x < leafStart + i ==>
                  tree[x] == if x - leafStart >= pageCount then Full else Unused
      {
        tree[leafStart + i] := if i >= pageCount then Full else Unused;
        i := i + 1;
      }
      forall p | |p| == level ensures At(tree[..], p) == StateOf(G(), {}, p) {
        IndexBound(p, level);
        LeafSlot(level, p);
      }
    }

    method RebuildParentStates()
      requires Shape()
      requires forall p {:trigger At(tree[..], p)} :: |p| == level ==> At(tree[..], p) == StateOf(G(), {}, p)
      modifies tree
      ensures Canonical(G(), {}, tree[..])
    {
      ShiftLeftOne(level);
      var idx := ShiftLeft(1, level) - 2;
      DoneLeaves(G(), tree[..]);
      while idx >= 0
        invariant -1 <= idx <= Pow2(level) - 2
        invariant DoneAbove(G(), tree[..], idx)
      {
        ghost var p := NodeOfSlot(idx);
        InnerIndex(level, p);
        ghost var t := tree[..];
        var s := SummarizeChildrenState(idx, p);
        DoneChildren(G(), t, p);
        tree[idx] := s;
        DoneOne(G(), t, tree[..], p);
        idx := idx - 1;
      }
    }

    method NodeBlockPages(depth: nat) returns (n: nat)
      requires Shape() && depth <= level
      ensures n == Pow2(level - depth)
    {
      ShiftPow2(level, depth);
      n := ShiftRight(capacityPages, depth);
    }

    method NodeDepth(index: nat, ghost p: Path) returns (depth: nat)
      requires index == Index(p)
      ensures depth == |p|
    {
      var x := index + 1;
      depth := 0;
      IndexRange(p);
      ShiftLeftOne(1);
      while ShiftLeft(1, depth + 1) <= x
        invariant Pow2(depth) <= x
        invariant depth <= |p|
        decreases |p| - depth
      {
        ShiftLeftOne(depth + 1);
        Pow2Compare(depth + 1, |p| + 1);
        depth := depth + 1;
      }
      ShiftLeftOne(depth + 1);
      Pow2Compare(|p|, depth + 1);
    }

    method NodeOffsetPages(index: nat, ghost p: Path) returns (offset: int)
      requires Shape() && index == Index(p) && |p| <= level
      ensures offset == Offset(level, p)
    {
      var depth := NodeDepth(index, p);
      ShiftLeftOne(depth);
      OffsetFromIndex(level, p);
      var pos := index + 1 - ShiftLeft(1, depth);
      offset := ShiftLeft(pos, level - depth);
    }

    method SummarizeChildrenState(index: nat, ghost p: Path) returns (s: NodeState)
      requires Shape() && index == Index(p) && |p| < level
      ensures s == Summarize(At(tree[..], p + [false]), At(tree[..], p + [true]))
    {
      IndexChild(p, false);
      IndexChild(p, true);
      IndexBound(p + [false], level);
      IndexBound(p + [true], level);
      s := Summarize(tree[index * 2 + 1], tree[index * 2 + 2]);
    }

    /** Depth-first, left-first search for a block of 2^k pages below node `p`. */
    method AllocateFromNode(index: nat, depth: nat, actualPages: nat, ghost p: Path, ghost k: nat)
      returns (r: int, ghost q: Path)
      requires Shape() && LiveOk(G(), live)
      requires |p| == depth <= level && index == Index(p) && NotUnder(live, p)
      requires actualPages == Pow2(k)
      requires CanonicalAt(G(), live, tree[..], p)
      modifies tree
      ensures SameOutside(G(), old(tree[..]), tree[..], p)
      ensures r == -1 ==> CanonicalAt(G(), live, tree[..], p) && NoRun(G(), live, p, k)
      ensures r != -1 ==> Lowest(G(), live, p, k, q) && r == Index(q)
      ensures r != -1 ==> CanonicalAt(G(), live + {q}, tree[..], p)
      decreases level - depth
    {
      ghost var g, t0 := G(), tree[..];
      var blockPages := NodeBlockPages(depth);
      Pow2Compare(level - depth, k);
      if actualPages > blockPages {
        return -1, p;
      }
      IndexBound(p, level);
      StateMeaning(g, live, p);
      assert At(t0, p) == StateOf(g, live, p);
      var state := tree[index];
      if state.Used? || state.Full? {
        NoneFreeNoRun(g, live, p, k);
        return -1, p;
      }
      if blockPages == actualPages {
        SelfOnly(g, live, p, k);
        if !state.Unused? {
          return -1, p;
        }
        tree[index] := Used;
        TakeNode(g, live, p, t0, tree[..]);
        return index, p;
      }
      ChildNotUnder(live, p, false);
      ChildNotUnder(live, p, true);
      r, q := AllocateFromChildren(index, depth, actualPages, p, k);
    }

    /** An unused node becomes split; its children are unused already. */
    method SplitUnusedNode(index: nat, ghost p: Path)
      requires Shape() && |p| < level && index == Index(p) && p !in live
      requires CanonicalAt(G(), live, tree[..], p)
      modifies tree
      ensures SameOutside(G(), old(tree[..]), tree[..], p)
      ensures CanonicalAt(G(), live, tree[..], p + [false]) && CanonicalAt(G(), live, tree[..], p + [true])
    {
      ghost var g, t0 := G(), tree[..];
      ghost var l, r := p + [false], p + [true];
      IndexBound(p, level);
      IndexBound(l, level);
      IndexBound(r, level);
      IndexChild(p, false);
      IndexChild(p, true);
      CanonicalBelow(g, live, t0, p, l);
      CanonicalBelow(g, live, t0, p, r);
      if !tree[index].Unused? {
        return;
      }
      assert At(t0, p).Unused?;
      assert At(t0, l).Unused? && At(t0, r).Unused?;
      tree[index] := Split;
      tree[index * 2 + 1] := Unused;
      tree[index * 2 + 2] := Unused;
      assert tree[..] == t0[index := Split];
      AtUpdate(g, t0, tree[..], p, Split);
    }

    /** Recomputes a node from its two finished children. */
    method FinishNode(index: nat, ghost p: Path, ghost live': set<Path>, ghost t0: seq<NodeState>)
      requires Shape() && |p| < level && index == Index(p) && p !in live'
      requires CanonicalAt(G(), live', tree[..], p + [false]) && CanonicalAt(G(), live', tree[..], p + [true])
      requires SameOutside(G(), t0, tree[..], p)
      modifies tree
      ensures SameOutside(G(), t0, tree[..], p) && CanonicalAt(G(), live', tree[..], p)
    {
      ghost var t1 := tree[..];
      IndexBound(p, level);
      var s := SummarizeChildrenState(index, p);
      tree[index] := s;
      ParentCanonical(G(), live', p, t1, tree[..]);
      OutsideTransitive(G(), t0, t1, tree[..], p, p);
    }

    /** The recursive case: split the node if needed, try the left child, then the right one. */
    method AllocateFromChildren(index: nat, depth: nat, actualPages: nat, ghost p: Path, ghost k: nat)
      returns (r: int, ghost q: Path)
      requires Shape() && LiveOk(G(), live)
      requires |p| == depth && depth + k < level && index == Index(p) && p !in live
      requires NotUnder(live, p + [false]) && NotUnder(live, p + [true])
      requires actualPages == Pow2(k)
      requires CanonicalAt(G(), live, tree[..], p)
      modifies tree
      ensures SameOutside(G(), old(tree[..]), tree[..], p)
      ensures r == -1 ==> CanonicalAt(G(), live, tree[..], p) && NoRun(G(), live, p, k)
      ensures r != -1 ==> Lowest(G(), live, p, k, q) && r == Index(q)
      ensures r != -1 ==> CanonicalAt(G(), live + {q}, tree[..], p)
      decreases level - depth, 0
    {
      ghost var g, t0 := G(), tree[..];
      ghost var pl, pr := p + [false], p + [true];
      SplitUnusedNode(index, p);
      ghost var t1 := tree[..];
      IndexChild(p, false);
      IndexChild(p, true);
      var left := index * 2 + 1;
      r, q := AllocateFromNode(left, depth + 1, actualPages, pl, k);
      ghost var t2 := tree[..];
      OutsideTransitive(g, t0, t1, t2, p, pl);
      if r == -1 {
        OutsideCanonical(g, live, t1, t2, pl, pr);
        r, q := AllocateFromNode(left + 1, depth + 1, actualPages, pr, k);
        OutsideTransitive(g, t0, t2, tree[..], p, pr);
        if r == -1 {
          SearchBoth(g, live, p, k);
          OutsideCanonical(g, live, t2, tree[..], pr, pl);
          FinishNode(index, p, live, t0);
        } else {
          SearchRight(g, live, p, k, q);
          SiblingCanonical(g, live, live + {q}, q, p, true, t2, tree[..]);
          FinishNode(index, p, live + {q}, t0);
        }
      } else {
        SearchLeft(g, live, p, k, q);
        SiblingCanonical(g, live, live + {q}, q, p, false, t1, tree[..]);
        FinishNode(index, p, live + {q}, t0);
      }
    }

    /** The block length of a request: at least one page, rounded up to a power of two. */
    static method ActualPages(size: int) returns (actual: nat, ghost k: nat)
      requires size < 0x8000_0000
      ensures actual == Pow2(k)
      ensures var n := if size <= 0 then 1 else size; n <= Pow2(k) && (k > 0 ==> Pow2(k - 1) < n)
    {
      var requested := if size <= 0 then 1 else size;
      actual := NextPowerOfTwo(requested);
      k := NextPowerOfTwoIsLeast(requested);
    }

    /** Allocates the least power of two of pages that holds the request: the lowest aligned free
        run of that length if there is one, and nothing otherwise. */
    method Alloc(size: int) returns (r: int, ghost k: nat, ghost q: Path)
      requires Valid() && size < 0x8000_0000
      modifies this`live, this`freePageCount, tree
      ensures Valid()
      ensures var n := if size <= 0 then 1 else size; n <= Pow2(k) && (k > 0 ==> Pow2(k - 1) < n)
      ensures r == -1 ==> NoneAligned(G(), old(live), k)
      ensures r == -1 ==> live == old(live) && tree[..] == old(tree[..]) && freePageCount == old(freePageCount)
      ensures r != -1 ==> FirstFit(G(), old(live), k, q) && r == Offset(level, q)
      ensures r != -1 ==> q !in old(live) && live == old(live) + {q} && freePageCount == old(freePageCount) - Pow2(k)
    {
      var actual;
      actual, k := ActualPages(size);
      ghost var g, t0 := G(), tree[..];
      Pow2Compare(level, k);
      r, q := -1, [];
      if actual > capacityPages {
        NoRunAligned(g, live, k);
        return;
      }
      var node;
      node, q := AllocateFromNode(0, 0, actual, [], k);
      if node == -1 {
        NoRunAligned(g, live, k);
        TreeIsFunctionOfLive(g, live, t0, tree[..]);
        return;
      }
      r := NodeOffsetPages(node, q);
      LowestAligned(g, live, k, q);
      TakeLive(g, live, q);
      TakeCount(g, live, q);
      freePageCount := freePageCount - actual;
      live := live + {q};
    }

    // ----- queries -----------------------------------------------------------------------------

    method QueryPageFromNode(index: nat, blockOffset: nat, blockPages: nat, page: nat, ghost p: Path)
      returns (r: PageQueryResult, ghost q: Path)
      requires Shape() && LiveOk(G(), live) && CanonicalAt(G(), live, tree[..], p)
      requires |p| <= level && index == Index(p) && NotUnder(live, p)
      requires blockOffset == Offset(level, p) && blockPages == Size(level, p)
      requires InRange(level, p, page) && page < pageCount
      ensures r.inRange && r.isFree == IsFree(G(), live, page)
      ensures !r.isFree ==> q in live && r.blockOffset == Offset(level, q) && r.blockPages == Size(level, q)
      ensures !r.isFree ==> InRange(level, q, page)
      decreases level - |p|
    {
      q := p;
      ghost var g := G();
      ReadNode(g, live, tree[..], p);
      var state := tree[index];
      if state.Unused? {
        return PageQueryResult(true, true, blockOffset, blockPages), q;
      }
      Pow2Compare(0, level - |p|);
      if state.Used? || blockPages == 1 {
        return PageQueryResult(true, false, blockOffset, blockPages), q;
      }
      var half := blockPages / 2;
      DownTo(g, live, tree[..], p, false);
      DownTo(g, live, tree[..], p, true);
      if page < blockOffset + half {
        r, q := QueryPageFromNode(index * 2 + 1, blockOffset, half, page, p + [false]);
      } else {
        OffsetChild(level, p, true);
        r, q := QueryPageFromNode(index * 2 + 2, blockOffset + half, half, page, p + [true]);
      }
    }

    /** Whether a page is free, and if not, which live block holds it. */
    method QueryPage(page: nat) returns (r: PageQueryResult, ghost q: Path)
      requires Valid()
      ensures (r.inRange <==> page < pageCount) && (!r.inRange ==> !r.isFree && r.blockPages == 0)
      ensures r.inRange ==> r.isFree == IsFree(G(), live, page)
      ensures r.inRange && !r.isFree ==> q in live && InRange(level, q, page)
      ensures r.inRange && !r.isFree ==> r.blockOffset == Offset(level, q) && r.blockPages == Size(level, q)
    {
      if page >= pageCount {
        return PageQueryResult(false, false, 0, 0), [];
      }
      r, q := QueryPageFromNode(0, 0, capacityPages, page, []);
    }

    /** The pages of the largest free node below `p`. */
    method MaxFreeFromNode(index: nat, blockPages: nat, ghost p: Path) returns (n: nat)
      requires Shape() && LiveOk(G(), live) && CanonicalAt(G(), live, tree[..], p)
      requires |p| <= level && index == Index(p) && NotUnder(live, p) && blockPages == Size(level, p)
      ensures n == MaxFreeSize(G(), live, p)
      decreases level - |p|
    {
      ghost var g := G();
      ReadState(g, live, tree[..], p);
      var state := tree[index];
      if state.Unused? {
        return blockPages;
      }
      if state.Used? || state.Full? || blockPages == 0 {
        return 0;
      }
      var half := blockPages / 2;
      DownTo(g, live, tree[..], p, false);
      DownTo(g, live, tree[..], p, true);
      var left := MaxFreeFromNode(index * 2 + 1, half, p + [false]);
      var right := MaxFreeFromNode(index * 2 + 2, half, p + [true]);
      n := if left > right then left else right;
    }

    /** A request for 2^k pages can be met exactly when 2^k is at most the reported maximum. */
    method GetMaxFreeBlockPages() returns (n: nat)
      requires Valid()
      ensures forall k: nat :: NoneAligned(G(), live, k) <==> n < Pow2(k)
    {
      n := MaxFreeFromNode(0, capacityPages, []);
      MaxFreeSizeIsMax(G(), live, []);
      forall k: nat ensures NoneAligned(G(), live, k) <==> n < Pow2(k) {
        MaxFreeDecides(G(), live, n, k);
      }
    }

    // ----- freeing -----------------------------------------------------------------------------

    /** Releases the block that starts at `target`, if there is one below node `p`. */
    method FreeFromNode(index: nat, depth: nat, target: int, ghost p: Path) returns (released: bool, ghost q: Path)
      requires Shape() && LiveOk(G(), live) && CanonicalAt(G(), live, tree[..], p)
      requires |p| == depth <= level && index == Index(p) && NotUnder(live, p)
      requires 0 <= target < pageCount
      modifies tree
      ensures SameOutside(G(), old(tree[..]), tree[..], p)
      ensures released ==>
                p <= q && q in live && Offset(level, q) == target && CanonicalAt(G(), live - {q}, tree[..], p)
      ensures !released ==> tree[..] == old(tree[..]) && forall x :: x in live && p <= x ==> Offset(level, x) != target
      decreases level - depth
    {
      ghost var g, t0 := G(), tree[..];
      released, q := false, p;
      var offset := NodeOffsetPages(index, p);
      var blockPages := NodeBlockPages(depth);
      if target < offset || target >= offset + blockPages {
        forall x | x in live && p <= x ensures Offset(level, x) != target { PrefixInside(level, p, x); }
        return;
      }
      IndexBound(p, level);
      StateMeaning(g, live, p);
      assert At(t0, p) == StateOf(g, live, p);
      if tree[index].Used? {
        if offset != target {
          return;
        }
        tree[index] := Unused;
        GiveNode(g, live, p, t0, tree[..]);
        released := true;
        return;
      }
      if tree[index].Unused? {
        NoLiveBelowFree(g, live, p);
        return;
      }
      ChildNotUnder(live, p, false);
      ChildNotUnder(live, p, true);
      released, q := FreeFromChild(index, depth, target, p, target >= offset + blockPages / 2);
    }

    method FreeFromChild(index: nat, depth: nat, target: int, ghost p: Path, right: bool)
      returns (released: bool, ghost q: Path)
      requires Shape() && LiveOk(G(), live) && CanonicalAt(G(), live, tree[..], p)
      requires |p| == depth < level && index == Index(p) && p !in live
      requires NotUnder(live, p + [false]) && NotUnder(live, p + [true])
      requires 0 <= target < pageCount && right == (target >= Offset(level, p + [true]))
      modifies tree
      ensures SameOutside(G(), old(tree[..]), tree[..], p)
      ensures released ==>
                p <= q && q in live && Offset(level, q) == target && CanonicalAt(G(), live - {q}, tree[..], p)
      ensures !released ==> tree[..] == old(tree[..]) && forall x :: x in live && p <= x ==> Offset(level, x) != target
      decreases level - depth, 0
    {
      ghost var g, t0, c := G(), tree[..], p + [right];
      IndexChild(p, right);
      CanonicalBelow(g, live, t0, p, p + [false]);
      CanonicalBelow(g, live, t0, p, p + [true]);
      released, q := FreeFromNode(if right then index * 2 + 2 else index * 2 + 1, depth + 1, target, c);
      if !released {
        forall x | x in live && p <= x ensures Offset(level, x) != target { WrongSide(g, p, x, target, right); }
        return;
      }
      SiblingCanonical(g, live, live - {q}, q, p, right, t0, tree[..]);
      OutsideTransitive(g, t0, t0, tree[..], p, c);
      FinishNode(index, p, live - {q}, t0);
    }

    /** Frees the live block that starts at `offset`; any other argument changes nothing. */
    method Free(offset: int)
      requires Valid()
      modifies this`live, this`freePageCount, tree
      ensures Valid()
      ensures forall q :: q in old(live) && Offset(level, q) == offset ==>
        live == old(live) - {q} && freePageCount == old(freePageCount) + Size(level, q)
      ensures (forall q :: q in old(live) ==> Offset(level, q) != offset) ==>
        live == old(live) && tree[..] == old(tree[..]) && freePageCount == old(freePageCount)
    {
      ghost var g := G();
      if offset < 0 || offset >= pageCount {
        return;
      }
      var block, q := QueryPage(offset);
      forall x | x in live && Offset(level, x) == offset ensures !block.isFree && x == q {
        OnlyHolder(g, live, x, offset, q);
      }
      if !block.inRange || block.isFree || block.blockOffset != offset {
        return;
      }
      var released, q' := FreeFromNode(0, 0, offset, []);
      OnlyHolder(g, live, q', offset, q);
      GiveLive(g, live, q);
      TakeCount(g, live - {q}, q);
      freePageCount := freePageCount + block.blockPages;
      live := live - {q};
    }
  }
}
