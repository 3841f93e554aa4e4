/** What the buddy tree means. The state of every node is a function of the set of live blocks, and
    tells exactly whether the node's pages are all free, none free, or mixed. */
module BuddyTree {
  import opened Dyadic

  datatype NodeState = Unused | Used | Split | Full

  /** State of an inner node from the states of its children. */
  function Summarize(l: NodeState, r: NodeState): NodeState {
    if (l.Used? || l.Full?) && (r.Used? || r.Full?) then Full
    else if l.Unused? && r.Unused? then Unused
    else Split
  }

  /** The managed region: 2^level leaves, of which the first `pages` exist. */
  datatype Region = Region(level: nat, pages: nat) {
    ghost predicate Ok() { 1 <= pages <= Pow2(level) }
  }

  ghost predicate Covered(g: Region, live: set<Path>, page: int) {
    exists q :: q in live && |q| <= g.level && InRange(g.level, q, page)
  }

  ghost predicate IsFree(g: Region, live: set<Path>, page: int) {
    0 <= page < g.pages && !Covered(g, live, page)
  }

  /** `n` pages from `a` on exist and belong to no live block. */
  ghost predicate FreeRun(g: Region, live: set<Path>, a: int, n: nat) {
    forall page :: a <= page < a + n ==> IsFree(g, live, page)
  }

  ghost predicate AllFree(g: Region, live: set<Path>, p: Path)
    requires |p| <= g.level
  {
    FreeRun(g, live, Offset(g.level, p), Size(g.level, p))
  }

  ghost predicate NoneFree(g: Region, live: set<Path>, p: Path)
    requires |p| <= g.level
  {
    forall page :: InRange(g.level, p, page) ==> !IsFree(g, live, page)
  }

  /** Live blocks are nodes inside the region, none inside another. */
  ghost predicate LiveOk(g: Region, live: set<Path>) {
    && (forall q :: q in live ==> |q| <= g.level && Offset(g.level, q) + Size(g.level, q) <= g.pages)
    && (forall p, q :: p in live && q in live && p <= q ==> p == q)
  }

  /** The state of every node, as a function of the live blocks. */
  ghost function StateOf(g: Region, live: set<Path>, p: Path): NodeState
    requires |p| <= g.level
    decreases g.level - |p|
  {
    if p in live then Used
    else if |p| == g.level then if Offset(g.level, p) < g.pages then Unused else Full
    else Summarize(StateOf(g, live, p + [false]), StateOf(g, live, p + [true]))
  }

  /** No live block lies properly above the node. */
  ghost predicate NotUnder(live: set<Path>, p: Path) {
    forall q :: q in live && q <= p ==> q == p
  }

  lemma ChildNotUnder(live: set<Path>, p: Path, right: bool)
    requires NotUnder(live, p) && p !in live
    ensures NotUnder(live, p + [right])
  {
  }

  /** A block that holds a page of a node lies above the node or below it. */
  lemma HolderRelated(g: Region, p: Path, q: Path, page: int)
    requires |p| <= g.level && |q| <= g.level
    requires InRange(g.level, p, page) && InRange(g.level, q, page)
    ensures p <= q || q <= p
  {
    if !(p <= q) && !(q <= p) {
      ForkApart(g.level, p, q);
    }
  }

  lemma LeafMeaning(g: Region, live: set<Path>, p: Path)
    requires LiveOk(g, live) && |p| == g.level && NotUnder(live, p) && p !in live
    ensures IsFree(g, live, Offset(g.level, p)) <==> Offset(g.level, p) < g.pages
  {
    var page := Offset(g.level, p);
    if Covered(g, live, page) {
      var q :| q in live && |q| <= g.level && InRange(g.level, q, page);
      HolderRelated(g, p, q, page);
    }
  }

  /** Unused: all pages free. Used or Full: no page free. Split: some free, some not. */
  lemma {:induction false} StateMeaning(g: Region, live: set<Path>, p: Path)
    requires g.Ok() && LiveOk(g, live) && |p| <= g.level && NotUnder(live, p)
    ensures StateOf(g, live, p).Unused? <==> AllFree(g, live, p)
    ensures StateOf(g, live, p).Used? || StateOf(g, live, p).Full? <==> NoneFree(g, live, p)
    decreases g.level - |p|
  {
    assert InRange(g.level, p, Offset(g.level, p));
    if p in live {
      assert Covered(g, live, Offset(g.level, p));
      assert !IsFree(g, live, Offset(g.level, p));
    } else if |p| == g.level {
      LeafMeaning(g, live, p);
    } else {
      ChildNotUnder(live, p, false);
      ChildNotUnder(live, p, true);
      StateMeaning(g, live, p + [false]);
      StateMeaning(g, live, p + [true]);
      ChildrenPages(g, live, p);
    }
  }

  /** A node's pages are those of its two children. */
  lemma ChildrenPages(g: Region, live: set<Path>, p: Path)
    requires |p| < g.level
    ensures AllFree(g, live, p) <==> AllFree(g, live, p + [false]) && AllFree(g, live, p + [true])
    ensures NoneFree(g, live, p) <==> NoneFree(g, live, p + [false]) && NoneFree(g, live, p + [true])
  {
    OffsetChild(g.level, p, false);
    OffsetChild(g.level, p, true);
    if AllFree(g, live, p + [false]) && AllFree(g, live, p + [true]) {
      forall page | InRange(g.level, p, page) ensures IsFree(g, live, page) {
        assert InRange(g.level, p + [false], page) || InRange(g.level, p + [true], page);
      }
    }
    if NoneFree(g, live, p + [false]) && NoneFree(g, live, p + [true]) {
      forall page | InRange(g.level, p, page) ensures !IsFree(g, live, page) {
        assert InRange(g.level, p + [false], page) || InRange(g.level, p + [true], page);
      }
    }
  }

  /** Adding or removing a block changes only the states of the nodes above it. */
  lemma {:induction false} StateLocal(g: Region, live: set<Path>, live': set<Path>, q: Path, p: Path)
    requires |p| <= g.level && !(p <= q)
    requires forall r :: r != q ==> (r in live <==> r in live')
    ensures StateOf(g, live, p) == StateOf(g, live', p)
    decreases g.level - |p|
  {
    if |p| < g.level {
      assert p <= p + [false] && p <= p + [true];
      StateLocal(g, live, live', q, p + [false]);
      StateLocal(g, live, live', q, p + [true]);
    }
  }

  // ----- the tree as an array ------------------------------------------------------------------

  ghost function At(t: seq<NodeState>, p: Path): NodeState {
    if Index(p) < |t| then t[Index(p)] else Full
  }

  /** The subtree at `r` holds exactly the states the live blocks dictate. */
  ghost predicate CanonicalAt(g: Region, live: set<Path>, t: seq<NodeState>, r: Path) {
    forall p {:trigger At(t, p)} :: r <= p && |p| <= g.level ==> At(t, p) == StateOf(g, live, p)
  }

  ghost predicate Canonical(g: Region, live: set<Path>, t: seq<NodeState>) {
    |t| == 2 * Pow2(g.level) - 1 && CanonicalAt(g, live, t, [])
  }

  /** Only slots of the subtree at `r` differ. */
  ghost predicate SameOutside(g: Region, t: seq<NodeState>, t': seq<NodeState>, r: Path) {
    |t| == |t'| && forall p {:trigger At(t', p)} :: |p| <= g.level && !(r <= p) ==> At(t', p) == At(t, p)
  }

  lemma AtUpdate(g: Region, t: seq<NodeState>, t': seq<NodeState>, q: Path, s: NodeState)
    requires |t| == 2 * Pow2(g.level) - 1 && |q| <= g.level
    requires Index(q) < |t| && t' == t[Index(q) := s]
    ensures forall p {:trigger At(t', p)} :: |p| <= g.level ==> At(t', p) == if p == q then s else At(t, p)
  {
    forall p | |p| <= g.level ensures At(t', p) == if p == q then s else At(t, p) {
      IndexBound(p, g.level);
      if Index(p) == Index(q) {
        IndexInjective(p, q);
      }
    }
  }

  /** Every slot belongs to a node. */
  lemma {:induction false} SlotIsNode(g: Region, i: nat) returns (p: Path)
    requires i < 2 * Pow2(g.level) - 1
    ensures |p| <= g.level && Index(p) == i
  {
    p := NodeOfSlot(i);
    IndexRange(p);
    if |p| > g.level {
      Pow2Grows(g.level, |p|);
    }
  }

  lemma {:induction false} NodeOfSlot(i: nat) returns (p: Path)
    ensures Index(p) == i
  {
    if i == 0 {
      p := [];
    } else {
      var q := NodeOfSlot((i - 1) / 2);
      p := q + [i % 2 == 0];
      IndexChild(q, i % 2 == 0);
    }
  }

  /** The tree is determined by the live blocks: whatever the history, equal live sets mean equal
      trees. In particular, freeing what was allocated, in any order, restores the tree exactly. */
  lemma TreeIsFunctionOfLive(g: Region, live: set<Path>, t: seq<NodeState>, t': seq<NodeState>)
    requires Canonical(g, live, t) && Canonical(g, live, t')
    ensures t == t'
  {
    forall i | 0 <= i < |t| ensures t[i] == t'[i] {
      var p := SlotIsNode(g, i);
      assert [] <= p;
      assert At(t, p) == At(t', p);
    }
  }

  /** And the other way: the live blocks can be read off the tree. */
  lemma LiveIsFunctionOfTree(g: Region, live: set<Path>, live': set<Path>, t: seq<NodeState>)
    requires LiveOk(g, live) && LiveOk(g, live')
    requires Canonical(g, live, t) && Canonical(g, live', t)
    ensures live == live'
  {
    forall p | p in live ensures p in live' {
      UsedIsLive(g, live, live', t, p);
    }
    forall p | p in live' ensures p in live {
      UsedIsLive(g, live', live, t, p);
    }
  }

  lemma UsedIsLive(g: Region, live: set<Path>, live': set<Path>, t: seq<NodeState>, p: Path)
    requires LiveOk(g, live) && Canonical(g, live, t) && Canonical(g, live', t) && p in live
    ensures p in live'
  {
    assert [] <= p;
    assert At(t, p) == Used;
    assert StateOf(g, live', p) == Used;
  }

  // ----- changing the live set -----------------------------------------------------------------

  ghost predicate Changes(live: set<Path>, live': set<Path>, q: Path) {
    forall r :: r != q ==> (r in live <==> r in live')
  }

  /** The other child's subtree is up to date for the new live set already. */
  lemma SiblingCanonical(g: Region, live: set<Path>, live': set<Path>, q: Path, p: Path, right: bool,
                         t0: seq<NodeState>, t1: seq<NodeState>)
    requires |p| < g.level && p + [right] <= q && Changes(live, live', q)
    requires CanonicalAt(g, live, t0, p + [!right]) && SameOutside(g, t0, t1, p + [right])
    ensures CanonicalAt(g, live', t1, p + [!right])
  {
    assert q[|p|] == right;
    forall x | p + [!right] <= x && |x| <= g.level ensures At(t1, x) == StateOf(g, live', x) {
      assert x[|p|] == !right;
      StateLocal(g, live, live', q, x);
    }
  }

  /** Summarizing two up-to-date children finishes the parent. */
  lemma ParentCanonical(g: Region, live: set<Path>, p: Path, t: seq<NodeState>, t': seq<NodeState>)
    requires |t| == 2 * Pow2(g.level) - 1 && |p| < g.level && p !in live
    requires CanonicalAt(g, live, t, p + [false]) && CanonicalAt(g, live, t, p + [true])
    requires Index(p) < |t| && t' == t[Index(p) := Summarize(At(t, p + [false]), At(t, p + [true]))]
    ensures CanonicalAt(g, live, t', p)
    ensures SameOutside(g, t, t', p)
  {
    AtUpdate(g, t, t', p, Summarize(At(t, p + [false]), At(t, p + [true])));
    forall x | p <= x && |x| <= g.level ensures At(t', x) == StateOf(g, live, x) {
      if x != p {
        SubtreeCases(p, x);
      }
    }
  }

  lemma SubtreeCases(p: Path, x: Path)
    requires p <= x && x != p
    ensures p + [false] <= x || p + [true] <= x
  {
    if x[|p|] {
      assert x[..|p| + 1] == p + [true];
    } else {
      assert x[..|p| + 1] == p + [false];
    }
  }

  // ----- counting free pages -------------------------------------------------------------------

  ghost function FreeSet(g: Region, live: set<Path>): set<int> {
    set page: int | 0 <= page < g.pages && IsFree(g, live, page)
  }

  ghost predicate Inside(a: int, n: nat, x: int) {
    a <= x < a + n
  }

  ghost function Interval(a: int, n: nat): set<int> {
    set x: int | a <= x < a + n && Inside(a, n, x)
  }

  lemma {:induction false} IntervalSize(a: int, n: nat)
    ensures |Interval(a, n)| == n
  {
    if n > 0 {
      IntervalSize(a, n - 1);
      assert Interval(a, n) == Interval(a, n - 1) + {a + n - 1};
    }
  }

  /** Taking a free block removes exactly its pages from the free ones. */
  lemma TakeCount(g: Region, live: set<Path>, q: Path)
    requires |q| <= g.level && AllFree(g, live, q)
    ensures |FreeSet(g, live + {q})| == |FreeSet(g, live)| - Size(g.level, q)
  {
    var o, n := Offset(g.level, q), Size(g.level, q);
    IntervalSize(o, n);
    forall page | 0 <= page < g.pages
      ensures Covered(g, live + {q}, page) <==> Covered(g, live, page) || InRange(g.level, q, page)
    {
      if InRange(g.level, q, page) {
        assert q in live + {q};
      }
      if Covered(g, live, page) {
        var r :| r in live && |r| <= g.level && InRange(g.level, r, page);
        assert r in live + {q};
      }
    }
    forall x | x in Interval(o, n) ensures x in FreeSet(g, live) {
      assert IsFree(g, live, x);
    }
    assert FreeSet(g, live + {q}) == FreeSet(g, live) - Interval(o, n);
  }

  lemma LiveNoneFree(g: Region, live: set<Path>, r: Path)
    requires LiveOk(g, live) && r in live
    ensures NoneFree(g, live, r)
  {
  }

  lemma AllFreeBelow(g: Region, live: set<Path>, q: Path, r: Path)
    requires |r| <= g.level && q <= r && AllFree(g, live, q)
    ensures AllFree(g, live, r)
  {
    PrefixInside(g.level, q, r);
  }

  lemma NoneFreeBelow(g: Region, live: set<Path>, q: Path, r: Path)
    requires |r| <= g.level && q <= r && NoneFree(g, live, q)
    ensures NoneFree(g, live, r)
  {
    PrefixInside(g.level, q, r);
  }

  lemma NotBoth(g: Region, live: set<Path>, r: Path)
    requires |r| <= g.level && AllFree(g, live, r)
    ensures !NoneFree(g, live, r)
  {
    assert InRange(g.level, r, Offset(g.level, r));
  }

  /** A free node is unrelated to every live block. */
  lemma FreeApart(g: Region, live: set<Path>, q: Path, r: Path)
    requires LiveOk(g, live) && |q| <= g.level && AllFree(g, live, q) && r in live
    ensures !(r <= q) && !(q <= r)
  {
    LiveNoneFree(g, live, r);
    NotBoth(g, live, q);
    if r <= q {
      NoneFreeBelow(g, live, r, q);
    }
    if q <= r {
      AllFreeBelow(g, live, q, r);
      NotBoth(g, live, r);
    }
  }

  lemma TakeLive(g: Region, live: set<Path>, q: Path)
    requires LiveOk(g, live) && |q| <= g.level && AllFree(g, live, q)
    ensures LiveOk(g, live + {q}) && q !in live
  {
    assert IsFree(g, live, Offset(g.level, q) + Size(g.level, q) - 1);
    forall r | r in live ensures !(r <= q) && !(q <= r) {
      FreeApart(g, live, q, r);
    }
  }

  lemma GiveLive(g: Region, live: set<Path>, q: Path)
    requires LiveOk(g, live) && q in live
    ensures LiveOk(g, live - {q}) && AllFree(g, live - {q}, q)
    ensures live == live - {q} + {q}
  {
    forall page | InRange(g.level, q, page) ensures IsFree(g, live - {q}, page) {
      if Covered(g, live - {q}, page) {
        var r :| r in live - {q} && |r| <= g.level && InRange(g.level, r, page);
        HolderRelated(g, r, q, page);
      }
    }
  }
}
