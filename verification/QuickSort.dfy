/** The kernel's qsort: a non-recursive quicksort with an explicit stack of 64 pending ranges that
    stops at short ranges, followed by one insertion pass whose inner loop has no bound check. */
module QuickSort {
  import opened ElementBuffer
  import opened Dyadic

  type Comparator = (Elem, Elem) -> int

  const MAX_THRESH := 4
  const STACK_SIZE := 64
  const SIZE_MAX := 0xFFFF_FFFF_FFFF_FFFF

  // ----- the order the comparator defines ------------------------------------------------------

  /** `x` may stand before `y`: the comparator does not call `y` smaller. */
  ghost predicate Le(cmp: Comparator, x: Elem, y: Elem) {
    cmp(y, x) >= 0
  }

  /** The comparator is a total preorder on elements of `size` bytes. */
  ghost predicate TotalPreorder(cmp: Comparator, size: nat) {
    && (forall x, y :: |x| == |y| == size ==> Le(cmp, x, y) || Le(cmp, y, x))
    && (forall x, y, z {:trigger Le(cmp, x, y), Le(cmp, y, z)} ::
          |x| == |y| == |z| == size && Le(cmp, x, y) && Le(cmp, y, z) ==> Le(cmp, x, z))
  }

  ghost predicate Sized(v: seq<Elem>, size: nat) {
    forall i :: 0 <= i < |v| ==> |v[i]| == size
  }

  ghost predicate Sorted(cmp: Comparator, v: seq<Elem>) {
    forall i, j :: 0 <= i < j < |v| ==> Le(cmp, v[i], v[j])
  }

  /** What the quicksort pass leaves for the insertion pass: elements five or more places apart
      are in order. */
  ghost predicate NearlySorted(cmp: Comparator, v: seq<Elem>) {
    forall i, j :: 0 <= i && i + MAX_THRESH < j < |v| ==> Le(cmp, v[i], v[j])
  }

  // ----- rearranging inside a range ------------------------------------------------------------

  /** `w` is `v` with the elements of `lo..hi` (inclusive) rearranged. */
  ghost predicate Shuffled<T>(v: seq<T>, w: seq<T>, lo: int, hi: int) {
    && 0 <= lo <= hi < |v| == |w|
    && (forall k :: 0 <= k < |v| && (k < lo || hi < k) ==> w[k] == v[k])
    && multiset(w[lo..hi + 1]) == multiset(v[lo..hi + 1])
  }

  lemma SwapPerm<T>(s: seq<T>, i: int, j: int)
    requires 0 <= i < |s| && 0 <= j < |s|
    ensures multiset(s[i := s[j]][j := s[i]]) == multiset(s)
  {
  }

  lemma SwapShuffles<T>(v: seq<T>, i: int, j: int, lo: int, hi: int)
    requires 0 <= lo <= i <= hi < |v| && lo <= j <= hi
    ensures Shuffled(v, v[i := v[j]][j := v[i]], lo, hi)
  {
  }

  lemma ShuffledMember<T>(v: seq<T>, w: seq<T>, lo: int, hi: int, i: int) returns (k: int)
    requires Shuffled(v, w, lo, hi) && lo <= i <= hi
    ensures lo <= k <= hi && w[i] == v[k]
  {
    assert w[i] == w[lo..hi + 1][i - lo];
    assert w[i] in multiset(w[lo..hi + 1]);
    assert w[i] in v[lo..hi + 1];
    var m :| 0 <= m < |v[lo..hi + 1]| && v[lo..hi + 1][m] == w[i];
    k := lo + m;
  }

  lemma ShuffledPerm<T>(v: seq<T>, w: seq<T>, lo: int, hi: int)
    requires Shuffled(v, w, lo, hi)
    ensures multiset(w) == multiset(v)
  {
    assert v == v[..lo] + v[lo..hi + 1] + v[hi + 1..];
    assert w == w[..lo] + w[lo..hi + 1] + w[hi + 1..];
    assert v[..lo] == w[..lo] && v[hi + 1..] == w[hi + 1..];
  }

  // ----- pending ranges ------------------------------------------------------------------------

  /** A stack node; a null pointer is -1. */
  datatype StackNode = StackNode(lo: int, hi: int) {
    ghost function Count(): int { hi - lo + 1 }
  }

  /** Everything left of the range is at most everything in it, which is at most everything right
      of it. */
  ghost predicate Walled(cmp: Comparator, v: seq<Elem>, p: StackNode) {
    && 0 <= p.lo <= p.hi < |v|
    && (forall i, j :: 0 <= i < p.lo <= j <= p.hi ==> Le(cmp, v[i], v[j]))
    && (forall i, j :: p.lo <= i <= p.hi < j < |v| ==> Le(cmp, v[i], v[j]))
  }

  ghost predicate Apart(p: StackNode, q: StackNode) {
    p.hi < q.lo || q.hi < p.lo
  }

  ghost predicate Covered(all: seq<StackNode>, i: int, j: int) {
    exists d :: 0 <= d < |all| && all[d].lo <= i && j <= all[d].hi
  }

  /** The invariant of the quicksort pass over the ranges still to be split. */
  ghost predicate Pending(cmp: Comparator, v: seq<Elem>, all: seq<StackNode>) {
    && (forall d :: 0 <= d < |all| ==> Walled(cmp, v, all[d]))
    && (forall d, e :: 0 <= d < e < |all| ==> Apart(all[d], all[e]))
    && (forall i, j {:trigger v[i], v[j]} :: 0 <= i && i + MAX_THRESH < j < |v| ==>
         Le(cmp, v[i], v[j]) || Covered(all, i, j))
  }

  /** What one round of "collapse the walls" leaves: `lo..left-1` is at most the pivot and
      `right+1..hi` at least the pivot. */
  ghost predicate Split(cmp: Comparator, w: seq<Elem>, p: StackNode, left: int, right: int, pivot: Elem) {
    && 0 <= p.lo <= right < left <= p.hi < |w|
    && left <= right + 2
    && (forall k :: p.lo <= k < left ==> Le(cmp, w[k], pivot))
    && (forall k :: right < k <= p.hi ==> Le(cmp, pivot, w[k]))
  }

  lemma ShuffleKeepsWalls(cmp: Comparator, v: seq<Elem>, w: seq<Elem>, c: StackNode)
    requires Walled(cmp, v, c) && Shuffled(v, w, c.lo, c.hi)
    ensures Walled(cmp, w, c)
  {
    forall i, j | 0 <= i < c.lo <= j <= c.hi ensures Le(cmp, w[i], w[j]) {
      var k := ShuffledMember(v, w, c.lo, c.hi, j);
    }
    forall i, j | c.lo <= i <= c.hi < j < |w| ensures Le(cmp, w[i], w[j]) {
      var k := ShuffledMember(v, w, c.lo, c.hi, i);
    }
  }

  lemma ShuffleKeepsOtherWalls(cmp: Comparator, v: seq<Elem>, w: seq<Elem>, c: StackNode, p: StackNode)
    requires Walled(cmp, v, c) && Walled(cmp, w, c) && Walled(cmp, v, p)
    requires Shuffled(v, w, c.lo, c.hi) && Apart(p, c)
    ensures Walled(cmp, w, p)
  {
  }

  lemma SplitWalls(cmp: Comparator, size: nat, w: seq<Elem>, c: StackNode, left: int, right: int, pivot: Elem)
    requires TotalPreorder(cmp, size) && Sized(w, size) && |pivot| == size
    requires Walled(cmp, w, c) && Split(cmp, w, c, left, right, pivot)
    ensures Walled(cmp, w, StackNode(c.lo, right)) && Walled(cmp, w, StackNode(left, c.hi))
  {
  }

  /** `kept` lists the halves that are still too long to leave to the insertion pass. */
  ghost predicate KeepsLong(c: StackNode, left: int, right: int, kept: seq<StackNode>) {
    var l, r := StackNode(c.lo, right), StackNode(left, c.hi);
    && (kept == [] || kept == [l] || kept == [r] || kept == [l, r] || kept == [r, l])
    && (right - c.lo > MAX_THRESH ==> l in kept)
    && (c.hi - left > MAX_THRESH ==> r in kept)
  }

  lemma CoveredStays(pend: seq<StackNode>, c: StackNode, kept: seq<StackNode>, i: int, j: int)
    requires Covered(pend + [c], i, j) && !(c.lo <= i && j <= c.hi)
    ensures Covered(pend + kept, i, j)
  {
    var d :| 0 <= d < |pend + [c]| && (pend + [c])[d].lo <= i && j <= (pend + [c])[d].hi;
    assert (pend + kept)[d] == pend[d];
  }

  /** Two far-apart places of the split range are in order, or in one half that is kept. */
  lemma SplitOrders(cmp: Comparator, size: nat, w: seq<Elem>, pend: seq<StackNode>, c: StackNode,
                    left: int, right: int, pivot: Elem, kept: seq<StackNode>, i: int, j: int)
    requires TotalPreorder(cmp, size) && Sized(w, size) && |pivot| == size
    requires Split(cmp, w, c, left, right, pivot) && KeepsLong(c, left, right, kept)
    requires c.lo <= i && i + MAX_THRESH < j <= c.hi
    ensures Le(cmp, w[i], w[j]) || Covered(pend + kept, i, j)
  {
    var l, r := StackNode(c.lo, right), StackNode(left, c.hi);
    if j <= right {
      var d :| 0 <= d < |kept| && kept[d] == l;
      assert (pend + kept)[|pend| + d] == l;
    } else if left <= i {
      var d :| 0 <= d < |kept| && kept[d] == r;
      assert (pend + kept)[|pend| + d] == r;
    } else {
      assert Le(cmp, w[i], pivot) && Le(cmp, pivot, w[j]);
    }
  }

  lemma KeptApart(pend: seq<StackNode>, c: StackNode, left: int, right: int, kept: seq<StackNode>)
    requires c.lo <= right < left <= c.hi && KeepsLong(c, left, right, kept)
    requires forall d, e :: 0 <= d < e < |pend + [c]| ==> Apart((pend + [c])[d], (pend + [c])[e])
    ensures forall d, e :: 0 <= d < e < |pend + kept| ==> Apart((pend + kept)[d], (pend + kept)[e])
  {
    forall d, e | 0 <= d < e < |pend + kept| ensures Apart((pend + kept)[d], (pend + kept)[e]) {
      if e < |pend| {
        assert (pend + [c])[d] == pend[d] && (pend + [c])[e] == pend[e];
      } else if d < |pend| {
        assert (pend + [c])[d] == pend[d] && (pend + [c])[|pend|] == c;
      }
    }
  }

  /** One round keeps the invariant. */
  lemma RoundKeepsPending(cmp: Comparator, size: nat, v: seq<Elem>, w: seq<Elem>, pend: seq<StackNode>,
                          c: StackNode, left: int, right: int, pivot: Elem, kept: seq<StackNode>)
    requires TotalPreorder(cmp, size) && Sized(w, size) && |pivot| == size
    requires Pending(cmp, v, pend + [c])
    requires Shuffled(v, w, c.lo, c.hi) && Split(cmp, w, c, left, right, pivot)
    requires KeepsLong(c, left, right, kept)
    ensures Pending(cmp, w, pend + kept)
  {
    var all := pend + [c];
    assert all[|pend|] == c;
    ShuffleKeepsWalls(cmp, v, w, c);
    SplitWalls(cmp, size, w, c, left, right, pivot);
    KeptApart(pend, c, left, right, kept);
    forall d | 0 <= d < |pend + kept| ensures Walled(cmp, w, (pend + kept)[d]) {
      if d < |pend| {
        assert all[d] == pend[d];
        ShuffleKeepsOtherWalls(cmp, v, w, c, pend[d]);
      }
    }
    forall i, j | 0 <= i && i + MAX_THRESH < j < |w| ensures Le(cmp, w[i], w[j]) || Covered(pend + kept, i, j) {
      if c.lo <= i && j <= c.hi {
        SplitOrders(cmp, size, w, pend, c, left, right, pivot, kept, i, j);
      } else if !(c.lo <= i <= c.hi) && !(c.lo <= j <= c.hi) {
        assert w[i] == v[i] && w[j] == v[j];
        if !Le(cmp, v[i], v[j]) {
          CoveredStays(pend, c, kept, i, j);
        }
      }
    }
  }

  // ----- how deep the stack gets ---------------------------------------------------------------

  /** `n` halved `d` times. */
  function Halved(n: nat, d: nat): nat {
    if d == 0 then n else Halved(n, d - 1) / 2
  }

  lemma {:induction false} HalvedBelow(n: nat, d: nat, m: nat)
    requires n < m * Pow2(d)
    ensures Halved(n, d) < m
  {
    if d > 0 {
      HalvedBelow(n, d - 1, 2 * m);
    }
  }

  /** Range number `d`, counted from the bottom, holds at most n / 2^d elements, and more than
      MAX_THRESH. */
  ghost predicate Halving(all: seq<StackNode>, n: nat) {
    forall d :: 0 <= d < |all| ==> MAX_THRESH < all[d].Count() <= Halved(n, d)
  }

  /** So a stack of pending ranges of any array that fits size_t stays below 63 entries. */
  lemma DepthBound(all: seq<StackNode>, n: nat)
    requires Halving(all, n) && n <= SIZE_MAX
    ensures |all| <= 62
  {
    if |all| > 62 {
      assert all[62].Count() <= Halved(n, 62);
      Pow2Of64();
      HalvedBelow(n, 62, 4);
    }
  }

  lemma RoundKeepsHalving(pend: seq<StackNode>, c: StackNode, left: int, right: int, kept: seq<StackNode>, n: nat)
    requires Halving(pend + [c], n) && c.lo <= right < left <= c.hi
    requires KeepsLong(c, left, right, kept)
    requires forall p :: p in kept ==> p.Count() > MAX_THRESH
    requires |kept| == 2 ==> kept[1].Count() <= kept[0].Count()
    ensures Halving(pend + kept, n)
  {
    var all, m := pend + [c], |pend|;
    assert all[m] == c && c.Count() <= Halved(n, m);
    forall d | 0 <= d < |pend + kept| ensures MAX_THRESH < (pend + kept)[d].Count() <= Halved(n, d) {
      if d < m {
        assert (pend + kept)[d] == all[d];
      } else if d == m {
        assert (pend + kept)[d] == kept[0] && kept[0].Count() <= c.Count();
      } else {
        assert (pend + kept)[d] == kept[1] && 2 * kept[1].Count() <= c.Count();
        assert Halved(n, d) == Halved(n, m) / 2;
      }
    }
  }

  /** Termination measure of the pass: a range of k elements costs 2k - 1. */
  ghost function Cost(p: StackNode): (w: nat) {
    if p.Count() >= 1 then 2 * p.Count() - 1 else 0
  }

  ghost function Work(all: seq<StackNode>): (w: nat) {
    if all == [] then 0 else Work(all[..|all| - 1]) + Cost(all[|all| - 1])
  }

  lemma WorkPush(all: seq<StackNode>, p: StackNode)
    ensures Work(all + [p]) == Work(all) + Cost(p)
  {
  }

  lemma WorkPushTwo(all: seq<StackNode>, p: StackNode, q: StackNode)
    ensures Work(all + [p, q]) == Work(all) + Cost(p) + Cost(q)
  {
    WorkPush(all, p);
    WorkPush(all + [p], q);
    assert all + [p, q] == all + [p] + [q];
  }

  lemma RoundWorks(pend: seq<StackNode>, c: StackNode, left: int, right: int, kept: seq<StackNode>)
    requires c.lo <= right < left <= c.hi && KeepsLong(c, left, right, kept)
    ensures Work(pend + kept) < Work(pend + [c])
  {
    var l, r := StackNode(c.lo, right), StackNode(left, c.hi);
    assert Cost(l) + Cost(r) < Cost(c);
    WorkPush(pend, c);
    WorkPush(pend, l);
    WorkPush(pend, r);
    WorkPushTwo(pend, l, r);
    WorkPushTwo(pend, r, l);
    assert pend + [] == pend;
  }

  // ----- the two passes ------------------------------------------------------------------------

  /** Elements `i` and `j` swapped when element `i` is smaller. */
  ghost function SwappedIf(cmp: Comparator, v: seq<Elem>, i: int, j: int): seq<Elem>
    requires 0 <= i < |v| && 0 <= j < |v|
  {
    if cmp(v[i], v[j]) < 0 then v[i := v[j]][j := v[i]] else v
  }

  /** Swaps when element `i` is smaller than element `j`. */
  method SwapIfLess(a: array<byte>, size: nat, n: nat, cmp: Comparator, i: int, j: int, ghost lo: int, ghost hi: int)
    returns (swapped: bool)
    requires size > 0 && a.Length == Span(n, size)
    requires 0 <= lo <= i <= hi < n && lo <= j <= hi && i != j
    modifies a
    ensures var v, w := old(Elems(a[..], size, n)), Elems(a[..], size, n);
      && Shuffled(v, w, lo, hi)
      && swapped == (cmp(v[i], v[j]) < 0)
      && w == SwappedIf(cmp, v, i, j)
  {
    swapped := cmp(ElemAt(a, size, n, i), ElemAt(a, size, n, j)) < 0;
    if swapped {
      SwapShuffles(Elems(a[..], size, n), i, j, lo, hi);
      Swap(a, size, n, i, j);
    }
  }

  lemma ShuffledTransitive<T>(u: seq<T>, v: seq<T>, w: seq<T>, lo: int, hi: int)
    requires Shuffled(u, v, lo, hi) && Shuffled(v, w, lo, hi)
    ensures Shuffled(u, w, lo, hi)
  {
  }

  /** Two or three such swaps put three elements in order. */
  lemma ThreeInOrder(cmp: Comparator, size: nat, v: seq<Elem>, lo: int, mid: int, hi: int)
    requires TotalPreorder(cmp, size) && Sized(v, size) && 0 <= lo < mid < hi < |v|
    ensures var v1 := SwappedIf(cmp, v, mid, lo);
      var v2 := SwappedIf(cmp, v1, hi, mid);
      var w := if cmp(v1[hi], v1[mid]) < 0 then SwappedIf(cmp, v2, mid, lo) else v2;
      Le(cmp, w[lo], w[mid]) && Le(cmp, w[mid], w[hi])
  {
    var x, y, z := v[lo], v[mid], v[hi];
    assert Le(cmp, x, y) || Le(cmp, y, x);
    assert Le(cmp, x, z) || Le(cmp, z, x);
    assert Le(cmp, y, z) || Le(cmp, z, y);
  }

  /** Puts the first, middle and last element of the range in order and returns the middle. */
  method MedianOfThree(a: array<byte>, size: nat, n: nat, cmp: Comparator, lo: int, hi: int) returns (mid: int)
    requires size > 0 && a.Length == Span(n, size) && TotalPreorder(cmp, size)
    requires 0 <= lo && lo + MAX_THRESH <= hi < n
    modifies a
    ensures var v, w := old(Elems(a[..], size, n)), Elems(a[..], size, n);
      && lo < mid < hi
      && Shuffled(v, w, lo, hi)
      && Le(cmp, w[lo], w[mid]) && Le(cmp, w[mid], w[hi])
  {
    mid := lo + (hi - lo) / 2;
    ghost var v := Elems(a[..], size, n);
    ThreeInOrder(cmp, size, v, lo, mid, hi);
    var _ := SwapIfLess(a, size, n, cmp, mid, lo, lo, hi);
    ghost var v1 := Elems(a[..], size, n);
    var moved := SwapIfLess(a, size, n, cmp, hi, mid, lo, hi);
    ghost var v2 := Elems(a[..], size, n);
    ShuffledTransitive(v, v1, v2, lo, hi);
    if moved {
      var _ := SwapIfLess(a, size, n, cmp, mid, lo, lo, hi);
      ShuffledTransitive(v, v2, Elems(a[..], size, n), lo, hi);
    }
  }

  /** The walls so far: places below `left` are at most the pivot, places above `right` at least. */
  ghost predicate Walls(cmp: Comparator, v: seq<Elem>, lo: int, hi: int, left: int, right: int, pivot: Elem) {
    && 0 <= lo < left <= right + 1 <= hi < |v|
    && (forall k :: lo <= k < left ==> Le(cmp, v[k], pivot))
    && (forall k :: right < k <= hi ==> Le(cmp, pivot, v[k]))
  }

  /** Moves `left` up over elements smaller than the pivot; no bound is tested. */
  method ScanUp(a: array<byte>, size: nat, n: nat, cmp: Comparator, mid: int, start: int,
                ghost lo: int, ghost hi: int, ghost right: int)
    returns (left: int)
    requires size > 0 && a.Length == Span(n, size) && TotalPreorder(cmp, size)
    requires 0 <= mid < n
    requires Walls(cmp, Elems(a[..], size, n), lo, hi, start, right, Elems(a[..], size, n)[mid])
    ensures start <= left
    ensures Walls(cmp, Elems(a[..], size, n), lo, hi, left, right, Elems(a[..], size, n)[mid])
    ensures Le(cmp, Elems(a[..], size, n)[mid], Elems(a[..], size, n)[left])
  {
    ghost var v := Elems(a[..], size, n);
    left := start;
    while cmp(ElemAt(a, size, n, left), ElemAt(a, size, n, mid)) < 0
      invariant start <= left && Walls(cmp, v, lo, hi, left, right, v[mid])
      decreases right - left
    {
      assert !Le(cmp, v[mid], v[left]);
      left := left + 1;
    }
  }

  /** Moves `right` down over elements greater than the pivot; no bound is tested. */
  method ScanDown(a: array<byte>, size: nat, n: nat, cmp: Comparator, mid: int, start: int,
                  ghost lo: int, ghost hi: int, ghost left: int)
    returns (right: int)
    requires size > 0 && a.Length == Span(n, size) && TotalPreorder(cmp, size)
    requires 0 <= mid < n
    requires Walls(cmp, Elems(a[..], size, n), lo, hi, left, start, Elems(a[..], size, n)[mid])
    ensures right <= start
    ensures Walls(cmp, Elems(a[..], size, n), lo, hi, left, right, Elems(a[..], size, n)[mid])
    ensures Le(cmp, Elems(a[..], size, n)[right], Elems(a[..], size, n)[mid])
  {
    ghost var v := Elems(a[..], size, n);
    right := start;
    while cmp(ElemAt(a, size, n, mid), ElemAt(a, size, n, right)) < 0
      invariant right <= start && Walls(cmp, v, lo, hi, left, right, v[mid])
      decreases right
    {
      assert !Le(cmp, v[right], v[mid]);
      right := right - 1;
    }
  }

  lemma SwapMovesWalls(cmp: Comparator, v: seq<Elem>, lo: int, hi: int, left: int, right: int, pivot: Elem)
    requires Walls(cmp, v, lo, hi, left, right, pivot) && left < right
    requires Le(cmp, pivot, v[left]) && Le(cmp, v[right], pivot)
    ensures Walls(cmp, v[left := v[right]][right := v[left]], lo, hi, left + 1, right - 1, pivot)
    ensures Shuffled(v, v[left := v[right]][right := v[left]], lo, hi)
  {
    SwapShuffles(v, left, right, lo, hi);
  }

  lemma MeetSplits(cmp: Comparator, v: seq<Elem>, lo: int, hi: int, k: int, pivot: Elem)
    requires Walls(cmp, v, lo, hi, k, k, pivot)
    requires Le(cmp, pivot, v[k]) && Le(cmp, v[k], pivot)
    ensures Split(cmp, v, StackNode(lo, hi), k + 1, k - 1, pivot)
    ensures Shuffled(v, v, lo, hi)
  {
  }

  /** One trip through the do loop of "collapse the walls". `mid` follows the pivot element. */
  method CollapseOnce(a: array<byte>, size: nat, n: nat, cmp: Comparator, mid0: int, left0: int, right0: int,
                      ghost lo: int, ghost hi: int)
    returns (left: int, right: int, mid: int, ghost met: bool)
    requires size > 0 && a.Length == Span(n, size) && TotalPreorder(cmp, size)
    requires 0 <= lo < mid0 < hi < n && left0 <= right0
    requires Walls(cmp, Elems(a[..], size, n), lo, hi, left0, right0, Elems(a[..], size, n)[mid0])
    modifies a
    ensures lo < mid < hi && Elems(a[..], size, n)[mid] == old(Elems(a[..], size, n)[mid0])
    ensures Shuffled(old(Elems(a[..], size, n)), Elems(a[..], size, n), lo, hi)
    ensures right - left < right0 - left0
    ensures met ==>
              && left == right + 2
              && Split(cmp, Elems(a[..], size, n), StackNode(lo, hi), left, right, Elems(a[..], size, n)[mid])
    ensures !met ==> Walls(cmp, Elems(a[..], size, n), lo, hi, left, right, Elems(a[..], size, n)[mid])
  {
    ghost var v := Elems(a[..], size, n);
    mid, met := mid0, false;
    left := ScanUp(a, size, n, cmp, mid, left0, lo, hi, right0);
    right := ScanDown(a, size, n, cmp, mid, right0, lo, hi, left);
    if left < right {
      SwapMovesWalls(cmp, v, lo, hi, left, right, v[mid0]);
      Swap(a, size, n, left, right);
      if mid == left {
        mid := right;
      } else if mid == right {
        mid := left;
      }
      left := left + 1;
      right := right - 1;
    } else if left == right {
      MeetSplits(cmp, v, lo, hi, left, v[mid0]);
      left := left + 1;
      right := right - 1;
      met := true;
    }
  }

  /** "Collapse the walls": splits the range around the value at `mid0`. */
  method CollapseWalls(a: array<byte>, size: nat, n: nat, cmp: Comparator, lo: int, hi: int, mid0: int)
    returns (left: int, right: int, ghost pivot: Elem)
    requires size > 0 && a.Length == Span(n, size) && TotalPreorder(cmp, size)
    requires 0 <= lo && lo + MAX_THRESH <= hi < n && lo < mid0 < hi
    requires var v := Elems(a[..], size, n); Le(cmp, v[lo], v[mid0]) && Le(cmp, v[mid0], v[hi])
    modifies a
    ensures |pivot| == size
    ensures Shuffled(old(Elems(a[..], size, n)), Elems(a[..], size, n), lo, hi)
    ensures Split(cmp, Elems(a[..], size, n), StackNode(lo, hi), left, right, pivot)
  {
    ghost var v0 := Elems(a[..], size, n);
    var mid := mid0;
    pivot := v0[mid];
    left, right := lo + 1, hi - 1;
    ghost var met := false;
    while left <= right
      invariant lo < mid < hi && Elems(a[..], size, n)[mid] == pivot
      invariant Shuffled(v0, Elems(a[..], size, n), lo, hi)
      invariant !met ==> Walls(cmp, Elems(a[..], size, n), lo, hi, left, right, pivot)
      invariant met ==> left == right + 2 && Split(cmp, Elems(a[..], size, n), StackNode(lo, hi), left, right, pivot)
      decreases right - left
    {
      ghost var v := Elems(a[..], size, n);
      left, right, mid, met := CollapseOnce(a, size, n, cmp, mid, left, right, lo, hi);
      ShuffledTransitive(v0, v, Elems(a[..], size, n), lo, hi);
    }
  }

  /** Splits one pending range. */
  method SplitRange(a: array<byte>, size: nat, n: nat, cmp: Comparator, lo: int, hi: int)
    returns (left: int, right: int, ghost pivot: Elem)
    requires size > 0 && a.Length == Span(n, size) && TotalPreorder(cmp, size)
    requires 0 <= lo && lo + MAX_THRESH <= hi < n
    modifies a
    ensures |pivot| == size
    ensures Shuffled(old(Elems(a[..], size, n)), Elems(a[..], size, n), lo, hi)
    ensures Split(cmp, Elems(a[..], size, n), StackNode(lo, hi), left, right, pivot)
  {
    ghost var v := Elems(a[..], size, n);
    var mid := MedianOfThree(a, size, n, cmp, lo, hi);
    ghost var w := Elems(a[..], size, n);
    left, right, pivot := CollapseWalls(a, size, n, cmp, lo, hi, mid);
    ShuffledTransitive(v, w, Elems(a[..], size, n), lo, hi);
  }

  /** Decides what to do with the two halves: drop the short ones, push the longer of two long
      ones, and go on with the other; with none left, pop. */
  method NextRange(stack: array<StackNode>, top0: nat, lo0: int, hi0: int, left: int, right: int)
    returns (top: nat, lo: int, hi: int, ghost kept: seq<StackNode>)
    requires lo0 <= right < left <= hi0
    requires 1 <= top0 && top0 + 1 < stack.Length
    modifies stack
    ensures KeepsLong(StackNode(lo0, hi0), left, right, kept)
    ensures forall p :: p in kept ==> p.Count() > MAX_THRESH
    ensures |kept| == 2 ==> kept[1].Count() <= kept[0].Count()
    ensures top == top0 - 1 + |kept| && top <= stack.Length
    ensures top > 0 ==> stack[1..top] + [StackNode(lo, hi)] == old(stack[1..top0]) + kept
    ensures top == 0 ==> old(stack[1..top0]) + kept == []
  {
    top, lo, hi := top0, lo0, hi0;
    if right - lo <= MAX_THRESH {
      if hi - left <= MAX_THRESH {
        kept := [];
        top := top - 1;
        lo, hi := stack[top].lo, stack[top].hi;
      } else {
        kept := [StackNode(left, hi)];
        lo := left;
      }
    } else if hi - left <= MAX_THRESH {
      kept := [StackNode(lo, right)];
      hi := right;
    } else if right - lo > hi - left {
      kept := [StackNode(lo, right), StackNode(left, hi)];
      stack[top] := StackNode(lo, right);
      top := top + 1;
      lo := left;
    } else {
      kept := [StackNode(left, hi), StackNode(lo, right)];
      stack[top] := StackNode(left, hi);
      top := top + 1;
      hi := right;
    }
  }

  /** Everything the pass keeps: order between ranges, and their sizes. */
  ghost predicate PassInv(cmp: Comparator, v: seq<Elem>, all: seq<StackNode>) {
    Pending(cmp, v, all) && Halving(all, |v|)
  }

  lemma RoundKeepsInv(cmp: Comparator, size: nat, v: seq<Elem>, w: seq<Elem>, pend: seq<StackNode>,
                      c: StackNode, left: int, right: int, pivot: Elem, kept: seq<StackNode>)
    requires TotalPreorder(cmp, size) && Sized(w, size) && |pivot| == size
    requires PassInv(cmp, v, pend + [c])
    requires Shuffled(v, w, c.lo, c.hi) && Split(cmp, w, c, left, right, pivot)
    requires KeepsLong(c, left, right, kept)
    requires forall p :: p in kept ==> p.Count() > MAX_THRESH
    requires |kept| == 2 ==> kept[1].Count() <= kept[0].Count()
    ensures PassInv(cmp, w, pend + kept) && multiset(w) == multiset(v)
    ensures Work(pend + kept) < Work(pend + [c])
  {
    RoundKeepsPending(cmp, size, v, w, pend, c, left, right, pivot, kept);
    RoundKeepsHalving(pend, c, left, right, kept, |v|);
    RoundWorks(pend, c, left, right, kept);
    ShuffledPerm(v, w, c.lo, c.hi);
  }

  lemma CurrentRange(cmp: Comparator, v: seq<Elem>, pend: seq<StackNode>, c: StackNode)
    requires PassInv(cmp, v, pend + [c]) && |v| <= SIZE_MAX
    ensures 0 <= c.lo && c.lo + MAX_THRESH <= c.hi < |v| && |pend| + 1 <= 62
  {
    assert (pend + [c])[|pend|] == c;
    DepthBound(pend + [c], |v|);
  }

  /** One trip through the pass's loop: split the current range, then choose the next one. */
  method PassRound(a: array<byte>, size: nat, n: nat, cmp: Comparator, stack: array<StackNode>, top0: nat, lo0: int,
                   hi0: int)
    returns (top: nat, lo: int, hi: int, ghost all: seq<StackNode>)
    requires size > 0 && a.Length == Span(n, size) && TotalPreorder(cmp, size) && n <= SIZE_MAX
    requires stack.Length == STACK_SIZE && 1 <= top0 < STACK_SIZE
    requires PassInv(cmp, Elems(a[..], size, n), stack[1..top0] + [StackNode(lo0, hi0)])
    modifies a, stack
    ensures PassInv(cmp, Elems(a[..], size, n), all) && top == |all| < STACK_SIZE
    ensures top > 0 ==> all == stack[1..top] + [StackNode(lo, hi)]
    ensures Work(all) < Work(old(stack[1..top0]) + [StackNode(lo0, hi0)])
    ensures multiset(Elems(a[..], size, n)) == multiset(old(Elems(a[..], size, n)))
  {
    ghost var c := StackNode(lo0, hi0);
    ghost var pend := stack[1..top0];
    ghost var v := Elems(a[..], size, n);
    CurrentRange(cmp, v, pend, c);
    var left, right, pivot := SplitRange(a, size, n, cmp, lo0, hi0);
    ghost var w := Elems(a[..], size, n);
    ghost var kept;
    top, lo, hi, kept := NextRange(stack, top0, lo0, hi0, left, right);
    RoundKeepsInv(cmp, size, v, w, pend, c, left, right, pivot, kept);
    all := pend + kept;
  }

  /** The quicksort pass. The stack is the fixed 64-slot array; slot 0 holds the null sentinel. */
  method QuicksortPass(a: array<byte>, size: nat, n: nat, cmp: Comparator)
    requires size > 0 && a.Length == Span(n, size) && TotalPreorder(cmp, size)
    requires MAX_THRESH < n <= SIZE_MAX
    modifies a
    ensures multiset(Elems(a[..], size, n)) == multiset(old(Elems(a[..], size, n)))
    ensures NearlySorted(cmp, Elems(a[..], size, n))
  {
    var lo, hi := 0, n - 1;
    var stack := new StackNode[STACK_SIZE];
    stack[0] := StackNode(-1, -1);
    var top := 1;
    ghost var all := [StackNode(lo, hi)];
    StartPending(cmp, Elems(a[..], size, n));
    while top > 0
      invariant top == |all| < STACK_SIZE && (top > 0 ==> all == stack[1..top] + [StackNode(lo, hi)])
      invariant PassInv(cmp, Elems(a[..], size, n), all)
      invariant multiset(Elems(a[..], size, n)) == multiset(old(Elems(a[..], size, n)))
      decreases Work(all)
    {
      top, lo, hi, all := PassRound(a, size, n, cmp, stack, top, lo, hi);
    }
    DonePending(cmp, Elems(a[..], size, n));
  }

  lemma StartPending(cmp: Comparator, v: seq<Elem>)
    requires |v| > MAX_THRESH
    ensures Pending(cmp, v, [StackNode(0, |v| - 1)]) && Halving([StackNode(0, |v| - 1)], |v|)
  {
    var all := [StackNode(0, |v| - 1)];
    forall i, j | 0 <= i && i + MAX_THRESH < j < |v| ensures Covered(all, i, j) {
      assert all[0].lo <= i && j <= all[0].hi;
    }
  }

  lemma DonePending(cmp: Comparator, v: seq<Elem>)
    requires Pending(cmp, v, [])
    ensures NearlySorted(cmp, v)
  {
  }

  ghost predicate Least(cmp: Comparator, v: seq<Elem>) {
    forall j :: 0 <= j < |v| ==> Le(cmp, v[0], v[j])
  }

  /** Element `m` is at most every element of `lo..hi-1`. */
  ghost predicate Below(cmp: Comparator, v: seq<Elem>, m: int, lo: int, hi: int) {
    0 <= m < |v| && 0 <= lo && hi <= |v| && forall k :: lo <= k < hi ==> Le(cmp, v[m], v[k])
  }

  lemma LowerBelow(cmp: Comparator, size: nat, v: seq<Elem>, m: int, hi: int)
    requires TotalPreorder(cmp, size) && Sized(v, size)
    requires Below(cmp, v, m, 0, hi) && 0 <= hi < |v|
    ensures if cmp(v[hi], v[m]) < 0 then Below(cmp, v, hi, 0, hi + 1) else Below(cmp, v, m, 0, hi + 1)
  {
  }

  /** The smallest of the first five elements of a nearly sorted array is the smallest of all. */
  lemma LeastIsEarly(cmp: Comparator, size: nat, v: seq<Elem>, m: int)
    requires TotalPreorder(cmp, size) && Sized(v, size) && NearlySorted(cmp, v)
    requires 0 <= m < |v|
    requires Below(cmp, v, m, 0, if |v| <= MAX_THRESH then |v| else MAX_THRESH + 1)
    ensures Least(cmp, v[m := v[0]][0 := v[m]])
    ensures multiset(v[m := v[0]][0 := v[m]]) == multiset(v)
  {
    SwapPerm(v, m, 0);
    var w := v[m := v[0]][0 := v[m]];
    forall j | 0 <= j < |v| ensures Le(cmp, v[m], v[j]) {
      if j > MAX_THRESH {
        assert Le(cmp, v[m], v[0]) && Le(cmp, v[0], v[j]);
      }
    }
  }

  /** Finds the smallest of the first five elements. */
  method FindLeast(a: array<byte>, size: nat, n: nat, cmp: Comparator) returns (tmp: int)
    requires size > 0 && a.Length == Span(n, size) && TotalPreorder(cmp, size) && n > 0
    ensures Below(cmp, Elems(a[..], size, n), tmp, 0, if n <= MAX_THRESH then n else MAX_THRESH + 1)
  {
    ghost var v := Elems(a[..], size, n);
    var thresh := if n - 1 < MAX_THRESH then n - 1 else MAX_THRESH;
    tmp := 0;
    var run := 1;
    while run <= thresh
      invariant 1 <= run <= thresh + 1 && Below(cmp, v, tmp, 0, run)
    {
      LowerBelow(cmp, size, v, tmp, run);
      if cmp(ElemAt(a, size, n, run), ElemAt(a, size, n, tmp)) < 0 {
        tmp := run;
      }
      run := run + 1;
    }
  }

  /** Puts the smallest of the first five elements first. */
  method PlaceSentinel(a: array<byte>, size: nat, n: nat, cmp: Comparator)
    requires size > 0 && a.Length == Span(n, size) && TotalPreorder(cmp, size) && n > 0
    requires NearlySorted(cmp, Elems(a[..], size, n))
    modifies a
    ensures multiset(Elems(a[..], size, n)) == multiset(old(Elems(a[..], size, n)))
    ensures Least(cmp, Elems(a[..], size, n))
  {
    ghost var v := Elems(a[..], size, n);
    var tmp := FindLeast(a, size, n, cmp);
    LeastIsEarly(cmp, size, v, tmp);
    if tmp != 0 {
      Swap(a, size, n, tmp, 0);
    }
  }

  /** Prefix of length `k` is in order. */
  ghost predicate SortedTo(cmp: Comparator, v: seq<Elem>, k: nat) {
    k <= |v| && forall i, j :: 0 <= i < j < k ==> Le(cmp, v[i], v[j])
  }

  lemma RotatedPerm(v: seq<Elem>, t: nat, r: nat)
    requires t <= r < |v|
    ensures multiset(Rotated(v, t, r)) == multiset(v)
  {
    assert v == v[..t] + (v[t..r] + [v[r]]) + v[r + 1..];
    assert Rotated(v, t, r) == v[..t] + ([v[r]] + v[t..r]) + v[r + 1..];
  }

  lemma RotatedSorted(cmp: Comparator, size: nat, v: seq<Elem>, t: nat, r: nat)
    requires TotalPreorder(cmp, size) && Sized(v, size)
    requires 1 <= t <= r < |v| && SortedTo(cmp, v, r) && Least(cmp, v)
    requires Le(cmp, v[t - 1], v[r])
    requires Below(cmp, v, r, t, r)
    ensures SortedTo(cmp, Rotated(v, t, r), r + 1) && Least(cmp, Rotated(v, t, r))
  {
  }

  lemma ExtendBelow(cmp: Comparator, size: nat, v: seq<Elem>, r: int, t: int)
    requires TotalPreorder(cmp, size) && Sized(v, size) && Least(cmp, v)
    requires 0 <= t < r < |v| && Below(cmp, v, r, t + 1, r) && cmp(v[r], v[t]) < 0
    ensures t > 0 && Below(cmp, v, r, t, r)
  {
  }

  /** Finds where element `run` belongs in the sorted prefix before it. The search down has no
      bound check: the sentinel at index 0 stops it. */
  method FindSlot(a: array<byte>, size: nat, n: nat, cmp: Comparator, run: int) returns (tmp: int)
    requires size > 0 && a.Length == Span(n, size) && TotalPreorder(cmp, size)
    requires 1 <= run < n && Least(cmp, Elems(a[..], size, n))
    ensures 1 <= tmp <= run
    ensures Le(cmp, Elems(a[..], size, n)[tmp - 1], Elems(a[..], size, n)[run])
    ensures Below(cmp, Elems(a[..], size, n), run, tmp, run)
  {
    ghost var v := Elems(a[..], size, n);
    tmp := run - 1;
    while cmp(ElemAt(a, size, n, run), ElemAt(a, size, n, tmp)) < 0
      invariant 0 <= tmp < run && Below(cmp, v, run, tmp + 1, run)
      decreases tmp
    {
      ExtendBelow(cmp, size, v, run, tmp);
      tmp := tmp - 1;
    }
    assert Le(cmp, v[tmp], v[run]);
    tmp := tmp + 1;
  }

  /** Inserts element `run` into the sorted prefix before it. */
  method InsertOne(a: array<byte>, size: nat, n: nat, cmp: Comparator, run: int)
    requires size > 0 && a.Length == Span(n, size) && TotalPreorder(cmp, size)
    requires 2 <= run < n
    requires SortedTo(cmp, Elems(a[..], size, n), run) && Least(cmp, Elems(a[..], size, n))
    modifies a
    ensures multiset(Elems(a[..], size, n)) == multiset(old(Elems(a[..], size, n)))
    ensures SortedTo(cmp, Elems(a[..], size, n), run + 1) && Least(cmp, Elems(a[..], size, n))
  {
    ghost var v := Elems(a[..], size, n);
    var tmp := FindSlot(a, size, n, cmp, run);
    RotatedSorted(cmp, size, v, tmp, run);
    RotatedPerm(v, tmp, run);
    if tmp != run {
      Rotate(a, size, n, tmp, run);
    } else {
      assert Rotated(v, run, run) == v;
    }
  }

  method InsertionPass(a: array<byte>, size: nat, n: nat, cmp: Comparator)
    requires size > 0 && a.Length == Span(n, size) && TotalPreorder(cmp, size) && n > 0
    requires NearlySorted(cmp, Elems(a[..], size, n))
    modifies a
    ensures multiset(Elems(a[..], size, n)) == multiset(old(Elems(a[..], size, n)))
    ensures Sorted(cmp, Elems(a[..], size, n))
  {
    PlaceSentinel(a, size, n, cmp);
    var run := 2;
    while run <= n - 1
      invariant 2 <= run && (n >= 2 ==> run <= n)
      invariant SortedTo(cmp, Elems(a[..], size, n), if run <= n then run else n)
      invariant Least(cmp, Elems(a[..], size, n))
      invariant multiset(Elems(a[..], size, n)) == multiset(old(Elems(a[..], size, n)))
    {
      InsertOne(a, size, n, cmp, run);
      run := run + 1;
    }
  }

  /** The library entry: for every buffer of `n` elements of `size` bytes and every comparator that
      is a total preorder, the result is a sorted permutation of the input. */
  method Quicksort(a: array<byte>, n: nat, size: nat, cmp: Comparator)
    requires size > 0 && a.Length == n * size && n <= SIZE_MAX
    requires TotalPreorder(cmp, size)
    modifies a
    ensures multiset(Elems(a[..], size, n)) == multiset(old(Elems(a[..], size, n)))
    ensures Sorted(cmp, Elems(a[..], size, n))
  {
    SpanIsProduct(n, size);
    if n == 0 {
      return;
    }
    if n > MAX_THRESH {
      QuicksortPass(a, size, n, cmp);
    }
    InsertionPass(a, size, n, cmp);
  }
}
