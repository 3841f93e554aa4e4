/** Choosing the page pool at boot: the longest run of whole pages that no reserved range touches. */
module BootMemory {
  const PGSIZE := 4096
  const MAX_RESERVED_RANGES := 35

  /** Bytes `[start, end)`. */
  datatype Range = Range(start: nat, end: nat)

  function Length(r: Range): nat {
    if r.end > r.start then r.end - r.start else 0
  }

  // ----- page boundaries -----------------------------------------------------------------------

  function PageDown(x: nat): nat {
    x / PGSIZE * PGSIZE
  }

  function PageUp(x: nat): nat {
    (x + PGSIZE - 1) / PGSIZE * PGSIZE
  }

  predicate Aligned(x: nat) {
    x % 4096 == 0
  }

  lemma PageDownIsGreatest(x: nat, a: nat)
    requires Aligned(a)
    ensures Aligned(PageDown(x)) && PageDown(x) <= x && (a <= x ==> a <= PageDown(x))
  {
  }

  lemma PageUpIsLeast(x: nat, a: nat)
    requires Aligned(a)
    ensures Aligned(PageUp(x)) && x <= PageUp(x) && (x <= a ==> PageUp(x) <= a)
  {
  }

  // ----- usable intervals ----------------------------------------------------------------------

  /** The interval ends before the range or starts after it. An empty range keeps intervals from spanning
      its place. */
  ghost predicate Apart(r: Range, a: nat, b: nat) {
    r.end <= a || b <= r.start
  }

  ghost predicate Holds(r: Range, x: int) {
    r.start <= x < r.end
  }

  /** Apart from a range that holds a byte means to share no byte with it. */
  lemma ApartSharesNothing(r: Range, a: nat, b: nat)
    requires r.start < r.end && a < b
    ensures Apart(r, a, b) <==> forall x :: Holds(r, x) ==> !Holds(Range(a, b), x)
  {
    if !Apart(r, a, b) {
      assert Holds(r, if a < r.start then r.start else a);
    }
  }

  /** Whole pages inside the region that no reserved range touches. */
  ghost predicate Usable(raw: Range, reserved: seq<Range>, a: nat, b: nat) {
    && Aligned(a) && Aligned(b) && raw.start <= a < b <= raw.end
    && forall i {:trigger reserved[i]} :: 0 <= i < |reserved| ==> Apart(reserved[i], a, b)
  }

  /** The best interval so far: usable or empty, and no usable interval that starts before `cursor`
      is longer. */
  ghost predicate Best(raw: Range, reserved: seq<Range>, best: Range, cursor: nat) {
    && (Length(best) > 0 ==> Usable(raw, reserved, best.start, best.end))
    && forall a: nat, b: nat {:trigger Usable(raw, reserved, a, b)} :: Usable(raw, reserved, a, b) && a < cursor ==>
       b - a <= Length(best)
  }

  ghost predicate Sorted(s: seq<Range>) {
    forall i, j :: 0 <= i < j < |s| ==> s[i].start <= s[j].start
  }

  /** The ranges before `k` end before the cursor or start after the region. */
  ghost predicate Passed(s: seq<Range>, k: nat, cursor: nat, top: nat)
    requires k <= |s|
  {
    forall i {:trigger s[i]} :: 0 <= i < k ==> s[i].end <= cursor || top <= s[i].start
  }

  method Consider(best: Range, a: nat, b: nat) returns (r: Range)
    ensures r == if b > a && b - a > Length(best) then Range(a, b) else best
  {
    r := best;
    if b > a && b - a > Length(best) {
      r := Range(a, b);
    }
  }

  /** A usable interval that starts before the end of range `k` lies in the gap before it. */
  lemma BeforeRange(raw: Range, s: seq<Range>, k: nat, a: nat, b: nat)
    requires k < |s| && Usable(raw, s, a, b) && a < PageUp(s[k].end)
    ensures b <= PageDown(s[k].start)
  {
  }

  /** The gap before range `k` is usable. */
  lemma GapUsable(raw: Range, s: seq<Range>, k: nat, cursor: nat, top: nat, b: nat)
    requires Sorted(s) && k < |s| && Passed(s, k, cursor, top)
    requires Aligned(cursor) && Aligned(b) && raw.start <= cursor < b <= top <= raw.end && b <= s[k].start
    ensures Usable(raw, s, cursor, b)
  {
  }

  lemma GapBest(raw: Range, s: seq<Range>, k: nat, cursor: nat, top: nat, b: nat, best: Range, best': Range)
    requires Best(raw, s, best, cursor) && Aligned(cursor) && Aligned(b)
    requires cursor < b ==> Usable(raw, s, cursor, b)
    requires best' == if b > cursor && b - cursor > Length(best) then Range(cursor, b) else best
    ensures Best(raw, s, best', cursor) && (cursor < b ==> Length(best') >= b - cursor)
  {
  }

  /** `top` is the last page boundary of the region. */
  ghost predicate TopOf(raw: Range, top: nat) {
    Aligned(top) && top <= raw.end && forall b: nat {:trigger Aligned(b)} :: Aligned(b) && b <= raw.end ==> b <= top
  }

  /** Past range `k`, whatever started before its end was in the gap before it. */
  lemma PastRange(raw: Range, s: seq<Range>, k: nat, cursor: nat, top: nat, gapTop: nat, best: Range)
    requires k < |s| && TopOf(raw, top) && Best(raw, s, best, cursor)
    requires gapTop == if PageDown(s[k].start) < top then PageDown(s[k].start) else top
    requires cursor < gapTop ==> Length(best) >= gapTop - cursor
    ensures Best(raw, s, best, PageUp(s[k].end))
  {
    forall a: nat, b: nat | Usable(raw, s, a, b) && a < PageUp(s[k].end) ensures b - a <= Length(best) {
      if a >= cursor {
        BeforeRange(raw, s, k, a, b);
      }
    }
  }

  /** One reserved range: its gap is considered and the cursor moves past it. */
  method SweepOne(raw: Range, s: seq<Range>, k: nat, cursor: nat, top: nat, best: Range)
    returns (cursor': nat, best': Range)
    requires Sorted(s) && k < |s| && Passed(s, k, cursor, top)
    requires Aligned(cursor) && TopOf(raw, top) && raw.start <= cursor && Best(raw, s, best, cursor)
    ensures Aligned(cursor') && cursor <= cursor' && Best(raw, s, best', cursor') && Passed(s, k + 1, cursor', top)
  {
    cursor', best' := cursor, best;
    if s[k].end <= cursor || s[k].start >= top {
      return;
    }
    var reservedStart, reservedEnd := PageDown(s[k].start), PageUp(s[k].end);
    PageDownIsGreatest(s[k].start, cursor);
    PageUpIsLeast(s[k].end, cursor);
    var gapTop := if reservedStart < top then reservedStart else top;
    if reservedStart > cursor {
      GapUsable(raw, s, k, cursor, top, gapTop);
      best' := Consider(best, cursor, gapTop);
    }
    GapBest(raw, s, k, cursor, top, gapTop, best, best');
    if reservedEnd > cursor {
      PastRange(raw, s, k, cursor, top, gapTop, best');
      cursor' := reservedEnd;
    }
  }

  // ----- sorting -------------------------------------------------------------------------------

  /** Swapping two places keeps the elements. */
  lemma SwapSame(s: seq<Range>, i: nat, j: nat)
    requires i < j < |s|
    ensures multiset(s[i := s[j]][j := s[i]]) == multiset(s)
  {
  }

  /** The first `left` places hold the smallest elements, in order. */
  ghost predicate Settled(s: seq<Range>, left: nat) {
    forall i, j {:trigger s[i], s[j]} :: 0 <= i < left && i < j < |s| ==> s[i].start <= s[j].start
  }

  ghost predicate LeastOf(s: seq<Range>, left: nat, right: nat)
    requires left < |s|
  {
    forall j {:trigger s[j]} :: left < j < right && j < |s| ==> s[left].start <= s[j].start
  }

  ghost function Swapped(s: seq<Range>, i: nat, j: nat): seq<Range>
    requires i < |s| && j < |s|
  {
    s[i := s[j]][j := s[i]]
  }

  lemma SwapSettles(s: seq<Range>, left: nat, right: nat)
    requires left < right < |s| && Settled(s, left) && LeastOf(s, left, right)
    ensures s[right].start < s[left].start ==>
              Settled(Swapped(s, left, right), left) && LeastOf(Swapped(s, left, right), left, right + 1)
    ensures multiset(Swapped(s, left, right)) == multiset(s)
  {
    SwapSame(s, left, right);
  }

  method Swap(a: array<Range>, count: nat, i: nat, j: nat)
    requires i < count <= a.Length && j < count
    modifies a
    ensures a[..count] == Swapped(old(a[..count]), i, j)
  {
    a[i], a[j] := a[j], a[i];
  }

  method SettleOne(a: array<Range>, count: nat, left: nat)
    requires left < count <= a.Length && Settled(a[..count], left)
    modifies a
    ensures Settled(a[..count], left + 1) && multiset(a[..count]) == multiset(old(a[..count]))
  {
    ghost var m := multiset(a[..count]);
    for right := left + 1 to count
      invariant Settled(a[..count], left) && LeastOf(a[..count], left, right) && multiset(a[..count]) == m
    {
      SwapSettles(a[..count], left, right);
      if a[right].start < a[left].start {
        Swap(a, count, left, right);
      }
    }
  }

  method SortRanges(a: array<Range>, count: nat)
    requires count <= a.Length
    modifies a
    ensures Sorted(a[..count]) && multiset(a[..count]) == multiset(old(a[..count]))
  {
    for left := 0 to count
      invariant Settled(a[..count], left) && multiset(a[..count]) == multiset(old(a[..count]))
    {
      SettleOne(a, count, left);
    }
  }

  // ----- the interval --------------------------------------------------------------------------

  /** Usability depends only on which ranges there are. */
  lemma UsableSame(raw: Range, s: seq<Range>, t: seq<Range>, a: nat, b: nat)
    requires multiset(s) == multiset(t) && Usable(raw, s, a, b)
    ensures Usable(raw, t, a, b)
  {
    forall i | 0 <= i < |t| ensures Apart(t[i], a, b) {
      assert t[i] in multiset(t);
      assert t[i] in s;
    }
  }

  lemma BestSame(raw: Range, s: seq<Range>, t: seq<Range>, best: Range, cursor: nat)
    requires multiset(s) == multiset(t) && Best(raw, s, best, cursor)
    ensures Best(raw, t, best, cursor)
  {
    if Length(best) > 0 {
      UsableSame(raw, s, t, best.start, best.end);
    }
    forall a: nat, b: nat | Usable(raw, t, a, b) && a < cursor ensures b - a <= Length(best) {
      UsableSame(raw, t, s, a, b);
    }
  }

  /** The sweep over sorted ranges. */
  method Sweep(raw: Range, s: seq<Range>, start: nat, top: nat) returns (best: Range)
    requires Sorted(s) && Aligned(start) && raw.start <= start < top && TopOf(raw, top)
    requires forall a: nat {:trigger Aligned(a)} :: Aligned(a) && raw.start <= a ==> start <= a
    ensures Best(raw, s, best, top)
  {
    best := Range(0, 0);
    var cursor: nat, k: nat := start, 0;
    while k < |s| && cursor < top
      invariant k <= |s| && Passed(s, k, cursor, top) && Aligned(cursor) && start <= cursor
                && Best(raw, s, best, cursor)
    {
      cursor, best := SweepOne(raw, s, k, cursor, top, best);
      k := k + 1;
    }
    ghost var before := best;
    best := Consider(best, cursor, top);
    if cursor < top {
      assert Usable(raw, s, cursor, top);
      GapBest(raw, s, |s|, cursor, top, top, before, best);
    }
  }

  /** The longest run of whole pages in the region that none of the ranges touches; empty if there is
      none. Ranges past the thirty-fifth are not looked at. */
  method LargestUsableInterval(raw: Range, reserved: seq<Range>) returns (best: Range)
    ensures var used := if |reserved| > 35 then reserved[..35] else reserved;
      && (best.start < best.end ==> Usable(raw, used, best.start, best.end))
      && forall a: nat, b: nat {:trigger Usable(raw, used, a, b)} :: Usable(raw, used, a, b) ==>
           b - a <= best.end - best.start
  {
    var start, top := PageUp(raw.start), PageDown(raw.end);
    Boundaries(raw);
    if top <= start {
      return Range(0, 0);
    }
    var count := if |reserved| > MAX_RESERVED_RANGES then MAX_RESERVED_RANGES else |reserved|;
    ghost var used := reserved[..count];
    assert |reserved| <= MAX_RESERVED_RANGES ==> used == reserved;
    var sorted := new Range[count](i requires 0 <= i < count => reserved[i]);
    assert sorted[..count] == used;
    SortRanges(sorted, count);
    ghost var s := sorted[..count];
    best := Sweep(raw, sorted[..count], start, top);
    BestSame(raw, s, used, best, top);
  }

  lemma Boundaries(raw: Range)
    ensures TopOf(raw, PageDown(raw.end)) && Aligned(PageUp(raw.start)) && raw.start <= PageUp(raw.start)
    ensures forall a: nat {:trigger Aligned(a)} :: Aligned(a) && raw.start <= a ==> PageUp(raw.start) <= a
  {
  }
}
