/** Powers of two and the nodes of a complete binary tree. A node is the path that leads to it from
    the root (false = left, true = right); it stands for an aligned power-of-two range of pages. */
module Dyadic {

  function Pow2(k: nat): (r: nat)
    ensures r >= 1
  {
    if k == 0 then 1 else 2 * Pow2(k - 1)
  }

  lemma {:induction false} Pow2Add(j: nat, k: nat)
    ensures Pow2(j + k) == Pow2(j) * Pow2(k)
  {
    if j > 0 {
      Pow2Add(j - 1, k);
      assert 2 * Pow2(j - 1) * Pow2(k) == 2 * (Pow2(j - 1) * Pow2(k));
    }
  }

  lemma {:induction false} Pow2Grows(j: nat, k: nat)
    requires j < k
    ensures 2 * Pow2(j) <= Pow2(k)
  {
    if j < k - 1 {
      Pow2Grows(j, k - 1);
    }
  }

  lemma Pow2Compare(j: nat, k: nat)
    ensures j < k <==> Pow2(j) < Pow2(k)
    ensures j == k <==> Pow2(j) == Pow2(k)
  {
  }

  lemma Pow2Of64()
    ensures Pow2(64) == 0x1_0000_0000_0000_0000
  {
    assert Pow2(8) == 0x100;
    Pow2Add(8, 8);
    assert 0x100 * 0x100 == 0x1_0000;
    Pow2Add(16, 16);
    assert 0x1_0000 * 0x1_0000 == 0x1_0000_0000;
    Pow2Add(32, 32);
    assert 0x1_0000_0000 * 0x1_0000_0000 == 0x1_0000_0000_0000_0000;
  }

  type Path = seq<bool>

  /** Heap index of a node: the children of index i are 2i + 1 and 2i + 2. */
  ghost function Index(p: Path): (i: nat) {
    if p == [] then 0
    else 2 * Index(p[..|p| - 1]) + if p[|p| - 1] then 2 else 1
  }

  lemma IndexChild(p: Path, right: bool)
    ensures Index(p + [right]) == 2 * Index(p) + if right then 2 else 1
  {
  }

  lemma {:induction false} IndexRange(p: Path)
    ensures Pow2(|p|) <= Index(p) + 1 < Pow2(|p| + 1)
  {
    if p != [] {
      IndexRange(p[..|p| - 1]);
    }
  }

  lemma {:induction false} IndexInjective(p: Path, q: Path)
    requires Index(p) == Index(q)
    ensures p == q
  {
    if p != [] && q != [] {
      var p', q' := p[..|p| - 1], q[..|q| - 1];
      assert p[|p| - 1] == q[|q| - 1];
      IndexInjective(p', q');
      assert p == p' + [p[|p| - 1]] && q == q' + [q[|q| - 1]];
    }
  }

  /** Every node of depth at most `level` has its own slot in an array of 2 * 2^level - 1. */
  lemma IndexBound(p: Path, level: nat)
    requires |p| <= level
    ensures Index(p) < 2 * Pow2(level) - 1
  {
  }

  /** Number of pages of a node. */
  ghost function Size(level: nat, p: Path): (n: nat)
    requires |p| <= level
    ensures n >= 1
  {
    Pow2(level - |p|)
  }

  /** First page of a node. */
  ghost function Offset(level: nat, p: Path): (o: nat)
    requires |p| <= level
  {
    if p == [] then 0
    else Offset(level, p[..|p| - 1]) + if p[|p| - 1] then Size(level, p) else 0
  }

  lemma OffsetChild(level: nat, p: Path, right: bool)
    requires |p| < level
    ensures Size(level, p) == 2 * Size(level, p + [right])
    ensures Offset(level, p + [right]) == Offset(level, p) + if right then Size(level, p + [right]) else 0
  {
  }

  ghost predicate InRange(level: nat, p: Path, page: int)
    requires |p| <= level
  {
    Offset(level, p) <= page < Offset(level, p) + Size(level, p)
  }

  /** A node's range lies in the range of every node above it. */
  lemma {:induction false} PrefixInside(level: nat, p: Path, q: Path)
    requires p <= q && |q| <= level
    ensures Offset(level, p) <= Offset(level, q)
    ensures Offset(level, q) + Size(level, q) <= Offset(level, p) + Size(level, p)
  {
    if p != q {
      var q' := q[..|q| - 1];
      assert p <= q' && q == q' + [q[|q| - 1]];
      PrefixInside(level, p, q');
      OffsetChild(level, q', q[|q| - 1]);
    }
  }

  /** Where two paths part. */
  ghost function Fork(p: Path, q: Path): (k: nat)
    requires !(p <= q) && !(q <= p)
    ensures k < |p| && k < |q| && p[..k] == q[..k] && p[k] != q[k]
  {
    if p[0] != q[0] then 0
    else
      assert !(p[1..] <= q[1..]) && !(q[1..] <= p[1..]);
      var k := Fork(p[1..], q[1..]);
      assert p[..k + 1] == [p[0]] + p[1..][..k] && q[..k + 1] == [q[0]] + q[1..][..k];
      k + 1
  }

  lemma SiblingsApart(level: nat, r: Path, p: Path, q: Path)
    requires r + [false] <= p && r + [true] <= q && |p| <= level && |q| <= level
    ensures Offset(level, p) + Size(level, p) <= Offset(level, q)
  {
    OffsetChild(level, r, false);
    OffsetChild(level, r, true);
    PrefixInside(level, r + [false], p);
    PrefixInside(level, r + [true], q);
  }

  /** Two nodes are nested or disjoint. */
  lemma ForkApart(level: nat, p: Path, q: Path)
    requires !(p <= q) && !(q <= p) && |p| <= level && |q| <= level
    ensures Offset(level, p) + Size(level, p) <= Offset(level, q)
         || Offset(level, q) + Size(level, q) <= Offset(level, p)
  {
    var k := Fork(p, q);
    assert p[..k + 1] == p[..k] + [p[k]] && q[..k + 1] == p[..k] + [q[k]];
    if q[k] {
      SiblingsApart(level, p[..k], p, q);
    } else {
      SiblingsApart(level, p[..k], q, p);
    }
  }

  /** Same depth and same offset: same node. */
  lemma OffsetInjective(level: nat, p: Path, q: Path)
    requires |p| == |q| <= level && Offset(level, p) == Offset(level, q)
    ensures p == q
  {
    if p != q {
      ForkApart(level, p, q);
    }
  }

  // ----- computing the offset from the index ---------------------------------------------------

  /** `x` shifted left `k` times. */
  function ShiftLeft(x: int, k: nat): int
    decreases k
  {
    if k == 0 then x else ShiftLeft(2 * x, k - 1)
  }

  lemma {:induction false} ShiftLeftPlus(x: int, y: int, k: nat)
    ensures ShiftLeft(x + y, k) == ShiftLeft(x, k) + ShiftLeft(y, k)
    decreases k
  {
    if k > 0 {
      ShiftLeftPlus(2 * x, 2 * y, k - 1);
    }
  }

  lemma {:induction false} ShiftLeftOne(k: nat)
    ensures ShiftLeft(1, k) == Pow2(k) && ShiftLeft(0, k) == 0
  {
    if k > 0 {
      ShiftLeftOne(k - 1);
      ShiftLeftPlus(1, 1, k - 1);
    }
  }

  lemma {:induction false} OffsetFromIndex(level: nat, p: Path)
    requires |p| <= level
    ensures Offset(level, p) == ShiftLeft(Index(p) + 1 - Pow2(|p|), level - |p|)
  {
    if p == [] {
      ShiftLeftOne(level);
    } else {
      var p' := p[..|p| - 1];
      var right := p[|p| - 1];
      assert p == p' + [right];
      OffsetFromIndex(level, p');
      OffsetChild(level, p', right);
      IndexChild(p', right);
      var x, k := Index(p') + 1 - Pow2(|p'|), level - |p|;
      ShiftLeftPlus(2 * x, if right then 1 else 0, k);
      ShiftLeftOne(k);
    }
  }

  lemma {:induction false} ShiftLeftTimes(x: int, k: nat)
    ensures ShiftLeft(x, k) == x * Pow2(k)
    decreases k
  {
    if k > 0 {
      ShiftLeftTimes(2 * x, k - 1);
    }
  }

  /** A node's offset is a multiple of its size. */
  lemma OffsetAligned(level: nat, p: Path)
    requires |p| <= level
    ensures Offset(level, p) == (Index(p) + 1 - Pow2(|p|)) * Size(level, p)
  {
    OffsetFromIndex(level, p);
    ShiftLeftTimes(Index(p) + 1 - Pow2(|p|), level - |p|);
  }

  /** The node of depth `d` that contains a page. */
  ghost function NodeAt(level: nat, d: nat, page: int): (p: Path)
    requires d <= level && 0 <= page < Pow2(level)
    ensures |p| == d && InRange(level, p, page)
  {
    if d == 0 then []
    else
      var q := NodeAt(level, d - 1, page);
      OffsetChild(level, q, false);
      OffsetChild(level, q, true);
      q + [page >= Offset(level, q + [true])]
  }

  /** Every multiple of 2^k below the top is the offset of a node of 2^k pages. */
  lemma AlignedIsNode(level: nat, k: nat, m: nat) returns (p: Path)
    requires k <= level && m * Pow2(k) < Pow2(level)
    ensures |p| == level - k && Offset(level, p) == m * Pow2(k)
  {
    p := NodeAt(level, level - k, m * Pow2(k));
    OffsetAligned(level, p);
    Between(Index(p) + 1 - Pow2(|p|), m, Pow2(k));
  }

  lemma Between(x: int, m: int, s: nat)
    requires s >= 1 && x * s <= m * s < x * s + s
    ensures x == m
  {
    var d := m - x;
    assert d * s == m * s - x * s;
    Signs(d, s);
    assert (d - 1) * s == d * s - s;
    Signs(d - 1, s);
  }

  lemma Signs(d: int, s: nat)
    requires s >= 1
    ensures d >= 0 <==> d * s >= 0
  {
  }
}
