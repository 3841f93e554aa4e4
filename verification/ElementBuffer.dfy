/** The byte buffer that qsort works on: `n` elements of `size` bytes each, laid out back to back.
    Everything the sort does to bytes (swap two elements, rotate a run of elements) is proved here
    to have the intended effect on the sequence of elements. */
module ElementBuffer {

  type byte = x: int | 0 <= x < 256

  /** One element, as the comparator sees it. */
  type Elem = seq<byte>

  /** Bytes of `n` elements. */
  function Span(n: nat, size: nat): nat {
    if n == 0 then 0 else Span(n - 1, size) + size
  }

  lemma {:induction false} SpanIsProduct(n: nat, size: nat)
    ensures Span(n, size) == n * size
  {
    if n > 0 {
      SpanIsProduct(n - 1, size);
    }
  }

  lemma {:induction false} SpanGrows(m: nat, n: nat, size: nat)
    requires m < n
    ensures Span(m, size) + size <= Span(n, size)
    decreases n
  {
    if m < n - 1 {
      SpanGrows(m, n - 1, size);
    }
  }

  /** Byte position of byte `k` of element `p`. */
  function Pos(size: nat, p: nat, k: nat): nat {
    Span(p, size) + k
  }

  lemma PosBounds(size: nat, n: nat, p: nat, k: nat)
    requires p < n && k < size
    ensures Pos(size, p, k) < Span(n, size)
  {
    SpanGrows(p, n, size);
  }

  lemma PosOrdered(size: nat, p: nat, k: nat, q: nat, l: nat)
    requires k < size && l < size
    ensures p < q ==> Pos(size, p, k) < Pos(size, q, l)
  {
    if p < q {
      SpanGrows(p, q, size);
    }
  }

  /** Stepping one element down in a column, and the test that ends the walk. */
  lemma PosStep(size: nat, p: nat, k: nat, t: nat)
    requires k < size
    ensures p > 0 ==> Pos(size, p, k) - size == Pos(size, p - 1, k)
    ensures Pos(size, p, k) - size >= Span(t, size) <==> p > t
  {
    if p > t {
      SpanGrows(t, p, size);
    } else if p < t {
      SpanGrows(p, t, size);
    }
  }

  /** Byte `k` of element `p`; total, so that it can be used under quantifiers. */
  ghost function At(b: seq<byte>, size: nat, p: nat, k: nat): byte {
    if Pos(size, p, k) < |b| then b[Pos(size, p, k)] else 0
  }

  /** The element sequence a buffer stands for. */
  ghost function Elems(b: seq<byte>, size: nat, n: nat): (v: seq<Elem>)
    ensures |v| == n
    ensures forall p :: 0 <= p < n ==> |v[p]| == size
    ensures forall p, k :: 0 <= p < n && 0 <= k < size ==> v[p][k] == At(b, size, p, k)
  {
    seq(n, p requires 0 <= p => seq(size, k requires 0 <= k => At(b, size, p, k)))
  }

  lemma ElemsFrom(b: seq<byte>, size: nat, n: nat, w: seq<Elem>)
    requires |w| == n
    requires forall p :: 0 <= p < n ==> |w[p]| == size
    requires forall p, k :: 0 <= p < n && 0 <= k < size ==> w[p][k] == At(b, size, p, k)
    ensures Elems(b, size, n) == w
  {
    var v := Elems(b, size, n);
    forall p | 0 <= p < n ensures v[p] == w[p] {
    }
  }

  lemma AtUpdate(b: seq<byte>, c: seq<byte>, size: nat, n: nat, p: nat, k: nat, x: byte)
    requires |b| == Span(n, size) && p < n && k < size
    requires Pos(size, p, k) < |b|
    requires c == b[Pos(size, p, k) := x]
    ensures forall q, l {:trigger At(c, size, q, l)} :: 0 <= q < n && 0 <= l < size ==>
      At(c, size, q, l) == if q == p && l == k then x else At(b, size, q, l)
  {
    forall q, l | 0 <= q < n && 0 <= l < size
      ensures At(c, size, q, l) == if q == p && l == k then x else At(b, size, q, l)
    {
      PosBounds(size, n, q, l);
      PosOrdered(size, p, k, q, l);
      PosOrdered(size, q, l, p, k);
    }
  }

  /** The element stored at index `i`. */
  function ElemAt(a: array<byte>, size: nat, n: nat, i: int): (e: Elem)
    requires a.Length == Span(n, size) && 0 <= i < n
    reads a
    ensures e == Elems(a[..], size, n)[i]
  {
    SpanGrows(i, n, size);
    var e := a[Span(i, size)..Span(i, size) + size];
    assert e == Elems(a[..], size, n)[i] by {
      forall k: nat | k < size ensures e[k] == At(a[..], size, i, k) {
        PosBounds(size, n, i, k);
      }
    }
    e
  }

  /** Where element `q` comes from when `i` and `j` are swapped. */
  ghost function Partner(i: int, j: int, q: int): int {
    if q == i then j else if q == j then i else q
  }

  /** Byte-wise swap of two distinct elements. */
  method Swap(a: array<byte>, size: nat, n: nat, i: int, j: int)
    requires size > 0 && a.Length == Span(n, size)
    requires 0 <= i < n && 0 <= j < n && i != j
    modifies a
    ensures Elems(a[..], size, n)
         == old(Elems(a[..], size, n))[i := old(Elems(a[..], size, n))[j]][j := old(Elems(a[..], size, n))[i]]
  {
    ghost var b := a[..];
    var c := 0;
    while c < size
      invariant 0 <= c <= size
      invariant forall q, l {:trigger At(a[..], size, q, l)} :: 0 <= q < n && 0 <= l < size ==>
        At(a[..], size, q, l) == At(b, size, if l < c then Partner(i, j, q) else q, l)
    {
      SwapByte(a, size, n, i, j, c);
      c := c + 1;
    }
    ghost var v := Elems(b, size, n);
    ElemsFrom(a[..], size, n, v[i := v[j]][j := v[i]]);
  }

  method SwapByte(a: array<byte>, size: nat, n: nat, i: int, j: int, c: int)
    requires 0 <= c < size && a.Length == Span(n, size)
    requires 0 <= i < n && 0 <= j < n && i != j
    modifies a
    ensures forall q, l {:trigger At(a[..], size, q, l)} :: 0 <= q < n && 0 <= l < size ==>
      At(a[..], size, q, l) == At(old(a[..]), size, if l == c then Partner(i, j, q) else q, l)
  {
    ghost var b := a[..];
    PosBounds(size, n, i, c);
    PosBounds(size, n, j, c);
    var tmp := a[Pos(size, i, c)];
    a[Pos(size, i, c)] := a[Pos(size, j, c)];
    ghost var b1 := a[..];
    AtUpdate(b, b1, size, n, i, c, At(b, size, j, c));
    a[Pos(size, j, c)] := tmp;
    AtUpdate(b1, a[..], size, n, j, c, tmp);
  }

  /** `v` with element `r` taken out and put back in front of element `t`. */
  ghost function Rotated(v: seq<Elem>, t: nat, r: nat): (w: seq<Elem>)
    requires t <= r < |v|
    ensures |w| == |v| && w[t] == v[r]
    ensures forall p :: 0 <= p < |v| && (p < t || r < p) ==> w[p] == v[p]
    ensures forall p :: t < p <= r ==> w[p] == v[p - 1]
  {
    v[..t] + [v[r]] + v[t..r] + v[r + 1..]
  }

  /** Moves one byte column of the run `t..r` one element up, carrying the last one to the front. */
  method RotateColumn(a: array<byte>, size: nat, n: nat, t: int, r: int, col: int)
    requires size > 0 && a.Length == Span(n, size)
    requires 0 <= t <= r < n && 0 <= col < size
    modifies a
    ensures forall q, l {:trigger At(a[..], size, q, l)} :: 0 <= q < n && 0 <= l < size ==>
      At(a[..], size, q, l) ==
        if l != col || q < t || r < q then At(old(a[..]), size, q, l)
        else if q == t then At(old(a[..]), size, r, l)
        else At(old(a[..]), size, q - 1, l)
  {
    ghost var b := a[..];
    PosBounds(size, n, r, col);
    var trav := Pos(size, r, col);
    var c := a[trav];
    var hi, lo := trav, trav - size;
    ghost var p := r;
    PosStep(size, p, col, t);
    while lo >= Span(t, size)
      invariant t <= p <= r && hi == Pos(size, p, col) && lo == hi - size
      invariant lo >= Span(t, size) <==> p > t
      invariant forall q, l {:trigger At(a[..], size, q, l)} :: 0 <= q < n && 0 <= l < size ==>
        At(a[..], size, q, l) == if l == col && p < q <= r then At(b, size, q - 1, l) else At(b, size, q, l)
      decreases p
    {
      PosStep(size, p, col, t);
      PosStep(size, p - 1, col, t);
      PosBounds(size, n, p - 1, col);
      PosBounds(size, n, p, col);
      ghost var b0 := a[..];
      a[hi] := a[lo];
      AtUpdate(b0, a[..], size, n, p, col, At(b0, size, p - 1, col));
      hi := lo;
      lo := lo - size;
      p := p - 1;
    }
    ghost var b1 := a[..];
    PosBounds(size, n, t, col);
    a[hi] := c;
    AtUpdate(b1, a[..], size, n, t, col, c);
  }

  /** Insertion step of the sort: the element at `r` moves down to `t`, column by column. */
  method Rotate(a: array<byte>, size: nat, n: nat, t: int, r: int)
    requires size > 0 && a.Length == Span(n, size)
    requires 0 <= t <= r < n
    modifies a
    ensures Elems(a[..], size, n) == Rotated(old(Elems(a[..], size, n)), t, r)
  {
    ghost var b := a[..];
    ghost var w := Rotated(Elems(b, size, n), t, r);
    var col := size;
    while col > 0
      invariant 0 <= col <= size
      invariant forall q, l {:trigger At(a[..], size, q, l)} :: 0 <= q < n && 0 <= l < size ==>
        At(a[..], size, q, l) == if col <= l then w[q][l] else At(b, size, q, l)
    {
      col := col - 1;
      RotateColumn(a, size, n, t, r, col);
    }
    ElemsFrom(a[..], size, n, w);
  }
}
