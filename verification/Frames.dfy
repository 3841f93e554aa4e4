/** Page frames and who owns them. A frame's reference count is spent on page-table entries, on
    private overlay entries, on the interior tables of address spaces, on owners outside this model,
    and on references a running operation holds in its hands. */
module Frames {
  type Frame = nat
  type Page = seq<bv8>

  const MAX_REFS := 0xFFFF

  datatype Flags = Flags(user: bool, writable: bool, cow: bool, accessed: bool, dirty: bool, rest: nat)
  datatype Pte = Pte(frame: Frame, flags: Flags)
  datatype Addr = Addr(space: nat, page: nat)

  /** An interior table of an address space: the one at `level` that covers pages number `index` on. */
  datatype Table = Table(space: nat, level: nat, index: nat)

  /** Managed frames are those with a reference count. `objects` are the addresses inside private
      mappings of an object; only they may have an overlay entry. `tables` are the interior tables, and
      `blocks` the frames that were allocated several at a time. */
  datatype VM = VM(refs: seq<nat>, bytes: map<Frame, Page>, ptes: map<Addr, Pte>,
                   overlays: map<Addr, Frame>, objects: set<Addr>, tables: map<Table, Frame>, blocks: set<Frame>)

  // ----- counting ------------------------------------------------------------------------------

  ghost function Holders<K(!new)>(m: map<K, Frame>, f: Frame): set<K> {
    set k | k in m && m[k] == f
  }

  ghost function Count<K(!new)>(m: map<K, Frame>, f: Frame): nat {
    |Holders(m, f)|
  }

  lemma CountPut<K(!new)>(m: map<K, Frame>, k: K, g: Frame, f: Frame)
    requires k !in m
    ensures Count(m[k := g], f) == Count(m, f) + if f == g then 1 else 0
  {
    assert Holders(m[k := g], f) == if f == g then Holders(m, f) + {k} else Holders(m, f);
  }

  lemma CountDrop<K(!new)>(m: map<K, Frame>, k: K, f: Frame)
    requires k in m
    ensures Count(m, f) == Count(m - {k}, f) + if m[k] == f then 1 else 0
  {
    CountPut(m - {k}, k, m[k], f);
    assert m == (m - {k})[k := m[k]];
  }

  lemma CountMove<K(!new)>(m: map<K, Frame>, k: K, g: Frame, f: Frame)
    ensures Count(m[k := g], f) + (if k in m && m[k] == f then 1 else 0) == Count(m, f) + if f == g then 1 else 0
  {
    var rest := m - {k};
    CountPut(rest, k, g, f);
    assert rest[k := g] == m[k := g];
    if k in m {
      CountDrop(m, k, f);
    } else {
      assert rest == m;
    }
  }

  lemma CountMember<K(!new)>(m: map<K, Frame>, k: K)
    requires k in m
    ensures Count(m, m[k]) > 0
  {
    CountDrop(m, k, m[k]);
  }

  lemma CountOne<K(!new)>(m: map<K, Frame>, a: K, b: K)
    requires a in m && b in m && m[a] == m[b] && Count(m, m[a]) <= 1
    ensures a == b
  {
    if a != b {
      CountDrop(m, a, m[a]);
      CountMember(m - {a}, b);
    }
  }

  lemma CountExtends<K(!new)>(m: map<K, Frame>, m': map<K, Frame>, k: K)
    requires (forall j :: j in m ==> j in m' && m'[j] == m[j]) && k in m' && k !in m
    ensures Count(m, m'[k]) < Count(m', m'[k])
  {
    var a, b := Holders(m, m'[k]), Holders(m', m'[k]);
    assert k in b - a && b == a + (b - a);
  }

  // ----- the tally -----------------------------------------------------------------------------

  ghost function FrameOf(ptes: map<Addr, Pte>): map<Addr, Frame> {
    map a | a in ptes :: ptes[a].frame
  }

  /** Page-table and overlay entries, and interior tables, that hold a frame. */
  ghost function Owners(v: VM, f: Frame): nat {
    Count(FrameOf(v.ptes), f) + Count(v.overlays, f) + Count(v.tables, f)
  }

  /** Interior tables have frames of their own. */
  ghost predicate TablesAlone(v: VM) {
    forall k {:trigger v.tables[k]} :: k in v.tables ==> v.tables[k] < |v.refs| && v.refs[v.tables[k]] == 1
  }

  /** Frames allocated several at a time belong to others. */
  ghost predicate BlocksApart(v: VM, hand: multiset<Frame>) {
    forall f {:trigger f in v.blocks} :: f in v.blocks ==>
      f < |v.refs| && v.refs[f] > 0 && Owners(v, f) == 0 && hand[f] == 0
  }

  /** Every managed frame's count is its owners, the owners outside the model, and the references in
      hand. */
  ghost predicate Tally(v: VM, other: seq<nat>, hand: multiset<Frame>) {
    && |other| == |v.refs| && TablesAlone(v) && BlocksApart(v, hand)
    && forall f {:trigger v.refs[f]} :: 0 <= f < |v.refs| ==> v.refs[f] == Owners(v, f) + other[f] + hand[f]
  }

  ghost function Tallied(other: seq<nat>, hand: multiset<Frame>): iset<VM> {
    iset v: VM | Tally(v, other, hand)
  }

  /** `Tally`, said of a state as one fact. */
  ghost predicate Balanced(v: VM, other: seq<nat>, hand: multiset<Frame>) {
    v in Tallied(other, hand)
  }

  ghost predicate IsTable(v: VM, f: Frame) {
    exists k :: k in v.tables && v.tables[k] == f
  }

  /** No reference in hand, and no mapping of any address space, is to a page-table page or into a block of
      several. */
  lemma HandNoTable(v: VM, other: seq<nat>, hand: multiset<Frame>, f: Frame)
    requires Tally(v, other, hand) && f in hand
    ensures !IsTable(v, f) && f !in v.blocks
  {
    forall k | k in v.tables ensures v.tables[k] != f {
      CountMember(v.tables, k);
      assert v.refs[v.tables[k]] == Owners(v, v.tables[k]) + other[v.tables[k]] + hand[v.tables[k]];
    }
  }

  lemma MappedNoTable(v: VM, other: seq<nat>, hand: multiset<Frame>, a: Addr)
    requires Tally(v, other, hand) && a in v.ptes
    ensures !IsTable(v, v.ptes[a].frame) && v.ptes[a].frame !in v.blocks
  {
    CountMember(FrameOf(v.ptes), a);
    forall k | k in v.tables ensures v.tables[k] != v.ptes[a].frame {
      CountMember(v.tables, k);
      assert v.refs[v.tables[k]] == Owners(v, v.tables[k]) + other[v.tables[k]] + hand[v.tables[k]];
    }
  }

  ghost predicate CanRetain(v: VM, f: Frame) {
    f < |v.refs| && 0 < v.refs[f] < MAX_REFS
  }

  ghost function Retained(v: VM, f: Frame): VM {
    if CanRetain(v, f) then v.(refs := v.refs[f := v.refs[f] + 1]) else v
  }

  /** A release that would take a count below zero stops the kernel; here it changes nothing. */
  ghost function Released(v: VM, f: Frame): VM {
    if f < |v.refs| && v.refs[f] > 0 then v.(refs := v.refs[f := v.refs[f] - 1]) else v
  }

  /** A reference of the frame can be dropped: it has no count, or a count above zero and a block of its own. */
  ghost predicate Droppable(v: VM, f: Frame) {
    f < |v.refs| ==> v.refs[f] > 0 && f !in v.blocks
  }

  ghost predicate BlocksLive(v: VM) {
    forall f :: f in v.blocks ==> f < |v.refs| && v.refs[f] > 0
  }

  ghost function ReleasedAll(v: VM, frames: seq<Frame>): VM {
    if frames == [] then v else Released(ReleasedAll(v, frames[..|frames| - 1]), frames[|frames| - 1])
  }

  /** The allocator hands out `pick` when that is a free managed frame, and fails otherwise. */
  ghost predicate Free(v: VM, pick: int) {
    0 <= pick < |v.refs| && v.refs[pick] == 0
  }

  ghost function Allocated(v: VM, f: Frame, page: Page): VM
    requires f < |v.refs|
  {
    v.(refs := v.refs[f := 1], bytes := v.bytes[f := page])
  }

  lemma RetainTally(v: VM, other: seq<nat>, hand: multiset<Frame>, f: Frame)
    requires Tally(v, other, hand) && CanRetain(v, f) && !IsTable(v, f) && f !in v.blocks
    ensures Tally(Retained(v, f), other, hand + multiset{f})
  {
  }

  /** A reference in hand of a managed frame can always be given back. */
  lemma ReleaseTally(v: VM, other: seq<nat>, hand: multiset<Frame>, f: Frame)
    requires Tally(v, other, hand) && f in hand
    ensures Droppable(v, f)
    ensures Tally(Released(v, f), other, hand - multiset{f})
  {
    HandNoTable(v, other, hand, f);
    assert f < |v.refs| ==> v.refs[f] == Owners(v, f) + other[f] + hand[f];
  }

  lemma AllocTally(v: VM, other: seq<nat>, hand: multiset<Frame>, f: Frame, page: Page)
    requires Tally(v, other, hand) && Free(v, f)
    ensures Tally(Allocated(v, f, page), other, hand + multiset{f})
    ensures Owners(v, f) == 0 && hand[f] == 0
  {
  }

  // ----- interior tables -----------------------------------------------------------------------

  const LOWER_PAGES := 0x200
  const UPPER_PAGES := 0x4_0000

  /** The two interior tables on the way to the entry of an address. */
  function UpperOf(a: Addr): Table {
    Table(a.space, 1, a.page / UPPER_PAGES)
  }

  function LowerOf(a: Addr): Table {
    Table(a.space, 0, a.page / LOWER_PAGES)
  }

  ghost predicate Built(v: VM, a: Addr) {
    UpperOf(a) in v.tables && LowerOf(a) in v.tables
  }

  /** An empty table in a frame that was free. */
  ghost function TableMade(v: VM, k: Table, f: Frame): VM
    requires f < |v.refs|
  {
    Allocated(v, f, []).(tables := v.tables[k := f])
  }

  ghost function WithTable(v: VM, k: Table, pick: int): (VM, bool) {
    if k in v.tables then (v, true) else if Free(v, pick) then (TableMade(v, k, pick), true) else (v, false)
  }

  /** The walk to an entry makes the tables that are missing, from the top, in the frames offered. */
  ghost function Walked(v: VM, a: Addr, upper: int, lower: int): (VM, bool) {
    var (v1, ok) := WithTable(v, UpperOf(a), upper);
    if ok then WithTable(v1, LowerOf(a), lower) else (v1, false)
  }

  lemma TableTally(v: VM, other: seq<nat>, hand: multiset<Frame>, k: Table, f: Frame)
    requires Tally(v, other, hand) && Free(v, f) && k !in v.tables
    ensures Tally(TableMade(v, k, f), other, hand)
  {
    var v' := TableMade(v, k, f);
    forall g | 0 <= g < |v'.refs| ensures v'.refs[g] == Owners(v', g) + other[g] + hand[g] {
      CountPut(v.tables, k, f, g);
      assert v.refs[g] == Owners(v, g) + other[g] + hand[g];
    }
  }

  /** A walk keeps the counts: the tables it made own their frames. */
  lemma WalkTally(v: VM, other: seq<nat>, hand: multiset<Frame>, a: Addr, upper: int, lower: int)
    requires Tally(v, other, hand)
    ensures Tally(Walked(v, a, upper, lower).0, other, hand)
    ensures Walked(v, a, upper, lower).1 ==> Built(Walked(v, a, upper, lower).0, a)
  {
    if UpperOf(a) !in v.tables && Free(v, upper) {
      TableTally(v, other, hand, UpperOf(a), upper);
    }
    var (v1, ok) := WithTable(v, UpperOf(a), upper);
    if ok && LowerOf(a) !in v1.tables && Free(v1, lower) {
      TableTally(v1, other, hand, LowerOf(a), lower);
    }
  }

  ghost function SetPte(v: VM, a: Addr, p: Pte): VM {
    v.(ptes := v.ptes[a := p])
  }

  ghost function ClearPte(v: VM, a: Addr): VM {
    v.(ptes := v.ptes - {a})
  }

  /** Mapping a page spends a reference in hand. */
  lemma MapTally(v: VM, other: seq<nat>, hand: multiset<Frame>, a: Addr, p: Pte)
    requires Tally(v, other, hand) && a !in v.ptes && p.frame in hand
    ensures Tally(SetPte(v, a, p), other, hand - multiset{p.frame})
  {
    var v' := SetPte(v, a, p);
    assert FrameOf(v'.ptes) == FrameOf(v.ptes)[a := p.frame];
    forall f | 0 <= f < |v.refs| ensures v'.refs[f] == Owners(v', f) + other[f] + (hand - multiset{p.frame})[f] {
      CountPut(FrameOf(v.ptes), a, p.frame, f);
      assert v.refs[f] == Owners(v, f) + other[f] + hand[f];
    }
  }

  /** Clearing an entry puts its reference in hand. */
  lemma ClearTally(v: VM, other: seq<nat>, hand: multiset<Frame>, a: Addr)
    requires Tally(v, other, hand) && a in v.ptes
    ensures Tally(ClearPte(v, a), other, hand + multiset{v.ptes[a].frame})
  {
    var v' := ClearPte(v, a);
    assert FrameOf(v'.ptes) == FrameOf(v.ptes) - {a};
    forall f | 0 <= f < |v.refs|
      ensures v'.refs[f] == Owners(v', f) + other[f] + (hand + multiset{v.ptes[a].frame})[f]
    {
      CountDrop(FrameOf(v.ptes), a, f);
      assert v.refs[f] == Owners(v, f) + other[f] + hand[f];
    }
  }

  lemma FlagsTally(v: VM, other: seq<nat>, hand: multiset<Frame>, a: Addr, p: Pte)
    requires Tally(v, other, hand) && a in v.ptes && v.ptes[a].frame == p.frame
    ensures Tally(SetPte(v, a, p), other, hand)
  {
    var v' := SetPte(v, a, p);
    assert FrameOf(v'.ptes) == FrameOf(v.ptes);
    forall f | 0 <= f < |v.refs| ensures v'.refs[f] == Owners(v', f) + other[f] + hand[f] {
      assert v.refs[f] == Owners(v, f) + other[f] + hand[f];
    }
  }

  ghost function SetOverlay(v: VM, a: Addr, f: Frame): VM {
    v.(overlays := v.overlays[a := f])
  }

  /** The references in hand after an overlay entry moves to `f`. */
  ghost function OverlayHand(v: VM, hand: multiset<Frame>, a: Addr, f: Frame): multiset<Frame> {
    hand - multiset{f} + if a in v.overlays then multiset{v.overlays[a]} else multiset{}
  }

  lemma OverlayTally(v: VM, other: seq<nat>, hand: multiset<Frame>, a: Addr, f: Frame)
    requires Tally(v, other, hand) && f in hand
    ensures Tally(SetOverlay(v, a, f), other, OverlayHand(v, hand, a, f))
  {
    var v', hand' := SetOverlay(v, a, f), OverlayHand(v, hand, a, f);
    forall g | 0 <= g < |v.refs| ensures v'.refs[g] == Owners(v', g) + other[g] + hand'[g] {
      assert v.refs[g] == Owners(v, g) + other[g] + hand[g];
      CountMove(v.overlays, a, f, g);
    }
  }

  /** The counts are a function of who holds what: with the same entries and nothing in hand, every
      count is back to what it was. */
  lemma TallyDetermines(v: VM, v': VM, other: seq<nat>)
    requires Tally(v, other, multiset{}) && Tally(v', other, multiset{})
    requires v.ptes == v'.ptes && v.overlays == v'.overlays && v.tables == v'.tables
    ensures v.refs == v'.refs
  {
  }

  lemma MappedLive(v: VM, other: seq<nat>, hand: multiset<Frame>, a: Addr)
    requires Tally(v, other, hand) && a in v.ptes && v.ptes[a].frame < |v.refs|
    ensures v.refs[v.ptes[a].frame] > hand[v.ptes[a].frame]
  {
    CountMember(FrameOf(v.ptes), a);
    assert v.refs[v.ptes[a].frame] == Owners(v, v.ptes[a].frame) + other[v.ptes[a].frame] + hand[v.ptes[a].frame];
  }

  /** Two entries and an overlay entry of one frame make a count of three. */
  lemma SoleOwner(v: VM, other: seq<nat>, a: Addr, b: Addr)
    requires Tally(v, other, multiset{}) && a in v.ptes && b in v.ptes
    requires v.ptes[a].frame == v.ptes[b].frame < |v.refs|
    requires v.refs[v.ptes[a].frame] <= (if a in v.overlays && v.overlays[a] == v.ptes[a].frame then 2 else 1)
    ensures a == b
  {
    var f := v.ptes[a].frame;
    assert v.refs[f] == Owners(v, f) + other[f];
    if a in v.overlays && v.overlays[a] == f {
      CountMember(v.overlays, a);
    }
    CountOne(FrameOf(v.ptes), a, b);
  }
}
