/** Giving back the interior page tables of an address space. */
module Teardown {
  import opened Frames
  import opened Cow
  import opened ForkSteps

  const ENTRIES := 512

  /** What walks build: a lower table hangs on its upper one, an upper one in one of the root's slots,
      and an entry lies in a lower table. */
  ghost predicate Rooted(v: VM, s: nat) {
    && (forall k {:trigger k in v.tables} :: k in v.tables && k.space == s ==>
          if k.level == 0 then k.index < ENTRIES * ENTRIES && Table(s, 1, k.index / ENTRIES) in v.tables
          else k.level == 1 && k.index < ENTRIES)
    && EntriesRooted(v, s)
  }

  ghost predicate EntriesRooted(v: VM, s: nat) {
    forall a {:trigger LowerOf(a)} :: a in v.ptes && a.space == s ==> LowerOf(a) in v.tables
  }

  /** Mapping a page below 2^27, the pages that three levels reach, keeps the tables of every space so. */
  lemma MapRooted(v: VM, s: nat, a: Addr, upper: int, lower: int, pte: Pte)
    requires Rooted(v, s) && a.page < ENTRIES * ENTRIES * ENTRIES
    ensures var (w, walked) := Walked(v, a, upper, lower);
      Rooted(w, s) && (walked ==> Rooted(SetPte(w, a, pte), s))
  {
    assert a.page / LOWER_PAGES / ENTRIES == a.page / UPPER_PAGES;
  }

  // ----- tables taken away ---------------------------------------------------------------------

  ghost predicate FrameGone(v: VM, gone: set<Table>, f: Frame) {
    exists k :: k in gone && k in v.tables && v.tables[k] == f
  }

  /** The entries that do not lie in a table. */
  function EntriesBut(ptes: map<Addr, Pte>, gone: set<Table>): map<Addr, Pte> {
    map a | a in ptes && LowerOf(a) !in gone :: ptes[a]
  }

  /** The state without some tables: their frames are free, and the entries in them are gone. */
  ghost function Without(v: VM, gone: set<Table>): VM {
    v.(tables := v.tables - gone, ptes := EntriesBut(v.ptes, gone),
       refs := seq(|v.refs|, f requires 0 <= f < |v.refs| => if FrameGone(v, gone, f) then 0 else v.refs[f]))
  }

  ghost function TablesOf(v: VM, s: nat): set<Table> {
    set k | k in v.tables && k.space == s
  }

  /** No two tables share a frame. */
  lemma TableOwns(v: VM, other: seq<nat>, j: Table, k: Table)
    requires Tally(v, other, multiset{}) && j in v.tables && k in v.tables && v.tables[j] == v.tables[k]
    ensures j == k
  {
    assert v.refs[v.tables[k]] == Owners(v, v.tables[k]) + other[v.tables[k]];
    CountOne(v.tables, j, k);
  }

  lemma DropTable(v: VM, other: seq<nat>, gone: set<Table>, k: Table)
    requires Tally(v, other, multiset{}) && k in v.tables && k !in gone
    ensures var (w, f) := (Without(v, gone), v.tables[k]);
      && k in w.tables && w.tables[k] == f && Droppable(w, f)
      && Released(w, f).(tables := w.tables - {k}, ptes := EntriesBut(w.ptes, {k})) == Without(v, gone + {k})
  {
    var w, f := Without(v, gone), v.tables[k];
    assert !FrameGone(v, gone, f) by {
      forall j | j in gone && j in v.tables && v.tables[j] == f ensures false {
        TableOwns(v, other, j, k);
      }
    }
    assert f !in v.blocks by {
      CountMember(v.tables, k);
    }
    var w' := Without(v, gone + {k});
    assert v.tables - gone - {k} == v.tables - (gone + {k});
    assert EntriesBut(w.ptes, {k}) == w'.ptes;
    forall g | 0 <= g < |v.refs| ensures Released(w, f).refs[g] == w'.refs[g] {
      if g == f {
        assert FrameGone(v, gone + {k}, f);
      } else {
        assert FrameGone(v, gone, g) <==> FrameGone(v, gone + {k}, g);
      }
    }
    assert Released(w, f).refs == w'.refs;
  }

  // ----- the order of the sweep ----------------------------------------------------------------

  /** The tables given back when `l` slots of upper table `u` have been swept. */
  ghost function Swept(v: VM, s: nat, u: nat, l: nat): set<Table> {
    set k | k in v.tables && k.space == s && k.index < if k.level == 0 then u * ENTRIES + l else u
  }

  lemma WithoutNone(v: VM)
    ensures Without(v, {}) == v
  {
    assert v.tables - {} == v.tables && EntriesBut(v.ptes, {}) == v.ptes;
    assert Without(v, {}).refs == v.refs;
  }

  lemma SweptLower(v: VM, s: nat, u: nat, l: nat)
    ensures var k := Table(s, 0, u * ENTRIES + l);
      Swept(v, s, u, l + 1) == Swept(v, s, u, l) + if k in v.tables then {k} else {}
  {
  }

  /** An upper table goes after its lower ones; where there is none, there are no lower ones either. */
  lemma SweptUpper(v: VM, s: nat, u: nat)
    requires Rooted(v, s)
    ensures var k := Table(s, 1, u);
      if k in v.tables then Swept(v, s, u + 1, 0) == Swept(v, s, u, ENTRIES) + {k}
      else Swept(v, s, u + 1, 0) == Swept(v, s, u, 0)
  {
  }

  lemma SweptAll(v: VM, s: nat)
    requires Rooted(v, s)
    ensures Swept(v, s, 0, 0) == {} && Swept(v, s, ENTRIES, 0) == TablesOf(v, s)
  {
  }

  // ----- what it does to the counts ------------------------------------------------------------

  lemma TablesLeft(v: VM, other: seq<nat>, s: nat, f: Frame)
    requires Tally(v, other, multiset{})
    ensures Count(v.tables - TablesOf(v, s), f) == if FrameGone(v, TablesOf(v, s), f) then 0 else Count(v.tables, f)
  {
    var gone := TablesOf(v, s);
    if FrameGone(v, gone, f) {
      var k :| k in gone && k in v.tables && v.tables[k] == f;
      forall j | j in v.tables && v.tables[j] == f ensures j == k {
        TableOwns(v, other, j, k);
      }
      assert Holders(v.tables - gone, f) == {};
    } else {
      assert Holders(v.tables - gone, f) == Holders(v.tables, f);
    }
  }

  ghost function EntriesOf(v: VM, s: nat, f: Frame): set<Addr> {
    set a | a in v.ptes && a.space == s && v.ptes[a].frame == f
  }

  /** The entries that remain are those of the other spaces. */
  lemma OthersLeft(v: VM, s: nat, a: Addr)
    requires EntriesRooted(v, s)
    ensures a in EntriesBut(v.ptes, TablesOf(v, s)) <==> a in v.ptes && a.space != s
  {
    assert LowerOf(a).space == a.space;
  }

  lemma HoldersLeft(v: VM, s: nat, f: Frame)
    requires EntriesRooted(v, s)
    ensures Holders(FrameOf(EntriesBut(v.ptes, TablesOf(v, s))), f) == Holders(FrameOf(v.ptes), f) - EntriesOf(v, s, f)
  {
    forall a ensures a in EntriesBut(v.ptes, TablesOf(v, s)) <==> a in v.ptes && a.space != s {
      OthersLeft(v, s, a);
    }
  }

  lemma EntriesLeft(v: VM, s: nat, f: Frame)
    requires EntriesRooted(v, s)
    ensures var left := EntriesBut(v.ptes, TablesOf(v, s));
      Count(FrameOf(v.ptes), f) == Count(FrameOf(left), f) + |EntriesOf(v, s, f)|
  {
    HoldersLeft(v, s, f);
    assert EntriesOf(v, s, f) <= Holders(FrameOf(v.ptes), f);
  }

  /** A table's frame has no other owner. */
  lemma GoneAlone(v: VM, other: seq<nat>, s: nat, f: Frame)
    requires Tally(v, other, multiset{}) && FrameGone(v, TablesOf(v, s), f)
    ensures f < |v.refs| && Count(FrameOf(v.ptes), f) == Count(v.overlays, f) == other[f] == 0 && f !in v.blocks
  {
    var k :| k in TablesOf(v, s) && k in v.tables && v.tables[k] == f;
    CountMember(v.tables, k);
    assert v.refs[f] == Owners(v, f) + other[f];
  }

  /** How far the count of a frame is from its owners: by the entries that went with the tables. */
  lemma CountAfter(v: VM, other: seq<nat>, s: nat, f: Frame)
    requires Tally(v, other, multiset{}) && EntriesRooted(v, s) && f < |v.refs|
    ensures var w := Without(v, TablesOf(v, s));
      w.refs[f] == Owners(w, f) + other[f] + |EntriesOf(v, s, f)|
  {
    TablesLeft(v, other, s, f);
    EntriesLeft(v, s, f);
    assert v.refs[f] == Owners(v, f) + other[f];
    if FrameGone(v, TablesOf(v, s), f) {
      GoneAlone(v, other, s, f);
    }
  }

  /** No entry of a counted frame is left in the space. */
  ghost predicate NoneLeft(v: VM, s: nat) {
    forall a {:trigger v.ptes[a]} :: a in v.ptes && a.space == s ==> v.ptes[a].frame >= |v.refs|
  }

  /** Freeing the tables of a space keeps every count equal to its owners exactly when no entry of a
      counted frame is left in them. */
  lemma TeardownExactly(v: VM, other: seq<nat>, s: nat)
    requires Tally(v, other, multiset{}) && EntriesRooted(v, s)
    ensures Balanced(Without(v, TablesOf(v, s)), other, multiset{}) <==> NoneLeft(v, s)
  {
    var w := Without(v, TablesOf(v, s));
    if NoneLeft(v, s) {
      forall f | 0 <= f < |w.refs| ensures w.refs[f] == Owners(w, f) + other[f] + multiset{}[f] {
        CountAfter(v, other, s, f);
        assert EntriesOf(v, s, f) == {};
      }
      TablesStayAlone(v, other, s);
      BlocksStayApart(v, other, s);
    } else {
      var a :| a in v.ptes && a.space == s && v.ptes[a].frame < |v.refs|;
      var f := v.ptes[a].frame;
      CountAfter(v, other, s, f);
      assert a in EntriesOf(v, s, f);
    }
  }

  lemma TablesStayAlone(v: VM, other: seq<nat>, s: nat)
    requires Tally(v, other, multiset{})
    ensures TablesAlone(Without(v, TablesOf(v, s)))
  {
    var w := Without(v, TablesOf(v, s));
    forall k | k in w.tables ensures w.tables[k] < |w.refs| && w.refs[w.tables[k]] == 1 {
      forall j | j in TablesOf(v, s) && v.tables[j] == v.tables[k] ensures false {
        TableOwns(v, other, j, k);
      }
    }
  }

  lemma BlocksStayApart(v: VM, other: seq<nat>, s: nat)
    requires Tally(v, other, multiset{})
    ensures BlocksApart(Without(v, TablesOf(v, s)), multiset{})
  {
    var w := Without(v, TablesOf(v, s));
    forall f | f in w.blocks ensures f < |w.refs| && w.refs[f] > 0 && Owners(w, f) == 0 {
      if FrameGone(v, TablesOf(v, s), f) {
        GoneAlone(v, other, s, f);
      }
      assert Holders(FrameOf(w.ptes), f) <= Holders(FrameOf(v.ptes), f) && Holders(FrameOf(v.ptes), f) == {};
      assert Holders(w.tables, f) <= Holders(v.tables, f) && Holders(v.tables, f) == {};
    }
  }

  // ----- a failed fork and the end of its child ------------------------------------------------

  ghost predicate Fresh(v: VM, s: nat) {
    (forall a {:trigger a in v.ptes} :: a in v.ptes ==> a.space != s)
    && forall k {:trigger k in v.tables} :: k in v.tables ==> k.space != s
  }

  lemma FreshGone(v0: VM, v: VM, parent: nat, child: nat, lo: nat, at: nat, reserved: set<nat>)
    requires Fresh(v0, child) && FailedAt(v0, v, parent, child, lo, at, reserved) && v.ptes == v0.ptes
    ensures var w := Without(v, TablesOf(v, child)); w.ptes == v0.ptes && w.tables == v0.tables
  {
    forall k | k in v.tables ensures k in v0.tables <==> k.space != child {
      if k !in v0.tables {
        assert TableFor(v0, parent, child, lo, at + 1, k);
      }
    }
  }

  /** A fork into a new child that fails behind no reserved page, and the teardown of that child, leave
      every entry, every table and every count as they were. */
  lemma FailedForkUndone(v0: VM, v: VM, other: seq<nat>, parent: nat, child: nat, lo: nat, at: nat, reserved: set<nat>)
    requires Tally(v0, other, multiset{}) && Tally(v, other, multiset{}) && Fresh(v0, child)
    requires FailedAt(v0, v, parent, child, lo, at, reserved) && NoneReserved(v0, parent, lo, at, reserved)
    ensures OnlyFreeBytes(v0, Without(v, TablesOf(v, child)))
  {
    AllOrNothing(v0, v, other, parent, child, lo, at, reserved);
    FreshGone(v0, v, parent, child, lo, at, reserved);
    TeardownExactly(v, other, child);
    var w := Without(v, TablesOf(v, child));
    TallyDetermines(v0, w, other);
    forall f: Frame | !Free(v0, f) ensures Byte(w, f) == Byte(v0, f) {
      assert Byte(v, f) == Byte(v0, f);
    }
  }
}
