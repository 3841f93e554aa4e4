/** Copy-on-write sharing, as steps on page tables, frames and counts. The reference is a machine
    without frames that copies every page at fork. */
module Cow {
  import opened Frames

  // ----- invariants ----------------------------------------------------------------------------

  function Byte(v: VM, f: Frame): Page {
    if f in v.bytes then v.bytes[f] else []
  }

  /** A frame mapped writable is mapped by no other address space and, in the strict form, nowhere
      else at all. */
  ghost predicate Apart(v: VM, strict: bool) {
    forall a, b :: a in v.ptes && b in v.ptes && a != b && (strict || a.space != b.space) && v.ptes[a].flags.writable
                   ==> v.ptes[a].frame != v.ptes[b].frame
  }

  ghost predicate NoneWritableCow(v: VM) {
    forall a :: a in v.ptes ==> !(v.ptes[a].flags.writable && v.ptes[a].flags.cow)
  }

  /** An overlay entry names the frame that is mapped at its address. */
  ghost predicate OverlaysAgree(v: VM) {
    && v.overlays.Keys <= v.objects
    && forall a :: a in v.overlays && a in v.ptes ==> v.overlays[a] == v.ptes[a].frame
  }

  ghost predicate Inv(v: VM, other: seq<nat>, strict: bool) {
    Tally(v, other, multiset{}) && Apart(v, strict) && NoneWritableCow(v) && OverlaysAgree(v)
  }

  // ----- what a process sees -------------------------------------------------------------------

  datatype Seen = Nothing | Just(page: Page)

  ghost function See(v: VM, a: Addr): Seen {
    if a in v.ptes then Just(Byte(v, v.ptes[a].frame)) else Nothing
  }

  ghost predicate SameView(v: VM, v': VM) {
    forall a :: See(v', a) == See(v, a)
  }

  lemma FreeUnmapped(v: VM, other: seq<nat>, f: Frame, a: Addr)
    requires Tally(v, other, multiset{}) && Free(v, f) && a in v.ptes
    ensures v.ptes[a].frame != f
  {
    if v.ptes[a].frame == f {
      MappedLive(v, other, multiset{}, a);
    }
  }

  // ----- resolving a write fault ---------------------------------------------------------------

  function Opened(fl: Flags): Flags {
    fl.(writable := true, cow := false)
  }

  /** The entry a write fault can resolve: a user copy-on-write entry of a counted frame. */
  ghost predicate Resolvable(v: VM, a: Addr) {
    && a in v.ptes && v.ptes[a].flags.user && v.ptes[a].flags.cow
    && v.ptes[a].frame < |v.refs| && v.refs[v.ptes[a].frame] > 0
  }

  ghost predicate OverlayOwned(v: VM, a: Addr)
    requires a in v.ptes
  {
    a in v.objects && a in v.overlays && v.overlays[a] == v.ptes[a].frame
  }

  /** The faulting entry is the only one left. */
  ghost predicate Reusable(v: VM, a: Addr)
    requires Resolvable(v, a)
  {
    var n := v.refs[v.ptes[a].frame];
    if a in v.objects then OverlayOwned(v, a) && n <= 2 else n == 1
  }

  ghost function OverlayMoved(v: VM, a: Addr, pick: Frame): VM
    requires a in v.ptes
  {
    var v1 := Retained(v, pick);
    var v2 := if OverlayOwned(v, a) then Released(v1, v.ptes[a].frame) else v1;
    SetOverlay(v2, a, pick)
  }

  ghost function Remapped(v: VM, a: Addr, pick: Frame): VM
    requires a in v.ptes
  {
    Released(SetPte(v, a, Pte(pick, Opened(v.ptes[a].flags))), v.ptes[a].frame)
  }

  /** `pick` is the frame the allocator offers; `roomy` says whether an overlay map can be made. */
  ghost function Resolve(v: VM, a: Addr, pick: int, roomy: bool): (VM, bool) {
    if !Resolvable(v, a) then (v, false)
    else if Reusable(v, a) then (SetPte(v, a, v.ptes[a].(flags := Opened(v.ptes[a].flags))), true)
    else if !Free(v, pick) then (v, false)
    else
      var v1 := Allocated(v, pick, Byte(v, v.ptes[a].frame));
      if a !in v.objects then (Remapped(v1, a, pick), true)
      else if !roomy then (Released(v1, pick), false)
      else (Remapped(OverlayMoved(v1, a, pick), a, pick), true)
  }

  lemma OverlayMovedTally(v: VM, other: seq<nat>, a: Addr, pick: Frame)
    requires Tally(v, other, multiset{pick}) && pick < |v.refs| && v.refs[pick] == 1
    requires a in v.ptes && v.ptes[a].frame != pick && a in v.objects
             && (a in v.overlays ==> v.overlays[a] == v.ptes[a].frame)
    requires v.ptes[a].frame < |v.refs|
    ensures Tally(OverlayMoved(v, a, pick), other, multiset{pick})
  {
    var f := v.ptes[a].frame;
    HandNoTable(v, other, multiset{pick}, pick);
    RetainTally(v, other, multiset{pick}, pick);
    var v1 := Retained(v, pick);
    var hand := multiset{pick} + multiset{pick};
    OverlayTally(v1, other, hand, a, pick);
    var v2 := SetOverlay(v1, a, pick);
    var hand2 := OverlayHand(v1, hand, a, pick);
    if OverlayOwned(v, a) {
      ReleaseTally(v2, other, hand2, f);
      assert hand2 - multiset{f} == multiset{pick};
      assert Released(v2, f) == OverlayMoved(v, a, pick);
    } else {
      assert hand2 == multiset{pick};
    }
  }

  lemma RemappedTally(v: VM, other: seq<nat>, a: Addr, pick: Frame)
    requires Tally(v, other, multiset{pick}) && a in v.ptes && v.ptes[a].frame != pick
    ensures Tally(Remapped(v, a, pick), other, multiset{})
  {
    var f := v.ptes[a].frame;
    var p := Pte(pick, Opened(v.ptes[a].flags));
    ClearTally(v, other, multiset{pick}, a);
    var hand := multiset{pick} + multiset{f};
    MapTally(ClearPte(v, a), other, hand, a, p);
    assert SetPte(ClearPte(v, a), a, p) == SetPte(v, a, p);
    assert hand - multiset{pick} == multiset{f};
    ReleaseTally(SetPte(v, a, p), other, multiset{f}, f);
    assert multiset{f} - multiset{f} == multiset{};
  }

  ghost predicate Resolved(v: VM, v': VM, a: Addr) {
    && |v'.refs| == |v.refs| && v'.objects == v.objects && v'.tables == v.tables
    && a in v.ptes && v'.ptes.Keys == v.ptes.Keys && v'.ptes == v.ptes[a := v'.ptes[a]]
    && v'.ptes[a].flags == v.ptes[a].flags.(writable := true, cow := false)
    && v'.overlays.Keys <= v.overlays.Keys + (v.objects * {a})
    && (forall b :: b in v'.overlays && b != a ==> b in v.overlays && v'.overlays[b] == v.overlays[b])
    && (a in v'.overlays ==> v'.overlays[a] == v'.ptes[a].frame)
  }

  lemma CopyTally(v: VM, other: seq<nat>, a: Addr, pick: int, roomy: bool)
    requires Tally(v, other, multiset{}) && OverlaysAgree(v)
    requires Resolvable(v, a) && !Reusable(v, a) && Free(v, pick) && Resolve(v, a, pick, roomy).1
    ensures Tally(Resolve(v, a, pick, roomy).0, other, multiset{}) && v.ptes[a].frame != pick
  {
    FreeUnmapped(v, other, pick, a);
    AllocTally(v, other, multiset{}, pick, Byte(v, v.ptes[a].frame));
    assert multiset{} + multiset{pick as Frame} == multiset{pick as Frame};
    var v1 := Allocated(v, pick, Byte(v, v.ptes[a].frame));
    if a in v.objects {
      OverlayMovedTally(v1, other, a, pick);
      RemappedTally(OverlayMoved(v1, a, pick), other, a, pick);
    } else {
      RemappedTally(v1, other, a, pick);
    }
  }

  lemma CopyShape(v: VM, a: Addr, pick: int, roomy: bool)
    requires OverlaysAgree(v) && Resolvable(v, a) && !Reusable(v, a) && Free(v, pick) && Resolve(v, a, pick, roomy).1
    ensures var v' := Resolve(v, a, pick, roomy).0;
      Resolved(v, v', a) && v'.ptes[a].frame == pick && v'.bytes == v.bytes[pick := Byte(v, v.ptes[a].frame)]
  {
    var v1 := Allocated(v, pick, Byte(v, v.ptes[a].frame));
    var v2 := if a in v.objects then OverlayMoved(v1, a, pick) else v1;
    assert v2.ptes == v.ptes && v2.bytes == v1.bytes && |v2.refs| == |v.refs|;
    assert v2.overlays == if a in v.objects then v.overlays[a := pick] else v.overlays;
  }

  lemma CopyResolves(v: VM, other: seq<nat>, a: Addr, pick: int, roomy: bool)
    requires Tally(v, other, multiset{}) && OverlaysAgree(v)
    requires Resolvable(v, a) && !Reusable(v, a) && Free(v, pick) && Resolve(v, a, pick, roomy).1
    ensures var v' := Resolve(v, a, pick, roomy).0;
      Tally(v', other, multiset{}) && Resolved(v, v', a) && v'.ptes[a].frame == pick
      && v'.bytes == v.bytes[pick := Byte(v, v.ptes[a].frame)]
  {
    CopyTally(v, other, a, pick, roomy);
    CopyShape(v, a, pick, roomy);
  }

  lemma ReuseResolves(v: VM, other: seq<nat>, a: Addr, pick: int, roomy: bool)
    requires Tally(v, other, multiset{}) && OverlaysAgree(v) && Resolvable(v, a) && Reusable(v, a)
    ensures var v' := Resolve(v, a, pick, roomy).0;
      Tally(v', other, multiset{}) && Resolved(v, v', a) && v'.ptes[a].frame == v.ptes[a].frame && v'.bytes == v.bytes
    ensures forall b :: b in v.ptes && b != a ==> v.ptes[b].frame != v.ptes[a].frame
  {
    FlagsTally(v, other, multiset{}, a, v.ptes[a].(flags := Opened(v.ptes[a].flags)));
    forall b | b in v.ptes && b != a ensures v.ptes[b].frame != v.ptes[a].frame {
      if v.ptes[b].frame == v.ptes[a].frame {
        SoleOwner(v, other, a, b);
      }
    }
  }

  /** A resolved fault: the entry is writable, no other entry maps its frame, and nobody sees any
      change. */
  ghost predicate FaultDone(v: VM, v': VM, a: Addr) {
    && Resolved(v, v', a) && SameView(v, v')
    && (forall b :: b in v'.ptes && b != a ==> v'.ptes[b].frame != v'.ptes[a].frame)
  }

  ghost predicate OnlyFreeBytes(v: VM, v': VM) {
    && v'.(bytes := v.bytes) == v
    && forall f: Frame {:trigger Byte(v', f)} :: !Free(v, f) ==> Byte(v', f) == Byte(v, f)
  }

  /** Views when one entry moved to frame `f` and no byte that anyone maps changed. */
  lemma MovedView(v: VM, v': VM, a: Addr)
    requires Resolved(v, v', a) && Byte(v', v'.ptes[a].frame) == Byte(v, v.ptes[a].frame)
    requires forall b :: b in v.ptes && b != a ==> Byte(v', v.ptes[b].frame) == Byte(v, v.ptes[b].frame)
    requires forall b :: b in v.ptes && b != a ==> v.ptes[b].frame != v'.ptes[a].frame
    ensures FaultDone(v, v', a)
  {
    forall b ensures See(v', b) == See(v, b) {
      assert b != a ==> (b in v'.ptes <==> b in v.ptes) && (b in v.ptes ==> v'.ptes[b] == v.ptes[b]);
    }
  }

  lemma ResolveOutcome(v: VM, other: seq<nat>, a: Addr, pick: int, roomy: bool)
    requires Tally(v, other, multiset{}) && OverlaysAgree(v)
    ensures var (v', ok) := Resolve(v, a, pick, roomy);
      && Tally(v', other, multiset{})
      && (ok ==> FaultDone(v, v', a))
      && (!ok ==> OnlyFreeBytes(v, v'))
  {
    var v' := Resolve(v, a, pick, roomy).0;
    if Resolvable(v, a) {
      if Reusable(v, a) {
        ReuseResolves(v, other, a, pick, roomy);
        MovedView(v, v', a);
      } else if Free(v, pick) {
        forall b | b in v.ptes ensures v.ptes[b].frame != pick {
          FreeUnmapped(v, other, pick, b);
        }
        if Resolve(v, a, pick, roomy).1 {
          CopyResolves(v, other, a, pick, roomy);
          MovedView(v, v', a);
        } else {
          GiveBack(v, other, pick, Byte(v, v.ptes[a].frame));
        }
      }
    }
  }

  /** A frame taken and given back leaves only its bytes changed. */
  lemma GiveBack(v: VM, other: seq<nat>, pick: int, page: Page)
    requires Tally(v, other, multiset{}) && Free(v, pick)
    ensures var v' := Released(Allocated(v, pick, page), pick);
      OnlyFreeBytes(v, v') && Tally(v', other, multiset{})
  {
    var v' := Released(Allocated(v, pick, page), pick);
    assert v'.refs == v.refs;
    forall f | 0 <= f < |v'.refs| ensures v'.refs[f] == Owners(v', f) + other[f] + multiset{}[f] {
      assert v.refs[f] == Owners(v, f) + other[f];
    }
  }

  /** The condition on overlays is exact: copying a page of an object's private mapping keeps the
      counts if and only if the overlay entry it replaces, if any, named the frame it copies. */
  lemma OverlayExactly(v: VM, other: seq<nat>, a: Addr, pick: int)
    requires Tally(v, other, multiset{}) && Resolvable(v, a) && !Reusable(v, a) && Free(v, pick) && a in v.objects
    requires a in v.overlays ==> v.overlays[a] < |v.refs|
    ensures Tally(Resolve(v, a, pick, true).0, other, multiset{}) <==>
            (a in v.overlays ==> v.overlays[a] == v.ptes[a].frame)
  {
    var v', f := Resolve(v, a, pick, true).0, v.ptes[a].frame;
    FreeUnmapped(v, other, pick, a);
    var v1 := Allocated(v, pick, Byte(v, f));
    AllocTally(v, other, multiset{}, pick, Byte(v, f));
    assert multiset{} + multiset{pick as Frame} == multiset{pick as Frame};
    if a in v.overlays && v.overlays[a] != f {
      var g := v.overlays[a];
      CountMember(v.overlays, a);
      CountMove(v.overlays, a, pick, g);
      CountMove(FrameOf(v.ptes), a, pick, g);
      assert FrameOf(v'.ptes) == FrameOf(v.ptes)[a := pick];
      assert v.refs[g] == Owners(v, g) + other[g];
      assert v'.refs[g] == v.refs[g] && Owners(v', g) == Owners(v, g) - 1;
    } else {
      OverlayMovedTally(v1, other, a, pick);
      RemappedTally(OverlayMoved(v1, a, pick), other, a, pick);
    }
  }

  /** An overlay entry that names another frame than the mapped one: its reference is lost. */
  lemma OverlayLosesReference() returns (v: VM, other: seq<nat>)
    ensures Tally(v, other, multiset{}) && Resolvable(v, Addr(0, 0)) && !Reusable(v, Addr(0, 0)) && Free(v, 2)
    ensures Addr(0, 0) in v.objects && Addr(0, 0) in v.overlays
    ensures !Tally(Resolve(v, Addr(0, 0), 2, true).0, other, multiset{})
  {
    var a, cow := Addr(0, 0), Pte(0, Flags(true, false, true, false, false, 0));
    v, other := VM([2, 1, 0], map[], map[a := cow], map[a := 1], {a}, map[], {}), [1, 0, 0];
    assert FrameOf(v.ptes) == map[a := 0];
    forall f: Frame ensures Count(map[a := 0], f) == (if f == 0 then 1 else 0)
        && Count(v.overlays, f) == if f == 1 then 1 else 0 {
      CountPut(map[], a, 0, f);
      CountPut(map[], a, 1, f);
    }
    OverlayExactly(v, other, a, 2);
  }

  lemma DoneKeeps(v: VM, v': VM, other: seq<nat>, strict: bool, a: Addr)
    requires Inv(v, other, strict) && FaultDone(v, v', a) && Tally(v', other, multiset{})
    ensures Inv(v', other, strict)
  {
    assert forall b :: b in v'.ptes && b != a ==> b in v.ptes && v'.ptes[b] == v.ptes[b];
  }

  /** A fault that failed kept everything but bytes of free frames. */
  lemma FailKeeps(v: VM, v': VM, other: seq<nat>, strict: bool)
    requires Inv(v, other, strict) && OnlyFreeBytes(v, v')
    ensures Inv(v', other, strict) && SameView(v, v')
  {
    forall f | 0 <= f < |v'.refs| ensures v'.refs[f] == Owners(v', f) + other[f] + multiset{}[f] {
      assert v.refs[f] == Owners(v, f) + other[f];
    }
    forall b ensures See(v', b) == See(v, b) {
      if b in v.ptes && Free(v, v.ptes[b].frame) {
        FreeUnmapped(v, other, v.ptes[b].frame, b);
      }
    }
  }

  lemma ResolveKeeps(v: VM, other: seq<nat>, strict: bool, a: Addr, pick: int, roomy: bool)
    requires Inv(v, other, strict)
    ensures Inv(Resolve(v, a, pick, roomy).0, other, strict)
    ensures SameView(v, Resolve(v, a, pick, roomy).0)
  {
    ResolveOutcome(v, other, a, pick, roomy);
    var (v', ok) := Resolve(v, a, pick, roomy);
    if ok {
      DoneKeeps(v, v', other, strict, a);
    } else {
      FailKeeps(v, v', other, strict);
    }
  }

  // ----- when a fault can be resolved ----------------------------------------------------------

  /** Nobody but the faulting entry owns its frame; a page of an object's private mapping has its overlay
      entry as well. */
  ghost predicate OwnedAlone(v: VM, other: seq<nat>, a: Addr)
    requires a in v.ptes && v.ptes[a].frame < |other|
  {
    var f := v.ptes[a].frame;
    && (forall b :: b in v.ptes && v.ptes[b].frame == f ==> b == a)
    && (forall b :: b in v.overlays && v.overlays[b] == f ==> b == a)
    && !IsTable(v, f) && other[f] == 0
    && (a in v.objects ==> a in v.overlays && v.overlays[a] == f)
  }

  /** A user copy-on-write entry of a counted frame that nobody else owns, or that a free frame can replace;
      a page of an object's private mapping also needs room for an overlay entry. */
  ghost predicate CanResolve(v: VM, other: seq<nat>, a: Addr, pick: int, roomy: bool)
    requires |other| == |v.refs|
  {
    && a in v.ptes && v.ptes[a].flags.user && v.ptes[a].flags.cow && v.ptes[a].frame < |v.refs|
    && (OwnedAlone(v, other, a)
        || (0 <= pick < |v.refs| && v.refs[pick] == 0 && (a in v.objects ==> roomy)))
  }

  lemma NoneHeld<K(!new)>(m: map<K, Frame>, f: Frame)
    ensures Count(m, f) == 0 <==> forall k :: k in m ==> m[k] != f
  {
    if k :| k in m && m[k] == f {
      CountMember(m, k);
    } else {
      assert Holders(m, f) == {};
    }
  }

  lemma OneHolds<K(!new)>(m: map<K, Frame>, a: K)
    requires a in m
    ensures Count(m, m[a]) == 1 <==> forall k :: k in m && m[k] == m[a] ==> k == a
  {
    CountMember(m, a);
    if Count(m, m[a]) == 1 {
      forall k | k in m && m[k] == m[a] ensures k == a {
        CountOne(m, a, k);
      }
    }
    if forall k :: k in m && m[k] == m[a] ==> k == a {
      assert Holders(m, m[a]) == {a};
    }
  }

  lemma ReusableExactly(v: VM, other: seq<nat>, a: Addr)
    requires Tally(v, other, multiset{}) && OverlaysAgree(v) && Resolvable(v, a)
    ensures Reusable(v, a) <==> OwnedAlone(v, other, a)
  {
    var f, ptes := v.ptes[a].frame, FrameOf(v.ptes);
    assert v.refs[f] == Owners(v, f) + other[f];
    MappedNoTable(v, other, multiset{}, a);
    NoneHeld(v.tables, f);
    OneHolds(ptes, a);
    assert forall b :: b in v.ptes && v.ptes[b].frame == f <==> b in ptes && ptes[b] == f;
    if a in v.overlays && v.overlays[a] == f {
      OneHolds(v.overlays, a);
      CountMember(v.overlays, a);
    } else {
      NoneHeld(v.overlays, f);
    }
    CountMember(ptes, a);
  }

  /** A write fault is resolved exactly then. */
  lemma ResolveExactly(v: VM, other: seq<nat>, a: Addr, pick: int, roomy: bool)
    requires Tally(v, other, multiset{}) && OverlaysAgree(v)
    ensures Resolve(v, a, pick, roomy).1 <==> CanResolve(v, other, a, pick, roomy)
  {
    if a in v.ptes && v.ptes[a].frame < |v.refs| {
      MappedLive(v, other, multiset{}, a);
    }
    if Resolvable(v, a) {
      ReusableExactly(v, other, a);
    }
  }

  // ----- stores --------------------------------------------------------------------------------

  ghost predicate Writable(v: VM, a: Addr) {
    a in v.ptes && v.ptes[a].flags.user && v.ptes[a].flags.writable
  }

  ghost function Written(v: VM, a: Addr, page: Page): VM
    requires a in v.ptes
  {
    v.(bytes := v.bytes[v.ptes[a].frame := page])
  }

  /** A user store: straight through a writable entry, else after resolving the fault. */
  ghost function Store(v: VM, a: Addr, page: Page, pick: int, roomy: bool): (VM, bool) {
    if Writable(v, a) then (Written(v, a, page), true)
    else
      var (v1, ok) := Resolve(v, a, pick, roomy);
      if ok && a in v1.ptes then (Written(v1, a, page), true) else (v1, false)
  }

  /** A store that goes through is seen at its address and by no other address space, and in the
      strict form at no other address; one that fails is not seen at all. */
  ghost predicate Stored(v: VM, v': VM, strict: bool, a: Addr, page: Page, ok: bool) {
    && (ok ==> See(v', a) == Just(page))
    && (forall b {:trigger See(v', b)} :: (!ok || (b != a && (strict || b.space != a.space))) ==>
         See(v', b) == See(v, b))
  }

  lemma StoreKeeps(v: VM, other: seq<nat>, strict: bool, a: Addr, page: Page, pick: int, roomy: bool)
    requires Inv(v, other, strict)
    ensures var (v', ok) := Store(v, a, page, pick, roomy);
      Inv(v', other, strict) && Stored(v, v', strict, a, page, ok)
  {
    var (v1, _) := Resolve(v, a, pick, roomy);
    ResolveKeeps(v, other, strict, a, pick, roomy);
    ResolveOutcome(v, other, a, pick, roomy);
    if Writable(v, a) {
      WriteKeeps(v, other, strict, a, page);
    } else if Resolve(v, a, pick, roomy).1 {
      WriteKeeps(v1, other, strict, a, page);
    }
  }

  /** A user store goes through: the entry is the user's, and writable or such that the fault is resolved. */
  ghost predicate CanStore(v: VM, other: seq<nat>, a: Addr, pick: int, roomy: bool)
    requires |other| == |v.refs|
  {
    && a in v.ptes && v.ptes[a].flags.user
    && (v.ptes[a].flags.writable || CanResolve(v, other, a, pick, roomy))
  }

  lemma StoreExactly(v: VM, other: seq<nat>, a: Addr, page: Page, pick: int, roomy: bool)
    requires Tally(v, other, multiset{}) && OverlaysAgree(v)
    ensures Store(v, a, page, pick, roomy).1 <==> CanStore(v, other, a, pick, roomy)
  {
    ResolveExactly(v, other, a, pick, roomy);
    ResolveOutcome(v, other, a, pick, roomy);
  }

  lemma WriteKeeps(v: VM, other: seq<nat>, strict: bool, a: Addr, page: Page)
    requires Inv(v, other, strict) && a in v.ptes && v.ptes[a].flags.writable
    ensures Inv(Written(v, a, page), other, strict) && Stored(v, Written(v, a, page), strict, a, page, true)
  {
    var v' := Written(v, a, page);
    forall f | 0 <= f < |v'.refs| ensures v'.refs[f] == Owners(v', f) + other[f] + multiset{}[f] {
      assert v.refs[f] == Owners(v, f) + other[f];
    }
  }

  // ----- fork ----------------------------------------------------------------------------------

  /** Flags of a shared page: writable pages become copy-on-write. */
  function Shared(fl: Flags): Flags {
    if fl.writable || fl.cow then fl.(writable := false, cow := true) else fl
  }

  /** Flags as an entry is installed with. */
  function Installed(fl: Flags): Flags {
    fl.(accessed := true, dirty := true)
  }

  ghost predicate SamePte(v0: VM, v: VM, a: Addr) {
    if a in v0.ptes then a in v.ptes && v.ptes[a] == v0.ptes[a] else a !in v.ptes
  }

  /** Page `p` after a fork. Counted frames are shared; a frame without a count is copied into a
      frame that was free, now owned by the child alone. */
  ghost predicate PageForked(v0: VM, v: VM, parent: nat, child: nat, p: nat) {
    var a, c := Addr(parent, p), Addr(child, p);
    if a !in v0.ptes then SamePte(v0, v, a) && SamePte(v0, v, c)
    else
      var was := v0.ptes[a];
      && c !in v0.ptes && a in v.ptes && c in v.ptes && Built(v, c)
      && if was.frame < |v0.refs| then
           v.ptes[a] == Pte(was.frame, Shared(was.flags)) && v.ptes[c] == Pte(was.frame, Installed(Shared(was.flags)))
         else
           && v.ptes[a] == was && v.ptes[c].flags == Installed(was.flags)
           && CopiedInto(v0, v, was.frame, v.ptes[c].frame)
  }

  ghost predicate CopiedInto(v0: VM, v: VM, f: Frame, g: Frame) {
    Free(v0, g) && g < |v.refs| && v.refs[g] == 1 && Byte(v, g) == Byte(v0, f)
  }

  ghost predicate InFork(parent: nat, child: nat, lo: nat, hi: nat, a: Addr) {
    (a.space == parent || a.space == child) && lo <= a.page < hi
  }

  ghost predicate TablesGrew(v0: VM, v: VM) {
    forall k :: k in v0.tables ==> k in v.tables && v.tables[k] == v0.tables[k]
  }

  /** A table on the way to a page of the child that the parent maps in the range. */
  ghost predicate TableFor(v0: VM, parent: nat, child: nat, lo: nat, hi: nat, k: Table) {
    exists p: nat :: lo <= p < hi && Addr(parent, p) in v0.ptes
        && (k == UpperOf(Addr(child, p)) || k == LowerOf(Addr(child, p)))
  }

  /** No other table was made. */
  ghost predicate TablesFor(v0: VM, v: VM, parent: nat, child: nat, lo: nat, hi: nat) {
    forall k :: k in v.tables && k !in v0.tables ==> TableFor(v0, parent, child, lo, hi, k)
  }

  /** Contents of frames that were in use, and the rest of the state, after a fork. */
  ghost predicate Kept(v0: VM, v: VM) {
    && |v.refs| == |v0.refs| && v.overlays == v0.overlays && v.objects == v0.objects
    && v.blocks == v0.blocks && TablesGrew(v0, v)
    && (forall f: Frame {:trigger Byte(v, f)} :: !Free(v0, f) ==> Byte(v, f) == Byte(v0, f))
  }

  ghost predicate Grown(refs0: seq<nat>, refs: seq<nat>) {
    |refs| == |refs0| && forall f {:trigger refs[f]} :: 0 <= f < |refs0| ==> refs[f] >= refs0[f]
  }

  /** A fork of `[lo, mid)` with tables made for pages up to `hi`. */
  ghost predicate Forking(v0: VM, v: VM, parent: nat, child: nat, lo: nat, mid: nat, hi: nat) {
    && Kept(v0, v) && Grown(v0.refs, v.refs) && TablesFor(v0, v, parent, child, lo, hi)
    && (forall p {:trigger PageForked(v0, v, parent, child, p)} :: lo <= p < mid ==>
         PageForked(v0, v, parent, child, p))
    && (forall a {:trigger SamePte(v0, v, a)} :: !InFork(parent, child, lo, mid, a) ==> SamePte(v0, v, a))
  }

  ghost predicate Forked(v0: VM, v: VM, parent: nat, child: nat, lo: nat, hi: nat) {
    Forking(v0, v, parent, child, lo, hi, hi)
  }

  /** No writable entry of the parent outside the range maps a counted frame of the range. */
  ghost predicate NoOutsideAlias(v: VM, parent: nat, lo: nat, hi: nat) {
    forall a, b :: OutsideAlias(v, parent, lo, hi, a, b) ==> v.ptes[a].frame != v.ptes[b].frame
  }

  ghost predicate OutsideAlias(v: VM, parent: nat, lo: nat, hi: nat, a: Addr, b: Addr) {
    && a in v.ptes && b in v.ptes && a.space == parent && b.space == parent && v.ptes[a].flags.writable
    && !(lo <= a.page < hi) && lo <= b.page < hi && v.ptes[b].frame < |v.refs|
  }

  /** The child's overlay entries in the range were cloned from the parent's. */
  ghost predicate OverlaysCloned(v: VM, parent: nat, child: nat, lo: nat, hi: nat) {
    forall p: nat :: lo <= p < hi && Addr(child, p) in v.overlays && Addr(parent, p) in v.ptes ==>
      v.ptes[Addr(parent, p)].frame < |v.refs| && v.overlays[Addr(child, p)] == v.ptes[Addr(parent, p)].frame
  }

  ghost predicate ForkReady(v: VM, strict: bool, parent: nat, child: nat, lo: nat, hi: nat) {
    && parent != child && OverlaysCloned(v, parent, child, lo, hi)
    && (strict || NoOutsideAlias(v, parent, lo, hi))
  }

  /** Where the entry at `a` after a fork comes from. */
  ghost function Origin(v0: VM, parent: nat, child: nat, lo: nat, hi: nat, a: Addr): Addr {
    if a.space == child && lo <= a.page < hi && Addr(parent, a.page) in v0.ptes then Addr(parent, a.page) else a
  }

  /** An entry after a fork, in terms of the entry it comes from. */
  ghost predicate ForkedFrom(v0: VM, v: VM, parent: nat, lo: nat, hi: nat, o: Addr, a: Addr)
    requires o in v0.ptes && a in v.ptes
  {
    var was, now := v0.ptes[o], v.ptes[a];
    && (now.flags.writable ==> was.flags.writable)
    && (now.flags.writable && now.flags.cow ==> was.flags.writable && was.flags.cow)
    && !Free(v0, was.frame)
    && (now.frame == was.frame || CopiedInto(v0, v, was.frame, now.frame))
    && (o == a || was.frame < |v0.refs| ==> now.frame == was.frame)
    && (o != a ==> now.frame < |v0.refs|)
    && (o.space == parent && lo <= o.page < hi && was.frame < |v0.refs| ==> !now.flags.writable)
  }

  lemma ForkedEntry(v0: VM, v: VM, other: seq<nat>, parent: nat, child: nat, lo: nat, hi: nat, a: Addr)
    requires Tally(v0, other, multiset{}) && Forked(v0, v, parent, child, lo, hi) && parent != child
    ensures var o := Origin(v0, parent, child, lo, hi, a);
      (a in v.ptes <==> o in v0.ptes) && (a in v.ptes ==> ForkedFrom(v0, v, parent, lo, hi, o, a))
  {
    var o := Origin(v0, parent, child, lo, hi, a);
    if InFork(parent, child, lo, hi, a) {
      assert PageForked(v0, v, parent, child, a.page);
    } else {
      assert SamePte(v0, v, a);
    }
    if o in v0.ptes && Free(v0, v0.ptes[o].frame) {
      FreeUnmapped(v0, other, v0.ptes[o].frame, o);
    }
  }

  lemma ForkApart(v0: VM, v: VM, other: seq<nat>, strict: bool, parent: nat, child: nat, lo: nat, hi: nat, a: Addr,
                  b: Addr)
    requires Inv(v0, other, strict) && ForkReady(v0, strict, parent, child, lo, hi)
    requires Forked(v0, v, parent, child, lo, hi) && Tally(v, other, multiset{})
    requires a in v.ptes && b in v.ptes && a != b && (strict || a.space != b.space) && v.ptes[a].flags.writable
    ensures v.ptes[a].frame != v.ptes[b].frame
  {
    var oa, ob := Origin(v0, parent, child, lo, hi, a), Origin(v0, parent, child, lo, hi, b);
    ForkedEntry(v0, v, other, parent, child, lo, hi, a);
    ForkedEntry(v0, v, other, parent, child, lo, hi, b);
    if v.ptes[a].frame == v.ptes[b].frame {
      if v.ptes[a].frame != v0.ptes[oa].frame && v.ptes[b].frame != v0.ptes[ob].frame {
        var g := v.ptes[a].frame;
        assert v.refs[g] == Owners(v, g) + other[g];
        CountOne(FrameOf(v.ptes), a, b);
      }
    }
  }

  /** What each address shows after a fork that copies at once. */
  ghost predicate ForkSeen(v0: VM, v: VM, parent: nat, child: nat, lo: nat, hi: nat) {
    forall a {:trigger See(v, a)} :: See(v, a) == See(v0, Origin(v0, parent, child, lo, hi, a))
  }

  /** Sharing at fork shows what copying at fork would show, and keeps every invariant. */
  lemma ForkKeeps(v0: VM, v: VM, other: seq<nat>, strict: bool, parent: nat, child: nat, lo: nat, hi: nat)
    requires Inv(v0, other, strict) && ForkReady(v0, strict, parent, child, lo, hi)
    requires Forked(v0, v, parent, child, lo, hi) && Tally(v, other, multiset{})
    ensures Inv(v, other, strict) && ForkSeen(v0, v, parent, child, lo, hi)
  {
    forall a, b | a in v.ptes && b in v.ptes && a != b && (strict || a.space != b.space) && v.ptes[a].flags.writable
      ensures v.ptes[a].frame != v.ptes[b].frame
    {
      ForkApart(v0, v, other, strict, parent, child, lo, hi, a, b);
    }
    forall a ensures See(v, a) == See(v0, Origin(v0, parent, child, lo, hi, a)) {
      ForkedEntry(v0, v, other, parent, child, lo, hi, a);
    }
    forall a | a in v.ptes ensures !(v.ptes[a].flags.writable && v.ptes[a].flags.cow) {
      ForkedEntry(v0, v, other, parent, child, lo, hi, a);
    }
    forall a | a in v.overlays && a in v.ptes ensures v.overlays[a] == v.ptes[a].frame {
      ForkedEntry(v0, v, other, parent, child, lo, hi, a);
    }
  }

  /** The permissions of page `p` after a fork. Parent and child keep everything of the parent's old entry but
      this: of a counted frame neither may write, and both are marked copy-on-write if the parent could
      write or was marked already. The child's entry is installed as accessed and dirty. */
  ghost predicate Permissions(was: Flags, now: Flags, copy: Flags, counted: bool) {
    && now.user == was.user && now.rest == was.rest && now.accessed == was.accessed && now.dirty == was.dirty
    && copy.user == was.user && copy.rest == was.rest && copy.accessed && copy.dirty
    && (if counted then !now.writable && !copy.writable
        else now.writable == was.writable && copy.writable == was.writable)
    && (now.cow <==> was.cow || (counted && was.writable)) && (copy.cow <==> now.cow)
  }

  lemma ForkPermissions(v0: VM, v: VM, parent: nat, child: nat, lo: nat, hi: nat, p: nat)
    requires Forked(v0, v, parent, child, lo, hi) && lo <= p < hi && Addr(parent, p) in v0.ptes
    ensures var (a, c) := (Addr(parent, p), Addr(child, p));
      && a in v.ptes && c in v.ptes
      && Permissions(v0.ptes[a].flags, v.ptes[a].flags, v.ptes[c].flags, v0.ptes[a].frame < |v0.refs|)
  {
    assert PageForked(v0, v, parent, child, p);
  }

  /** After a fork both sides can store where the parent could, whenever a free frame is offered. */
  lemma ForkThenStore(v0: VM, v: VM, other: seq<nat>, strict: bool, parent: nat, child: nat, lo: nat, hi: nat, p: nat,
                      x: Addr, page: Page, pick: int, roomy: bool)
    requires Inv(v0, other, strict) && Inv(v, other, strict) && Forked(v0, v, parent, child, lo, hi) && lo <= p < hi
    requires x == Addr(parent, p) || x == Addr(child, p)
    requires exists pick0, roomy0 :: CanStore(v0, other, Addr(parent, p), pick0, roomy0)
    requires Free(v, pick) && (x in v.objects ==> roomy)
    ensures Store(v, x, page, pick, roomy).1
  {
    ForkPermissions(v0, v, parent, child, lo, hi, p);
    assert PageForked(v0, v, parent, child, p);
    StoreExactly(v, other, x, page, pick, roomy);
  }

  /** And nowhere else. */
  lemma ForkStoresOnly(v0: VM, v: VM, other: seq<nat>, strict: bool, parent: nat, child: nat, lo: nat, hi: nat, p: nat,
                       x: Addr, page: Page, pick: int, roomy: bool)
    requires Inv(v0, other, strict) && Inv(v, other, strict) && Forked(v0, v, parent, child, lo, hi) && lo <= p < hi
    requires x == Addr(parent, p) || x == Addr(child, p)
    requires Addr(parent, p) in v0.ptes && Store(v, x, page, pick, roomy).1
    ensures var was := v0.ptes[Addr(parent, p)];
      was.flags.user && (was.flags.writable || was.flags.cow)
  {
    ForkPermissions(v0, v, parent, child, lo, hi, p);
    assert PageForked(v0, v, parent, child, p);
    StoreExactly(v, other, x, page, pick, roomy);
  }

  /** The condition on aliases is exact: after a fork the spaces are apart if and only if there is
      no such alias. */
  lemma ForkApartExactly(v0: VM, v: VM, other: seq<nat>, parent: nat, child: nat, lo: nat, hi: nat)
    requires Inv(v0, other, false) && parent != child && OverlaysCloned(v0, parent, child, lo, hi)
    requires Forked(v0, v, parent, child, lo, hi) && Tally(v, other, multiset{})
    ensures Apart(v, false) <==> NoOutsideAlias(v0, parent, lo, hi)
  {
    if NoOutsideAlias(v0, parent, lo, hi) {
      ForkKeeps(v0, v, other, false, parent, child, lo, hi);
    } else {
      var a, b :| OutsideAlias(v0, parent, lo, hi, a, b) && v0.ptes[a].frame == v0.ptes[b].frame;
      assert SamePte(v0, v, a) && PageForked(v0, v, parent, child, b.page);
      assert a != Addr(child, b.page) && v.ptes[a].frame == v.ptes[Addr(child, b.page)].frame;
    }
  }

  /** Two entries of space 0 on one counted frame, and the fork of one of them into space 1. */
  ghost function AliasPte(): Pte {
    Pte(0, Flags(true, true, false, false, false, 0))
  }

  ghost function AliasBefore(): VM {
    VM([2, 1, 1], map[], map[Addr(0, 9) := AliasPte()][Addr(0, 0) := AliasPte()], map[], {},
       map[Table(1, 1, 0) := 1][Table(1, 0, 0) := 2], {})
  }

  ghost function AliasAfter(): VM {
    var shared := AliasPte().(flags := Shared(AliasPte().flags));
    AliasBefore().(refs := [3, 1, 1], ptes := map[Addr(0, 9) := AliasPte()][Addr(0, 0) := shared]
                   [Addr(1, 0) := shared.(flags := Installed(shared.flags))])
  }

  lemma AliasOwners(f: Frame)
    ensures Owners(AliasBefore(), f) == if f == 0 then 2 else if f <= 2 then 1 else 0
    ensures Owners(AliasAfter(), f) == if f == 0 then 3 else if f <= 2 then 1 else 0
  {
    var m: map<Addr, Frame> := map[Addr(0, 9) := 0];
    CountPut(map[], Addr(0, 9), 0, f);
    CountPut(m, Addr(0, 0), 0, f);
    CountPut(m[Addr(0, 0) := 0], Addr(1, 0), 0, f);
    CountPut(map[], Table(1, 1, 0), 1, f);
    CountPut(map[Table(1, 1, 0) := 1], Table(1, 0, 0), 2, f);
    assert FrameOf(AliasBefore().ptes) == m[Addr(0, 0) := 0];
    assert FrameOf(AliasAfter().ptes) == m[Addr(0, 0) := 0][Addr(1, 0) := 0];
  }

  lemma AliasCount(v: VM, f: Frame)
    requires (v == AliasBefore() || v == AliasAfter()) && f < 3
    ensures v.refs[f] == Owners(v, f)
  {
    AliasOwners(f);
  }

  lemma AliasTally(v: VM)
    requires v == AliasBefore() || v == AliasAfter()
    ensures Tally(v, [0, 0, 0], multiset{})
  {
    var other := [0, 0, 0];
    forall f | 0 <= f < |v.refs| ensures v.refs[f] == Owners(v, f) + other[f] + multiset{}[f] {
      AliasCount(v, f);
    }
  }

  lemma AliasForked()
    ensures Forked(AliasBefore(), AliasAfter(), 0, 1, 0, 1) && !Apart(AliasAfter(), false)
  {
    assert PageForked(AliasBefore(), AliasAfter(), 0, 1, 0);
    assert AliasAfter().ptes[Addr(0, 9)].frame == AliasAfter().ptes[Addr(1, 0)].frame;
  }

  /** One writable entry of the parent outside the forked range maps a frame of it: the parent can then write a
      page that the child sees. */
  lemma OutsideAliasShared() returns (v0: VM, v: VM)
    ensures Inv(v0, [0, 0, 0], false) && OverlaysCloned(v0, 0, 1, 0, 1) && Forked(v0, v, 0, 1, 0, 1)
    ensures Tally(v, [0, 0, 0], multiset{}) && !Apart(v, false)
  {
    v0, v := AliasBefore(), AliasAfter();
    AliasTally(v0);
    AliasTally(v);
    AliasForked();
    assert Apart(v0, false) && NoneWritableCow(v0) && OverlaysAgree(v0) && OverlaysCloned(v0, 0, 1, 0, 1);
  }

  // ----- unmapping -----------------------------------------------------------------------------

  ghost predicate Doomed(space: nat, lo: nat, hi: nat, reserved: set<nat>, a: Addr) {
    a.space == space && lo <= a.page < hi && a.page !in reserved
  }

  /** The entries of a range are gone, except on reserved pages; nothing else changed but counts. */
  ghost predicate Unmapped(v0: VM, v: VM, space: nat, lo: nat, hi: nat, reserved: set<nat>) {
    && v == v0.(refs := v.refs, ptes := v.ptes) && |v.refs| == |v0.refs|
    && (forall a {:trigger a in v.ptes} :: a in v.ptes <==> a in v0.ptes && !Doomed(space, lo, hi, reserved, a))
    && (forall a {:trigger v.ptes[a]} :: a in v.ptes ==> v.ptes[a] == v0.ptes[a])
  }

  lemma UnmapKeeps(v0: VM, v: VM, other: seq<nat>, strict: bool, space: nat, lo: nat, hi: nat, reserved: set<nat>)
    requires Inv(v0, other, strict) && Unmapped(v0, v, space, lo, hi, reserved) && Tally(v, other, multiset{})
    ensures Inv(v, other, strict)
    ensures forall a {:trigger See(v, a)} ::
            See(v, a) == if Doomed(space, lo, hi, reserved, a) then Nothing else See(v0, a)
  {
  }

  // ----- a fork that fails ---------------------------------------------------------------------

  /** A reserved page of the copied range after a failed fork: unmapping passes it over, so the child keeps
      what the fork gave it. */
  ghost predicate Leftover(v0: VM, v: VM, parent: nat, child: nat, p: nat) {
    var a, c := Addr(parent, p), Addr(child, p);
    if a !in v0.ptes then SamePte(v0, v, c)
    else
      && c !in v0.ptes && c in v.ptes
      && (v0.ptes[a].frame < |v0.refs| ==> v.ptes[c] == Pte(v0.ptes[a].frame, Installed(Shared(v0.ptes[a].flags))))
  }

  /** What is left when a fork stops at page `at`: the parent and everyone else as before, the child
      cleared below that page except for reserved pages and untouched from there on, and the interior
      tables made on the way. */
  ghost predicate FailedAt(v0: VM, v: VM, parent: nat, child: nat, lo: nat, at: nat, reserved: set<nat>) {
    && Kept(v0, v) && TablesFor(v0, v, parent, child, lo, at + 1)
    && (forall a {:trigger a in v.ptes} :: Doomed(child, 0, at, reserved, a) ==> a !in v.ptes)
    && (forall p: nat {:trigger Leftover(v0, v, parent, child, p)} ::
          lo <= p < at && p in reserved ==> Leftover(v0, v, parent, child, p))
    && (forall p: nat {:trigger Built(v, Addr(child, p))} ::
          lo <= p < at && Addr(parent, p) in v0.ptes ==> Built(v, Addr(child, p)))
    && (forall a: Addr {:trigger SamePte(v0, v, a)} ::
          a.space != child || (a.page < lo && a.page in reserved) || at <= a.page ==> SamePte(v0, v, a))
  }

  /** The parent maps no reserved page of the part that was copied. */
  ghost predicate NoneReserved(v: VM, parent: nat, lo: nat, at: nat, reserved: set<nat>) {
    forall p: nat :: lo <= p < at && p in reserved ==> Addr(parent, p) !in v.ptes
  }

  /** An entry left by such a failed fork is one from before. */
  lemma FailedEntry(v0: VM, v: VM, parent: nat, child: nat, lo: nat, at: nat, reserved: set<nat>, a: Addr)
    requires FailedAt(v0, v, parent, child, lo, at, reserved) && NoneReserved(v0, parent, lo, at, reserved)
    ensures if Doomed(child, 0, at, reserved, a) then a !in v.ptes else SamePte(v0, v, a)
  {
    if a.space == child && a.page < at && a.page in reserved && lo <= a.page {
      assert a == Addr(child, a.page) && Leftover(v0, v, parent, child, a.page);
    }
  }

  /** A failed fork shows as the child's unmapping below the page that failed, whatever the child had there. */
  lemma FailedKeeps(v0: VM, v: VM, other: seq<nat>, strict: bool, parent: nat, child: nat, lo: nat, at: nat,
                    reserved: set<nat>)
    requires Inv(v0, other, strict) && FailedAt(v0, v, parent, child, lo, at, reserved) && Tally(v, other, multiset{})
    requires NoneReserved(v0, parent, lo, at, reserved)
    ensures Inv(v, other, strict)
    ensures forall a {:trigger See(v, a)} ::
              See(v, a) == if Doomed(child, 0, at, reserved, a) then Nothing else See(v0, a)
  {
    forall a ensures a in v.ptes ==> a in v0.ptes && v.ptes[a] == v0.ptes[a] {
      FailedEntry(v0, v, parent, child, lo, at, reserved, a);
    }
    forall a ensures See(v, a) == if Doomed(child, 0, at, reserved, a) then Nothing else See(v0, a) {
      FailedEntry(v0, v, parent, child, lo, at, reserved, a);
      if a in v0.ptes && Free(v0, v0.ptes[a].frame) {
        FreeUnmapped(v0, other, v0.ptes[a].frame, a);
      }
    }
  }

  // ----- new pages -----------------------------------------------------------------------------

  /** A page of its own for an address without one: a frame, then the walk, then the entry. A walk that fails
      keeps the tables it made. */
  ghost function MapNew(v: VM, a: Addr, flags: Flags, page: Page, pick: int, upper: int, lower: int): (VM, bool) {
    if !Free(v, pick) then (v, false)
    else
      var (v1, ok) := Walked(Allocated(v, pick, page), a, upper, lower);
      if ok && a !in v.ptes then (SetPte(v1, a, Pte(pick, Installed(flags))), true) else (Released(v1, pick), false)
  }

  /** A walk gets through: there are different free frames for the interior tables that are missing. */
  ghost predicate CanWalk(v: VM, a: Addr, upper: int, lower: int) {
    && (UpperOf(a) in v.tables || Free(v, upper))
    && (LowerOf(a) in v.tables || (Free(v, lower) && (UpperOf(a) in v.tables || lower != upper)))
  }

  lemma WalkExactly(v: VM, a: Addr, upper: int, lower: int)
    ensures Walked(v, a, upper, lower).1 <==> CanWalk(v, a, upper, lower)
  {
  }

  /** A page can be mapped: the address has none, and there are different free frames for the page and for
      each interior table that is missing. */
  ghost predicate CanMap(v: VM, a: Addr, pick: int, upper: int, lower: int) {
    && a !in v.ptes && Free(v, pick)
    && (UpperOf(a) in v.tables || (Free(v, upper) && upper != pick))
    && (LowerOf(a) in v.tables
        || (Free(v, lower) && lower != pick && (UpperOf(a) in v.tables || lower != upper)))
  }

  lemma MapNewExactly(v: VM, a: Addr, flags: Flags, page: Page, pick: int, upper: int, lower: int)
    ensures var (v', ok) := MapNew(v, a, flags, page, pick, upper, lower);
      && (ok <==> CanMap(v, a, pick, upper, lower))
      && (ok ==> a in v'.ptes && v'.ptes[a] == Pte(pick, flags.(accessed := true, dirty := true)))
  {
    if Free(v, pick) {
      WalkExactly(Allocated(v, pick, page), a, upper, lower);
    }
  }

  /** Nothing changed but free frames, which may now be interior tables. */
  ghost predicate OnlyTables(v: VM, v': VM) {
    && |v'.refs| == |v.refs| && v'.ptes == v.ptes && v'.overlays == v.overlays && v'.objects == v.objects
    && TablesGrew(v, v')
    && (forall f: Frame {:trigger Byte(v', f)} :: !Free(v, f) ==> Byte(v', f) == Byte(v, f))
    && (forall f {:trigger v'.refs[f]} :: 0 <= f < |v.refs| && v.refs[f] > 0 ==> v'.refs[f] == v.refs[f])
  }

  lemma OneTable(v: VM, k: Table, pick: int)
    ensures OnlyTables(v, WithTable(v, k, pick).0) && Grown(v.refs, WithTable(v, k, pick).0.refs)
  {
  }

  lemma WalkOnlyTables(v: VM, a: Addr, upper: int, lower: int)
    ensures OnlyTables(v, Walked(v, a, upper, lower).0) && Grown(v.refs, Walked(v, a, upper, lower).0.refs)
  {
    OneTable(v, UpperOf(a), upper);
    var (v1, ok) := WithTable(v, UpperOf(a), upper);
    if ok {
      OneTable(v1, LowerOf(a), lower);
      var v2 := WithTable(v1, LowerOf(a), lower).0;
      forall f: Frame | !Free(v, f) ensures Byte(v2, f) == Byte(v, f) {
        assert Byte(v1, f) == Byte(v, f);
        assert f < |v.refs| ==> v1.refs[f] >= v.refs[f];
      }
      forall f | 0 <= f < |v.refs| ensures v2.refs[f] >= v.refs[f] {
        assert v1.refs[f] >= v.refs[f];
      }
    }
  }

  /** The new page is seen at its address, and nobody sees any other change. */
  ghost predicate MapSeen(v: VM, v': VM, a: Addr, page: Page) {
    forall b {:trigger See(v', b)} :: See(v', b) == if b == a then Just(page) else See(v, b)
  }

  /** Bytes of mapped frames survive the allocation and the walk. */
  lemma MapNewBytes(v: VM, other: seq<nat>, a: Addr, page: Page, pick: int, upper: int, lower: int)
    requires Tally(v, other, multiset{}) && Free(v, pick)
    ensures var v1 := Walked(Allocated(v, pick, page), a, upper, lower).0;
      && v1.ptes == v.ptes && v1.overlays == v.overlays && v1.objects == v.objects && |v1.refs| == |v.refs|
      && Byte(v1, pick) == page
      && forall b :: b in v.ptes ==> v.ptes[b].frame != pick && Byte(v1, v.ptes[b].frame) == Byte(v, v.ptes[b].frame)
  {
    var v0 := Allocated(v, pick, page);
    WalkOnlyTables(v0, a, upper, lower);
    var v1 := Walked(v0, a, upper, lower).0;
    assert !Free(v0, pick) && Byte(v1, pick) == Byte(v0, pick);
    forall b | b in v.ptes ensures v.ptes[b].frame != pick && Byte(v1, v.ptes[b].frame) == Byte(v, v.ptes[b].frame) {
      FreeUnmapped(v, other, pick, b);
      if Free(v, v.ptes[b].frame) {
        FreeUnmapped(v, other, v.ptes[b].frame, b);
      }
      assert !Free(v0, v.ptes[b].frame);
    }
  }

  lemma MapNewTally(v: VM, other: seq<nat>, a: Addr, flags: Flags, page: Page, pick: int, upper: int, lower: int)
    requires Tally(v, other, multiset{})
    ensures Tally(MapNew(v, a, flags, page, pick, upper, lower).0, other, multiset{})
  {
    if Free(v, pick) {
      var hand := multiset{pick as Frame};
      AllocTally(v, other, multiset{}, pick, page);
      assert multiset{} + hand == hand && hand - hand == multiset{};
      var v0 := Allocated(v, pick, page);
      WalkTally(v0, other, hand, a, upper, lower);
      var (v1, ok) := Walked(v0, a, upper, lower);
      if ok && a !in v.ptes {
        MapNewBytes(v, other, a, page, pick, upper, lower);
        MapTally(v1, other, hand, a, Pte(pick, Installed(flags)));
      } else {
        ReleaseTally(v1, other, hand, pick);
      }
    }
  }

  /** No entry changed, and no byte of a mapped frame. */
  ghost predicate Quiet(v: VM, v': VM) {
    && v'.ptes == v.ptes && v'.overlays == v.overlays && v'.objects == v.objects
    && forall a {:trigger v.ptes[a]} :: a in v.ptes ==> Byte(v', v.ptes[a].frame) == Byte(v, v.ptes[a].frame)
  }

  lemma QuietKeeps(v: VM, v': VM, other: seq<nat>, other': seq<nat>, strict: bool)
    requires Inv(v, other, strict) && Quiet(v, v') && Tally(v', other', multiset{})
    ensures Inv(v', other', strict) && SameView(v, v')
  {
  }

  /** One more entry, to a frame nobody else maps. */
  lemma AddedKeeps(v: VM, v1: VM, other: seq<nat>, strict: bool, a: Addr, pte: Pte)
    requires Inv(v, other, strict) && Quiet(v, v1) && Tally(SetPte(v1, a, pte), other, multiset{})
    requires a !in v.ptes && a !in v.overlays && !(pte.flags.writable && pte.flags.cow)
    requires forall b :: b in v.ptes ==> v.ptes[b].frame != pte.frame
    ensures Inv(SetPte(v1, a, pte), other, strict) && MapSeen(v, SetPte(v1, a, pte), a, Byte(v1, pte.frame))
  {
    var v' := SetPte(v1, a, pte);
    forall b ensures See(v', b) == if b == a then Just(Byte(v1, pte.frame)) else See(v, b) {
    }
    assert forall b :: b in v'.ptes && b != a ==> b in v.ptes && v'.ptes[b] == v.ptes[b];
  }

  lemma MapNewRefused(v: VM, other: seq<nat>, a: Addr, flags: Flags, page: Page, pick: int, upper: int, lower: int)
    requires Tally(v, other, multiset{}) && !MapNew(v, a, flags, page, pick, upper, lower).1
    ensures Quiet(v, MapNew(v, a, flags, page, pick, upper, lower).0)
  {
    if Free(v, pick) {
      MapNewBytes(v, other, a, page, pick, upper, lower);
    }
  }

  lemma MapNewAdded(v: VM, other: seq<nat>, a: Addr, flags: Flags, page: Page, pick: int, upper: int, lower: int)
    requires Tally(v, other, multiset{}) && MapNew(v, a, flags, page, pick, upper, lower).1
    ensures var (v1, pte) := (Walked(Allocated(v, pick, page), a, upper, lower).0, Pte(pick, Installed(flags)));
      && MapNew(v, a, flags, page, pick, upper, lower).0 == SetPte(v1, a, pte) && Quiet(v, v1) && Byte(v1, pick) == page
      && a !in v.ptes && forall b :: b in v.ptes ==> v.ptes[b].frame != pick
  {
    MapNewBytes(v, other, a, page, pick, upper, lower);
  }

  lemma MapNewKeeps(v: VM, other: seq<nat>, strict: bool, a: Addr, flags: Flags, page: Page, pick: int, upper: int,
                    lower: int)
    requires Inv(v, other, strict) && a !in v.overlays && !(flags.writable && flags.cow)
    ensures var (v', ok) := MapNew(v, a, flags, page, pick, upper, lower);
      Inv(v', other, strict) && if ok then MapSeen(v, v', a, page) else SameView(v, v')
  {
    MapNewTally(v, other, a, flags, page, pick, upper, lower);
    if MapNew(v, a, flags, page, pick, upper, lower).1 {
      MapNewAdded(v, other, a, flags, page, pick, upper, lower);
      var v1 := Walked(Allocated(v, pick, page), a, upper, lower).0;
      AddedKeeps(v, v1, other, strict, a, Pte(pick, Installed(flags)));
    } else {
      MapNewRefused(v, other, a, flags, page, pick, upper, lower);
      QuietKeeps(v, MapNew(v, a, flags, page, pick, upper, lower).0, other, other, strict);
    }
  }

  // ----- runs ----------------------------------------------------------------------------------

  /** `Outside` is whatever the rest of the kernel does with frames that no address space maps. */
  datatype Action =
    | StoreTo(a: Addr, page: Page, pick: int, roomy: bool)
    | MapPage(a: Addr, flags: Flags, page: Page, pick: int, upper: int, lower: int)
    | ForkRange(parent: nat, child: nat, lo: nat, hi: nat)
    | ForkFails(parent: nat, child: nat, lo: nat, at: nat, reserved: set<nat>)
    | Unmap(space: nat, lo: nat, hi: nat, reserved: set<nat>)
    | Outside

  /** One step of the system. */
  ghost predicate Step(v: VM, v': VM, strict: bool, act: Action) {
    match act
    case StoreTo(a, page, pick, roomy) => v' == Store(v, a, page, pick, roomy).0
    case MapPage(a, flags, page, pick, upper, lower) =>
      a !in v.overlays && !(flags.writable && flags.cow) && v' == MapNew(v, a, flags, page, pick, upper, lower).0
    case ForkRange(parent, child, lo, hi) =>
      ForkReady(v, strict, parent, child, lo, hi) && Forked(v, v', parent, child, lo, hi)
    case ForkFails(parent, child, lo, at, reserved) =>
      FailedAt(v, v', parent, child, lo, at, reserved) && NoneReserved(v, parent, lo, at, reserved)
    case Unmap(space, lo, hi, reserved) => Unmapped(v, v', space, lo, hi, reserved)
    case Outside => Quiet(v, v')
  }

  /** One step of the machine that has no frames and copies at fork. A store goes through when it can, and
      otherwise does nothing; so does the mapping of a new page. A fork that fails unmaps the child below
      the page that failed. */
  ghost predicate PlainStep(v: VM, v': VM, other: seq<nat>, strict: bool, act: Action) {
    match act
    case StoreTo(a, page, pick, roomy) =>
      && |other| == |v.refs|
      && if CanStore(v, other, a, pick, roomy) then Stored(v, v', strict, a, page, true) else SameView(v, v')
    case MapPage(a, _, page, pick, upper, lower) =>
      if CanMap(v, a, pick, upper, lower) then MapSeen(v, v', a, page) else SameView(v, v')
    case ForkRange(parent, child, lo, hi) => ForkSeen(v, v', parent, child, lo, hi)
    case ForkFails(_, child, _, at, reserved) =>
      forall a {:trigger See(v', a)} :: See(v', a) == if Doomed(child, 0, at, reserved, a) then Nothing else See(v, a)
    case Unmap(space, lo, hi, reserved) =>
      forall a {:trigger See(v', a)} :: See(v', a) == if Doomed(space, lo, hi, reserved, a) then Nothing else See(v, a)
    case Outside => SameView(v, v')
  }

  /** Owners outside the model change in their own steps only. After forks, unmaps and those steps the counts
      are what the operations prove of them. */
  ghost predicate Counted(v': VM, other: seq<nat>, other': seq<nat>, act: Action) {
    && (other' == other || act.Outside?)
    && (act.StoreTo? || act.MapPage? || Tally(v', other', multiset{}))
  }

  lemma StepKeeps(v: VM, v': VM, other: seq<nat>, other': seq<nat>, strict: bool, act: Action)
    requires Inv(v, other, strict) && Step(v, v', strict, act) && Counted(v', other, other', act)
    ensures Inv(v', other', strict) && PlainStep(v, v', other, strict, act)
  {
    match act
    case StoreTo(a, page, pick, roomy) =>
      StoreKeeps(v, other, strict, a, page, pick, roomy);
      StoreExactly(v, other, a, page, pick, roomy);
    case MapPage(a, flags, page, pick, upper, lower) =>
      MapNewKeeps(v, other, strict, a, flags, page, pick, upper, lower);
      MapNewExactly(v, a, flags, page, pick, upper, lower);
    case ForkRange(parent, child, lo, hi) => ForkKeeps(v, v', other, strict, parent, child, lo, hi);
    case ForkFails(parent, child, lo, at, reserved) =>
      FailedKeeps(v, v', other, strict, parent, child, lo, at, reserved);
    case Unmap(space, lo, hi, reserved) => UnmapKeeps(v, v', other, strict, space, lo, hi, reserved);
    case Outside => QuietKeeps(v, v', other, other', strict);
  }

  ghost predicate StepAt(vs: seq<VM>, others: seq<seq<nat>>, strict: bool, acts: seq<Action>, i: nat)
    requires |vs| == |others| == |acts| + 1 && i < |acts|
  {
    Step(vs[i], vs[i + 1], strict, acts[i]) && Counted(vs[i + 1], others[i], others[i + 1], acts[i])
  }

  ghost predicate IsRun(vs: seq<VM>, others: seq<seq<nat>>, strict: bool, acts: seq<Action>) {
    && |vs| == |others| == |acts| + 1
    && forall i: nat {:trigger StepAt(vs, others, strict, acts, i)} :: i < |acts| ==>
       StepAt(vs, others, strict, acts, i)
  }

  lemma RunStep(vs: seq<VM>, others: seq<seq<nat>>, strict: bool, acts: seq<Action>, i: nat)
    requires IsRun(vs, others, strict, acts) && i < |acts| && Inv(vs[i], others[i], strict)
    ensures Inv(vs[i + 1], others[i + 1], strict) && PlainStep(vs[i], vs[i + 1], others[i], strict, acts[i])
  {
    assert StepAt(vs, others, strict, acts, i);
    StepKeeps(vs[i], vs[i + 1], others[i], others[i + 1], strict, acts[i]);
  }

  lemma {:induction false} RunInv(vs: seq<VM>, others: seq<seq<nat>>, strict: bool, acts: seq<Action>, n: nat)
    requires IsRun(vs, others, strict, acts) && Inv(vs[0], others[0], strict) && n <= |acts|
    ensures Inv(vs[n], others[n], strict)
  {
    if n > 0 {
      RunInv(vs, others, strict, acts, n - 1);
      RunStep(vs, others, strict, acts, n - 1);
    }
  }

  /** Over every run, each step shows what the copying machine would show, and the counts stay
      exact. */
  lemma RunKeeps(vs: seq<VM>, others: seq<seq<nat>>, strict: bool, acts: seq<Action>, n: nat)
    requires IsRun(vs, others, strict, acts) && Inv(vs[0], others[0], strict) && n <= |acts|
    ensures Inv(vs[n], others[n], strict)
    ensures n < |acts| ==> PlainStep(vs[n], vs[n + 1], others[n], strict, acts[n])
  {
    RunInv(vs, others, strict, acts, n);
    if n < |acts| {
      RunStep(vs, others, strict, acts, n);
    }
  }

  /** The action stores, maps, forks or unmaps on behalf of address space `s`. */
  ghost predicate Concerns(act: Action, s: nat) {
    match act
    case StoreTo(a, _, _, _) => a.space == s
    case MapPage(a, _, _, _, _, _) => a.space == s
    case ForkRange(_, child, _, _) => child == s
    case ForkFails(_, child, _, _, _) => child == s
    case Unmap(space, _, _, _) => space == s
    case Outside => false
  }

  lemma Unconcerned(v: VM, v': VM, other: seq<nat>, act: Action, s: nat, p: nat)
    requires PlainStep(v, v', other, false, act) && !Concerns(act, s)
    ensures See(v', Addr(s, p)) == See(v, Addr(s, p))
  {
  }

  /** An address space never sees what the others do. */
  lemma {:induction false} Isolation(vs: seq<VM>, others: seq<seq<nat>>, acts: seq<Action>, s: nat, p: nat, n: nat)
    requires IsRun(vs, others, false, acts) && Inv(vs[0], others[0], false) && n <= |acts|
    requires forall i {:trigger acts[i]} :: 0 <= i < n ==> !Concerns(acts[i], s)
    ensures See(vs[n], Addr(s, p)) == See(vs[0], Addr(s, p))
  {
    if n > 0 {
      Isolation(vs, others, acts, s, p, n - 1);
      RunKeeps(vs, others, false, acts, n - 1);
      Unconcerned(vs[n - 1], vs[n], others[n - 1], acts[n - 1], s, p);
    }
  }

  /** In every run, no address space maps a page-table page. */
  lemma TablesUnmapped(vs: seq<VM>, others: seq<seq<nat>>, strict: bool, acts: seq<Action>, n: nat, a: Addr)
    requires IsRun(vs, others, strict, acts) && Inv(vs[0], others[0], strict) && n <= |acts| && a in vs[n].ptes
    ensures !IsTable(vs[n], vs[n].ptes[a].frame)
  {
    RunKeeps(vs, others, strict, acts, n);
    MappedNoTable(vs[n], others[n], multiset{}, a);
  }
}
