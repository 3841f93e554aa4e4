/** Which cached pages a byte range invalidates, and the content sequence number. */
module CacheRange {

  const PGSIZE := 4096
  const UINT64_MAX := 0xFFFF_FFFF_FFFF_FFFF
  const K_FULL := UINT64_MAX

  /** Pages of a 64-bit byte space. */
  const PAGES := 0x10_0000_0000_0000

  datatype InvalidationRange = InvalidationRange(all: bool, startPage: nat, pageCount: nat)

  function MakeInvalidationRange(offset: nat, length: nat): InvalidationRange
    requires offset <= UINT64_MAX && length <= UINT64_MAX
  {
    var startPage := offset / PGSIZE;
    if length == K_FULL || offset > K_FULL - length then InvalidationRange(true, startPage, 0)
    else
      var end := offset + length;
      var roundedEnd := if end > K_FULL - (PGSIZE - 1) then K_FULL else end + (PGSIZE - 1);
      var endPage := roundedEnd / PGSIZE;
      InvalidationRange(false, startPage, if endPage > startPage then endPage - startPage else 1)
  }

  /** The test both detach strategies apply to a page of the file. */
  predicate Selects(r: InvalidationRange, page: nat) {
    r.all || (page >= r.startPage && page - r.startPage < r.pageCount)
  }

  /** Some byte of the page lies in the range. */
  predicate Meets(page: nat, offset: nat, length: nat) {
    page * 4096 < offset + length && offset < page * 4096 + 4096
  }

  /** The ranges on which rounding up does not lose the last page of the byte space. */
  predicate RangeOk(offset: nat, length: nat) {
    || length == K_FULL
    || offset + length > UINT64_MAX
    || offset + length <= UINT64_MAX + 1 - PGSIZE
    || offset >= UINT64_MAX + 1 - PGSIZE
  }

  /** Every page that meets the range is selected exactly when the range is one of those. */
  lemma SelectsAllMet(offset: nat, length: nat)
    requires offset <= UINT64_MAX && 0 < length <= UINT64_MAX
    ensures RangeOk(offset, length) <==>
      forall page: nat :: page < PAGES && Meets(page, offset, length) ==>
          Selects(MakeInvalidationRange(offset, length), page)
  {
    var r := MakeInvalidationRange(offset, length);
    if !RangeOk(offset, length) {
      assert Meets(PAGES - 1, offset, length) && !Selects(r, PAGES - 1);
    }
  }

  /** A range that loses it: all bytes but the last two of the byte space. */
  lemma LastPageMissed()
    ensures Meets(PAGES - 1, 0, UINT64_MAX - 1) && !Selects(MakeInvalidationRange(0, UINT64_MAX - 1), PAGES - 1)
  {
  }

  /** Short of a whole-file invalidation, nothing else is selected. */
  lemma SelectsOnlyMet(offset: nat, length: nat, page: nat)
    requires offset <= UINT64_MAX && 0 < length <= UINT64_MAX
    requires !MakeInvalidationRange(offset, length).all && Selects(MakeInvalidationRange(offset, length), page)
    ensures Meets(page, offset, length)
  {
  }

  // ----- the sequence number -------------------------------------------------------------------

  /** Advancing a sequence: zero is skipped. */
  function Advance(sequence: nat): nat {
    var next := if sequence == UINT64_MAX then 0 else sequence + 1;
    if next == 0 then 1 else next
  }

  /** The value after `t` advances from 1. */
  function SequenceAt(t: nat): nat {
    1 + t % UINT64_MAX
  }

  lemma AdvanceTicks(t: nat)
    ensures Advance(SequenceAt(t)) == SequenceAt(t + 1)
  {
  }

  /** Two observations agree exactly when the number of advances between them is a multiple of
      2^64 - 1; so equal values mean "nothing happened" as long as fewer advances than that fit
      between them. */
  lemma SequenceAliases(t: nat, t': nat)
    requires t <= t'
    ensures SequenceAt(t) == SequenceAt(t') <==> (t' - t) % UINT64_MAX == 0
    ensures t' - t < UINT64_MAX ==> (SequenceAt(t) == SequenceAt(t') <==> t == t')
  {
  }
}
