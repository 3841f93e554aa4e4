/** One shard of the page cache: a map from page keys to pages and a doubly linked list of the same
    entries in order of last use. A shard has at most one entry per key, so an entry is named by its
    key and the entries' link fields are maps from keys. */
module CacheShard {
  import opened CacheRange
  import opened PageCache
  import Frames

  // ----- sequences of entries ------------------------------------------------------------------

  ghost function Without<T>(s: seq<T>, i: nat): seq<T>
    requires i < |s|
  {
    s[..i] + s[i + 1..]
  }

  ghost predicate Distinct<T>(s: seq<T>) {
    forall i, j :: 0 <= i < j < |s| ==> s[i] != s[j]
  }

  /** The entries of `s` that are not in `gone`, in order. */
  ghost function Remaining<T>(s: seq<T>, gone: set<T>): seq<T> {
    if s == [] then []
    else (if s[0] in gone then [] else [s[0]]) + Remaining(s[1..], gone)
  }

  lemma {:induction false} RemainingNone<T>(s: seq<T>)
    ensures Remaining(s, {}) == s
  {
    if s != [] {
      RemainingNone(s[1..]);
    }
  }

  lemma {:induction false} RemainingAbsent<T>(s: seq<T>, e: T)
    requires e !in s
    ensures Remaining(s, {e}) == s
  {
    if s != [] {
      RemainingAbsent(s[1..], e);
    }
  }

  lemma {:induction false} RemainingTwice<T>(s: seq<T>, gone: set<T>, e: T)
    ensures Remaining(Remaining(s, gone), {e}) == Remaining(s, gone + {e})
  {
    if s != [] {
      var t := Remaining(s[1..], gone);
      RemainingTwice(s[1..], gone, e);
      if s[0] in gone {
        assert Remaining(s, gone) == t;
      } else {
        assert Remaining(s, gone) == [s[0]] + t;
        assert ([s[0]] + t)[1..] == t;
      }
    }
  }

  lemma RemoveTwice<K, V>(m: map<K, V>, gone: set<K>, k: K)
    ensures m - gone - {k} == m - (gone + {k})
  {
  }

  lemma {:induction false} WithoutIsRemaining<T>(s: seq<T>, i: nat)
    requires Distinct(s) && i < |s|
    ensures Without(s, i) == Remaining(s, {s[i]})
  {
    if i == 0 {
      RemainingAbsent(s[1..], s[0]);
    } else {
      WithoutIsRemaining(s[1..], i - 1);
      assert Without(s, i) == [s[0]] + Without(s[1..], i - 1);
    }
  }

  /** Of the keys outside `todo`, those in `gone` are the ones the range selects. */
  ghost predicate Scanned(all: set<Key>, todo: set<Key>, gone: set<Key>, file: FileId, r: InvalidationRange) {
    forall k :: k in gone <==> k in all && k !in todo && k.file == file && Selects(r, k.page)
  }

  // ----- the list ------------------------------------------------------------------------------

  datatype Link = Null | To(key: Key)

  ghost predicate At(m: map<Key, Link>, k: Key, l: Link) {
    k in m && m[k] == l
  }

  /** Link before, and after, place `i` of a list. */
  ghost function Before(order: seq<Key>, i: int): Link {
    if 0 < i <= |order| then To(order[i - 1]) else Null
  }

  ghost function After(order: seq<Key>, i: int): Link {
    if 0 <= i + 1 < |order| then To(order[i + 1]) else Null
  }

  /** The links spell out `order` from head to tail. */
  ghost predicate Linked(order: seq<Key>, head: Link, tail: Link, prev: map<Key, Link>, next: map<Key, Link>) {
    && Distinct(order)
    && head == After(order, -1) && tail == Before(order, |order|)
    && (forall i {:trigger Before(order, i)} :: 0 <= i < |order| ==> At(prev, order[i], Before(order, i)))
    && (forall i {:trigger After(order, i)} :: 0 <= i < |order| ==> At(next, order[i], After(order, i)))
  }

  lemma WithoutLinked(order: seq<Key>, head: Link, tail: Link, prev: map<Key, Link>, next: map<Key, Link>, i: nat,
                      head': Link, tail': Link, prev': map<Key, Link>, next': map<Key, Link>)
    requires Linked(order, head, tail, prev, next) && i < |order|
    requires var p, n := Before(order, i), After(order, i);
      && head' == (if p.Null? then n else head) && tail' == (if n.Null? then p else tail)
      && next' == (if p.To? then next[p.key := n] else next)[order[i] := Null]
      && prev' == (if n.To? then prev[n.key := p] else prev)[order[i] := Null]
    ensures Linked(Without(order, i), head', tail', prev', next')
  {
    var t := Without(order, i);
    assert Distinct(t) by {
      forall x, y | 0 <= x < y < |t| ensures t[x] != t[y] {
        assert t[x] == order[if x < i then x else x + 1] && t[y] == order[if y < i then y else y + 1];
      }
    }
    forall x | 0 <= x < |t| ensures At(prev', t[x], Before(t, x)) && At(next', t[x], After(t, x)) {
      var y := if x < i then x else x + 1;
      assert t[x] == order[y];
      assert At(prev, order[y], Before(order, y)) && At(next, order[y], After(order, y));
    }
  }

  lemma HeadLinked(order: seq<Key>, head: Link, tail: Link, prev: map<Key, Link>, next: map<Key, Link>, k: Key,
                   tail': Link, prev': map<Key, Link>, next': map<Key, Link>)
    requires Linked(order, head, tail, prev, next) && k !in order
    requires tail' == if head.To? then tail else To(k)
    requires next' == next[k := head]
    requires prev' == if head.To? then prev[k := Null][head.key := To(k)] else prev[k := Null]
    ensures Linked([k] + order, To(k), tail', prev', next')
  {
    var t := [k] + order;
    forall x | 0 <= x < |t| ensures At(prev', t[x], Before(t, x)) && At(next', t[x], After(t, x)) {
      if x > 0 {
        assert t[x] == order[x - 1];
        assert At(prev, order[x - 1], Before(order, x - 1)) && At(next, order[x - 1], After(order, x - 1));
      }
    }
  }

  /** The map and the list hold the same entries, each once. */
  ghost predicate Matches(pages: map<Key, nat>, order: seq<Key>) {
    |pages| == |order| && forall k {:trigger k in pages} :: k in pages <==> k in order
  }

  lemma Place(order: seq<Key>, key: Key) returns (i: nat)
    requires key in order
    ensures i < |order| && order[i] == key
  {
    i :| i < |order| && order[i] == key;
  }

  lemma WithoutMembers(order: seq<Key>, i: nat)
    requires Distinct(order) && i < |order|
    ensures forall k :: k in Without(order, i) <==> k in order && k != order[i]
  {
  }

  lemma DetachMatches(pages: map<Key, nat>, order: seq<Key>, i: nat)
    requires Matches(pages, order) && Distinct(order) && i < |order|
    ensures Matches(pages - {order[i]}, Without(order, i))
  {
  }

  /** A list cut in two. */
  ghost predicate Splits<T>(front: seq<T>, back: seq<T>, all: seq<T>) {
    |front| + |back| == |all| && front + back == all
  }

  lemma SplitsNone<T>(all: seq<T>)
    ensures Splits(all, [], all)
  {
  }

  lemma SplitsMore<T>(front: seq<T>, x: T, back: seq<T>, mid: seq<T>, all: seq<T>)
    requires Splits(front, [x], mid) && Splits(mid, back, all)
    ensures Splits(front, [x] + back, all)
  {
  }

  // ----- entries that left ---------------------------------------------------------------------

  /** An entry taken out of the shard; it owns a reference to its page until that is given back. */
  datatype Entry = Entry(key: Key, page: nat)

  ghost function Keys(garbage: seq<Entry>): (ks: seq<Key>)
    ensures |ks| == |garbage|
  {
    if garbage == [] then [] else [garbage[0].key] + Keys(garbage[1..])
  }

  /** The references the entries own. */
  ghost function Refs(garbage: seq<Entry>): multiset<nat> {
    if garbage == [] then multiset{} else multiset{garbage[0].page} + Refs(garbage[1..])
  }

  lemma AddGarbage(e: Entry, garbage: seq<Entry>)
    ensures Keys([e] + garbage) == [e.key] + Keys(garbage) && Refs([e] + garbage) == multiset{e.page} + Refs(garbage)
  {
    assert ([e] + garbage)[1..] == garbage;
  }

  /** One reference for each entry of the map, to its page. */
  ghost predicate OwnsPages(owned: multiset<nat>, pages: map<Key, nat>) {
    forall p: nat {:trigger owned[p]} :: owned[p] == Frames.Count(pages, p)
  }

  lemma OwnsLess(owned: multiset<nat>, pages: map<Key, nat>, k: Key)
    requires OwnsPages(owned, pages) && k in pages
    ensures OwnsPages(owned - multiset{pages[k]}, pages - {k}) && pages[k] in owned
  {
    forall p: nat ensures Frames.Count(pages, p) == Frames.Count(pages - {k}, p) + if pages[k] == p then 1 else 0 {
      Frames.CountDrop(pages, k, p);
    }
    assert owned[pages[k]] > 0;
  }

  lemma OwnsMore(owned: multiset<nat>, pages: map<Key, nat>, k: Key, page: nat)
    requires OwnsPages(owned, pages) && k !in pages
    ensures OwnsPages(owned + multiset{page}, pages[k := page])
  {
    forall p: nat ensures Frames.Count(pages[k := page], p) == Frames.Count(pages, p) + if p == page then 1 else 0 {
      Frames.CountPut(pages, k, page, p);
    }
  }

  class PageShard {
    var pages: map<Key, nat>
    var lruHead: Link
    var lruTail: Link
    var lruPrev: map<Key, Link>
    var lruNext: map<Key, Link>
    ghost var order: seq<Key>
    ghost var owned: multiset<nat>

    ghost predicate ListOk()
      reads this
    {
      Linked(order, lruHead, lruTail, lruPrev, lruNext)
    }

    ghost predicate Valid()
      reads this
    {
      ListOk() && Matches(pages, order) && OwnsPages(owned, pages)
    }

    constructor ()
      ensures Valid() && order == [] && pages == map[] && owned == multiset{}
    {
      owned := multiset{};
      pages, lruHead, lruTail, order := map[], Null, Null, [];
      lruPrev, lruNext := map[], map[];
    }

    method LruRemove(entry: Key, ghost i: nat)
      requires ListOk() && i < |order| && order[i] == entry
      modifies this`lruHead, this`lruTail, this`lruPrev, this`lruNext, this`order
      ensures ListOk() && order == Without(old(order), i)
    {
      assert At(lruPrev, order[i], Before(order, i)) && At(lruNext, order[i], After(order, i));
      var p, n := lruPrev[entry], lruNext[entry];
      if p.To? {
        lruNext := lruNext[p.key := n];
      } else {
        lruHead := n;
      }
      if n.To? {
        lruPrev := lruPrev[n.key := p];
      } else {
        lruTail := p;
      }
      lruPrev := lruPrev[entry := Null];
      lruNext := lruNext[entry := Null];
      WithoutLinked(order, old(lruHead), old(lruTail), old(lruPrev), old(lruNext), i, lruHead, lruTail, lruPrev,
          lruNext);
      order := Without(order, i);
    }

    method LruInsertHead(entry: Key)
      requires ListOk() && entry !in order
      modifies this`lruHead, this`lruTail, this`lruPrev, this`lruNext, this`order
      ensures ListOk() && order == [entry] + old(order)
    {
      lruPrev := lruPrev[entry := Null];
      lruNext := lruNext[entry := lruHead];
      if lruHead.To? {
        lruPrev := lruPrev[lruHead.key := To(entry)];
      } else {
        lruTail := To(entry);
      }
      HeadLinked(order, lruHead, old(lruTail), old(lruPrev), old(lruNext), entry, lruTail, lruPrev, lruNext);
      lruHead := To(entry);
      order := [entry] + order;
    }

    /** Moves an entry to the front; the others keep their order. */
    method LruTouch(entry: Key, ghost i: nat)
      requires Valid() && i < |order| && order[i] == entry
      modifies this`lruHead, this`lruTail, this`lruPrev, this`lruNext, this`order
      ensures Valid() && order == [entry] + Without(old(order), i)
    {
      WithoutMembers(order, i);
      if lruHead == To(entry) {
        assert i == 0;
        assert order == [entry] + Without(order, 0);
        return;
      }
      LruRemove(entry, i);
      LruInsertHead(entry);
    }

    /** Takes an entry out of the list and the map and puts it on the garbage list, with its reference. */
    method DetachEntry(entry: Key, ghost i: nat, garbage: seq<Entry>) returns (garbage': seq<Entry>)
      requires Valid() && i < |order| && order[i] == entry
      modifies this
      ensures Valid() && order == Without(old(order), i) && pages == old(pages) - {entry}
      ensures entry in old(pages) && garbage' == [Entry(entry, old(pages)[entry])] + garbage
      ensures old(owned) + Refs(garbage) == owned + Refs(garbage') && Keys(garbage') == [entry] + Keys(garbage)
    {
      var e := Entry(entry, pages[entry]);
      DetachMatches(pages, order, i);
      OwnsLess(owned, pages, entry);
      AddGarbage(e, garbage);
      LruRemove(entry, i);
      pages := pages - {entry};
      owned := owned - multiset{e.page};
      garbage' := [e] + garbage;
    }

    /** Takes out the entry used longest ago. */
    method DetachTail(garbage: seq<Entry>) returns (garbage': seq<Entry>, ghost tail: Key)
      requires Valid() && lruTail.To?
      modifies this
      ensures Valid() && pages == old(pages) - {tail} && |garbage'| == |garbage| + 1
      ensures Splits(order, [tail], old(order)) && Keys(garbage') == [tail] + Keys(garbage)
      ensures old(owned) + Refs(garbage) == owned + Refs(garbage')
    {
      tail := lruTail.key;
      garbage' := DetachEntry(lruTail.key, |order| - 1, garbage);
    }

    /** Drops entries from the tail until the shard is within its capacity. The garbage lists the
        entries whose reference the cache gives back. */
    method TrimShard(capacity: nat) returns (garbage: seq<Entry>)
      requires Valid()
      modifies this
      ensures Valid() && Splits(order, Keys(garbage), old(order)) && old(owned) == owned + Refs(garbage)
      ensures |order| == if capacity != 0 && |old(order)| > capacity then capacity else |old(order)|
      ensures forall k :: k in pages ==> k in old(pages) && pages[k] == old(pages)[k]
    {
      garbage := [];
      ghost var all := order;
      SplitsNone(all);
      while capacity != 0 && |pages| > capacity && lruTail.To?
        invariant Valid() && Splits(order, Keys(garbage), all) && old(owned) == owned + Refs(garbage)
        invariant |garbage| > 0 ==> capacity != 0 && |order| >= capacity
        invariant forall k :: k in pages ==> k in old(pages) && pages[k] == old(pages)[k]
        decreases |order|
      {
        ghost var before, keys := order, Keys(garbage);
        ghost var tail;
        garbage, tail := DetachTail(garbage);
        SplitsMore(order, tail, keys, before, all);
      }
    }

    /** The critical section that publishes a page nobody published first. The new entry is at the
        front and takes over the reference, the shard is within its capacity (0 is no limit), and every
        entry that left is in the garbage. */
    method Publish(key: Key, page: nat, capacity: nat) returns (garbage: seq<Entry>)
      requires Valid() && key !in pages
      modifies this
      ensures Valid() && key in pages && pages[key] == page
      ensures |pages| == if capacity == 0 || |old(pages)| < capacity then |old(pages)| + 1 else capacity
      ensures order != [] && order[0] == key && Splits(order, Keys(garbage), [key] + old(order))
      ensures forall k :: k in pages && k != key ==> k in old(pages) && pages[k] == old(pages)[k]
      ensures old(owned) + multiset{page} == owned + Refs(garbage)
    {
      OwnsMore(owned, pages, key, page);
      LruInsertHead(key);
      pages := pages[key := page];
      owned := owned + multiset{page};
      garbage := TrimShard(capacity);
      assert order[0] == (order + Keys(garbage))[0];
    }

    /** Removes from the tail while there is an entry and the limit is not reached; one shard's part
        of a reclaim round takes at most four. */
    method ReclaimTail(limit: nat) returns (garbage: seq<Entry>)
      requires Valid()
      modifies this
      ensures Valid() && Splits(order, Keys(garbage), old(order)) && old(owned) == owned + Refs(garbage)
      ensures |garbage| == if |old(order)| < limit then |old(order)| else limit
    {
      garbage := [];
      ghost var all := order;
      SplitsNone(all);
      while lruTail.To? && |garbage| < limit
        invariant Valid() && Splits(order, Keys(garbage), all) && |garbage| <= limit
        invariant old(owned) == owned + Refs(garbage)
        decreases |order|
      {
        ghost var before, keys := order, Keys(garbage);
        ghost var tail;
        garbage, tail := DetachTail(garbage);
        SplitsMore(order, tail, keys, before, all);
      }
    }

    /** Per-page invalidation looks a key up and detaches it if present. */
    method DetachKey(key: Key, garbage: seq<Entry>) returns (garbage': seq<Entry>)
      requires Valid()
      modifies this
      ensures Valid() && pages == old(pages) - {key} && order == Remaining(old(order), {key})
      ensures garbage' == (if key in old(pages) then [Entry(key, old(pages)[key])] else []) + garbage
      ensures old(owned) + Refs(garbage) == owned + Refs(garbage')
    {
      garbage' := garbage;
      if key in pages {
        ghost var i := Place(order, key);
        WithoutIsRemaining(order, i);
        garbage' := DetachEntry(key, i, garbage);
      } else {
        RemainingAbsent(order, key);
        assert pages - {key} == pages;
      }
    }

    /** Full-scan invalidation of one shard, in whatever order the map yields its keys: exactly the
        selected pages of the file leave, the others keep their order, and the garbage grows by exactly
        the entries that left. */
    method DetachMatching(file: FileId, r: InvalidationRange, garbage: seq<Entry>)
      returns (garbage': seq<Entry>, ghost gone: set<Key>)
      requires Valid()
      modifies this
      ensures Valid() && Scanned(old(pages).Keys, {}, gone, file, r)
      ensures pages == old(pages) - gone && order == Remaining(old(order), gone)
      ensures old(owned) + Refs(garbage) == owned + Refs(garbage') && |garbage'| == |gone| + |garbage|
    {
      garbage', gone := garbage, {};
      RemainingNone(order);
      ghost var pages0, order0 := pages, order;
      var todo := pages.Keys;
      while todo != {}
        invariant Valid() && Scanned(pages0.Keys, todo, gone, file, r) && todo <= pages0.Keys
        invariant pages == pages0 - gone && order == Remaining(order0, gone)
        invariant old(owned) + Refs(garbage) == owned + Refs(garbage') && |garbage'| == |gone| + |garbage|
        decreases todo
      {
        var k :| k in todo;
        if k.file == file && Selects(r, k.page) {
          RemainingTwice(order0, gone, k);
          RemoveTwice(pages0, gone, k);
          garbage' := DetachKey(k, garbage');
          gone := gone + {k};
        }
        todo := todo - {k};
      }
    }
  }

  // ----- the two invalidation strategies -------------------------------------------------------

  /** The per-page strategy over the whole cache: `n` lookups from page `start` on. */
  ghost function DetachPages(cache: map<Key, seq<byte>>, file: FileId, start: nat, n: nat): map<Key, seq<byte>> {
    if n == 0 then cache else DetachPages(cache, file, start, n - 1) - {Key(file, start + n - 1)}
  }

  lemma {:induction false} DetachPagesScan(cache: map<Key, seq<byte>>, file: FileId, start: nat, n: nat)
    ensures DetachPages(cache, file, start, n) == Detach(cache, file, InvalidationRange(false, start, n))
  {
    if n > 0 {
      DetachPagesScan(cache, file, start, n - 1);
    }
  }

  /** Both strategies leave the same cache: the entries of other files and the pages of this file
      that miss the range. The last page of the byte space stays too when the range is not one that
      selects every page it meets. */
  lemma StrategiesAgree(cache: map<Key, seq<byte>>, file: FileId, offset: nat, length: nat)
    requires RangeFits(offset, length) && forall k :: k in cache ==> k.page < PAGES
    requires !MakeInvalidationRange(offset, length).all
    ensures var r := MakeInvalidationRange(offset, length);
      && DetachPages(cache, file, r.startPage, r.pageCount) == Detach(cache, file, r)
      && forall k :: k in Detach(cache, file, r) <==>
           k in cache && !(k.file == file && Meets(k.page, offset, length)
                           && (k.page < PAGES - 1 || RangeOk(offset, length)))
  {
    var r := MakeInvalidationRange(offset, length);
    DetachPagesScan(cache, file, r.startPage, r.pageCount);
    forall k | k in cache && k.file == file && Selects(r, k.page) ensures Meets(k.page, offset, length) {
      SelectsOnlyMet(offset, length, k.page);
    }
    SelectsAllMet(offset, length);
  }
}
