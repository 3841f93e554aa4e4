/** Page references of the file-page cache: every entry owns one reference to its page, on every path by
    which pages enter and leave a shard. */
module CacheRefs {
  import opened CacheRange
  import opened PageCache
  import opened CacheShard
  import Frames

  ghost function Ref(refs: map<nat, nat>, page: nat): nat {
    if page in refs then refs[page] else 0
  }

  /** The count of a page is the entries that name it and the references owned elsewhere. Page 0 is no
      page. */
  ghost predicate Accounted(refs: map<nat, nat>, owned: multiset<nat>, others: multiset<nat>) {
    forall p: nat {:trigger Ref(refs, p)} :: p != 0 ==> Ref(refs, p) == owned[p] + others[p]
  }

  lemma TakeReference(refs: map<nat, nat>, owned: multiset<nat>, others: multiset<nat>, page: nat)
    requires Accounted(refs, owned, others) && page in refs
    ensures Accounted(refs[page := refs[page] + 1], owned, others + multiset{page})
  {
    var refs' := refs[page := refs[page] + 1];
    forall p: nat | p != 0 ensures Ref(refs', p) == owned[p] + (others + multiset{page})[p] {
      assert Ref(refs, p) == owned[p] + others[p];
    }
  }

  lemma GiveReference(refs: map<nat, nat>, owned: multiset<nat>, others: multiset<nat>, page: nat)
    requires Accounted(refs, owned, others + multiset{page}) && page != 0
    ensures page in refs && refs[page] > 0 && Accounted(refs[page := refs[page] - 1], owned, others)
  {
    assert Ref(refs, page) == owned[page] + (others + multiset{page})[page];
    var refs' := refs[page := refs[page] - 1];
    forall p: nat | p != 0 ensures Ref(refs', p) == owned[p] + others[p] {
      assert Ref(refs, p) == owned[p] + (others + multiset{page})[p];
    }
  }

  /** A reference can change hands between the cache and the rest. */
  lemma PassReference(refs: map<nat, nat>, owned: multiset<nat>, others: multiset<nat>, page: nat)
    ensures Accounted(refs, owned + multiset{page}, others) <==> Accounted(refs, owned, others + multiset{page})
  {
    forall p: nat ensures (owned + multiset{page})[p] + others[p] == owned[p] + (others + multiset{page})[p] {
    }
  }

  lemma NoPage(refs: map<nat, nat>, owned: multiset<nat>, others: multiset<nat>)
    requires Accounted(refs, owned + multiset{0}, others)
    ensures Accounted(refs, owned, others)
  {
    forall p: nat | p != 0 ensures Ref(refs, p) == owned[p] + others[p] {
      assert Ref(refs, p) == (owned + multiset{0})[p] + others[p];
    }
  }

  ghost predicate GivesReference(refs: map<nat, nat>, page: nat) {
    page != 0 && 0 < Ref(refs, page) < Frames.MAX_REFS
  }

  ghost predicate InPages(file: FileId, start: nat, n: nat, k: Key) {
    k.file == file && start <= k.page < start + n
  }

  ghost function Outside(pages: map<Key, nat>, file: FileId, start: nat, n: nat): map<Key, nat> {
    map k | k in pages && !InPages(file, start, n, k) :: pages[k]
  }

  lemma OutsideMore(pages: map<Key, nat>, file: FileId, start: nat, n: nat)
    ensures Outside(pages, file, start, n + 1) == Outside(pages, file, start, n) - {Key(file, start + n)}
  {
    forall k ensures InPages(file, start, n + 1, k) <==> InPages(file, start, n, k) || k == Key(file, start + n) {
    }
  }

  /** The page is in under its key; of the others, some may have left. */
  ghost predicate PublishedOver(pages: map<Key, nat>, pages': map<Key, nat>, key: Key, page: nat) {
    key in pages' && pages'[key] == page && forall k :: k in pages' && k != key ==> k in pages && pages'[k] == pages[k]
  }

  datatype Outcome = Acquired(page: nat) | Failed

  class CachePages {
    const shard: PageShard
    var refs: map<nat, nat>
    ghost var others: multiset<nat>

    ghost predicate Valid()
      reads this, shard
    {
      shard.Valid() && Accounted(refs, shard.owned, others)
    }

    constructor (refs: map<nat, nat>, ghost others: multiset<nat>)
      requires Accounted(refs, multiset{}, others)
      ensures Valid() && fresh(shard) && shard.pages == map[] && this.refs == refs && this.others == others
    {
      shard := new PageShard();
      this.refs, this.others := refs, others;
    }

    /** Takes a reference for the caller. */
    method RetainCachePage(page: nat) returns (ok: bool)
      requires Valid()
      modifies this
      ensures Valid() && ok == GivesReference(old(refs), page)
      ensures others == old(others) + if ok then multiset{page} else multiset{}
    {
      ok := page != 0 && page in refs && 0 < refs[page] < Frames.MAX_REFS;
      if ok {
        TakeReference(refs, shard.owned, others, page);
        refs := refs[page := refs[page] + 1];
        others := others + multiset{page};
      }
    }

    /** Gives a reference back that is not the cache's. */
    method FreePage(page: nat)
      requires Valid() && page != 0 && page in others
      modifies this
      ensures Valid() && others == old(others) - multiset{page}
    {
      ghost var fewer := others - multiset{page};
      assert others == fewer + multiset{page};
      GiveReference(refs, shard.owned, fewer, page);
      refs := refs[page := refs[page] - 1];
      others := fewer;
    }

    /** Gives the references of detached entries back. */
    method ReleaseGarbage(garbage: seq<Entry>)
      requires shard.Valid() && Accounted(refs, shard.owned + Refs(garbage), others)
      modifies this`refs
      ensures Valid()
    {
      var rest := garbage;
      while rest != []
        invariant Accounted(refs, shard.owned + Refs(rest), others)
      {
        var page := rest[0].page;
        ghost var owned := shard.owned + Refs(rest[1..]);
        assert shard.owned + Refs(rest) == owned + multiset{page};
        if page != 0 {
          PassReference(refs, owned, others, page);
          GiveReference(refs, owned, others, page);
          refs := refs[page := refs[page] - 1];
        } else {
          NoPage(refs, owned, others);
        }
        rest := rest[1..];
      }
    }

    /** A hit: the entry moves to the front and the caller gets a reference. */
    method AcquireHit(key: Key) returns (r: Outcome)
      requires Valid() && key in shard.pages
      modifies this, shard
      ensures Valid() && shard.pages == old(shard.pages) && shard.order[..1] == [key]
      ensures r == (if GivesReference(old(refs), shard.pages[key]) then Acquired(shard.pages[key]) else Failed)
      ensures others == old(others) + if r.Failed? then multiset{} else multiset{r.page}
    {
      ghost var i := Place(shard.order, key);
      shard.LruTouch(key, i);
      var page := shard.pages[key];
      var ok := RetainCachePage(page);
      r := if ok then Acquired(page) else Failed;
    }

    /** The new entry takes over one reference to its page: one of two after a miss, the only one after a
        readahead. */
    method PublishRetained(key: Key, candidate: nat, capacity: nat, ghost rest: multiset<nat>)
      requires Valid() && others == rest + multiset{candidate} && key !in shard.pages
      modifies this, shard
      ensures Valid() && others == rest && PublishedOver(old(shard.pages), shard.pages, key, candidate)
      ensures shard.order[..1] == [key]
    {
      PassReference(refs, shard.owned, rest, candidate);
      var garbage := shard.Publish(key, candidate, capacity);
      others := rest;
      ReleaseGarbage(garbage);
    }

    /** Nobody published the key: the candidate's first reference becomes the cache's and the caller gets
        one of its own. */
    method PublishNew(key: Key, candidate: nat, capacity: nat) returns (r: Outcome)
      requires Valid() && candidate != 0 && candidate in others && key !in shard.pages
      modifies this, shard
      ensures Valid()
      ensures r == if Ref(old(refs), candidate) < Frames.MAX_REFS then Acquired(candidate) else Failed
      ensures if r.Acquired? then PublishedOver(old(shard.pages), shard.pages, key, candidate) && others == old(others)
              else shard.pages == old(shard.pages) && others == old(others) - multiset{candidate}
      ensures r.Acquired? ==> shard.order[..1] == [key]
    {
      assert Ref(refs, candidate) == shard.owned[candidate] + others[candidate];
      var ok := RetainCachePage(candidate);
      if !ok {
        FreePage(candidate);
        return Failed;
      }
      PublishRetained(key, candidate, capacity, old(others));
      r := Acquired(candidate);
    }

    /** The end of a miss: an entry published meanwhile wins and the candidate is given back. */
    method PublishCandidate(key: Key, candidate: nat, capacity: nat) returns (r: Outcome)
      requires Valid() && candidate != 0 && candidate in others
      modifies this, shard
      ensures Valid() && (r.Acquired? ==> key in shard.pages && shard.pages[key] == r.page && shard.order[..1] == [key])
      ensures key in old(shard.pages) ==>
                && shard.pages == old(shard.pages)
                && r == (if GivesReference(old(refs), shard.pages[key]) then Acquired(shard.pages[key]) else Failed)
                && others == old(others) + (if r.Failed? then multiset{} else multiset{r.page}) - multiset{candidate}
      ensures key !in old(shard.pages) ==>
                && r == (if Ref(old(refs), candidate) < Frames.MAX_REFS then Acquired(candidate) else Failed)
                && if r.Acquired?
                   then PublishedOver(old(shard.pages), shard.pages, key, candidate) && others == old(others)
                   else shard.pages == old(shard.pages) && others == old(others) - multiset{candidate}
    {
      if key in shard.pages {
        r := AcquireHit(key);
        FreePage(candidate);
      } else {
        r := PublishNew(key, candidate, capacity);
      }
    }

    /** One page read ahead: its only reference goes to the cache, or back when the key has an entry already. */
    method PublishReadahead(key: Key, candidate: nat, capacity: nat) returns (inserted: bool)
      requires Valid() && candidate != 0 && candidate in others
      modifies this, shard
      ensures Valid() && inserted == (key !in old(shard.pages)) && others == old(others) - multiset{candidate}
      ensures if inserted then PublishedOver(old(shard.pages), shard.pages, key, candidate) && shard.order[..1] == [key]
              else shard.pages == old(shard.pages) && shard.order == old(shard.order)
    {
      inserted := key !in shard.pages;
      if inserted {
        ghost var rest := others - multiset{candidate};
        assert others == rest + multiset{candidate};
        PublishRetained(key, candidate, capacity, rest);
      } else {
        FreePage(candidate);
      }
    }

    /** Invalidation by scanning the shard: the references of the selected pages, and no others, go back. */
    method InvalidateScan(file: FileId, range: InvalidationRange) returns (ghost gone: set<Key>)
      requires Valid()
      modifies this, shard
      ensures Valid() && others == old(others) && Scanned(old(shard.pages).Keys, {}, gone, file, range)
      ensures shard.pages == old(shard.pages) - gone
    {
      var garbage;
      garbage, gone := shard.DetachMatching(file, range, []);
      ReleaseGarbage(garbage);
    }

    /** Invalidation page by page: the same. */
    method InvalidatePages(file: FileId, start: nat, n: nat)
      requires Valid()
      modifies this, shard
      ensures Valid() && others == old(others)
      ensures shard.pages == Outside(old(shard.pages), file, start, n)
    {
      var garbage: seq<Entry> := [];
      ghost var pages := shard.pages;
      assert Outside(pages, file, start, 0) == pages;
      for i := 0 to n
        invariant shard.Valid() && others == old(others) && refs == old(refs)
        invariant old(shard.owned) == shard.owned + Refs(garbage)
        invariant shard.pages == Outside(pages, file, start, i)
      {
        OutsideMore(pages, file, start, i);
        garbage := shard.DetachKey(Key(file, start + i), garbage);
      }
      ReleaseGarbage(garbage);
    }

    /** Reclaim: the references of the entries used longest ago go back. */
    method Reclaim(limit: nat) returns (n: nat)
      requires Valid()
      modifies this, shard
      ensures Valid() && others == old(others)
      ensures n == if |old(shard.order)| < limit then |old(shard.order)| else limit
      ensures shard.order == old(shard.order)[..|old(shard.order)| - n]
    {
      var garbage := shard.ReclaimTail(limit);
      n := |garbage|;
      ReleaseGarbage(garbage);
    }
  }
}
