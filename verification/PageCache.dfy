/** The clean file-page cache as a step machine. Readers (page faults and readahead) fill a private
    buffer byte by byte while holding no lock, and publish it under the file's epoch lock only if the
    sequence they saw is unchanged and no writer is active. Writers bracket their changes with begin
    and end, each of which detaches the written pages and advances the sequence. One step is one
    critical section of the epoch lock, or one byte moved outside all locks; evictions, which take
    only a shard lock, may happen at any time. */
module PageCache {
  import opened CacheRange

  type byte = bv8

  /** A file, by its page-cache identity. */
  type FileId = nat

  datatype Key = Key(file: FileId, page: nat)

  /** `ticks` counts the advances of `sequence`; the code has only the latter. */
  datatype Epoch = Epoch(ticks: nat, sequence: nat, active: nat)

  /** A read in flight: `count` pages from page `first`, the bytes received so far, and the epoch
      it observed. */
  datatype Reader = Reader(file: FileId, first: nat, count: nat, ticks: nat, observed: nat, got: map<nat, byte>)

  datatype Writer = Writer(file: FileId, offset: nat, length: nat)

  datatype State = State(
    bytes: map<FileId, map<nat, byte>>,
    epochs: map<FileId, Epoch>,
    cache: map<Key, seq<byte>>,
    readers: map<nat, Reader>,
    writers: map<nat, Writer>)

  // ----- reading the state ---------------------------------------------------------------------

  /** A byte of a file; bytes past the end read as zero. */
  function ByteAt(s: State, file: FileId, at: nat): byte {
    if file in s.bytes && at in s.bytes[file] then s.bytes[file][at] else 0
  }

  /** The current bytes of a page of a file. */
  ghost function FilePage(s: State, file: FileId, page: nat): (p: seq<byte>)
    ensures |p| == PGSIZE && forall i :: 0 <= i < PGSIZE ==> p[i] == ByteAt(s, file, page * PGSIZE + i)
  {
    seq(PGSIZE, i requires 0 <= i < PGSIZE => ByteAt(s, file, page * PGSIZE + i))
  }

  function EpochOf(s: State, file: FileId): Epoch {
    if file in s.epochs then s.epochs[file] else Epoch(0, 1, 0)
  }

  ghost function ActiveWriters(s: State, file: FileId): set<nat> {
    set w | w in s.writers && s.writers[w].file == file
  }

  function Tick(e: Epoch): Epoch {
    Epoch(e.ticks + 1, Advance(e.sequence), e.active)
  }

  ghost function Detach(cache: map<Key, seq<byte>>, file: FileId, r: InvalidationRange): map<Key, seq<byte>> {
    map k | k in cache && !(k.file == file && Selects(r, k.page)) :: cache[k]
  }

  ghost function Evict(cache: map<Key, seq<byte>>, evicted: set<Key>): map<Key, seq<byte>> {
    map k | k in cache && k !in evicted :: cache[k]
  }

  /** Where byte `i` of page `page` lands in the reader's buffer. */
  function Slot(r: Reader, page: nat, i: nat): int {
    (page - r.first) * PGSIZE + i
  }

  /** All bytes of page `page` have been received. */
  ghost predicate Complete(r: Reader, page: nat) {
    && r.first <= page < r.first + r.count
    && forall i: nat :: i < PGSIZE ==> Slot(r, page, i) in r.got
  }

  ghost function Candidate(r: Reader, page: nat): (p: seq<byte>)
    requires Complete(r, page)
    ensures |p| == PGSIZE && forall i :: 0 <= i < PGSIZE ==> p[i] == r.got[Slot(r, page, i)]
  {
    seq(PGSIZE, i requires 0 <= i < PGSIZE => r.got[Slot(r, page, i)])
  }

  // ----- steps ---------------------------------------------------------------------------------

  datatype Action =
    | Observe(r: nat, file: FileId, first: nat, count: nat)
    | Receive(r: nat, at: nat)
    | Publish(r: nat, page: nat, evicted: set<Key>)
    | Abandon(r: nat)
    | Hit(file: FileId, page: nat)
    | BeginMutation(w: nat, file: FileId, offset: nat, length: nat)
    | Write(w: nat, at: nat, value: byte)
    | EndMutation(w: nat)
    | Invalidate(file: FileId, offset: nat, length: nat)
    | Reclaim(evicted: set<Key>)

  ghost predicate RangeFits(offset: nat, length: nat) {
    offset <= UINT64_MAX && 0 < length <= UINT64_MAX
  }

  /** When a step may happen. Publishing compares the 64-bit sequence; the last conjunct is the
      standing assumption that it does not come full circle during one read. */
  ghost predicate Enabled(s: State, a: Action) {
    match a
    case Observe(r, file, first, count) => r !in s.readers && EpochOf(s, file).active == 0 && first + count <= PAGES
    case Receive(r, at) => r in s.readers && at < s.readers[r].count * PGSIZE
    case Publish(r, page, evicted) =>
      && r in s.readers && Complete(s.readers[r], page)
      && Key(s.readers[r].file, page) !in evicted
      && EpochOf(s, s.readers[r].file).active == 0
      && EpochOf(s, s.readers[r].file).sequence == s.readers[r].observed
      && EpochOf(s, s.readers[r].file).ticks - s.readers[r].ticks < UINT64_MAX
    case Abandon(r) => r in s.readers
    case Hit(file, page) => EpochOf(s, file).active == 0 && Key(file, page) in s.cache
    case BeginMutation(w, file, offset, length) => w !in s.writers && RangeFits(offset, length)
    case Write(w, at, value) => w in s.writers && s.writers[w].offset <= at < s.writers[w].offset + s.writers[w].length
        && at <= UINT64_MAX
    case EndMutation(w) => w in s.writers
    case Invalidate(file, offset, length) => offset <= UINT64_MAX && 0 < length <= UINT64_MAX
    case Reclaim(evicted) => true
  }

  ghost function Step(s: State, a: Action): State
    requires Enabled(s, a)
  {
    match a
    case Observe(r, file, first, count) =>
      var e := EpochOf(s, file);
      s.(epochs := s.epochs[file := e],
          readers := s.readers[r := Reader(file, first, count, e.ticks, e.sequence, map[])])
    case Receive(r, at) =>
      var d := s.readers[r];
      s.(readers := s.readers[r := d.(got := d.got[at := ByteAt(s, d.file, d.first * PGSIZE + at)])])
    case Publish(r, page, evicted) =>
      var d := s.readers[r];
      var key := Key(d.file, page);
      if key in s.cache then s
      else s.(cache := Evict(s.cache[key := Candidate(d, page)], evicted))
    case Abandon(r) => s.(readers := s.readers - {r})
    case Hit(file, page) => s
    case BeginMutation(w, file, offset, length) =>
      var e := Tick(EpochOf(s, file));
      s.(epochs := s.epochs[file := e.(active := e.active + 1)],
         cache := Detach(s.cache, file, MakeInvalidationRange(offset, length)),
         writers := s.writers[w := Writer(file, offset, length)])
    case Write(w, at, value) =>
      var file := s.writers[w].file;
      s.(bytes := s.bytes[file := (if file in s.bytes then s.bytes[file] else map[])[at := value]])
    case EndMutation(w) =>
      var d := s.writers[w];
      var e := Tick(EpochOf(s, d.file));
      s.(epochs := s.epochs[d.file := e.(active := if e.active > 0 then e.active - 1 else 0)],
         cache := if d.offset <= UINT64_MAX && d.length <= UINT64_MAX
                  then Detach(s.cache, d.file, MakeInvalidationRange(d.offset, d.length)) else s.cache,
         writers := s.writers - {w})
    case Invalidate(file, offset, length) =>
      if file !in s.epochs then s
      else s.(epochs := s.epochs[file := Tick(s.epochs[file])],
              cache := Detach(s.cache, file, MakeInvalidationRange(offset, length)))
    case Reclaim(evicted) => s.(cache := Evict(s.cache, evicted))
  }

  // ----- the invariant -------------------------------------------------------------------------

  /** A writer that announces a range whose last page its invalidation does not select. */
  ghost predicate MissesLast(a: Action, file: FileId) {
    a.BeginMutation? && a.file == file && !RangeOk(a.offset, a.length)
  }

  /** The pages no writer of the `lost` files can miss. */
  ghost predicate Safe(k: Key, lost: set<FileId>) {
    k.page < PAGES - 1 || k.file !in lost
  }

  /** Every such cached page equals the file's current bytes. */
  ghost predicate Coherent(s: State, lost: set<FileId>) {
    forall k :: k in s.cache && Safe(k, lost) ==> s.cache[k] == FilePage(s, k.file, k.page)
  }

  ghost predicate WriterOk(d: Writer, lost: set<FileId>) {
    RangeFits(d.offset, d.length) && (RangeOk(d.offset, d.length) || d.file in lost)
  }

  /** No such page of an active writer's range is cached. */
  ghost predicate Gated(s: State, lost: set<FileId>) {
    && (forall k :: k in s.cache ==> k.page < PAGES)
    && (forall w :: w in s.writers ==> WriterOk(s.writers[w], lost))
    && (forall w, k :: w in s.writers && k in s.cache && Safe(k, lost) && k.file == s.writers[w].file ==>
          !Meets(k.page, s.writers[w].offset, s.writers[w].length))
  }

  /** The gate counts the active writers, and the sequence is the number of ticks. */
  ghost predicate Counted(s: State) {
    forall file :: EpochOf(s, file).active == |ActiveWriters(s, file)|
                && EpochOf(s, file).sequence == SequenceAt(EpochOf(s, file).ticks)
  }

  /** What a reader received is what the file holds, as long as its epoch has not passed. */
  ghost predicate FreshReader(s: State, d: Reader) {
    var e := EpochOf(s, d.file);
    && d.first + d.count <= PAGES
    && d.ticks <= e.ticks && d.observed == SequenceAt(d.ticks)
    && (d.ticks == e.ticks ==>
          e.active == 0 && forall at :: at in d.got ==> d.got[at] == ByteAt(s, d.file, d.first * PGSIZE + at))
  }

  ghost predicate FreshReaders(s: State) {
    forall r :: r in s.readers ==> FreshReader(s, s.readers[r])
  }

  ghost predicate Inv(s: State, lost: set<FileId>) {
    Coherent(s, lost) && Gated(s, lost) && Counted(s) && FreshReaders(s)
  }

  // ----- every step keeps it -------------------------------------------------------------------

  lemma CoherentFrame(s: State, t: State, lost: set<FileId>)
    requires Coherent(s, lost) && t.bytes == s.bytes
    requires forall k :: k in t.cache ==> k in s.cache && t.cache[k] == s.cache[k]
    ensures Coherent(t, lost)
  {
  }

  lemma CountedFrame(s: State, t: State)
    requires Counted(s) && t.writers == s.writers
    requires forall f :: EpochOf(t, f) == EpochOf(s, f)
    ensures Counted(t)
  {
  }

  /** One file's epoch advances and its writers change; its count follows. */
  lemma CountedTick(s: State, t: State, file: FileId)
    requires Counted(s)
    requires forall f :: f != file ==> EpochOf(t, f) == EpochOf(s, f) && ActiveWriters(t, f) == ActiveWriters(s, f)
    requires EpochOf(t, file).ticks == EpochOf(s, file).ticks + 1
    requires EpochOf(t, file).sequence == Advance(EpochOf(s, file).sequence)
    requires EpochOf(t, file).active == |ActiveWriters(t, file)|
    ensures Counted(t)
  {
    AdvanceTicks(EpochOf(s, file).ticks);
    assert EpochOf(s, file).sequence == SequenceAt(EpochOf(s, file).ticks);
  }

  lemma FreshFrame(s: State, t: State)
    requires FreshReaders(s) && t.bytes == s.bytes
    requires forall f :: EpochOf(t, f) == EpochOf(s, f)
    requires forall r :: r in t.readers ==> r in s.readers && t.readers[r] == s.readers[r]
    ensures FreshReaders(t)
  {
  }

  lemma ObserveKeeps(s: State, r: nat, file: FileId, first: nat, count: nat, lost: set<FileId>)
    requires Inv(s, lost) && Enabled(s, Observe(r, file, first, count))
    ensures Inv(Step(s, Observe(r, file, first, count)), lost)
  {
    var t := Step(s, Observe(r, file, first, count));
    CoherentFrame(s, t, lost);
    CountedFrame(s, t);
    forall x | x in t.readers ensures FreshReader(t, t.readers[x]) {
      if x != r {
        assert FreshReader(s, s.readers[x]);
      }
    }
  }

  lemma ReceiveKeeps(s: State, r: nat, at: nat, lost: set<FileId>)
    requires Inv(s, lost) && Enabled(s, Receive(r, at))
    ensures Inv(Step(s, Receive(r, at)), lost)
  {
    var t := Step(s, Receive(r, at));
    CoherentFrame(s, t, lost);
    CountedFrame(s, t);
    forall x | x in t.readers ensures FreshReader(t, t.readers[x]) {
      ReceiveFresh(s, r, at, x);
    }
  }

  lemma ReceiveFresh(s: State, r: nat, at: nat, x: nat)
    requires FreshReaders(s) && Enabled(s, Receive(r, at)) && x in s.readers
    ensures var t := Step(s, Receive(r, at)); x in t.readers && FreshReader(t, t.readers[x])
  {
    assert FreshReader(s, s.readers[x]);
  }

  /** The heart of the protocol: a candidate whose sequence still matches holds the file's bytes. */
  lemma CandidateExact(s: State, r: nat, page: nat, evicted: set<Key>, lost: set<FileId>)
    requires Inv(s, lost) && Enabled(s, Publish(r, page, evicted))
    ensures Candidate(s.readers[r], page) == FilePage(s, s.readers[r].file, page)
    ensures page < PAGES
  {
    var d := s.readers[r];
    var e := EpochOf(s, d.file);
    assert FreshReader(s, d);
    SequenceAliases(d.ticks, e.ticks);
    forall i | 0 <= i < PGSIZE ensures Candidate(d, page)[i] == FilePage(s, d.file, page)[i] {
      assert d.first * PGSIZE + Slot(d, page, i) == page * PGSIZE + i;
    }
  }

  lemma PublishKeeps(s: State, r: nat, page: nat, evicted: set<Key>, lost: set<FileId>)
    requires Inv(s, lost) && Enabled(s, Publish(r, page, evicted))
    ensures Inv(Step(s, Publish(r, page, evicted)), lost)
  {
    var d := s.readers[r];
    var t := Step(s, Publish(r, page, evicted));
    CandidateExact(s, r, page, evicted, lost);
    NoWriters(s, d.file);
    CountedFrame(s, t);
    FreshFrame(s, t);
    PublishCoherent(s, t, Key(d.file, page), lost);
  }

  lemma PublishCoherent(s: State, t: State, key: Key, lost: set<FileId>)
    requires Coherent(s, lost) && t.bytes == s.bytes
    requires forall k :: k in t.cache ==> if k == key && k !in s.cache then t.cache[k] == FilePage(s, k.file, k.page)
                                          else k in s.cache && t.cache[k] == s.cache[k]
    ensures Coherent(t, lost)
  {
    forall k | k in t.cache && Safe(k, lost) ensures t.cache[k] == FilePage(t, k.file, k.page) {
      assert FilePage(t, k.file, k.page) == FilePage(s, k.file, k.page);
    }
  }

  lemma NoWriters(s: State, file: FileId)
    requires Counted(s) && EpochOf(s, file).active == 0
    ensures forall w :: w in s.writers ==> s.writers[w].file != file
  {
    forall w | w in s.writers ensures s.writers[w].file != file {
      assert ActiveWriters(s, file) == {};
      assert w !in ActiveWriters(s, file);
    }
  }

  lemma EvictKeeps(s: State, evicted: set<Key>, lost: set<FileId>)
    requires Inv(s, lost)
    ensures Inv(Step(s, Reclaim(evicted)), lost)
  {
    var t := Step(s, Reclaim(evicted));
    CoherentFrame(s, t, lost);
    CountedFrame(s, t);
    FreshFrame(s, t);
  }

  lemma AbandonKeeps(s: State, r: nat, lost: set<FileId>)
    requires Inv(s, lost) && r in s.readers
    ensures Inv(Step(s, Abandon(r)), lost)
  {
    var t := Step(s, Abandon(r));
    CoherentFrame(s, t, lost);
    CountedFrame(s, t);
    FreshFrame(s, t);
  }

  /** Advancing a file's epoch, with its count changed at will, keeps readers fresh: those of that
      file are no longer current. */
  lemma TickKeepsReaders(s: State, t: State, file: FileId)
    requires FreshReaders(s) && t.readers == s.readers && t.bytes == s.bytes
    requires forall f :: f != file ==> EpochOf(t, f) == EpochOf(s, f)
    requires EpochOf(t, file).ticks == EpochOf(s, file).ticks + 1
    ensures FreshReaders(t)
  {
  }

  /** Detaching the range of a new writer leaves no page of it in the cache. */
  lemma BeginGates(s: State, t: State, w: nat, file: FileId, offset: nat, length: nat, lost: set<FileId>)
    requires Gated(s, lost) && WriterOk(Writer(file, offset, length), lost)
    requires t.cache == Detach(s.cache, file, MakeInvalidationRange(offset, length))
    requires t.writers == s.writers[w := Writer(file, offset, length)]
    ensures Gated(t, lost)
  {
  }

  lemma BeginKeeps(s: State, w: nat, file: FileId, offset: nat, length: nat, lost: set<FileId>)
    requires Inv(s, lost) && Enabled(s, BeginMutation(w, file, offset, length))
    requires MissesLast(BeginMutation(w, file, offset, length), file) ==> file in lost
    ensures Inv(Step(s, BeginMutation(w, file, offset, length)), lost)
  {
    var t := Step(s, BeginMutation(w, file, offset, length));
    CoherentFrame(s, t, lost);
    BeginGates(s, t, w, file, offset, length, lost);
    TickKeepsReaders(s, t, file);
    forall f | f != file ensures ActiveWriters(t, f) == ActiveWriters(s, f) {
    }
    assert ActiveWriters(t, file) == ActiveWriters(s, file) + {w};
    assert EpochOf(s, file).active == |ActiveWriters(s, file)|;
    CountedTick(s, t, file);
  }

  /** A written byte lies in no page that misses the writer's range. */
  lemma WriteMisses(at: nat, offset: nat, length: nat, page: nat)
    requires offset <= at < offset + length && !Meets(page, offset, length)
    ensures at < page * PGSIZE || page * PGSIZE + PGSIZE <= at
  {
  }

  lemma WriteKeeps(s: State, w: nat, at: nat, value: byte, lost: set<FileId>)
    requires Inv(s, lost) && Enabled(s, Write(w, at, value))
    ensures Inv(Step(s, Write(w, at, value)), lost)
  {
    var t := Step(s, Write(w, at, value));
    var d := s.writers[w];
    CountedFrame(s, t);
    forall f, x: nat ensures f != d.file || x != at ==> ByteAt(t, f, x) == ByteAt(s, f, x) {
    }
    forall k | k in t.cache && Safe(k, lost) ensures t.cache[k] == FilePage(t, k.file, k.page) {
      if k.file == d.file {
        WriteMisses(at, d.offset, d.length, k.page);
      }
      assert FilePage(t, k.file, k.page) == FilePage(s, k.file, k.page);
    }
    assert w in ActiveWriters(s, d.file);
    forall x | x in t.readers ensures FreshReader(t, t.readers[x]) {
      assert FreshReader(s, s.readers[x]);
    }
  }

  lemma EndKeeps(s: State, w: nat, lost: set<FileId>)
    requires Inv(s, lost) && Enabled(s, EndMutation(w))
    ensures Inv(Step(s, EndMutation(w)), lost)
  {
    var t := Step(s, EndMutation(w));
    var file := s.writers[w].file;
    CoherentFrame(s, t, lost);
    TickKeepsReaders(s, t, file);
    forall f | f != file ensures ActiveWriters(t, f) == ActiveWriters(s, f) {
    }
    assert w in ActiveWriters(s, file);
    assert ActiveWriters(t, file) == ActiveWriters(s, file) - {w};
    assert EpochOf(s, file).active == |ActiveWriters(s, file)|;
    CountedTick(s, t, file);
  }

  lemma InvalidateKeeps(s: State, file: FileId, offset: nat, length: nat, lost: set<FileId>)
    requires Inv(s, lost) && Enabled(s, Invalidate(file, offset, length))
    ensures Inv(Step(s, Invalidate(file, offset, length)), lost)
  {
    if file in s.epochs {
      var t := Step(s, Invalidate(file, offset, length));
      CoherentFrame(s, t, lost);
      TickKeepsReaders(s, t, file);
      forall f ensures ActiveWriters(t, f) == ActiveWriters(s, f) {
      }
      assert EpochOf(s, file).active == |ActiveWriters(s, file)|;
      CountedTick(s, t, file);
    }
  }

  /** `lost` holds the files of the writers whose invalidation misses the last page of the byte space. */
  lemma StepKeepsInv(s: State, a: Action, lost: set<FileId>)
    requires Inv(s, lost) && Enabled(s, a) && forall f :: MissesLast(a, f) ==> f in lost
    ensures Inv(Step(s, a), lost)
  {
    match a
    case Observe(r, file, first, count) => ObserveKeeps(s, r, file, first, count, lost);
    case Receive(r, at) => ReceiveKeeps(s, r, at, lost);
    case Publish(r, page, evicted) => PublishKeeps(s, r, page, evicted, lost);
    case Abandon(r) => AbandonKeeps(s, r, lost);
    case Hit(file, page) =>
    case BeginMutation(w, file, offset, length) => BeginKeeps(s, w, file, offset, length, lost);
    case Write(w, at, value) => WriteKeeps(s, w, at, value, lost);
    case EndMutation(w) => EndKeeps(s, w, lost);
    case Invalidate(file, offset, length) => InvalidateKeeps(s, file, offset, length, lost);
    case Reclaim(evicted) => EvictKeeps(s, evicted, lost);
  }

  // ----- whole runs ----------------------------------------------------------------------------

  /** The cache starts empty, whatever the files hold. */
  ghost predicate Init(s: State) {
    s.epochs == map[] && s.cache == map[] && s.readers == map[] && s.writers == map[]
  }

  /** `states` is a run that takes `actions` one after the other. */
  ghost predicate Run(states: seq<State>, actions: seq<Action>) {
    && |states| == |actions| + 1 && Init(states[0])
    && forall i :: 0 <= i < |actions| ==> Enabled(states[i], actions[i]) && states[i + 1] == Step(states[i], actions[i])
  }

  lemma {:induction false} RunKeepsInv(states: seq<State>, actions: seq<Action>, i: nat, lost: set<FileId>)
    requires Run(states, actions) && i < |states|
    requires forall j, f :: 0 <= j < i && MissesLast(actions[j], f) ==> f in lost
    ensures Inv(states[i], lost)
  {
    if i == 0 {
      forall f ensures ActiveWriters(states[0], f) == {} {
      }
    } else {
      RunKeepsInv(states, actions, i - 1, lost);
      StepKeepsInv(states[i - 1], actions[i - 1], lost);
    }
  }

  /** The files whose last page some writer has missed before step `i`. */
  ghost function Missed(actions: seq<Action>, i: nat): set<FileId>
    requires i <= |actions|
  {
    set j | 0 <= j < i && actions[j].BeginMutation? && MissesLast(actions[j], actions[j].file) :: actions[j].file
  }

  /** Over every interleaving of readers, readahead, writers and evictions, each cached page equals
      the file's current bytes for that page. The one exception is the last page of the byte space,
      after a writer has announced a range of that file that its invalidation does not cover. */
  lemma CacheAlwaysExact(states: seq<State>, actions: seq<Action>, i: nat, k: Key)
    requires Run(states, actions) && i < |states| && k in states[i].cache
    requires k.page == PAGES - 1 ==> forall j :: 0 <= j < i ==> !MissesLast(actions[j], k.file)
    ensures states[i].cache[k] == FilePage(states[i], k.file, k.page)
  {
    RunKeepsInv(states, actions, i, Missed(actions, i));
    assert Safe(k, Missed(actions, i));
  }

  /** And after any such announcement, with that page cached, some write it allows leaves the cache
      wrong. */
  lemma LastPageStale(s: State, w: nat, file: FileId, offset: nat, length: nat, lost: set<FileId>)
    returns (at: nat, value: byte)
    requires Inv(s, lost) && Enabled(s, BeginMutation(w, file, offset, length)) && Key(file, PAGES - 1) in s.cache
    requires MissesLast(BeginMutation(w, file, offset, length), file)
    ensures var t := Step(s, BeginMutation(w, file, offset, length));
      && Enabled(t, Write(w, at, value))
      && var (u, k) := (Step(t, Write(w, at, value)), Key(file, PAGES - 1));
         k in u.cache && u.cache[k] != FilePage(u, file, PAGES - 1)
  {
    at := (PAGES - 1) * PGSIZE;
    var k := Key(file, PAGES - 1);
    value := if |s.cache[k]| > 0 && s.cache[k][0] == 0 then 1 else 0;
    var u := Step(Step(s, BeginMutation(w, file, offset, length)), Write(w, at, value));
    assert u.cache[k] == s.cache[k] && FilePage(u, file, PAGES - 1)[0] == value;
  }

  /** A page handed out by a hit or by a publish is exact at that step. */
  lemma AcquiredExact(states: seq<State>, actions: seq<Action>, i: nat, k: Key)
    requires Run(states, actions) && i < |actions|
    requires k.page == PAGES - 1 ==> forall j :: 0 <= j < i ==> !MissesLast(actions[j], k.file)
    ensures actions[i].Hit? && k == Key(actions[i].file, actions[i].page) ==>
      k in states[i].cache && states[i].cache[k] == FilePage(states[i], k.file, k.page)
    ensures actions[i].Publish? && k == Key(states[i].readers[actions[i].r].file, actions[i].page) ==>
      k in states[i + 1].cache && states[i + 1].cache[k] == FilePage(states[i + 1], k.file, k.page)
  {
    if actions[i].Hit? && k == Key(actions[i].file, actions[i].page) {
      CacheAlwaysExact(states, actions, i, k);
    }
    if actions[i].Publish? && k == Key(states[i].readers[actions[i].r].file, actions[i].page) {
      CacheAlwaysExact(states, actions, i + 1, k);
    }
  }

  // ----- what the steps are good for -----------------------------------------------------------

  /** When a step may happen, told by the writers and by the ticks instead of the gate and the sequence:
      a read may begin and a page may be handed out while no writer of the file is active, and a page may
      be published once all of its bytes are there and as long as nothing has happened to the file since
      the read began. */
  lemma EnabledExactly(s: State, a: Action, lost: set<FileId>)
    requires Inv(s, lost)
    ensures match a
      case Observe(r, file, first, count) =>
        Enabled(s, a) <==> r !in s.readers && NoWriter(s, file) && first + count <= 0x10_0000_0000_0000
      case Hit(file, page) => Enabled(s, a) <==> NoWriter(s, file) && Key(file, page) in s.cache
      case Publish(r, page, evicted) =>
        r in s.readers && EpochOf(s, s.readers[r].file).ticks - s.readers[r].ticks < UINT64_MAX ==>
          var d := s.readers[r];
          (Enabled(s, a) <==> && d.first <= page < d.first + d.count && Key(d.file, page) !in evicted
                              && WholePage(d, page)
                              && d.ticks == EpochOf(s, d.file).ticks)
      case BeginMutation(w, file, offset, length) =>
        Enabled(s, a) <==> w !in s.writers && offset < 0x1_0000_0000_0000_0000 && 0 < length < 0x1_0000_0000_0000_0000
      case Write(w, at, value) =>
        Enabled(s, a) <==> w in s.writers && at < 0x1_0000_0000_0000_0000 && ByteOf(s.writers[w], at)
      case Invalidate(file, offset, length) =>
        Enabled(s, a) <==> offset < 0x1_0000_0000_0000_0000 && 0 < length < 0x1_0000_0000_0000_0000
      case Receive(r, at) => Enabled(s, a) <==> r in s.readers && at < s.readers[r].count * 4096
      case Abandon(r) => Enabled(s, a) <==> r in s.readers
      case EndMutation(w) => Enabled(s, a) <==> w in s.writers
      case Reclaim(evicted) => Enabled(s, a)
  {
    match a
    case Observe(r, file, first, count) => GateExactly(s, file);
    case Hit(file, page) => GateExactly(s, file);
    case Publish(r, page, evicted) =>
      if r in s.readers && EpochOf(s, s.readers[r].file).ticks - s.readers[r].ticks < UINT64_MAX {
        PublishExactly(s, r, page, evicted, lost);
      }
    case _ =>
  }

  /** All bytes of the page have been received. */
  ghost predicate WholePage(d: Reader, page: nat) {
    forall x: nat :: (page - d.first) * 4096 <= x < (page - d.first) * 4096 + 4096 ==> x in d.got
  }

  ghost predicate NoWriter(s: State, file: FileId) {
    forall w :: w in s.writers ==> s.writers[w].file != file
  }

  ghost predicate ByteOf(d: Writer, at: nat) {
    d.offset <= at < d.offset + d.length
  }

  lemma GateExactly(s: State, file: FileId)
    requires Counted(s)
    ensures EpochOf(s, file).active == 0 <==> NoWriter(s, file)
  {
    if EpochOf(s, file).active == 0 {
      NoWriters(s, file);
    } else {
      assert ActiveWriters(s, file) != {};
      var w :| w in ActiveWriters(s, file);
    }
  }

  lemma PublishExactly(s: State, r: nat, page: nat, evicted: set<Key>, lost: set<FileId>)
    requires Inv(s, lost) && r in s.readers
    requires EpochOf(s, s.readers[r].file).ticks - s.readers[r].ticks < UINT64_MAX
    ensures var d := s.readers[r];
      Enabled(s, Publish(r, page, evicted)) <==>
        && d.first <= page < d.first + d.count && Key(d.file, page) !in evicted
        && WholePage(d, page)
        && d.ticks == EpochOf(s, d.file).ticks
  {
    var d := s.readers[r];
    var e := EpochOf(s, d.file);
    assert FreshReader(s, d);
    SequenceAliases(d.ticks, e.ticks);
    assert e.sequence == SequenceAt(e.ticks);
    if d.first <= page < d.first + d.count {
      CompleteExactly(d, page);
    }
  }

  lemma CompleteExactly(d: Reader, page: nat)
    requires d.first <= page < d.first + d.count
    ensures Complete(d, page) <==> WholePage(d, page)
  {
    if Complete(d, page) {
      forall x: nat | (page - d.first) * 4096 <= x < (page - d.first) * 4096 + 4096 ensures x in d.got {
        assert Slot(d, page, x - (page - d.first) * 4096) in d.got;
      }
    }
  }

  /** The step advances the file's epoch: it begins or ends a change of the file, or invalidates it. */
  ghost predicate Disturbs(s: State, a: Action, file: FileId) {
    match a
    case BeginMutation(_, f, _, _) => f == file
    case EndMutation(w) => w in s.writers && s.writers[w].file == file
    case Invalidate(f, _, _) => f == file && file in s.epochs
    case _ => false
  }

  lemma TicksExactly(s: State, a: Action, file: FileId)
    requires Enabled(s, a)
    ensures EpochOf(Step(s, a), file).ticks == EpochOf(s, file).ticks + if Disturbs(s, a, file) then 1 else 0
  {
  }

  /** Such a step leaves no page that meets its range in the cache, but for a last page that the range misses;
      and short of a whole-file range it takes no other page. */
  ghost predicate RangeGone(s: State, t: State, file: FileId, offset: nat, length: nat) {
    && (forall k :: k in t.cache ==> k in s.cache && t.cache[k] == s.cache[k])
    && (forall k :: k in t.cache && k.file == file && k.page < PAGES && (k.page < PAGES - 1 || RangeOk(offset, length))
          ==> !Meets(k.page, offset, length))
    && (forall k :: k in s.cache && k !in t.cache ==>
          k.file == file && (Meets(k.page, offset, length) || length == UINT64_MAX || offset + length > UINT64_MAX))
  }

  lemma DisturbanceDetaches(s: State, a: Action)
    requires Enabled(s, a)
    ensures a.BeginMutation? ==> RangeGone(s, Step(s, a), a.file, a.offset, a.length)
    ensures a.Invalidate? && a.file in s.epochs ==> RangeGone(s, Step(s, a), a.file, a.offset, a.length)
    ensures a.EndMutation? ==> a.w !in Step(s, a).writers
    ensures a.EndMutation? && RangeFits(s.writers[a.w].offset, s.writers[a.w].length) ==>
              RangeGone(s, Step(s, a), s.writers[a.w].file, s.writers[a.w].offset, s.writers[a.w].length)
    ensures a.Reclaim? ==> Step(s, a).cache.Keys == s.cache.Keys - a.evicted
  {
    if a.BeginMutation? || (a.Invalidate? && a.file in s.epochs) {
      DetachGone(s, Step(s, a), a.file, a.offset, a.length);
    } else if a.EndMutation? && RangeFits(s.writers[a.w].offset, s.writers[a.w].length) {
      DetachGone(s, Step(s, a), s.writers[a.w].file, s.writers[a.w].offset, s.writers[a.w].length);
    }
  }

  lemma DetachGone(s: State, t: State, file: FileId, offset: nat, length: nat)
    requires RangeFits(offset, length) && t.cache == Detach(s.cache, file, MakeInvalidationRange(offset, length))
    ensures RangeGone(s, t, file, offset, length)
  {
    var r := MakeInvalidationRange(offset, length);
    forall k | k in s.cache && k !in t.cache && !r.all ensures Meets(k.page, offset, length) {
      SelectsOnlyMet(offset, length, k.page);
    }
  }

  /** How often the file was disturbed in the steps from `i` to `n`. */
  ghost function Disturbances(states: seq<State>, actions: seq<Action>, file: FileId, i: nat, n: nat): nat
    requires n <= |actions| < |states|
  {
    if n <= i then 0
    else Disturbances(states, actions, file, i, n - 1) + if Disturbs(states[n - 1], actions[n - 1], file) then 1 else 0
  }

  lemma {:induction false} TicksCount(states: seq<State>, actions: seq<Action>, file: FileId, i: nat, n: nat)
    requires Run(states, actions) && i <= n <= |actions|
    ensures EpochOf(states[n], file).ticks == EpochOf(states[i], file).ticks + Disturbances(states, actions, file, i, n)
    decreases n
  {
    if i < n {
      TicksCount(states, actions, file, i, n - 1);
      TicksExactly(states[n - 1], actions[n - 1], file);
    }
  }

  /** Step `o` began the read that reader `r` is in at state `n`. */
  ghost predicate ReadBegan(actions: seq<Action>, r: nat, o: nat, n: nat) {
    && o < n <= |actions| && actions[o].Observe? && actions[o].r == r
    && forall j {:trigger actions[j]} :: o < j < n ==>
         !(actions[j].Observe? && actions[j].r == r) && actions[j] != Abandon(r)
  }

  lemma {:induction false} ReadFollows(states: seq<State>, actions: seq<Action>, r: nat, o: nat, n: nat)
    requires Run(states, actions) && ReadBegan(actions, r, o, n)
    ensures r in states[n].readers
    ensures var d := states[n].readers[r];
      d.file == actions[o].file && d.first == actions[o].first && d.count == actions[o].count
      && d.ticks == EpochOf(states[o], d.file).ticks
    decreases n
  {
    if o + 1 < n {
      assert ReadBegan(actions, r, o, n - 1);
      ReadFollows(states, actions, r, o, n - 1);
    }
    assert Enabled(states[n - 1], actions[n - 1]) && states[n] == Step(states[n - 1], actions[n - 1]);
  }

  /** In every run, a page can be published exactly if all of its bytes have been received and the file was
      disturbed by nobody since the read began. */
  lemma PublishesExactly(states: seq<State>, actions: seq<Action>, r: nat, o: nat, n: nat, page: nat, evicted: set<Key>)
    requires Run(states, actions) && ReadBegan(actions, r, o, n)
    requires Disturbances(states, actions, actions[o].file, o, n) < UINT64_MAX
    ensures r in states[n].readers
    ensures var (d, a) := (states[n].readers[r], actions[o]);
      Enabled(states[n], Publish(r, page, evicted)) <==>
        && a.first <= page < a.first + a.count && Key(a.file, page) !in evicted
        && WholePage(d, page)
        && Disturbances(states, actions, a.file, o, n) == 0
  {
    ReadFollows(states, actions, r, o, n);
    TicksCount(states, actions, actions[o].file, o, n);
    RunKeepsInv(states, actions, n, Missed(actions, n));
    PublishExactly(states[n], r, page, evicted, Missed(actions, n));
  }
}
