/** A pipe: a ring buffer shared by readers and writers that release its lock in the middle of an
    operation. What other threads do while the lock is free is a list of their critical sections. */
module Pipe {
  newtype Byte = x: int | 0 <= x < 0x100

  const MIN_PIPE_SIZE := 256
  const MAX_PIPE_SIZE := 65536
  const DEFAULT_PIPE_SIZE := 4096

  // ----- the ring ------------------------------------------------------------------------------

  /** Position `x` of a ring of `size` slots, for positions less than two turns away. */
  function Wrap(x: nat, size: nat): (r: nat)
    requires x < 2 * size
    ensures r < size
  {
    if x < size then x else x - size
  }

  /** It is the remainder. */
  lemma WrapIsRemainder(x: nat, size: nat)
    requires x < 2 * size
    ensures Wrap(x, size) == x % size
  {
  }

  /** The stored bytes, oldest first. */
  ghost function Ring(s: seq<Byte>, head: nat, count: nat): (r: seq<Byte>)
    requires head < |s|
    ensures |r| == count
    decreases count
  {
    if count == 0 then [] else [s[head]] + Ring(s, Wrap(head + 1, |s|), count - 1)
  }

  /** The write position is that of the next free slot. A new capacity that the stored bytes fill leaves
      it one past the last slot, where the next write, of no byte, wraps it. */
  ghost predicate RingOk(size: nat, head: nat, tail: nat, count: nat) {
    head < size && count <= size && (tail == Wrap(head + count, size) ||
        (tail == size && Wrap(head + count, size) == 0))
  }

  ghost function Spliced(s: seq<Byte>, at: nat, data: seq<Byte>): seq<Byte>
    requires at + |data| <= |s|
  {
    s[..at] + data + s[at + |data|..]
  }

  lemma {:induction false} RingAt(s: seq<Byte>, head: nat, count: nat, i: nat)
    requires head < |s| && i < count <= |s|
    ensures Ring(s, head, count)[i] == s[Wrap(head + i, |s|)]
    decreases i
  {
    if i > 0 {
      RingAt(s, Wrap(head + 1, |s|), count - 1, i - 1);
    }
  }

  lemma {:induction false} PushRing(s: seq<Byte>, head: nat, tail: nat, count: nat, data: seq<Byte>)
    requires RingOk(|s|, head, tail, count) && count + |data| <= |s| && tail + |data| <= |s|
    ensures Ring(Spliced(s, tail, data), head, count + |data|) == Ring(s, head, count) + data
    decreases count
  {
    var t := Spliced(s, tail, data);
    if data == [] {
      assert t == s;
    } else if count == 0 {
      PushEmpty(s, head, data);
    } else {
      var next := Wrap(head + 1, |s|);
      PushRing(s, next, tail, count - 1, data);
      PushStep(s, t, head, next, count, data);
    }
  }

  lemma PushEmpty(s: seq<Byte>, head: nat, data: seq<Byte>)
    requires head < |s| && head + |data| <= |s|
    ensures Ring(Spliced(s, head, data), head, |data|) == data
  {
    var t := Spliced(s, head, data);
    PopRing(t, head, |data|, |data|);
    assert t[head..head + |data|] == data;
  }

  lemma PushStep(s: seq<Byte>, t: seq<Byte>, head: nat, next: nat, count: nat, data: seq<Byte>)
    requires head < |s| == |t| && t[head] == s[head] && next == Wrap(head + 1, |s|) && count > 0
    requires Ring(t, next, count - 1 + |data|) == Ring(s, next, count - 1) + data
    ensures Ring(t, head, count + |data|) == Ring(s, head, count) + data
  {
    Regroup([s[head]], Ring(s, next, count - 1), data);
  }

  lemma SliceHead(s: seq<Byte>, i: nat, j: nat)
    requires i < j <= |s|
    ensures s[i..j] == [s[i]] + s[i + 1..j]
  {
  }

  lemma {:induction false} PopRing(s: seq<Byte>, head: nat, count: nat, chunk: nat)
    requires head < |s| && chunk <= count && head + chunk <= |s|
    ensures Ring(s, head, count) == s[head..head + chunk] + Ring(s, Wrap(head + chunk, |s|), count - chunk)
    decreases chunk
  {
    if chunk > 0 {
      var next := Wrap(head + 1, |s|);
      SliceHead(s, head, head + chunk);
      if chunk > 1 {
        PopRing(s, next, count - 1, chunk - 1);
        Regroup([s[head]], s[next..next + (chunk - 1)], Ring(s, Wrap(head + chunk, |s|), count - chunk));
      }
    }
  }

  // ----- histories -----------------------------------------------------------------------------

  /** One byte and the thread that wrote or read it. */
  datatype Tag = Tag(who: nat, byte: Byte)

  ghost function Stamp(who: nat, data: seq<Byte>): (log: seq<Tag>)
    ensures |log| == |data|
  {
    if data == [] then [] else Stamp(who, data[..|data| - 1]) + [Tag(who, data[|data| - 1])]
  }

  ghost function Bytes(log: seq<Tag>): (data: seq<Byte>)
    ensures |data| == |log|
  {
    if log == [] then [] else Bytes(log[..|log| - 1]) + [log[|log| - 1].byte]
  }

  /** The bytes of one thread, in order. */
  ghost function Mine(log: seq<Tag>, who: nat): seq<Byte> {
    if log == [] then []
    else Mine(log[..|log| - 1], who) + if log[|log| - 1].who == who then [log[|log| - 1].byte] else []
  }

  lemma MineAppend(log: seq<Tag>, x: Tag, who: nat)
    ensures Mine(log + [x], who) == Mine(log, who) + if x.who == who then [x.byte] else []
  {
  }

  lemma {:induction false} StampMore(log: seq<Tag>, w: nat, data: seq<Byte>, who: nat)
    ensures Mine(log + Stamp(w, data), who) == Mine(log, who) + if w == who then data else []
  {
    if data == [] {
      assert log + Stamp(w, data) == log;
    } else {
      var n := |data| - 1;
      StampMore(log, w, data[..n], who);
      MineAppend(log + Stamp(w, data[..n]), Tag(w, data[n]), who);
      assert log + Stamp(w, data) == (log + Stamp(w, data[..n])) + [Tag(w, data[n])];
      if w == who {
        TakeMore(Mine(log, who), data, n, 1);
        assert data[n..][..1] == [data[n]] && data[..n + 1] == data;
      }
    }
  }

  lemma Regroup(a: seq<Byte>, b: seq<Byte>, c: seq<Byte>)
    ensures (a + b) + c == a + (b + c)
  {
  }

  lemma TakeMore(base: seq<Byte>, data: seq<Byte>, i: nat, c: nat)
    requires i + c <= |data|
    ensures (base + data[..i]) + data[i..][..c] == base + data[..i + c]
  {
  }

  /** What was read, followed by what is stored, is what was written. */
  ghost predicate Conserved(taken: seq<Tag>, stored: seq<Byte>, written: seq<Tag>) {
    Bytes(taken) + stored == Bytes(written)
  }

  /** Place by place: reads come in the order of the writes, and so do the stored bytes after them. */
  lemma ConservedInOrder(taken: seq<Tag>, stored: seq<Byte>, written: seq<Tag>)
    ensures Conserved(taken, stored, written) <==>
      && |taken| + |stored| == |written|
      && (forall i {:trigger taken[i]} :: 0 <= i < |taken| ==> taken[i].byte == written[i].byte)
      && (forall i {:trigger stored[i]} :: 0 <= i < |stored| ==> stored[i] == written[|taken| + i].byte)
  {
    BytesAt(taken);
    BytesAt(written);
    var all := Bytes(taken) + stored;
    if all == Bytes(written) {
      forall i | 0 <= i < |taken| ensures taken[i].byte == written[i].byte {
        assert all[i] == Bytes(taken)[i];
      }
      forall i | 0 <= i < |stored| ensures stored[i] == written[|taken| + i].byte {
        assert all[|taken| + i] == stored[i];
      }
    }
  }

  lemma {:induction false} BytesAt(log: seq<Tag>)
    ensures forall i {:trigger Bytes(log)[i]} {:trigger log[i]} :: 0 <= i < |log| ==> Bytes(log)[i] == log[i].byte
  {
    if log != [] {
      BytesAt(log[..|log| - 1]);
    }
  }

  lemma {:induction false} StampBytes(log: seq<Tag>, who: nat, data: seq<Byte>)
    ensures Bytes(log + Stamp(who, data)) == Bytes(log) + data
  {
    if data == [] {
      assert log + Stamp(who, data) == log;
    } else {
      var n := |data| - 1;
      var shorter := log + Stamp(who, data[..n]);
      StampBytes(log, who, data[..n]);
      assert log + Stamp(who, data) == shorter + [Tag(who, data[n])];
      assert (shorter + [Tag(who, data[n])])[..|shorter|] == shorter;
      assert data == data[..n] + [data[n]];
    }
  }

  lemma ConservePush(taken: seq<Tag>, stored: seq<Byte>, written: seq<Tag>, who: nat, data: seq<Byte>)
    requires Conserved(taken, stored, written)
    ensures Conserved(taken, stored + data, written + Stamp(who, data))
  {
    StampBytes(written, who, data);
    Regroup(Bytes(taken), stored, data);
  }

  lemma ConservePop(taken: seq<Tag>, bytes: seq<Byte>, stored: seq<Byte>, written: seq<Tag>, who: nat)
    requires Conserved(taken, bytes + stored, written)
    ensures Conserved(taken + Stamp(who, bytes), stored, written)
  {
    StampBytes(taken, who, bytes);
    Regroup(Bytes(taken), bytes, stored);
  }

  /** The ring is in order, and what was read followed by what is stored is what was written. */
  ghost predicate Sound(s: seq<Byte>, head: nat, tail: nat, count: nat, taken: seq<Tag>, written: seq<Tag>) {
    RingOk(|s|, head, tail, count) && Conserved(taken, Ring(s, head, count), written)
  }

  lemma PopAll(s: seq<Byte>, head: nat, tail: nat, count: nat, chunk: nat, taken: seq<Tag>, written: seq<Tag>,
               who: nat, head': nat, taken': seq<Tag>)
    requires Sound(s, head, tail, count, taken, written) && chunk <= count && head + chunk <= |s|
    requires head' == Wrap(head + chunk, |s|) && taken' == taken + Stamp(who, s[head..head + chunk])
    ensures Sound(s, head', tail, count - chunk, taken', written)
  {
    PopRing(s, head, count, chunk);
    ConservePop(taken, s[head..head + chunk], Ring(s, head', count - chunk), written, who);
  }

  // ----- threads -------------------------------------------------------------------------------

  /** A critical section of another thread. */
  datatype Op =
    | Put(who: nat, data: seq<Byte>)
    | Take(who: nat, max: nat)
    | Close(writeEnd: bool)
    | Resize(newSize: nat)

  /** A stretch of time without the lock: what the others do, how the thread's own flags stand
      afterwards, and whether its user range and user copy work. */
  datatype Window = Window(ops: seq<Op>, killed: bool, signalled: bool, rangeOk: bool, copyOk: bool)

  /** `Blocked` is a call that is still waiting when the schedule ends. */
  datatype Outcome = Done(n: nat) | Killed | Eagain | Eintr | Efault | Epipe | Blocked

  datatype Flags = Flags(killed: bool, signalled: bool)

  /** The pipe as the operations see it. */
  datatype View = View(size: nat, head: nat, tail: nat, stored: seq<Byte>, readOpen: bool, writeOpen: bool)

  /** What a critical section of another thread does. */
  ghost function Applied(v: View, op: Op, me: nat): View {
    match op
    case Put(who, data) =>
      if who == me || !v.readOpen || |v.stored| >= v.size || v.tail > v.size then v
      else
        var n := Min(Min(|data|, v.size - |v.stored|), v.size - v.tail);
        if data == [] then v
        else v.(stored := v.stored + data[..n], tail := if v.tail + n == v.size then 0 else v.tail + n)
    case Take(who, max) =>
      if who == me || v.head > v.size then v
      else
        var n := Min(Min(max, |v.stored|), v.size - v.head);
        if n == 0 then v
        else v.(stored := v.stored[n..], head := if v.head + n == v.size then 0 else v.head + n)
    case Close(writeEnd) => if writeEnd then v.(writeOpen := false) else v.(readOpen := false)
    case Resize(newSize) =>
      if 256 <= newSize <= 65536 && |v.stored| <= newSize then v.(size := newSize, head := 0, tail := |v.stored|) else v
  }

  lemma TakeApplied(v: View, who: nat, max: nat, me: nat, bytes: seq<Byte>, rest: seq<Byte>)
    requires who != me && v.stored == bytes + rest && v.head <= v.size && bytes != []
    requires |bytes| == Min(Min(max, |v.stored|), v.size - v.head)
    ensures Applied(v, Take(who, max), me) ==
      v.(stored := rest, head := if v.head + |bytes| == v.size then 0 else v.head + |bytes|)
  {
    assert v.stored[|bytes|..] == rest;
  }

  lemma PutApplied(v: View, who: nat, data: seq<Byte>, me: nat, n: nat)
    requires who != me && data != [] && v.readOpen && |v.stored| < v.size && v.tail <= v.size
    requires n == Min(Min(|data|, v.size - |v.stored|), v.size - v.tail)
    ensures Applied(v, Put(who, data), me) ==
      v.(stored := v.stored + data[..n], tail := if v.tail + n == v.size then 0 else v.tail + n)
  {
  }

  ghost function AppliedAll(v: View, ops: seq<Op>, me: nat): View {
    if ops == [] then v else Applied(AppliedAll(v, ops[..|ops| - 1], me), ops[|ops| - 1], me)
  }

  /** What all others do in the windows from `k` to `k'`. */
  ghost function Passed(v: View, ws: seq<Window>, k: nat, k': nat, me: nat): View
    requires k' <= |ws|
  {
    if k' <= k then v else AppliedAll(Passed(v, ws, k, k' - 1, me), ws[k' - 1].ops, me)
  }

  /** What a thread finds pending when it looks for the first time, and after each window. */
  ghost function Seen(ws: seq<Window>, fl: Flags, k: nat): Flags
    requires k <= |ws|
  {
    if k == 0 then fl else Flags(ws[k - 1].killed, ws[k - 1].signalled)
  }

  /** The last window used was one in which the user range could not be prepared or copied. */
  ghost predicate Faulty(ws: seq<Window>, k: nat) {
    0 < k <= |ws| && !(ws[k - 1].rangeOk && ws[k - 1].copyOk)
  }

  datatype Wake = Nobody | One(who: nat) | All

  function Min(a: nat, b: nat): nat {
    if a < b then a else b
  }

  method CopyInto(buffer: array<Byte>, at: nat, data: seq<Byte>)
    requires at + |data| <= buffer.Length
    modifies buffer
    ensures buffer[..] == Spliced(old(buffer[..]), at, data)
  {
    for i := 0 to |data|
      invariant forall j :: 0 <= j < buffer.Length ==>
                  buffer[j] == if at <= j < at + i then data[j - at] else old(buffer[j])
    {
      buffer[at + i] := data[i];
    }
  }

  class Pipe {
    var buffer: array<Byte>
    var head: nat
    var tail: nat
    var count: nat
    var readOpen: bool
    var writeOpen: bool
    ghost var written: seq<Tag>
    ghost var taken: seq<Tag>

    ghost function Contents(): seq<Byte>
      requires head < buffer.Length
      reads this, buffer
    {
      Ring(buffer[..], head, count)
    }

    ghost predicate Valid()
      reads this, buffer
    {
      Sound(buffer[..], head, tail, count, taken, written)
    }

    ghost function Now(): View
      requires head < buffer.Length
      reads this, buffer
    {
      View(buffer.Length, head, tail, Contents(), readOpen, writeOpen)
    }

    constructor ()
      ensures Valid() && fresh(buffer) && buffer.Length == 4096
      ensures head == tail == count == 0 && readOpen && writeOpen && written == taken == []
    {
      buffer := new Byte[DEFAULT_PIPE_SIZE];
      head, tail, count, readOpen, writeOpen := 0, 0, 0, true, true;
      written, taken := [], [];
    }

    // ----- critical sections -------------------------------------------------------------------

    /** Puts a run that fits at the write position. */
    method Fill(ghost who: nat, part: seq<Byte>)
      requires Valid() && count + |part| <= buffer.Length && tail + |part| <= buffer.Length
      modifies this`tail, this`count, this`written, buffer
      ensures Valid() && tail < buffer.Length && count == old(count) + |part| && Contents() == old(Contents()) + part
      ensures tail == if old(tail) + |part| == buffer.Length then 0 else old(tail) + |part|
      ensures written == old(written) + Stamp(who, part)
    {
      ghost var all := buffer[..];
      PushRing(all, head, tail, count, part);
      ConservePush(taken, Ring(all, head, count), written, who, part);
      CopyInto(buffer, tail, part);
      assert buffer[..] == Spliced(all, tail, part);
      tail := Wrap(tail + |part|, buffer.Length);
      count := count + |part|;
      written := written + Stamp(who, part);
      assert buffer[..] == Spliced(all, old(tail), part);
      assert Contents() == Ring(all, head, old(count)) + part;
    }

    /** Appends as much of `data` as fits before the end of the buffer: nothing only when the write
        position was one past it. */
    method PushChunk(ghost who: nat, data: seq<Byte>) returns (chunk: nat)
      requires Valid() && count < buffer.Length && data != []
      modifies this`tail, this`count, this`written, buffer
      ensures Valid() && chunk == Min(Min(|data|, buffer.Length - old(count)), buffer.Length - old(tail))
      ensures tail < buffer.Length && count == old(count) + chunk
      ensures tail == if old(tail) + chunk == buffer.Length then 0 else old(tail) + chunk
      ensures Contents() == old(Contents()) + data[..chunk]
      ensures written == old(written) + Stamp(who, data[..chunk])
    {
      chunk := Min(Min(|data|, buffer.Length - count), buffer.Length - tail);
      Fill(who, data[..chunk]);
    }

    /** Takes a contiguous run off the front. */
    method Advance(ghost who: nat, ghost all: seq<Byte>, chunk: nat)
      requires Valid() && all == buffer[..] && chunk <= count && head + chunk <= |all|
      modifies this`head, this`count, this`taken
      ensures Valid() && count == old(count) - chunk
      ensures taken == old(taken) + Stamp(who, all[old(head)..old(head) + chunk])
      ensures head == if old(head) + chunk == buffer.Length then 0 else old(head) + chunk
    {
      var next := Wrap(head + chunk, buffer.Length);
      ghost var log := taken + Stamp(who, all[head..head + chunk]);
      var left := count - chunk;
      PopAll(all, head, tail, count, chunk, taken, written, who, next, log);
      assert Sound(all, next, tail, left, log, written);
      head, count, taken := next, left, log;
      assert buffer[..] == all;
    }

    /** Removes up to `max` bytes, as many as lie before the end of the buffer. */
    method PopChunk(ghost who: nat, max: nat) returns (bytes: seq<Byte>)
      requires Valid() && count > 0 && max > 0
      modifies this`head, this`count, this`taken
      ensures Valid() && |bytes| == Min(Min(max, old(count)), buffer.Length - old(head))
      ensures 0 < |bytes| && count == old(count) - |bytes| && taken == old(taken) + Stamp(who, bytes)
      ensures old(Contents()) == bytes + Contents()
      ensures head == if old(head) + |bytes| == buffer.Length then 0 else old(head) + |bytes|
    {
      var chunk := Min(Min(max, count), buffer.Length - head);
      PopRing(buffer[..], head, count, chunk);
      bytes := buffer[head..head + chunk];
      assert bytes == buffer[..][head..head + chunk];
      Advance(who, buffer[..], chunk);
    }

    /** The same two sections, in terms of what this thread has written and read. */
    method PutMine(me: nat, data: seq<Byte>) returns (chunk: nat)
      requires Valid() && count < buffer.Length && data != []
      modifies this`tail, this`count, this`written, buffer
      ensures Valid() && chunk == Min(Min(|data|, buffer.Length - old(count)), buffer.Length - old(tail))
      ensures (old(tail) < buffer.Length ==> 0 < chunk) && tail < buffer.Length && count == old(count) + chunk
      ensures Mine(written, me) == old(Mine(written, me)) + data[..chunk]
    {
      chunk := PushChunk(me, data);
      StampMore(old(written), me, data[..chunk], me);
    }

    method TakeMine(me: nat, max: nat) returns (bytes: seq<Byte>)
      requires Valid() && count > 0 && max > 0
      modifies this`head, this`count, this`taken
      ensures Valid() && 0 < |bytes| == Min(Min(max, old(count)), buffer.Length - old(head))
      ensures count == old(count) - |bytes| && old(Contents()) == bytes + Contents()
      ensures Mine(taken, me) == old(Mine(taken, me)) + bytes
    {
      bytes := PopChunk(me, max);
      StampMore(old(taken), me, bytes, me);
    }

    /** Copies the stored bytes to the front of a new buffer. */
    method Unroll(newSize: nat) returns (fresh1: array<Byte>)
      requires RingOk(buffer.Length, head, tail, count) && count <= newSize
      ensures fresh(fresh1) && fresh1.Length == newSize && fresh1[..count] == Contents()
    {
      fresh1 := new Byte[newSize];
      var copied, at := 0, head;
      while copied < count
        invariant copied <= count && at < buffer.Length && at == Wrap(head + copied, buffer.Length)
        invariant fresh1[..copied] == Contents()[..copied]
      {
        fresh1[copied] := buffer[at];
        RingAt(buffer[..], head, count, copied);
        at := Wrap(at + 1, buffer.Length);
        copied := copied + 1;
      }
    }

    /** A new capacity keeps the stored bytes. The write position is a slot exactly when there is room to
        spare: at equality it is one past the last slot. */
    method SetPipeSize(newSize: nat, granted: bool) returns (r: int)
      requires Valid()
      modifies this`buffer, this`head, this`tail
      ensures Valid() && (r == -1 || r == newSize)
      ensures r == newSize <==> 256 <= newSize <= 65536 && old(count) <= newSize && granted
      ensures r == -1 ==> unchanged(this)
      ensures r != -1 ==> fresh(buffer) && buffer.Length == newSize && head == 0 && Contents() == old(Contents())
      ensures r != -1 ==> tail == count && (tail < buffer.Length <==> count < newSize)
    {
      if newSize < MIN_PIPE_SIZE || newSize > MAX_PIPE_SIZE || newSize < count || !granted {
        return -1;
      }
      var newBuffer := Unroll(newSize);
      head, tail := 0, count;
      buffer := newBuffer;
      PopRing(buffer[..], 0, count, count);
      r := newSize;
    }

    method CloseEnd(writeEnd: bool)
      requires Valid()
      modifies this`readOpen, this`writeOpen
      ensures Valid() && readOpen == (old(readOpen) && writeEnd) && writeOpen == (old(writeOpen) && !writeEnd)
    {
      if writeEnd {
        writeOpen := false;
      } else {
        readOpen := false;
      }
    }

    // ----- operations that give up the lock ----------------------------------------------------

    method OtherPut(who: nat, data: seq<Byte>, ghost me: nat)
      requires Valid() && who != me && data != [] && readOpen && count < buffer.Length
      modifies this`tail, this`count, this`written, buffer
      ensures Valid() && Mine(written, me) == old(Mine(written, me))
      ensures Now() == Applied(old(Now()), Put(who, data), me)
    {
      ghost var v := Now();
      var chunk := PushChunk(who, data);
      PutApplied(v, who, data, me, chunk);
      StampMore(old(written), who, data[..chunk], me);
    }

    method OtherTake(who: nat, max: nat, ghost me: nat)
      requires Valid() && who != me && max > 0 && count > 0
      modifies this`head, this`count, this`taken
      ensures Valid() && Mine(taken, me) == old(Mine(taken, me))
      ensures Now() == Applied(old(Now()), Take(who, max), me)
    {
      ghost var v := Now();
      var bytes := PopChunk(who, max);
      TakeApplied(v, who, max, me, bytes, Contents());
      StampMore(old(taken), who, bytes, me);
    }

    /** One critical section of another thread. */
    method OtherOp(op: Op, me: nat)
      requires Valid()
      modifies this, buffer
      ensures Valid() && (buffer == old(buffer) || fresh(buffer))
      ensures Mine(taken, me) == old(Mine(taken, me)) && Mine(written, me) == old(Mine(written, me))
      ensures (!old(writeOpen) ==> !writeOpen) && (!old(readOpen) ==> !readOpen)
      ensures Now() == Applied(old(Now()), op, me)
    {
      match op
      case Put(who, data) =>
        if who != me && data != [] && readOpen && count < buffer.Length {
          OtherPut(who, data, me);
        }
      case Take(who, max) =>
        if who != me && max > 0 && count > 0 {
          OtherTake(who, max, me);
        }
      case Close(writeEnd) => CloseEnd(writeEnd);
      case Resize(newSize) =>
        var _ := SetPipeSize(newSize, true);
    }

    method Others(ops: seq<Op>, me: nat)
      requires Valid()
      modifies this, buffer
      ensures Valid() && (buffer == old(buffer) || fresh(buffer))
      ensures Mine(taken, me) == old(Mine(taken, me)) && Mine(written, me) == old(Mine(written, me))
      ensures (!old(writeOpen) ==> !writeOpen) && (!old(readOpen) ==> !readOpen)
      ensures Now() == AppliedAll(old(Now()), ops, me)
    {
      for i := 0 to |ops|
        invariant Valid() && (buffer == old(buffer) || fresh(buffer))
        invariant Mine(taken, me) == old(Mine(taken, me)) && Mine(written, me) == old(Mine(written, me))
        invariant (!old(writeOpen) ==> !writeOpen) && (!old(readOpen) ==> !readOpen)
        invariant Now() == AppliedAll(old(Now()), ops[..i], me)
      {
        assert ops[..i + 1][..i] == ops[..i];
        OtherOp(ops[i], me);
      }
      assert ops[..|ops|] == ops;
    }

    /** A window, of which only this thread's part is of interest. */
    method Pause(w: Window, me: nat)
      requires Valid()
      modifies this, buffer
      ensures Valid() && (buffer == old(buffer) || fresh(buffer))
      ensures Mine(taken, me) == old(Mine(taken, me)) && Mine(written, me) == old(Mine(written, me))
    {
      Others(w.ops, me);
    }

    /** Why a thread that finds the pipe empty and open gives up, if it does. */
    method GivesUp(nonblock: bool, ws: seq<Window>, k: nat, fl: Flags) returns (stop: bool, r: Outcome)
      requires k <= |ws|
      ensures stop ==> r in {Killed, Eagain, Eintr, Blocked} && (r == Killed <==> fl.killed)
      ensures stop && !fl.killed ==> (r == Eagain <==> nonblock) && (r == Eintr <==> !nonblock && fl.signalled)
      ensures stop && r == Blocked ==> k == |ws|
      ensures !stop ==> k < |ws| && !nonblock && fl == Flags(false, false)
    {
      if fl.killed {
        return true, Killed;
      }
      if nonblock {
        return true, Eagain;
      }
      if fl.signalled {
        return true, Eintr;
      }
      return k == |ws|, Blocked;
    }

    /** Waits until there is data or the write end is closed. It gives up only on an empty pipe with its
        write end open, and then for the first of these reasons: the thread is killed, it may not block, a
        signal is pending. */
    method AwaitData(me: nat, nonblock: bool, ws: seq<Window>, k: nat, fl: Flags, ghost fl0: Flags)
      returns (stop: bool, r: Outcome, k': nat, fl': Flags)
      requires Valid() && k <= |ws| && fl == Seen(ws, fl0, k)
      modifies this, buffer
      ensures Valid() && (buffer == old(buffer) || fresh(buffer)) && k <= k' <= |ws| && fl' == Seen(ws, fl0, k')
      ensures Mine(taken, me) == old(Mine(taken, me)) && Mine(written, me) == old(Mine(written, me))
      ensures stop <==> count == 0 && writeOpen
      ensures stop ==> r in {Killed, Eagain, Eintr, Blocked} && (r == Killed <==> fl'.killed)
      ensures stop && !fl'.killed ==> (r == Eagain <==> nonblock) && (r == Eintr <==> !nonblock && fl'.signalled)
      ensures stop && r == Blocked ==> k' == |ws|
      ensures forall j :: k <= j < k' ==> !nonblock && Seen(ws, fl0, j) == Flags(false, false)
      ensures Now() == Passed(old(Now()), ws, k, k', me)
      ensures k' == k ==> count == old(count) && writeOpen == old(writeOpen)
      ensures old(count > 0 || !writeOpen) ==> k' == k
    {
      stop, r, k', fl' := false, Blocked, k, fl;
      while count == 0 && writeOpen
        invariant Valid() && (buffer == old(buffer) || fresh(buffer)) && k <= k' <= |ws| && fl' == Seen(ws, fl0, k')
        invariant Mine(taken, me) == old(Mine(taken, me)) && Mine(written, me) == old(Mine(written, me))
        invariant forall j :: k <= j < k' ==> !nonblock && Seen(ws, fl0, j) == Flags(false, false)
        invariant Now() == Passed(old(Now()), ws, k, k', me)
        invariant k' == k ==> count == old(count) && writeOpen == old(writeOpen)
        invariant old(count > 0 || !writeOpen) ==> k' == k
        decreases |ws| - k'
      {
        stop, r := GivesUp(nonblock, ws, k', fl');
        if stop {
          return;
        }
        Others(ws[k'].ops, me);
        fl', k' := Flags(ws[k'].killed, ws[k'].signalled), k' + 1;
      }
    }

    /** After the window: copies out what lies before the end of the buffer, unless others took it all. */
    method ReadChunk(me: nat, room: nat, w: Window) returns (fault: bool, bytes: seq<Byte>)
      requires Valid() && room > 0
      modifies this`head, this`count, this`taken
      ensures Valid() && fault == (!w.rangeOk || (old(count) > 0 && !w.copyOk))
      ensures |bytes| == if fault then 0 else Min(Min(room, old(count)), buffer.Length - old(head))
      ensures count == old(count) - |bytes| && (bytes == [] && !fault ==> count == 0)
      ensures Mine(taken, me) == old(Mine(taken, me)) + bytes
    {
      fault, bytes := false, [];
      if !w.rangeOk || (count > 0 && !w.copyOk) {
        return true, [];
      }
      if count > 0 {
        bytes := TakeMine(me, room);
      }
    }

    /** One turn of the read loop: the lock is given up to prepare the user range, then whatever is
        still there is copied out. */
    method ReadTurn(me: nat, room: nat, w: Window) returns (fault: bool, bytes: seq<Byte>)
      requires Valid() && room > 0 && count > 0
      modifies this, buffer
      ensures Valid() && (buffer == old(buffer) || fresh(buffer)) && |bytes| <= room && (fault ==> bytes == [])
      ensures Mine(taken, me) == old(Mine(taken, me)) + bytes && Mine(written, me) == old(Mine(written, me))
      ensures fault ==> !(w.rangeOk && w.copyOk)
      ensures bytes == [] && !fault ==> count == 0
    {
      Pause(w, me);
      fault, bytes := ReadChunk(me, room, w);
    }

    /** A thread that has read something returns what it has when the pipe runs dry. */
    method ReadMore(me: nat, room: nat, ws: seq<Window>, k: nat) returns (blocked: bool, more: seq<Byte>, k': nat)
      requires Valid() && k <= |ws|
      modifies this, buffer
      ensures Valid() && (buffer == old(buffer) || fresh(buffer)) && |more| <= room && k <= k' <= |ws|
      ensures Mine(taken, me) == old(Mine(taken, me)) + more && Mine(written, me) == old(Mine(written, me))
      ensures blocked ==> k' == |ws| && count > 0
      ensures !blocked && |more| < room ==> count == 0 || Faulty(ws, k')
    {
      more := [];
      ghost var mine, sent := Mine(taken, me), Mine(written, me);
      k' := k;
      while |more| < room && count > 0
        invariant Valid() && (buffer == old(buffer) || fresh(buffer)) && k <= k' <= |ws| && |more| <= room
        invariant Mine(taken, me) == mine + more && Mine(written, me) == sent
        decreases |ws| - k'
      {
        if k' == |ws| {
          return true, more, k';
        }
        var fault, bytes := ReadTurn(me, room - |more|, ws[k']);
        Regroup(mine, more, bytes);
        more := more + bytes;
        k' := k' + 1;
        if fault {
          return false, more, k';
        }
      }
      blocked := false;
    }

    /** How a read that got nothing ends: the reason is there, on an empty pipe with its write end open
        unless the user range failed. */
    ghost predicate ReadStops(r: Outcome, nonblock: bool, ws: seq<Window>, fl: Flags, k: nat)
      requires k <= |ws|
      reads this
    {
      match r
      case Killed => Seen(ws, fl, k).killed && count == 0 && writeOpen
      case Eagain => nonblock && !Seen(ws, fl, k).killed && count == 0 && writeOpen
      case Eintr => !nonblock && Seen(ws, fl, k) == Flags(false, true) && count == 0 && writeOpen
      case Efault => Faulty(ws, k)
      case Blocked => k == |ws| && (nonblock ==> count > 0)
      case Done(n) => n == 0 && count == 0 && !writeOpen
      case Epipe => false
    }

    /** Waits, gives up the lock for the copy, and copies out what is still there. */
    method ReadOnce(me: nat, n: nat, nonblock: bool, ws: seq<Window>, k: nat, fl: Flags, ghost fl0: Flags)
      returns (stop: bool, r: Outcome, k': nat, fl': Flags, bytes: seq<Byte>)
      requires Valid() && n > 0 && k <= |ws| && fl == Seen(ws, fl0, k)
      modifies this, buffer
      ensures Valid() && (buffer == old(buffer) || fresh(buffer)) && k <= k' <= |ws| && |bytes| <= n
      ensures Mine(taken, me) == old(Mine(taken, me)) + bytes && Mine(written, me) == old(Mine(written, me))
      ensures fl' == Seen(ws, fl0, k') && (stop ==> bytes == [] && ReadStops(r, nonblock, ws, fl0, k'))
      ensures !stop ==> k < k' && (bytes == [] ==> count == 0)
      ensures old(count == 0 && writeOpen) && nonblock ==> stop && k' == k && r == if fl.killed then Killed else Eagain
    {
      bytes := [];
      stop, r, k', fl' := AwaitData(me, nonblock, ws, k, fl, fl0);
      if stop {
        return;
      }
      if count == 0 {
        return true, Done(0), k', fl', [];
      }
      if k' == |ws| {
        return true, Blocked, k', fl', [];
      }
      stop, bytes := ReadTurn(me, n, ws[k']);
      r, fl', k' := Efault, Flags(ws[k'].killed, ws[k'].signalled), k' + 1;
    }

    /** Reads the first bytes, waiting again when another reader took the data meanwhile. */
    method ReadFirst(me: nat, n: nat, nonblock: bool, ws: seq<Window>, fl: Flags)
      returns (stop: bool, r: Outcome, k: nat, bytes: seq<Byte>)
      requires Valid() && n > 0
      modifies this, buffer
      ensures Valid() && (buffer == old(buffer) || fresh(buffer)) && k <= |ws| && |bytes| <= n
      ensures Mine(taken, me) == old(Mine(taken, me)) + bytes && Mine(written, me) == old(Mine(written, me))
      ensures stop <==> bytes == []
      ensures stop ==> ReadStops(r, nonblock, ws, fl, k)
      ensures old(count == 0 && writeOpen) && nonblock ==> stop && k == 0 && r == if fl.killed then Killed else Eagain
    {
      var fl1;
      stop, r, k, fl1, bytes := ReadOnce(me, n, nonblock, ws, 0, fl, fl);
      while !stop && bytes == []
        invariant Valid() && (buffer == old(buffer) || fresh(buffer)) && k <= |ws| && |bytes| <= n
        invariant Mine(taken, me) == old(Mine(taken, me)) + bytes && Mine(written, me) == old(Mine(written, me))
        invariant fl1 == Seen(ws, fl, k) && (stop ==> bytes == [] && ReadStops(r, nonblock, ws, fl, k))
        invariant old(count == 0 && writeOpen) && nonblock ==>
                  stop && k == 0 && r == if fl.killed then Killed else Eagain
        decreases !stop, |ws| - k
      {
        stop, r, k, fl1, bytes := ReadOnce(me, n, nonblock, ws, k, fl1, fl);
      }
    }

    /** Reads up to `n` bytes into a user buffer, giving up the lock before every copy. The bytes
        returned are the ones this thread took from the pipe, in order, and zero for a positive
        length means an empty pipe with its write end closed. `turns` windows were used. */
    method ReadToUser(me: nat, n: int, nonblock: bool, ws: seq<Window>, fl: Flags)
      returns (r: Outcome, got: seq<Byte>, ghost turns: nat)
      requires Valid()
      modifies this, buffer
      ensures Valid() && (buffer == old(buffer) || fresh(buffer)) && turns <= |ws|
      ensures Mine(taken, me) == old(Mine(taken, me)) + got && Mine(written, me) == old(Mine(written, me))
      ensures r.Done? ==> r.n == |got| && (got == [] || |got| <= n)
      ensures n > 0 && got == [] ==> ReadStops(r, nonblock, ws, fl, turns)
      ensures n > 0 && got != [] ==> if r.Blocked? then turns == |ws| && count > 0 else r.Done?
      ensures 0 < |got| < n && r.Done? ==> count == 0 || Faulty(ws, turns)
      ensures n <= 0 ==> got == [] && (r == Done(0) || ReadStops(r, nonblock, ws, fl, turns))
      ensures n <= 0 && r.Done? ==> count > 0 || !writeOpen
      ensures old(count == 0 && writeOpen) && nonblock ==> turns == 0 && r == if fl.killed then Killed else Eagain
    {
      ghost var mine := Mine(taken, me);
      if n <= 0 {
        var stop, k, fl1;
        stop, r, k, fl1 := AwaitData(me, nonblock, ws, 0, fl, fl);
        return if stop then r else Done(0), [], k;
      }
      var stop, k, first;
      stop, r, k, first := ReadFirst(me, n, nonblock, ws, fl);
      got, turns := first, k;
      if !stop {
        var blocked, more, k1 := ReadMore(me, n - |first|, ws, k);
        Regroup(mine, first, more);
        got, turns := first + more, k1;
        r := if blocked then Blocked else Done(|got|);
      }
    }

    /** After the window: copies in what fits before the end of the buffer, unless there is nobody to read
        it or no room any more. */
    method WriteChunk(me: nat, data: seq<Byte>, w: Window) returns (fault: bool, chunk: nat)
      requires Valid() && data != []
      modifies this`tail, this`count, this`written, buffer
      ensures Valid()
      ensures var open := readOpen && !w.killed && old(count) < buffer.Length;
        && fault == (!w.rangeOk || (open && !w.copyOk))
        && chunk == if fault || !open then 0
                    else Min(Min(|data|, buffer.Length - old(count)), buffer.Length - old(tail))
      ensures count == old(count) + chunk && Mine(written, me) == old(Mine(written, me)) + data[..chunk]
    {
      fault, chunk := false, 0;
      if !w.rangeOk {
        return true, 0;
      }
      if !readOpen || w.killed || count >= buffer.Length {
        return;
      }
      if !w.copyOk {
        return true, 0;
      }
      chunk := PutMine(me, data);
    }

    /** One turn of the write loop after the room check: the lock is given up to prepare the user
        range, then as much as now fits is copied in. */
    method WriteTurn(me: nat, data: seq<Byte>, w: Window) returns (fault: bool, chunk: nat)
      requires Valid() && data != [] && count < buffer.Length
      modifies this, buffer
      ensures Valid() && (buffer == old(buffer) || fresh(buffer)) && chunk <= |data| && (fault ==> chunk == 0)
      ensures Mine(written, me) == old(Mine(written, me)) + data[..chunk] && Mine(taken, me) == old(Mine(taken, me))
      ensures fault ==> !(w.rangeOk && w.copyOk)
    {
      Pause(w, me);
      fault, chunk := WriteChunk(me, data, w);
    }

    /** How a write ends before all of its data is in the pipe. */
    ghost predicate WriteStops(r: Outcome, sent: nat, nonblock: bool, ws: seq<Window>, fl: Flags, k: nat)
      requires k <= |ws|
      reads this
    {
      match r
      case Killed => Seen(ws, fl, k).killed
      case Epipe => !readOpen && !Seen(ws, fl, k).killed
      case Eagain => sent == 0 && nonblock && readOpen && count >= buffer.Length
          && Seen(ws, fl, k) == Flags(false, false)
      case Eintr => sent == 0 && readOpen && count >= buffer.Length && Seen(ws, fl, k) == Flags(false, true)
      case Efault => sent == 0 && Faulty(ws, k)
      case Blocked => k == |ws| && readOpen && !Seen(ws, fl, k).killed && (nonblock ==> count < buffer.Length)
      case Done(n) =>
        && 0 < n == sent
        && (Faulty(ws, k) || (readOpen && count >= buffer.Length && !Seen(ws, fl, k).killed
                              && (nonblock || Seen(ws, fl, k).signalled)))
    }

    /** Whether a write that has put `sent` bytes into the pipe stops here; `windowed` says that it gives up
        the lock for every copy. */
    method WriteGate(sent: nat, nonblock: bool, windowed: bool, ws: seq<Window>, k: nat, fl: Flags, ghost fl0: Flags)
      returns (stop: bool, r: Outcome)
      requires Valid() && k <= |ws| && fl == Seen(ws, fl0, k)
      ensures stop ==> WriteStops(r, sent, nonblock, ws, fl0, k) && r != Efault
      ensures stop && (r.Done? || (r.Blocked? && !windowed)) ==> count >= buffer.Length && readOpen
      ensures stop && !readOpen ==> r == if fl.killed then Killed else Epipe
      ensures !stop ==> readOpen && !fl.killed && (windowed || count >= buffer.Length ==> k < |ws|)
      ensures !stop && count >= buffer.Length ==> !nonblock && !fl.signalled
    {
      stop, r := true, Blocked;
      if !readOpen || fl.killed {
        return true, if fl.killed then Killed else Epipe;
      }
      var full := count >= buffer.Length;
      if full && (fl.signalled || nonblock) {
        return true, if sent > 0 then Done(sent) else if fl.signalled then Eintr else Eagain;
      }
      stop := k == |ws| && (full || windowed);
    }

    /** Writes user data, giving up the lock before every copy: what goes into the pipe under this
        thread's name is a prefix of the data, in order. `turns` windows were used. */
    method WriteFromUser(me: nat, data: seq<Byte>, nonblock: bool, ws: seq<Window>, fl: Flags)
      returns (r: Outcome, sent: nat, ghost turns: nat)
      requires Valid()
      modifies this, buffer
      ensures Valid() && (buffer == old(buffer) || fresh(buffer)) && sent <= |data| && turns <= |ws|
      ensures Mine(written, me) == old(Mine(written, me)) + data[..sent] && Mine(taken, me) == old(Mine(taken, me))
      ensures if sent == |data| then r == Done(sent) else WriteStops(r, sent, nonblock, ws, fl, turns)
      ensures data != [] && !old(readOpen) ==> sent == turns == 0 && r == if fl.killed then Killed else Epipe
    {
      sent := 0;
      ghost var mine, got := Mine(written, me), Mine(taken, me);
      var k, fl1 := 0, fl;
      while sent < |data|
        invariant Valid() && (buffer == old(buffer) || fresh(buffer)) && k <= |ws| && sent <= |data|
        invariant Mine(written, me) == mine + data[..sent] && Mine(taken, me) == got
        invariant fl1 == Seen(ws, fl, k) && (!old(readOpen) ==> k == sent == 0 && !readOpen)
        decreases |ws| - k
      {
        var stop;
        stop, r := WriteGate(sent, nonblock, true, ws, k, fl1, fl);
        if stop {
          return r, sent, k;
        }
        if count >= buffer.Length {
          Pause(ws[k], me);
        } else {
          var fault, chunk := WriteTurn(me, data[sent..], ws[k]);
          if fault {
            return if sent > 0 then Done(sent) else Efault, sent, k + 1;
          }
          TakeMore(mine, data, sent, chunk);
          sent := sent + chunk;
        }
        fl1, k := Flags(ws[k].killed, ws[k].signalled), k + 1;
      }
      r, turns := Done(sent), k;
    }

    // ----- the same from kernel buffers, where only sleeping gives up the lock -------------------

    /** Reads into a kernel buffer: waits for data, then takes what there is. */
    method Read(me: nat, n: int, nonblock: bool, ws: seq<Window>, fl: Flags)
      returns (r: Outcome, got: seq<Byte>, ghost turns: nat)
      requires Valid()
      modifies this, buffer
      ensures Valid() && (buffer == old(buffer) || fresh(buffer)) && turns <= |ws|
      ensures Mine(taken, me) == old(Mine(taken, me)) + got && Mine(written, me) == old(Mine(written, me))
      ensures r.Done? ==> r.n == |got| && (got == [] || |got| <= n)
      ensures r.Done? ==> got + Contents() == Passed(old(Now()), ws, 0, turns, me).stored
      ensures r.Done? && |got| < n ==> count == 0
      ensures r == Done(0) && n > 0 ==> !writeOpen
      ensures !r.Done? ==> got == [] && ReadStops(r, nonblock, ws, fl, turns) && r != Efault
      ensures !r.Done? ==> count == 0 && writeOpen
      ensures old(count > 0 || !writeOpen) ==> r.Done?
      ensures old(count == 0 && writeOpen) && nonblock ==> turns == 0 && r == if fl.killed then Killed else Eagain
    {
      got := [];
      ghost var mine := Mine(taken, me);
      var stop, k, fl1;
      stop, r, k, fl1 := AwaitData(me, nonblock, ws, 0, fl, fl);
      turns := k;
      if stop {
        return;
      }
      ghost var sent, ready, there := Mine(written, me), count > 0, Contents();
      while |got| < n && count > 0
        invariant Valid() && (buffer == old(buffer) || fresh(buffer)) && (got == [] || |got| <= n)
        invariant Mine(taken, me) == mine + got && Mine(written, me) == sent
        invariant got + Contents() == there && (got == [] ==> (ready <==> count > 0))
        invariant !ready ==> !writeOpen
        decreases n - |got|
      {
        var bytes := TakeMine(me, n - |got|);
        Regroup(mine, got, bytes);
        Regroup(got, bytes, Contents());
        got := got + bytes;
      }
      r := Done(|got|);
    }

    /** Writes from a kernel buffer, sleeping while the pipe is full. */
    method WriteInKernel(me: nat, data: seq<Byte>, nonblock: bool, ws: seq<Window>, fl: Flags)
      returns (r: Outcome, sent: nat, ghost turns: nat)
      requires Valid()
      modifies this, buffer
      ensures Valid() && (buffer == old(buffer) || fresh(buffer)) && sent <= |data| && turns <= |ws|
      ensures Mine(written, me) == old(Mine(written, me)) + data[..sent] && Mine(taken, me) == old(Mine(taken, me))
      ensures if sent == |data| then r == Done(sent) else WriteStops(r, sent, nonblock, ws, fl, turns)
      ensures r != Efault && (sent < |data| && (r.Done? || r.Blocked?) ==> count >= buffer.Length && readOpen)
      ensures data != [] && !old(readOpen) ==> sent == turns == 0 && r == if fl.killed then Killed else Epipe
    {
      sent := 0;
      ghost var mine, got := Mine(written, me), Mine(taken, me);
      var k, fl1 := 0, fl;
      while sent < |data|
        invariant Valid() && (buffer == old(buffer) || fresh(buffer)) && k <= |ws| && sent <= |data|
        invariant Mine(written, me) == mine + data[..sent] && Mine(taken, me) == got
        invariant fl1 == Seen(ws, fl, k) && (!old(readOpen) ==> k == sent == 0 && !readOpen)
        decreases |ws| - k, |data| - sent, if tail == buffer.Length then 1 else 0
      {
        var stop;
        stop, r := WriteGate(sent, nonblock, false, ws, k, fl1, fl);
        if stop {
          return r, sent, k;
        }
        if count < buffer.Length {
          var chunk := PutMine(me, data[sent..]);
          TakeMore(mine, data, sent, chunk);
          sent := sent + chunk;
        } else {
          Pause(ws[k], me);
          fl1, k := Flags(ws[k].killed, ws[k].signalled), k + 1;
        }
      }
      r, turns := Done(sent), k;
    }
  }

  /** A new capacity equal to the stored count leaves the write position behind the last slot. */
  method ResizeToFull(data: seq<Byte>) returns (p: Pipe)
    requires |data| == MIN_PIPE_SIZE
    ensures fresh(p) && fresh(p.buffer) && p.Valid() && p.count == p.tail == p.buffer.Length == MIN_PIPE_SIZE
  {
    p := new Pipe();
    var n := p.PushChunk(0, data);
    var r := p.SetPipeSize(MIN_PIPE_SIZE, true);
  }

  method TakeOne(p: Pipe)
    requires p.Valid() && p.count > 0
    modifies p`head, p`count, p`taken
    ensures p.Valid() && p.count == old(p.count) - 1
  {
    var got := p.PopChunk(0, 1);
  }

  /** There the next write moves it to the first slot without storing a byte. */
  method WriteAfterResize(data: seq<Byte>) returns (p: Pipe, chunk: nat)
    requires |data| == MIN_PIPE_SIZE
    ensures fresh(p) && p.Valid() && chunk == 0 && p.tail == 0 && p.count == MIN_PIPE_SIZE - 1
  {
    p := ResizeToFull(data);
    TakeOne(p);
    chunk := p.PushChunk(0, data);
  }

  // ----- waiters -------------------------------------------------------------------------------

  /** The threads waiting at one end: a count and, while only one thread waits, its identity. */
  class Waiters {
    var single: int
    var count: nat
    ghost var who: multiset<nat>

    ghost predicate Valid()
      reads this
    {
      && count == |who| && single >= -1
      && (single >= 0 ==> forall x :: x in who ==> x == single)
      && (count == 0 ==> single == -1)
    }

    constructor ()
      ensures Valid() && who == multiset{}
    {
      single, count, who := -1, 0, multiset{};
    }

    method Note(waiter: nat)
      requires Valid()
      modifies this
      ensures Valid() && who == old(who) + multiset{waiter}
      ensures single == if old(who) == multiset{} || old(single) == waiter then waiter else -1
    {
      if count == 0 {
        single := waiter;
      } else if single != waiter {
        single := -1;
      }
      count := count + 1;
      who := who + multiset{waiter};
    }

    method Forget(waiter: nat)
      requires Valid() && (waiter in who || count == 0)
      modifies this
      ensures Valid() && who == old(who) - multiset{waiter}
      ensures single == if who == multiset{} || old(single) == waiter then -1 else old(single)
    {
      if count == 0 {
        single := -1;
        return;
      }
      count := count - 1;
      if count == 0 || single == waiter {
        single := -1;
      }
      who := who - multiset{waiter};
    }

    /** Whoever waits is woken: nobody only when nobody waits, one thread only when it is the one. */
    method WakeAll() returns (w: Wake)
      requires Valid()
      ensures w.Nobody? <==> who == multiset{}
      ensures w.One? ==> who == multiset{w.who}
      ensures w.One? <==> single >= 0 && |who| == 1
    {
      if count == 0 {
        return Nobody;
      }
      if count == 1 && single >= 0 {
        assert |who - multiset{single}| == 0 by {
          var x :| x in who;
        }
        return One(single);
      }
      w := All;
    }
  }
}
