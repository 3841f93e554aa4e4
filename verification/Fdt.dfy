/** The structure block of a flattened devicetree, section 5.4 of the Devicetree Specification: its
    tokens, the trees they encode, and the walker that reads them back. */
module Fdt {
  type Byte = x: int | 0 <= x < 256

  const BEGIN_NODE := 1
  const END_NODE := 2
  const PROP := 3
  const NOP := 4
  const END := 9

  // ----- big-endian words ----------------------------------------------------------------------

  /** Value of a byte string read from its most significant end. */
  ghost function BigEndian(s: seq<Byte>): nat {
    if s == [] then 0 else BigEndian(s[..|s| - 1]) * 0x100 + s[|s| - 1] as int
  }

  ghost function Be32(s: seq<Byte>, at: nat): nat
    requires at + 4 <= |s|
  {
    BigEndian(s[at..at + 4])
  }

  lemma FourBytes(w: seq<Byte>)
    requires |w| == 4
    ensures BigEndian(w) == ((w[0] as int * 0x100 + w[1] as int) * 0x100 + w[2] as int) * 0x100 + w[3] as int
  {
    assert w[..3][..2] == w[..2] && w[..2][..1] == w[..1] && w[..1][..0] == [];
    assert BigEndian(w[..1]) == w[0] as int;
    assert BigEndian(w[..2]) == BigEndian(w[..1]) * 0x100 + w[1] as int;
    assert BigEndian(w[..3]) == BigEndian(w[..2]) * 0x100 + w[2] as int;
  }

  /** Reads a big-endian word. */
  method ReadBe32(s: seq<Byte>, at: nat) returns (v: nat)
    requires at + 4 <= |s|
    ensures v == Be32(s, at)
  {
    FourBytes(s[at..at + 4]);
    v := s[at] as int * 0x100_0000 + s[at + 1] as int * 0x1_0000 + s[at + 2] as int * 0x100 + s[at + 3] as int;
  }

  lemma WordExists(v: nat)
    requires v < 0x1_0000_0000
    ensures exists w: seq<Byte> :: |w| == 4 && BigEndian(w) == v
  {
    var high, low := v / 0x1_0000, v % 0x1_0000;
    var w: seq<Byte> := [high / 0x100, high % 0x100, low / 0x100, low % 0x100];
    FourBytes(w);
    assert w[0] as int * 0x100 + w[1] as int == high && w[2] as int * 0x100 + w[3] as int == low;
  }

  /** The four bytes of a word. */
  ghost function Word(v: nat): (w: seq<Byte>)
    requires v < 0x1_0000_0000
    ensures |w| == 4 && BigEndian(w) == v
  {
    WordExists(v);
    var w: seq<Byte> :| |w| == 4 && BigEndian(w) == v;
    w
  }

  /** The next multiple of four. */
  function Align4(x: nat): (r: nat)
    ensures x <= r < x + 4
  {
    if x == 0 then 0 else if x <= 4 then 4 else 4 + Align4(x - 4)
  }

  lemma {:induction false} AlignRounds(x: nat)
    ensures Align4(x) == (x + 3) / 4 * 4
  {
    if x > 4 {
      AlignRounds(x - 4);
    }
  }

  // ----- strings -------------------------------------------------------------------------------

  ghost predicate FirstNul(s: seq<Byte>, i: nat, j: nat) {
    i <= j <= |s| && (j < |s| ==> s[j] == 0) && forall k :: i <= k < j ==> s[k] != 0
  }

  lemma {:induction false} FirstNulExists(s: seq<Byte>, i: nat)
    requires i <= |s|
    ensures exists j :: FirstNul(s, i, j)
    decreases |s| - i
  {
    if i == |s| || s[i] == 0 {
      assert FirstNul(s, i, i);
    } else {
      FirstNulExists(s, i + 1);
      var j :| FirstNul(s, i + 1, j);
      assert FirstNul(s, i, j);
    }
  }

  /** Place of the first NUL from `i` on, or the length. */
  ghost function NulAt(s: seq<Byte>, i: nat): (j: nat)
    requires i <= |s|
    ensures FirstNul(s, i, j)
  {
    FirstNulExists(s, i);
    var j :| FirstNul(s, i, j);
    j
  }

  lemma NulAfter(s: seq<Byte>, i: nat, name: seq<Byte>)
    requires i + |name| < |s| && s[i..i + |name|] == name && s[i + |name|] == 0
    requires forall k :: 0 <= k < |name| ==> name[k] != 0
    ensures NulAt(s, i) == i + |name|
  {
  }

  /** The block and strings of a loaded tree; `base` is the address of the structure block. */
  datatype Cursor = Cursor(base: nat, block: seq<Byte>, strings: seq<Byte>)

  ghost predicate HasName(c: Cursor, off: nat) {
    off < |c.strings| && NulAt(c.strings, off) < |c.strings|
  }

  ghost function NameOf(c: Cursor, off: nat): seq<Byte>
    requires off <= |c.strings|
  {
    c.strings[off..NulAt(c.strings, off)]
  }

  // ----- the walk as a function ----------------------------------------------------------------

  datatype Event =
    | Begin(depth: int, name: seq<Byte>)
    | End(depth: int)
    | Property(depth: int, name: seq<Byte>, value: seq<Byte>)

  datatype Parse = Skip(pos: nat) | Emit(event: Event, pos: nat, depth: nat) | Finish | Fail

  ghost function ParseBegin(c: Cursor, at: nat, depth: nat): Parse
    requires at <= |c.block|
  {
    var nul := NulAt(c.block, at);
    if nul == |c.block| then Fail else Emit(Begin(depth, c.block[at..nul]), nul + 1, depth + 1)
  }

  ghost function ParseProp(c: Cursor, at: nat, depth: nat): Parse
    requires at <= |c.block|
  {
    if |c.block| - at < 8 then Fail
    else
      var length, off := Be32(c.block, at), Be32(c.block, at + 4);
      if Align4(length) > |c.block| - (at + 8) || !HasName(c, off) || depth == 0 then Fail
      else Emit(Property(depth - 1, NameOf(c, off), c.block[at + 8..at + 8 + length]), at + 8 + Align4(length), depth)
  }

  /** What a token says, given the place after it. */
  ghost function Decode(c: Cursor, token: nat, at: nat, depth: nat): Parse
    requires at <= |c.block|
  {
    if token == NOP then Skip(at)
    else if token == END then if depth == 0 then Finish else Fail
    else if token == BEGIN_NODE then ParseBegin(c, at, depth)
    else if token == END_NODE then if depth == 0 then Fail else Emit(End(depth - 1), at, depth - 1)
    else if token == PROP then ParseProp(c, at, depth)
    else Fail
  }

  /** The place in the block of the next address that is a multiple of four. */
  function Place(c: Cursor, pos: nat): (at: nat)
    ensures pos <= at < pos + 4
  {
    Align4(c.base + pos) - c.base
  }

  /** One token, read at the next multiple of four. */
  ghost function ParseToken(c: Cursor, pos: nat, depth: nat): Parse
    requires pos <= |c.block|
  {
    ParseFrom(c, Place(c, pos), depth)
  }

  ghost function ParseFrom(c: Cursor, at: nat, depth: nat): Parse {
    if at + 4 > |c.block| then Fail else Decode(c, Be32(c.block, at), at + 4, depth)
  }

  lemma ParseAdvances(c: Cursor, pos: nat, depth: nat)
    requires pos <= |c.block|
    ensures var p := ParseToken(c, pos, depth);
      p.Skip? || p.Emit? ==> pos < p.pos <= |c.block|
  {
  }

  datatype Walked = Walked(events: seq<Event>, ok: bool)

  /** All events from a position on, and whether the walk ends well. */
  ghost function Walk(c: Cursor, pos: nat, depth: nat): Walked
    requires pos <= |c.block|
    decreases |c.block| - pos
  {
    ParseAdvances(c, pos, depth);
    match ParseToken(c, pos, depth)
    case Fail => Walked([], false)
    case Finish => Walked([], true)
    case Skip(pos') => Walk(c, pos', depth)
    case Emit(e, pos', depth') =>
      var rest := Walk(c, pos', depth');
      Walked([e] + rest.events, rest.ok)
  }

  // ----- the walker ----------------------------------------------------------------------------

  /** Whether a string that starts at `start` ends before the end of `s`. */
  method BoundedString(s: seq<Byte>, start: nat) returns (found: bool)
    ensures found <==> start < |s| && NulAt(s, start) < |s|
  {
    if start >= |s| {
      return false;
    }
    var i := start;
    while i < |s|
      invariant start <= i <= |s| && forall k :: start <= k < i ==> s[k] != 0
    {
      if s[i] == 0 {
        return true;
      }
      i := i + 1;
    }
    found := false;
  }

  method NameEnd(s: seq<Byte>, start: nat) returns (i: nat)
    requires start <= |s|
    ensures i == NulAt(s, start)
  {
    i := start;
    while i < |s| && s[i] != 0
      invariant start <= i <= |s| && forall k :: start <= k < i ==> s[k] != 0
    {
      i := i + 1;
    }
  }

  class FdtWalker {
    const c: Cursor
    var pos: nat
    var depth: nat
    var valid: bool
    var finished: bool

    ghost predicate Ok()
      reads this
    {
      pos <= |c.block|
    }

    /** What the walk has still to yield. */
    ghost function Ahead(): Walked
      requires Ok()
      reads this
    {
      if valid && !finished then Walk(c, pos, depth) else Walked([], valid)
    }

    constructor (c: Cursor)
      ensures Ok() && this.c == c && Ahead() == Walk(c, 0, 0)
    {
      this.c := c;
      pos, depth, valid, finished := 0, 0, true, false;
    }

    /** Reads a node name; the token has been consumed. */
    method NextBegin() returns (more: bool, event: Event)
      requires Ok()
      modifies this`pos, this`depth, this`valid
      ensures Ok()
      ensures match ParseBegin(c, old(pos), old(depth))
              case Emit(e, p, d) => more && event == e && pos == p && depth == d && valid == old(valid)
              case _ => !more && !valid
    {
      event := End(0);
      var found := BoundedString(c.block, pos);
      if !found {
        valid := false;
        return false, event;
      }
      var nameEnd := NameEnd(c.block, pos);
      event := Begin(depth, c.block[pos..nameEnd]);
      pos := nameEnd + 1;
      depth := depth + 1;
      more := true;
    }

    /** Reads a property; the token has been consumed. */
    method NextProperty() returns (more: bool, event: Event)
      requires Ok()
      modifies this`pos, this`valid
      ensures Ok()
      ensures match ParseProp(c, old(pos), depth)
              case Emit(e, p, d) => more && event == e && pos == p && depth == d && valid == old(valid)
              case _ => !more && !valid
    {
      more, event := false, End(0);
      if |c.block| - pos < 8 {
        valid := false;
        return;
      }
      var length := ReadBe32(c.block, pos);
      var off := ReadBe32(c.block, pos + 4);
      var at := pos + 8;
      if Align4(length) > |c.block| - at {
        valid := false;
        return;
      }
      var named := BoundedString(c.strings, off);
      if !named || depth == 0 {
        valid := false;
        return;
      }
      var end := NameEnd(c.strings, off);
      event := Property(depth - 1, c.strings[off..end], c.block[at..at + length]);
      pos := at + Align4(length);
      more := true;
    }

    /** What the walker does when parsing gives `p`. */
    ghost predicate Follows(p: Parse, more: bool, event: Event, depth0: nat)
      reads this
    {
      match p
      case Emit(e, pos', depth') => more && event == e && pos == pos' && depth == depth' && valid && !finished
      case Skip(pos') => !more && pos == pos' && depth == depth0 && valid && !finished
      case Finish => !more && valid && finished
      case Fail => !more && !valid && !finished
    }

    method Act(token: nat) returns (more: bool, event: Event)
      requires Ok() && valid && !finished
      modifies this
      ensures Ok() && Follows(Decode(c, token, old(pos), old(depth)), more, event, old(depth))
    {
      more, event := false, End(0);
      if token == END {
        finished := depth == 0;
        valid := finished;
      } else if token == BEGIN_NODE {
        more, event := NextBegin();
      } else if token == END_NODE {
        if depth == 0 {
          valid := false;
        } else {
          depth := depth - 1;
          more, event := true, End(depth);
        }
      } else if token == PROP {
        more, event := NextProperty();
      } else if token != NOP {
        valid := false;
      }
    }

    /** One token. */
    method NextToken() returns (more: bool, event: Event)
      requires Ok() && valid && !finished
      modifies this
      ensures Ok() && Follows(ParseToken(c, old(pos), old(depth)), more, event, old(depth))
    {
      more, event := false, End(0);
      var at := Place(c, pos);
      if at > |c.block| || |c.block| - at < 4 {
        valid := false;
        return;
      }
      pos := at + 4;
      var token := ReadBe32(c.block, at);
      more, event := Act(token);
    }

    /** The next event, or the end of the walk. */
    method Next() returns (more: bool, event: Event)
      requires Ok()
      modifies this
      ensures Ok()
      ensures more ==> old(Ahead()) == Walked([event] + Ahead().events, Ahead().ok) && pos > old(pos)
      ensures !more ==> old(Ahead()) == Walked([], valid && finished)
    {
      more, event := false, End(0);
      ghost var ahead := Ahead();
      while valid && !finished && !more
        invariant Ok() && (valid && !finished ==> old(pos) <= pos)
        invariant if more then ahead == Walked([event] + Ahead().events, Ahead().ok)
                  && pos > old(pos) else Ahead() == ahead
        decreases valid && !finished && !more, |c.block| - pos
      {
        ParseAdvances(c, pos, depth);
        more, event := NextToken();
      }
    }
  }

  method ValidateFdtStructure(c: Cursor) returns (ok: bool)
    ensures ok == Walk(c, 0, 0).ok
  {
    var walker := new FdtWalker(c);
    var more, event := walker.Next();
    while more
      invariant walker.Ok() && walker.c == c
      invariant if more then walker.Ahead().ok == Walk(c, 0, 0).ok
                else (walker.valid && walker.finished) == Walk(c, 0, 0).ok
      decreases more, |c.block| - walker.pos
    {
      more, event := walker.Next();
    }
    ok := walker.valid && walker.finished;
  }

  // ----- any bytes -----------------------------------------------------------------------------

  /** The depth after one event at depth `d`, or a break in the nesting. */
  ghost predicate Fits(e: Event, d: int) {
    match e
    case Begin(x, _) => x == d
    case End(x) => x == d - 1 && x >= 0
    case Property(x, _, _) => x == d - 1 && x >= 0
  }

  ghost function Depth(e: Event, d: int): int {
    match e
    case Begin(_, _) => d + 1
    case End(_) => d - 1
    case Property(_, _, _) => d
  }

  /** Events nest: each begins or ends at the current depth, and the last leaves depth `end`. */
  ghost predicate Nested(events: seq<Event>, d: int, end: int) {
    if events == [] then d == end else Fits(events[0], d) && Nested(events[1..], Depth(events[0], d), end)
  }

  ghost predicate NestedSomehow(events: seq<Event>, d: int) {
    exists end :: Nested(events, d, end)
  }

  ghost predicate SliceAt(s: seq<Byte>, at: nat, data: seq<Byte>) {
    at + |data| <= |s| && s[at..at + |data|] == data
  }

  /** The stretch of the block that one event was read from, the token included. */
  datatype Span = Span(from: nat, to: nat)

  ghost predicate Says(c: Cursor, at: nat, v: nat) {
    at + 4 <= |c.block| && Be32(c.block, at) == v
  }

  ghost predicate NoNul(s: seq<Byte>) {
    forall k :: 0 <= k < |s| ==> s[k] != 0
  }

  /** An event is what its own stretch of the block says, with the token values of section 5.4.1: a name
      after the token 1 up to a zero byte, the token 2 alone, or after the token 3 the length of the value,
      the place of the property's name in the strings, and the value itself. */
  ghost predicate ReadAt(c: Cursor, span: Span, e: Event) {
    && span.from + 4 <= span.to <= |c.block|
    && match e
       case Begin(_, name) =>
         && Says(c, span.from, 1) && SliceAt(c.block, span.from + 4, name + [0]) && NoNul(name)
         && span.to == span.from + 4 + |name| + 1
       case End(_) => Says(c, span.from, 2) && span.to == span.from + 4
       case Property(_, name, value) =>
         && Says(c, span.from, 3) && span.from + 12 <= |c.block| && Says(c, span.from + 4, |value|)
         && SliceAt(c.block, span.from + 12, value) && span.to == span.from + 12 + Align4(|value|)
         && SliceAt(c.strings, Be32(c.block, span.from + 8), name + [0]) && NoNul(name)
  }

  ghost predicate EmitOk(c: Cursor, p: Parse, from: nat, depth: nat) {
    p.Emit? ==> Fits(p.event, depth) && p.depth == Depth(p.event, depth) && ReadAt(c, Span(from, p.pos), p.event)
  }

  lemma BeginFits(c: Cursor, from: nat, depth: nat)
    requires from + 4 <= |c.block|
    ensures Says(c, from, 1) ==> EmitOk(c, ParseBegin(c, from + 4, depth), from, depth)
  {
    var nul := NulAt(c.block, from + 4);
    if nul < |c.block| {
      assert c.block[from + 4..nul] + [0] == c.block[from + 4..nul + 1];
    }
  }

  lemma PropFits(c: Cursor, from: nat, depth: nat)
    requires from + 4 <= |c.block|
    ensures Says(c, from, 3) ==> EmitOk(c, ParseProp(c, from + 4, depth), from, depth)
  {
    if ParseProp(c, from + 4, depth).Emit? {
      var off := Be32(c.block, from + 8);
      var nul := NulAt(c.strings, off);
      assert c.strings[off..nul] + [0] == c.strings[off..nul + 1];
    }
  }

  lemma ParseFits(c: Cursor, pos: nat, depth: nat)
    requires pos <= |c.block|
    ensures var (p, from) := (ParseToken(c, pos, depth), Place(c, pos));
      && EmitOk(c, p, from, depth)
      && (p.Skip? ==> Says(c, from, 4) && p.pos == from + 4) && (p.Finish? ==> depth == 0 && Says(c, from, 9))
  {
    var from := Place(c, pos);
    if from + 4 <= |c.block| {
      BeginFits(c, from, depth);
      PropFits(c, from, depth);
    }
  }

  /** Tokens stand at multiples of four. */
  ghost predicate Stands(c: Cursor, x: nat) {
    (c.base + x) % 4 == 0
  }

  /** From `pos` on, nothing but NOP tokens, whose value is 4, before the token at `at`. */
  ghost predicate Gap(c: Cursor, pos: nat, at: nat) {
    pos <= at && Stands(c, at) && forall x: nat :: pos <= x < at && Stands(c, x) ==> Says(c, x, 4)
  }

  /** Events read from stretches of the block that follow each other, with only NOPs between them; a walk
      that ends well ends at the end token, whose value is 9. */
  ghost predicate Laid(c: Cursor, w: Walked, spans: seq<Span>, end: nat, pos: nat)
    decreases |w.events|
  {
    && |spans| == |w.events|
    && if w.events == [] then w.ok ==> Gap(c, pos, end) && Says(c, end, 9)
       else
         && Gap(c, pos, spans[0].from) && ReadAt(c, spans[0], w.events[0])
         && Laid(c, Walked(w.events[1..], w.ok), spans[1..], end, spans[0].to)
  }

  lemma LaidCons(c: Cursor, e: Event, span: Span, w: Walked, spans: seq<Span>, end: nat, pos: nat)
    requires Gap(c, pos, span.from) && ReadAt(c, span, e) && Laid(c, w, spans, end, span.to)
    ensures Laid(c, Walked([e] + w.events, w.ok), [span] + spans, end, pos)
  {
    assert ([e] + w.events)[1..] == w.events && ([span] + spans)[1..] == spans;
  }

  lemma OneOfFour(c: Cursor, x: nat, y: nat)
    requires Stands(c, y) && x < y + 4 && y < x + 4
    ensures Stands(c, x) <==> x == y
  {
  }

  lemma PlaceGap(c: Cursor, pos: nat)
    ensures Gap(c, pos, Place(c, pos))
  {
    var from := Place(c, pos);
    AlignRounds(c.base + pos);
    forall x: nat | pos <= x < from ensures !Stands(c, x) {
      OneOfFour(c, x, from);
    }
  }

  lemma GapLonger(c: Cursor, pos: nat, from: nat, at: nat)
    requires Gap(c, pos, from) && from < pos + 4 && Says(c, from, 4) && Gap(c, from + 4, at)
    ensures Gap(c, pos, at)
  {
    forall x: nat | pos <= x < at && Stands(c, x) ensures Says(c, x, 4) {
      if x < from + 4 {
        OneOfFour(c, x, from);
      }
    }
  }

  lemma LaidLater(c: Cursor, w: Walked, spans: seq<Span>, end: nat, pos: nat, from: nat)
    requires Laid(c, w, spans, end, from + 4) && Gap(c, pos, from) && from < pos + 4 && Says(c, from, 4)
    ensures Laid(c, w, spans, end, pos)
  {
    if w.events != [] {
      GapLonger(c, pos, from, spans[0].from);
    } else if w.ok {
      GapLonger(c, pos, from, end);
    }
  }

  /** On any bytes whatever, the events nest, end at depth zero when the walk ends well, and are read
      from stretches of the block that lie inside it one after the other. */
  lemma {:induction false} WalkNests(c: Cursor, pos: nat, depth: nat) returns (spans: seq<Span>, end: nat)
    requires pos <= |c.block|
    ensures var w := Walk(c, pos, depth);
      NestedSomehow(w.events, depth) && (w.ok ==> Nested(w.events, depth, 0)) && Laid(c, w, spans, end, pos)
    decreases |c.block| - pos
  {
    ParseAdvances(c, pos, depth);
    ParseFits(c, pos, depth);
    PlaceGap(c, pos);
    var p := ParseToken(c, pos, depth);
    spans, end := [], Place(c, pos);
    if p.Skip? {
      spans, end := WalkNests(c, p.pos, depth);
      LaidLater(c, Walk(c, p.pos, depth), spans, end, pos, Place(c, pos));
    } else if p.Emit? {
      var rest;
      rest, end := WalkNests(c, p.pos, p.depth);
      var w := Walk(c, p.pos, p.depth);
      NestedCons(p.event, w.events, depth);
      spans := [Span(Place(c, pos), p.pos)] + rest;
      LaidCons(c, p.event, Span(Place(c, pos), p.pos), w, rest, end, pos);
    } else {
      assert Nested([], depth, depth);
    }
  }

  lemma NestedCons(e: Event, events: seq<Event>, d: int)
    requires Fits(e, d) && NestedSomehow(events, Depth(e, d))
    ensures NestedSomehow([e] + events, d)
    ensures Nested(events, Depth(e, d), 0) ==> Nested([e] + events, d, 0)
  {
    assert ([e] + events)[1..] == events;
    var end :| Nested(events, Depth(e, d), end);
    assert Nested([e] + events, d, end);
  }
}
