/** Devicetrees, their encoding as a structure block, and what the walker yields for it. */
module FdtTree {
  import opened Fdt

  datatype Token = TNop | TBegin(name: seq<Byte>) | TProp(off: nat, value: seq<Byte>) | TEnd

  /** Node names hold no NUL; property names are strings of the strings block. */
  ghost predicate TokenOk(c: Cursor, t: Token) {
    match t
    case TBegin(name) => forall k :: 0 <= k < |name| ==> name[k] != 0
    case TProp(off, value) => off < 0x1_0000_0000 && |value| < 0x1_0000_0000 && HasName(c, off)
    case _ => true
  }

  ghost function Zeros(n: nat): (z: seq<Byte>)
    ensures |z| == n
  {
    seq(n, _ => 0)
  }

  ghost function Padding(n: nat): seq<Byte> {
    Zeros(Align4(n) - n)
  }

  ghost function EncodeToken(c: Cursor, t: Token): seq<Byte>
    requires TokenOk(c, t)
  {
    match t
    case TNop => Word(4)
    case TBegin(name) => Word(1) + ((name + [0]) + Padding(|name| + 1))
    case TProp(off, value) => Word(3) + (Word(|value|) + (Word(off) + (value + Padding(|value|))))
    case TEnd => Word(2)
  }

  ghost predicate AllOk(c: Cursor, ts: seq<Token>) {
    forall i :: 0 <= i < |ts| ==> TokenOk(c, ts[i])
  }

  ghost function Encode(c: Cursor, ts: seq<Token>): seq<Byte>
    requires AllOk(c, ts)
  {
    if ts == [] then [] else EncodeToken(c, ts[0]) + Encode(c, ts[1..])
  }

  lemma SliceSplit(s: seq<Byte>, at: nat, a: seq<Byte>, b: seq<Byte>)
    requires SliceAt(s, at, a + b)
    ensures SliceAt(s, at, a) && SliceAt(s, at + |a|, b)
  {
    var ab := s[at..at + |a + b|];
    assert ab[..|a|] == a && ab[|a|..] == b;
    assert s[at..at + |a|] == ab[..|a|] && s[at + |a|..at + |a| + |b|] == ab[|a|..];
  }

  // ----- one token -----------------------------------------------------------------------------

  ghost predicate Feasible1(t: Token, depth: nat) {
    t.TProp? || t.TEnd? ==> depth > 0
  }

  ghost function Depth1(t: Token, depth: nat): nat
    requires Feasible1(t, depth)
  {
    match t
    case TBegin(_) => depth + 1
    case TEnd => depth - 1
    case _ => depth
  }

  ghost function EventFor(c: Cursor, t: Token, depth: nat): Event
    requires Feasible1(t, depth) && TokenOk(c, t) && !t.TNop?
  {
    match t
    case TBegin(name) => Begin(depth, name)
    case TProp(off, value) => Property(depth - 1, NameOf(c, off), value)
    case TEnd => End(depth - 1)
  }

  ghost function Event1(c: Cursor, t: Token, depth: nat): seq<Event>
    requires Feasible1(t, depth) && TokenOk(c, t)
  {
    if t.TNop? then [] else [EventFor(c, t, depth)]
  }

  ghost function TokenSize(t: Token): nat {
    match t
    case TBegin(name) => 4 + Align4(|name| + 1)
    case TProp(_, value) => 12 + Align4(|value|)
    case _ => 4
  }

  lemma TokenLength(c: Cursor, t: Token)
    requires TokenOk(c, t)
    ensures |EncodeToken(c, t)| == TokenSize(t)
  {
  }

  /** Parsing read one token and stopped somewhere before the next multiple of four. */
  ghost predicate Reads(c: Cursor, p: Parse, t: Token, at: nat, depth: nat, q: nat)
    requires Feasible1(t, depth) && TokenOk(c, t)
  {
    && Align4(q) == at + TokenSize(t) && at < q <= |c.block|
    && if t.TNop? then p == Skip(q)
       else p.Emit? && p.pos == q && p.depth == Depth1(t, depth) && p.event == EventFor(c, t, depth)
  }

  ghost predicate Aligned(x: nat) {
    Align4(x) == x
  }

  lemma {:induction false} AlignAligns(x: nat)
    ensures Aligned(Align4(x))
  {
    if x > 4 {
      AlignAligns(x - 4);
    }
  }

  lemma {:induction false} AlignPast(at: nat, n: nat)
    requires Aligned(at)
    ensures Align4(at + n) == at + Align4(n)
    decreases at
  {
    if at > 4 {
      AlignPast(at - 4, n);
    }
  }

  lemma AlignedWhen(x: nat)
    requires x % 4 == 0
    ensures Aligned(x)
  {
    AlignRounds(x);
  }

  lemma AlignFixed(at: nat, n: nat)
    requires Aligned(at) && Aligned(n)
    ensures Aligned(at + n)
  {
    AlignPast(at, n);
  }

  // ----- from bytes to fields ------------------------------------------------------------------

  ghost predicate WordAt(c: Cursor, at: nat, v: nat) {
    at + 4 <= |c.block| && Be32(c.block, at) == v
  }

  /** The fields of a token are where the encoding puts them. */
  ghost predicate EncodedAt(c: Cursor, at: nat, t: Token) {
    && at + TokenSize(t) <= |c.block|
    && match t
       case TNop => WordAt(c, at, 4)
       case TEnd => WordAt(c, at, 2)
       case TBegin(name) => WordAt(c, at, 1) && SliceAt(c.block, at + 4, name + [0])
       case TProp(off, value) =>
         WordAt(c, at, 3) && WordAt(c, at + 4, |value|) && WordAt(c, at + 8, off) && SliceAt(c.block, at + 12, value)
  }

  lemma SliceWord(c: Cursor, at: nat, v: nat)
    requires v < 0x1_0000_0000 && SliceAt(c.block, at, Word(v))
    ensures WordAt(c, at, v)
  {
  }

  lemma BeginFields(c: Cursor, at: nat, name: seq<Byte>)
    requires TokenOk(c, TBegin(name)) && SliceAt(c.block, at, EncodeToken(c, TBegin(name)))
    ensures EncodedAt(c, at, TBegin(name))
  {
    SliceSplit(c.block, at, Word(1), (name + [0]) + Padding(|name| + 1));
    SliceSplit(c.block, at + 4, name + [0], Padding(|name| + 1));
    SliceWord(c, at, 1);
  }

  lemma PropFields(c: Cursor, at: nat, off: nat, value: seq<Byte>)
    requires TokenOk(c, TProp(off, value)) && SliceAt(c.block, at, EncodeToken(c, TProp(off, value)))
    ensures EncodedAt(c, at, TProp(off, value))
  {
    var tail := value + Padding(|value|);
    SliceSplit(c.block, at, Word(3), Word(|value|) + (Word(off) + tail));
    SliceSplit(c.block, at + 4, Word(|value|), Word(off) + tail);
    SliceSplit(c.block, at + 8, Word(off), tail);
    SliceSplit(c.block, at + 12, value, Padding(|value|));
    SliceWord(c, at, 3);
    SliceWord(c, at + 4, |value|);
    SliceWord(c, at + 8, off);
  }

  lemma SliceFields(c: Cursor, at: nat, t: Token)
    requires TokenOk(c, t) && SliceAt(c.block, at, EncodeToken(c, t))
    ensures EncodedAt(c, at, t)
  {
    match t
    case TBegin(name) => BeginFields(c, at, name);
    case TProp(off, value) => PropFields(c, at, off, value);
    case TNop => SliceWord(c, at, 4);
    case TEnd => SliceWord(c, at, 2);
  }

  // ----- from fields to events -----------------------------------------------------------------

  lemma BeginName(s: seq<Byte>, at: nat, name: seq<Byte>)
    requires SliceAt(s, at, name + [0]) && forall k :: 0 <= k < |name| ==> name[k] != 0
    ensures SliceAt(s, at, name) && at + |name| < |s| && NulAt(s, at) == at + |name|
  {
    SliceSplit(s, at, name, [0]);
    assert s[at + |name|] == s[at + |name|..at + |name| + 1][0];
    NulAfter(s, at, name);
  }

  lemma BeginEnd(at: nat, n: nat)
    requires Aligned(at) && n > 0
    ensures Align4(at + 4 + n) == at + 4 + Align4(n)
  {
    AlignFixed(at, 4);
    AlignPast(at + 4, n);
  }

  lemma DecodeBegin(c: Cursor, at: nat, depth: nat, t: Token, q: nat)
    requires Aligned(at) && t.TBegin? && TokenOk(c, t) && EncodedAt(c, at, t) && q == at + 5 + |t.name|
    ensures Reads(c, ParseBegin(c, at + 4, depth), t, at, depth, q)
  {
    BeginName(c.block, at + 4, t.name);
    BeginEnd(at, 1 + |t.name|);
  }

  lemma PropParse(c: Cursor, at: nat, depth: nat, t: Token)
    requires t.TProp? && TokenOk(c, t) && EncodedAt(c, at, t) && depth > 0
    ensures var p := ParseProp(c, at + 4, depth);
      p.Emit? && p.pos == at + TokenSize(t) && p.depth == depth && p.event == EventFor(c, t, depth)
  {
  }

  lemma PropEnd(at: nat, n: nat)
    requires Aligned(at)
    ensures Aligned(at + 12 + Align4(n))
  {
    AlignAligns(n);
    AlignFixed(12, Align4(n));
    AlignFixed(at, 12 + Align4(n));
  }

  lemma DecodeProp(c: Cursor, at: nat, depth: nat, t: Token, q: nat)
    requires Aligned(at) && t.TProp? && TokenOk(c, t) && EncodedAt(c, at, t) && depth > 0 && q == at + TokenSize(t)
    ensures Reads(c, ParseProp(c, at + 4, depth), t, at, depth, q)
  {
    PropParse(c, at, depth, t);
    PropEnd(at, |t.value|);
  }

  lemma DecodeReads(c: Cursor, at: nat, depth: nat, t: Token) returns (q: nat)
    requires Aligned(at) && TokenOk(c, t) && Feasible1(t, depth) && EncodedAt(c, at, t)
    ensures Reads(c, ParseFrom(c, at, depth), t, at, depth, q)
  {
    match t
    case TBegin(name) =>
      q := at + 5 + |name|;
      DecodeBegin(c, at, depth, t, q);
    case TProp(_, _) =>
      q := at + TokenSize(t);
      DecodeProp(c, at, depth, t, q);
    case _ =>
      AlignFixed(at, 4);
      q := at + 4;
  }

  lemma AlignedPlace(c: Cursor, pos: nat)
    requires Aligned(c.base)
    ensures Place(c, pos) == Align4(pos)
  {
    AlignPast(c.base, pos);
  }

  /** The walker reads an encoded token back. */
  lemma TokenReads(c: Cursor, pos: nat, at: nat, depth: nat, t: Token) returns (q: nat)
    requires Aligned(c.base) && pos <= |c.block| && at == Align4(pos)
    requires TokenOk(c, t) && Feasible1(t, depth) && EncodedAt(c, at, t)
    ensures Reads(c, ParseToken(c, pos, depth), t, at, depth, q)
  {
    AlignAligns(pos);
    AlignedPlace(c, pos);
    q := DecodeReads(c, at, depth, t);
  }

  // ----- token lists ---------------------------------------------------------------------------

  /** No end and no property at depth zero. */
  ghost predicate Feasible(ts: seq<Token>, depth: nat) {
    ts == [] || (Feasible1(ts[0], depth) && Feasible(ts[1..], Depth1(ts[0], depth)))
  }

  ghost function DepthAfter(ts: seq<Token>, depth: nat): nat
    requires Feasible(ts, depth)
  {
    if ts == [] then depth else DepthAfter(ts[1..], Depth1(ts[0], depth))
  }

  ghost function EventsOf(c: Cursor, ts: seq<Token>, depth: nat): seq<Event>
    requires Feasible(ts, depth) && AllOk(c, ts)
  {
    if ts == [] then [] else Event1(c, ts[0], depth) + EventsOf(c, ts[1..], Depth1(ts[0], depth))
  }

  ghost predicate WalksOn(c: Cursor, w: Walked, events: seq<Event>, q: nat, depth: nat) {
    q <= |c.block| && w.events == events + Walk(c, q, depth).events && w.ok == Walk(c, q, depth).ok
  }

  lemma WalkOne(c: Cursor, pos: nat, depth: nat, t: Token, q: nat)
    requires pos <= |c.block| && TokenOk(c, t) && Feasible1(t, depth)
    requires Reads(c, ParseToken(c, pos, depth), t, Align4(pos), depth, q)
    ensures WalksOn(c, Walk(c, pos, depth), Event1(c, t, depth), q, Depth1(t, depth))
  {
  }

  /** Parsing reads the tokens one after the other. */
  ghost predicate Steps(c: Cursor, pos: nat, depth: nat, ts: seq<Token>, q: nat)
    requires pos <= |c.block| && AllOk(c, ts) && Feasible(ts, depth)
    decreases |ts|
  {
    if ts == [] then q == pos
    else
      var p := ParseToken(c, pos, depth);
      && (p.Skip? || p.Emit?) && Reads(c, p, ts[0], Align4(pos), depth, p.pos)
      && Steps(c, p.pos, Depth1(ts[0], depth), ts[1..], q)
  }

  lemma HeadFields(c: Cursor, at: nat, ts: seq<Token>)
    requires AllOk(c, ts) && ts != [] && SliceAt(c.block, at, Encode(c, ts))
    ensures EncodedAt(c, at, ts[0]) && |Encode(c, ts)| == TokenSize(ts[0]) + |Encode(c, ts[1..])|
    ensures SliceAt(c.block, at + TokenSize(ts[0]), Encode(c, ts[1..]))
  {
    var token, rest := EncodeToken(c, ts[0]), Encode(c, ts[1..]);
    assert Encode(c, ts) == token + rest;
    HeadSplit(c, at, ts[0], rest);
  }

  lemma HeadSplit(c: Cursor, at: nat, t: Token, rest: seq<Byte>)
    requires TokenOk(c, t) && SliceAt(c.block, at, EncodeToken(c, t) + rest)
    ensures EncodedAt(c, at, t) && |EncodeToken(c, t)| == TokenSize(t) && SliceAt(c.block, at + TokenSize(t), rest)
  {
    SliceSplit(c.block, at, EncodeToken(c, t), rest);
    TokenLength(c, t);
    SliceFields(c, at, t);
  }

  /** Reading the first token leaves the walker before the encoding of the rest. */
  lemma HeadReads(c: Cursor, pos: nat, at: nat, depth: nat, ts: seq<Token>) returns (p: nat)
    requires Aligned(c.base) && pos <= |c.block| && at == Align4(pos)
    requires AllOk(c, ts) && ts != [] && Feasible1(ts[0], depth) && SliceAt(c.block, at, Encode(c, ts))
    ensures Reads(c, ParseToken(c, pos, depth), ts[0], at, depth, p)
    ensures SliceAt(c.block, Align4(p), Encode(c, ts[1..])) && Align4(p) + |Encode(c, ts[1..])| == at + |Encode(c, ts)|
  {
    HeadFields(c, at, ts);
    var rest := Encode(c, ts[1..]);
    p := TokenReads(c, pos, at, depth, ts[0]);
    assert Align4(p) == at + TokenSize(ts[0]);
  }

  lemma StepsOn(c: Cursor, pos: nat, depth: nat, ts: seq<Token>, p: nat, q: nat)
    requires pos <= |c.block| && AllOk(c, ts) && Feasible(ts, depth) && ts != []
    requires Reads(c, ParseToken(c, pos, depth), ts[0], Align4(pos), depth, p)
    requires Steps(c, p, Depth1(ts[0], depth), ts[1..], q)
    ensures Steps(c, pos, depth, ts, q)
  {
  }

  lemma {:induction false} StepsThrough(c: Cursor, pos: nat, at: nat, depth: nat, ts: seq<Token>) returns (q: nat)
    requires Aligned(c.base) && pos <= |c.block| && at == Align4(pos) && AllOk(c, ts) && Feasible(ts, depth)
    requires SliceAt(c.block, at, Encode(c, ts))
    ensures q <= |c.block| && Align4(q) == at + |Encode(c, ts)| && Steps(c, pos, depth, ts, q)
    decreases |ts|
  {
    if ts == [] {
      q := pos;
    } else {
      var p := HeadReads(c, pos, at, depth, ts);
      q := StepsThrough(c, p, Align4(p), Depth1(ts[0], depth), ts[1..]);
      StepsOn(c, pos, depth, ts, p, q);
    }
  }

  /** Walking token by token yields the events of the tokens. */
  lemma {:induction false} StepsWalk(c: Cursor, pos: nat, depth: nat, ts: seq<Token>, q: nat)
    requires pos <= |c.block| && AllOk(c, ts) && Feasible(ts, depth) && Steps(c, pos, depth, ts, q)
    ensures WalksOn(c, Walk(c, pos, depth), EventsOf(c, ts, depth), q, DepthAfter(ts, depth))
    decreases |ts|
  {
    if ts != [] {
      var d, p := Depth1(ts[0], depth), ParseToken(c, pos, depth).pos;
      WalkOne(c, pos, depth, ts[0], p);
      StepsWalk(c, p, d, ts[1..], q);
      WalksBoth(c, Walk(c, pos, depth), Event1(c, ts[0], depth), p, d, EventsOf(c, ts[1..], d), q,
          DepthAfter(ts, depth));
    }
  }

  lemma WalksBoth(c: Cursor, w: Walked, a: seq<Event>, p: nat, d: nat, b: seq<Event>, q: nat, e: nat)
    requires WalksOn(c, w, a, p, d) && WalksOn(c, Walk(c, p, d), b, q, e)
    ensures WalksOn(c, w, a + b, q, e)
  {
  }

  lemma Regroup(a: seq<Event>, b: seq<Event>, e: seq<Event>)
    ensures a + (b + e) == (a + b) + e
  {
  }

  // ----- trees ---------------------------------------------------------------------------------

  datatype Prop = Prop(off: nat, value: seq<Byte>)
  datatype Node = Node(name: seq<Byte>, props: seq<Prop>, children: seq<Node>)

  ghost function PropTokens(ps: seq<Prop>): seq<Token> {
    if ps == [] then [] else [TProp(ps[0].off, ps[0].value)] + PropTokens(ps[1..])
  }

  /** A node: its begin, its properties, its children, its end. */
  ghost function Tokens(n: Node): seq<Token>
    decreases n
  {
    [TBegin(n.name)] + PropTokens(n.props) + ForestTokens(n.children) + [TEnd]
  }

  ghost function ForestTokens(ns: seq<Node>): seq<Token>
    decreases ns
  {
    if ns == [] then [] else Tokens(ns[0]) + ForestTokens(ns[1..])
  }

  ghost predicate PropsOk(c: Cursor, ps: seq<Prop>) {
    forall i :: 0 <= i < |ps| ==> TokenOk(c, TProp(ps[i].off, ps[i].value))
  }

  ghost predicate NodeOk(c: Cursor, n: Node)
    decreases n
  {
    TokenOk(c, TBegin(n.name)) && PropsOk(c, n.props) && ForestOk(c, n.children)
  }

  ghost predicate ForestOk(c: Cursor, ns: seq<Node>)
    decreases ns
  {
    ns == [] || (NodeOk(c, ns[0]) && ForestOk(c, ns[1..]))
  }

  ghost function PropEvents(c: Cursor, ps: seq<Prop>, depth: nat): seq<Event>
    requires PropsOk(c, ps)
  {
    if ps == [] then [] else [Property(depth, NameOf(c, ps[0].off), ps[0].value)] + PropEvents(c, ps[1..], depth)
  }

  /** The events of a tree in preorder. */
  ghost function Preorder(c: Cursor, n: Node, depth: nat): seq<Event>
    requires NodeOk(c, n)
    decreases n
  {
    [Begin(depth, n.name)] + PropEvents(c, n.props, depth) + ForestEvents(c, n.children, depth + 1) + [End(depth)]
  }

  ghost function ForestEvents(c: Cursor, ns: seq<Node>, depth: nat): seq<Event>
    requires ForestOk(c, ns)
    decreases ns
  {
    if ns == [] then [] else Preorder(c, ns[0], depth) + ForestEvents(c, ns[1..], depth)
  }

  /** A token list that yields these events and comes back to the same depth. */
  ghost predicate Yields(c: Cursor, ts: seq<Token>, depth: nat, depth': nat, events: seq<Event>) {
    AllOk(c, ts) && Feasible(ts, depth) && DepthAfter(ts, depth) == depth' && EventsOf(c, ts, depth) == events
  }

  lemma {:induction false} YieldsAppend(c: Cursor, a: seq<Token>, b: seq<Token>, d0: nat, d1: nat, d2: nat,
                                        ea: seq<Event>, eb: seq<Event>)
    requires Yields(c, a, d0, d1, ea) && Yields(c, b, d1, d2, eb)
    ensures Yields(c, a + b, d0, d2, ea + eb)
    decreases |a|
  {
    if a == [] {
      assert a + b == b && ea + eb == eb;
    } else {
      var d := Depth1(a[0], d0);
      YieldsAppend(c, a[1..], b, d, d1, d2, EventsOf(c, a[1..], d), eb);
      assert (a + b)[0] == a[0] && (a + b)[1..] == a[1..] + b;
      Regroup(Event1(c, a[0], d0), EventsOf(c, a[1..], d), eb);
    }
  }

  lemma YieldsOne(c: Cursor, t: Token, depth: nat)
    requires TokenOk(c, t) && Feasible1(t, depth)
    ensures Yields(c, [t], depth, Depth1(t, depth), Event1(c, t, depth))
  {
  }

  lemma {:induction false} PropsYield(c: Cursor, ps: seq<Prop>, depth: nat)
    requires PropsOk(c, ps)
    ensures Yields(c, PropTokens(ps), depth + 1, depth + 1, PropEvents(c, ps, depth))
  {
    if ps != [] {
      PropsYield(c, ps[1..], depth);
      YieldsOne(c, TProp(ps[0].off, ps[0].value), depth + 1);
      YieldsAppend(c, [TProp(ps[0].off, ps[0].value)], PropTokens(ps[1..]), depth + 1, depth + 1, depth + 1,
                   [Property(depth, NameOf(c, ps[0].off), ps[0].value)], PropEvents(c, ps[1..], depth));
    }
  }

  lemma {:induction false} NodeYields(c: Cursor, n: Node, depth: nat)
    requires NodeOk(c, n)
    ensures Yields(c, Tokens(n), depth, depth, Preorder(c, n, depth))
    decreases n
  {
    var b, ps, fs := [TBegin(n.name)], PropTokens(n.props), ForestTokens(n.children);
    var eb, ep, ef := [Begin(depth, n.name)], PropEvents(c, n.props, depth), ForestEvents(c, n.children, depth + 1);
    YieldsOne(c, TBegin(n.name), depth);
    PropsYield(c, n.props, depth);
    ForestYields(c, n.children, depth + 1);
    YieldsOne(c, TEnd, depth + 1);
    YieldsAppend(c, b, ps, depth, depth + 1, depth + 1, eb, ep);
    YieldsAppend(c, b + ps, fs, depth, depth + 1, depth + 1, eb + ep, ef);
    YieldsAppend(c, b + ps + fs, [TEnd], depth, depth + 1, depth, eb + ep + ef, [End(depth)]);
  }

  lemma {:induction false} ForestYields(c: Cursor, ns: seq<Node>, depth: nat)
    requires ForestOk(c, ns)
    ensures Yields(c, ForestTokens(ns), depth, depth, ForestEvents(c, ns, depth))
    decreases ns
  {
    if ns != [] {
      NodeYields(c, ns[0], depth);
      ForestYields(c, ns[1..], depth);
      YieldsAppend(c, Tokens(ns[0]), ForestTokens(ns[1..]), depth, depth, depth,
                   Preorder(c, ns[0], depth), ForestEvents(c, ns[1..], depth));
    }
  }

  // ----- NOPs ----------------------------------------------------------------------------------

  /** The list without its NOPs. */
  ghost function Stripped(ts: seq<Token>): seq<Token> {
    if ts == [] then [] else (if ts[0].TNop? then [] else [ts[0]]) + Stripped(ts[1..])
  }

  lemma {:induction false} NopsYield(c: Cursor, ts: seq<Token>, d0: nat, d1: nat, events: seq<Event>)
    requires Yields(c, Stripped(ts), d0, d1, events)
    ensures Yields(c, ts, d0, d1, events)
    decreases |ts|
  {
    if ts != [] {
      var rest := Stripped(ts[1..]);
      if ts[0].TNop? {
        assert Stripped(ts) == rest;
        NopsYield(c, ts[1..], d0, d1, events);
        assert [] + events == events;
      } else {
        var s := Stripped(ts);
        assert s[0] == ts[0] && s[1..] == rest;
        NopsYield(c, ts[1..], Depth1(ts[0], d0), d1, EventsOf(c, rest, Depth1(ts[0], d0)));
      }
    }
  }

  // ----- round trip ----------------------------------------------------------------------------

  lemma SmallWord(w: seq<Byte>)
    requires |w| == 4 && BigEndian(w) < 0x100
    ensures w[3] as int == BigEndian(w)
  {
    FourBytes(w);
  }

  /** A token read one to three bytes late is none. */
  lemma LateWord(s: seq<Byte>, at: nat, v: nat)
    requires 1 <= at <= 3 && at + 4 <= |s| && 0 < v < 0x100 && SliceAt(s, 0, Word(v))
    ensures Be32(s, at) >= 0x100
  {
    SmallWord(Word(v));
    assert s[3] == s[0..4][3];
    var w := s[at..at + 4];
    assert w[3 - at] == s[3];
    FourBytes(w);
  }

  lemma LatePlace(c: Cursor)
    requires c.base % 4 != 0
    ensures 1 <= Place(c, 0) <= 3
  {
    AlignRounds(c.base);
  }

  /** At an address that is no multiple of four the walk of any such block fails at once. */
  lemma MisalignedFails(c: Cursor, v: nat)
    requires c.base % 4 != 0 && 0 < v < 0x100 && SliceAt(c.block, 0, Word(v))
    ensures Walk(c, 0, 0) == Walked([], false)
  {
    LatePlace(c);
    if Place(c, 0) + 4 <= |c.block| {
      LateWord(c.block, Place(c, 0), v);
    }
  }

  lemma FirstWord(c: Cursor, ts: seq<Token>, rest: seq<Byte>) returns (v: nat)
    requires AllOk(c, ts) && ts != [] && SliceAt(c.block, 0, Encode(c, ts) + rest)
    ensures 0 < v < 0x100 && SliceAt(c.block, 0, Word(v))
  {
    v := match ts[0] case TNop => 4 case TBegin(_) => 1 case TProp(_, _) => 3 case TEnd => 2;
    SliceSplit(c.block, 0, Encode(c, ts), rest);
    SliceSplit(c.block, 0, EncodeToken(c, ts[0]), Encode(c, ts[1..]));
    var t := EncodeToken(c, ts[0]);
    assert t[..4] == Word(v);
    SliceSplit(c.block, 0, t[..4], t[4..]);
  }

  lemma AlignedRoundTrip(c: Cursor, root: Node, ts: seq<Token>)
    requires c.base % 4 == 0 && NodeOk(c, root) && Stripped(ts) == Tokens(root) && AllOk(c, ts)
    requires SliceAt(c.block, 0, Encode(c, ts) + Word(9))
    ensures Walk(c, 0, 0).events == Preorder(c, root, 0) && Walk(c, 0, 0).ok
  {
    AlignedWhen(c.base);
    NodeYields(c, root, 0);
    NopsYield(c, ts, 0, 0, Preorder(c, root, 0));
    SliceSplit(c.block, 0, Encode(c, ts), Word(9));
    WalkBlock(c, ts, Preorder(c, root, 0));
  }

  /** Walking the encoding of a tree, with NOPs anywhere and anything after the end token, yields
      exactly the tree's preorder events and ends well, if and only if the block lies at a multiple of
      four. Elsewhere the walk yields nothing and fails. */
  lemma RoundTrip(c: Cursor, root: Node, ts: seq<Token>)
    requires NodeOk(c, root) && Stripped(ts) == Tokens(root) && AllOk(c, ts)
    requires SliceAt(c.block, 0, Encode(c, ts) + Word(9))
    ensures Walk(c, 0, 0) == if c.base % 4 == 0 then Walked(Preorder(c, root, 0), true) else Walked([], false)
  {
    if c.base % 4 == 0 {
      AlignedRoundTrip(c, root, ts);
    } else {
      assert |Tokens(root)| > 0;
      var v := FirstWord(c, ts, Word(9));
      MisalignedFails(c, v);
    }
  }

  lemma WalkBlock(c: Cursor, ts: seq<Token>, events: seq<Event>)
    requires Aligned(c.base) && Yields(c, ts, 0, 0, events)
    requires SliceAt(c.block, 0, Encode(c, ts)) && SliceAt(c.block, |Encode(c, ts)|, Word(9))
    ensures Walk(c, 0, 0).events == events && Walk(c, 0, 0).ok
  {
    var q := StepsThrough(c, 0, 0, 0, ts);
    EndParses(c, q);
    StepsWalk(c, 0, 0, ts, q);
    WalkFinishes(c, Walk(c, 0, 0), events, q);
  }

  lemma WalkFinishes(c: Cursor, w: Walked, events: seq<Event>, q: nat)
    requires WalksOn(c, w, events, q, 0) && ParseToken(c, q, 0).Finish?
    ensures w.events == events && w.ok
  {
    WalkFinish(c, q);
  }

  lemma EndParses(c: Cursor, pos: nat)
    requires Aligned(c.base) && pos <= |c.block| && SliceAt(c.block, Align4(pos), Word(9))
    ensures ParseToken(c, pos, 0).Finish?
  {
    SliceWord(c, Align4(pos), 9);
    AlignedPlace(c, pos);
  }

  lemma WalkFinish(c: Cursor, pos: nat)
    requires pos <= |c.block| && ParseToken(c, pos, 0).Finish?
    ensures Walk(c, pos, 0).events == [] && Walk(c, pos, 0).ok
  {
  }
}
