/** The bytes of the ring: the four header words of a message, the data that follows them
    (and overwrites the header words of the later nodes), and what a byte array must hold to
    represent a layout. */
module RingBytes {
  import opened RingArith
  import opened Bytes
  import opened RingLayout

  const TOKEN_NO_DATA: word := 0
  const TOKEN_SKIPPED: word := 0xdb03_0000
  const TOKEN_HAS_DATA: word := 0x0000_db03

  function WordAt(mem: seq<byte>, a: nat): word
    requires a + 4 <= |mem|
  {
    ToWord(mem[a..a + 4])
  }

  function Base(g: Geometry, pos: nat): nat {
    Mul(pos, g.NodeSize())
  }

  lemma BaseStep(g: Geometry, i: nat, n: nat)
    ensures Base(g, i + n) == Base(g, i) + Base(g, n)
    ensures Base(g, 1) == g.NodeSize()
    ensures Base(g, i) <= Base(g, i + n)
  {
    MulAdd(i, n, g.NodeSize());
    assert Mul(1, g.NodeSize()) == Mul(0, g.NodeSize()) + g.NodeSize();
  }

  lemma BaseZero(g: Geometry)
    ensures Base(g, 0) == 0
  {
  }

  /** Different nodes do not overlap. */
  lemma BaseApart(g: Geometry, i: nat, j: nat)
    requires i < j
    ensures Base(g, i) + g.NodeSize() <= Base(g, j)
  {
    BaseStep(g, i, 1);
    BaseStep(g, i + 1, j - i - 1);
  }

  /** A message fits in the nodes computed for it. */
  lemma MsgFits(g: Geometry, pos: nat, m: Msg)
    requires m.Valid()
    ensures g.Nodes(m) >= 1
    ensures Base(g, pos) + NODE_HEAD + |m.payload| <= Base(g, pos + g.Nodes(m))
  {
    NeededNodesBounds(g, |m.payload|);
    BaseStep(g, pos, g.Nodes(m));
  }

  ghost predicate MsgAt(g: Geometry, mem: seq<byte>, pos: nat, m: Msg) {
    var a := Base(g, pos);
    && a + NODE_HEAD + |m.payload| <= |mem|
    && WordAt(mem, a) == TOKEN_HAS_DATA
    && WordAt(mem, a + 4) == |m.payload|
    && WordAt(mem, a + 8) == m.sec
    && WordAt(mem, a + 12) == m.usec
    && mem[a + NODE_HEAD..a + NODE_HEAD + |m.payload|] == m.payload
  }

  ghost predicate Run(g: Geometry, mem: seq<byte>, pos: nat, msgs: seq<Msg>)
    decreases msgs
  {
    msgs == [] || (MsgAt(g, mem, pos, msgs[0]) && Run(g, mem, pos + g.Nodes(msgs[0]), msgs[1..]))
  }

  ghost predicate Token(g: Geometry, mem: seq<byte>, v: nat, token: word) {
    Base(g, v) + 4 <= |mem| && WordAt(mem, Base(g, v)) == token
  }

  /** mem holds exactly the messages of the layout, its skip marks, and no token anywhere else. */
  ghost predicate Image(g: Geometry, mem: seq<byte>, l: Layout) {
    && |mem| == Base(g, g.Slots())
    && Run(g, mem, l.head, l.front)
    && Run(g, mem, 0, l.back)
    && (forall v: nat {:trigger l.Skipped(g, v)} :: l.Skipped(g, v) ==> Token(g, mem, v, TOKEN_SKIPPED))
    && (forall v: nat {:trigger l.Free(g, v)} :: l.Free(g, v) ==> Token(g, mem, v, TOKEN_NO_DATA))
  }

  // ---- Framing

  ghost predicate Agree(mem: seq<byte>, mem': seq<byte>, lo: nat, hi: nat) {
    |mem| == |mem'| && hi <= |mem| && forall k :: lo <= k < hi ==> mem'[k] == mem[k]
  }

  lemma WordFrame(mem: seq<byte>, mem': seq<byte>, lo: nat, hi: nat, a: nat)
    requires Agree(mem, mem', lo, hi) && lo <= a && a + 4 <= hi
    ensures WordAt(mem', a) == WordAt(mem, a)
  {
    assert mem'[a..a + 4] == mem[a..a + 4];
  }

  lemma TokenFrame(g: Geometry, mem: seq<byte>, mem': seq<byte>, lo: nat, hi: nat, v: nat, token: word)
    requires Agree(mem, mem', Base(g, lo), Base(g, hi)) && lo <= v < hi
    requires Token(g, mem, v, token)
    ensures Token(g, mem', v, token)
  {
    hide Base;
    hide Geometry.NeededNodes;
    BaseApart(g, v, v + 1);
    BaseStep(g, v + 1, hi - v - 1);
    BaseStep(g, lo, v - lo);
    WordFrame(mem, mem', Base(g, lo), Base(g, hi), Base(g, v));
  }

  lemma MsgFrame(g: Geometry, mem: seq<byte>, mem': seq<byte>, pos: nat, m: Msg)
    requires MsgAt(g, mem, pos, m)
    requires Agree(mem, mem', Base(g, pos), Base(g, pos) + NODE_HEAD + |m.payload|)
    ensures MsgAt(g, mem', pos, m)
  {
    var a := Base(g, pos);
    var hi := a + NODE_HEAD + |m.payload|;
    WordFrame(mem, mem', a, hi, a);
    WordFrame(mem, mem', a, hi, a + 4);
    WordFrame(mem, mem', a, hi, a + 8);
    WordFrame(mem, mem', a, hi, a + 12);
    assert mem'[a + NODE_HEAD..hi] == mem[a + NODE_HEAD..hi];
  }

  /** A run survives any change outside its own nodes. */
  lemma {:induction false} RunFrame(g: Geometry, mem: seq<byte>, mem': seq<byte>, pos: nat, msgs: seq<Msg>)
    requires Run(g, mem, pos, msgs)
    requires AllValid(msgs)
    requires Agree(mem, mem', Base(g, pos), Base(g, pos + g.RunNodes(msgs)))
    ensures Run(g, mem', pos, msgs)
    decreases msgs
  {
    hide MsgAt;
    hide Base;
    hide Geometry.NeededNodes;
    if msgs != [] {
      var nr := g.Nodes(msgs[0]);
      MsgFits(g, pos, msgs[0]);
      BaseStep(g, pos, nr);
      BaseStep(g, pos + nr, g.RunNodes(msgs[1..]));
      assert pos + g.RunNodes(msgs) == pos + nr + g.RunNodes(msgs[1..]);
      MsgFrame(g, mem, mem', pos, msgs[0]);
      RunFrame(g, mem, mem', pos + nr, msgs[1..]);
    }
  }

  lemma {:induction false} RunAppend(g: Geometry, mem: seq<byte>, pos: nat, msgs: seq<Msg>, m: Msg)
    requires Run(g, mem, pos, msgs)
    requires MsgAt(g, mem, pos + g.RunNodes(msgs), m)
    ensures Run(g, mem, pos, msgs + [m])
    decreases msgs
  {
    hide MsgAt;
    hide Base;
    hide Geometry.NeededNodes;
    if msgs == [] {
      assert msgs + [m] == [m];
    } else {
      var nr := g.Nodes(msgs[0]);
      assert (msgs + [m])[1..] == msgs[1..] + [m];
      assert pos + g.RunNodes(msgs) == pos + nr + g.RunNodes(msgs[1..]);
      RunAppend(g, mem, pos + nr, msgs[1..], m);
    }
  }

  // ---- What the writes of a call do to the image

  lemma FreeTokenKept(g: Geometry, mem: seq<byte>, mem': seq<byte>, l: Layout, lo: nat, hi: nat, v: nat)
    requires Image(g, mem, l) && l.Free(g, v) && lo <= v < hi
    requires Agree(mem, mem', Base(g, lo), Base(g, hi))
    ensures Token(g, mem', v, TOKEN_NO_DATA)
  {
    TokenFrame(g, mem, mem', lo, hi, v, TOKEN_NO_DATA);
  }

  /** A message written at the tail, nothing else touched. */
  ghost predicate WrittenInPlace(g: Geometry, mem: seq<byte>, mem': seq<byte>, l: Layout, m: Msg) {
    && g.Valid() && l.Valid(g) && m.Valid() && Image(g, mem, l)
    && g.EmptyNodes(l.head, l.tail) >= g.Nodes(m) + RESERVE_BLOCK_COUNT
    && l.tail + g.Nodes(m) <= g.eleCount
    && Agree(mem, mem', 0, Base(g, l.tail))
    && Agree(mem, mem', Base(g, l.tail + g.Nodes(m)), Base(g, g.Slots()))
    && MsgAt(g, mem', l.tail, m)
  }

  lemma InPlaceFront(g: Geometry, mem: seq<byte>, mem': seq<byte>, l: Layout, m: Msg)
    requires WrittenInPlace(g, mem, mem', l, m) && !l.Wrapped() && l.head <= l.tail
    ensures Run(g, mem', l.head, l.front + [m])
  {
    hide MsgAt, Token, Base;
    hide Geometry.NeededNodes, Geometry.EmptyNodes;
    BaseStep(g, 0, 0);
    RunFrame(g, mem, mem', l.head, l.front);
    RunAppend(g, mem', l.head, l.front, m);
  }

  lemma InPlaceBack(g: Geometry, mem: seq<byte>, mem': seq<byte>, l: Layout, m: Msg)
    requires WrittenInPlace(g, mem, mem', l, m) && l.Wrapped() && l.tail + g.Nodes(m) < l.head
    ensures Run(g, mem', l.head, l.front) && Run(g, mem', 0, l.back + [m])
  {
    hide MsgAt, Token, Base;
    hide Geometry.NeededNodes, Geometry.EmptyNodes;
    var nr := g.Nodes(m);
    BaseStep(g, 0, 0);
    BaseStep(g, l.tail + nr, l.head - l.tail - nr);
    BaseStep(g, l.brk, g.Slots() - l.brk);
    RunFrame(g, mem, mem', l.head, l.front);
    RunFrame(g, mem, mem', 0, l.back);
    RunAppend(g, mem', 0, l.back, m);
  }

  lemma InPlaceRuns(g: Geometry, mem: seq<byte>, mem': seq<byte>, l: Layout, m: Msg)
    requires WrittenInPlace(g, mem, mem', l, m)
    ensures var l' := Put(g, l, m).0; Run(g, mem', l'.head, l'.front) && Run(g, mem', 0, l'.back)
  {
    hide MsgAt, Token, Base, Put;
    hide Geometry.NeededNodes, Geometry.EmptyNodes;
    PutAccepted(g, l, m);
    if l.Wrapped() {
      InPlaceBack(g, mem, mem', l, m);
    } else {
      InPlaceFront(g, mem, mem', l, m);
    }
  }

  lemma InPlaceTokens(g: Geometry, mem: seq<byte>, mem': seq<byte>, l: Layout, m: Msg)
    requires WrittenInPlace(g, mem, mem', l, m)
    ensures forall v: nat :: Put(g, l, m).0.Skipped(g, v) ==> Token(g, mem', v, TOKEN_SKIPPED)
    ensures forall v: nat :: Put(g, l, m).0.Free(g, v) ==> Token(g, mem', v, TOKEN_NO_DATA)
  {
    hide MsgAt, Token, Base, Put, Run;
    hide Geometry.NeededNodes, Geometry.EmptyNodes;
    PutAccepted(g, l, m);
    var nr := g.Nodes(m);
    var l' := Put(g, l, m).0;
    forall v: nat | l'.Skipped(g, v) ensures Token(g, mem', v, TOKEN_SKIPPED) {
      assert l.Skipped(g, v);
      TokenFrame(g, mem, mem', l.tail + nr, g.Slots(), v, TOKEN_SKIPPED);
    }
    forall v: nat | l'.Free(g, v) ensures Token(g, mem', v, TOKEN_NO_DATA) {
      assert l.Free(g, v);
      if v < l.tail {
        FreeTokenKept(g, mem, mem', l, 0, l.tail, v);
      } else {
        FreeTokenKept(g, mem, mem', l, l.tail + nr, g.Slots(), v);
      }
    }
  }

  lemma PutInPlaceImage(g: Geometry, mem: seq<byte>, mem': seq<byte>, l: Layout, m: Msg)
    requires WrittenInPlace(g, mem, mem', l, m)
    ensures Image(g, mem', Put(g, l, m).0)
  {
    hide MsgAt, Token, Base, Put, Run;
    hide Geometry.NeededNodes, Geometry.EmptyNodes;
    PutAccepted(g, l, m);
    InPlaceRuns(g, mem, mem', l, m);
    InPlaceTokens(g, mem, mem', l, m);
  }

  /** The nodes from the tail to the end marked skipped, the message written at index 0. */
  lemma PutWrappedImage(g: Geometry, mem: seq<byte>, mem': seq<byte>, l: Layout, m: Msg)
    requires g.Valid() && l.Valid(g) && m.Valid() && Image(g, mem, l)
    requires g.EmptyNodes(l.head, l.tail) >= g.Nodes(m) + RESERVE_BLOCK_COUNT
    requires l.tail + g.Nodes(m) > g.eleCount && g.Nodes(m) < l.head
    requires Agree(mem, mem', Base(g, g.Nodes(m)), Base(g, l.tail))
    requires forall v: nat :: l.tail <= v <= g.eleCount ==> Token(g, mem', v, TOKEN_SKIPPED)
    requires MsgAt(g, mem', 0, m)
    ensures Image(g, mem', Put(g, l, m).0)
  {
    hide MsgAt;
    hide Token;
    hide Base;
    hide Geometry.NeededNodes;
    PutAccepted(g, l, m);
    hide Put;
    hide Geometry.EmptyNodes;
    var nr := g.Nodes(m);
    var l' := Put(g, l, m).0;
    BaseStep(g, nr, l.head - nr);
    RunFrame(g, mem, mem', l.head, l.front);
    RunAppend(g, mem', 0, [], m);
    assert [] + [m] == [m];
    forall v: nat | l'.Free(g, v) ensures Token(g, mem', v, TOKEN_NO_DATA) {
      assert l.Free(g, v);
      FreeTokenKept(g, mem, mem', l, nr, l.tail, v);
    }
  }

  /** The nodes that taking the oldest message gives back: its own, after the skipped ones. */
  predicate Released(g: Geometry, l: Layout, v: nat)
    requires l.Queue() != []
  {
    if l.front != [] then l.head <= v < l.head + g.Nodes(l.front[0])
    else l.head <= v <= g.eleCount || v < g.Nodes(l.back[0])
  }

  /** The released tokens cleared and every other node untouched. */
  ghost predicate Cleared(g: Geometry, mem: seq<byte>, mem': seq<byte>, l: Layout)
    requires l.Queue() != []
  {
    && |mem'| == |mem|
    && (forall v: nat :: v <= g.eleCount && Released(g, l, v) ==> Token(g, mem', v, TOKEN_NO_DATA))
    && (forall v: nat :: v <= g.eleCount && !Released(g, l, v) ==> Agree(mem, mem', Base(g, v), Base(g, v + 1)))
  }

  lemma GetKeepsFirstRun(g: Geometry, mem: seq<byte>, mem': seq<byte>, l: Layout)
    requires g.Valid() && l.Valid(g) && Image(g, mem, l) && l.Queue() != []
    requires Cleared(g, mem, mem', l)
    ensures var l' := Drop(g, l); Run(g, mem', l'.head, l'.front)
  {
    hide MsgAt;
    hide Token;
    hide Base;
    hide Geometry.NeededNodes;
    var l' := Drop(g, l);
    DropKeepsValid(g, l);
    var first, last := l'.head, if l.front != [] then l.brk else l.tail;
    BaseStep(g, last, g.Slots() - last);
    AgreeNodes(g, mem, mem', first, last);
    RunFrame(g, mem, mem', first, l'.front);
  }

  lemma GetKeepsBackRun(g: Geometry, mem: seq<byte>, mem': seq<byte>, l: Layout)
    requires g.Valid() && l.Valid(g) && Image(g, mem, l) && l.front != []
    requires Cleared(g, mem, mem', l)
    ensures Run(g, mem', 0, l.back)
  {
    hide MsgAt;
    hide Token;
    hide Base;
    hide Geometry.NeededNodes;
    if l.Wrapped() {
      BaseStep(g, l.tail, g.Slots() - l.tail);
      AgreeNodes(g, mem, mem', 0, l.tail);
      RunFrame(g, mem, mem', 0, l.back);
    }
  }

  lemma GetKeepsToken(g: Geometry, mem: seq<byte>, mem': seq<byte>, l: Layout, v: nat)
    requires g.Valid() && l.Valid(g) && Image(g, mem, l) && l.Queue() != []
    requires Cleared(g, mem, mem', l)
    ensures Drop(g, l).Skipped(g, v) ==> Token(g, mem', v, TOKEN_SKIPPED)
    ensures Drop(g, l).Free(g, v) ==> Token(g, mem', v, TOKEN_NO_DATA)
  {
    hide MsgAt;
    hide Token;
    hide Base;
    hide Run;
    hide Geometry.NeededNodes;
    if v <= g.eleCount && !Released(g, l, v) {
      if l.Skipped(g, v) {
        TokenFrame(g, mem, mem', v, v + 1, v, TOKEN_SKIPPED);
      } else if l.Free(g, v) {
        TokenFrame(g, mem, mem', v, v + 1, v, TOKEN_NO_DATA);
      }
    }
  }

  /** Clearing the released tokens turns the image into that of the queue without its first. */
  lemma GetImage(g: Geometry, mem: seq<byte>, mem': seq<byte>, l: Layout)
    requires g.Valid() && l.Valid(g) && Image(g, mem, l) && l.Queue() != []
    requires Cleared(g, mem, mem', l)
    ensures Image(g, mem', Drop(g, l))
  {
    hide Token;
    GetKeepsFirstRun(g, mem, mem', l);
    if l.front != [] {
      GetKeepsBackRun(g, mem, mem', l);
    }
    forall v: nat
      ensures Drop(g, l).Skipped(g, v) ==> Token(g, mem', v, TOKEN_SKIPPED)
      ensures Drop(g, l).Free(g, v) ==> Token(g, mem', v, TOKEN_NO_DATA)
    {
      GetKeepsToken(g, mem, mem', l, v);
    }
  }

  lemma {:induction false} AgreeNodes(g: Geometry, mem: seq<byte>, mem': seq<byte>, lo: nat, hi: nat)
    requires lo <= hi && |mem| == |mem'| && Base(g, hi) <= |mem|
    requires forall v: nat :: lo <= v < hi ==> Agree(mem, mem', Base(g, v), Base(g, v + 1))
    ensures Agree(mem, mem', Base(g, lo), Base(g, hi))
    decreases hi - lo
  {
    hide Base;
    hide Geometry.NeededNodes;
    if lo < hi {
      BaseStep(g, lo, hi - lo);
      BaseStep(g, lo, 1);
      AgreeNodes(g, mem, mem', lo + 1, hi);
    }
  }
}
