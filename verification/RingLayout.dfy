/** The shared-memory ring seen through its positions: which nodes hold which message.
    A ring of eleCount + 1 nodes is always one contiguous run of messages, or a run that
    reaches up to a skipped stretch at the end of the array followed by a run from index 0. */
module RingLayout {
  import opened RingArith
  import opened Bytes

  const RESERVE_BLOCK_COUNT := 10
  const MAX_SQ_DATA_LENGTH := 32 * 1024 * 1024
  /** Start token, data length and two time words precede the data of a message. */
  const NODE_HEAD := 16

  datatype Msg = Msg(payload: seq<byte>, sec: word, usec: word) {
    predicate Valid() {
      1 <= |payload| <= MAX_SQ_DATA_LENGTH
    }
  }

  predicate AllValid(msgs: seq<Msg>) {
    forall i :: 0 <= i < |msgs| ==> msgs[i].Valid()
  }

  /** Element size (a positive multiple of 8) and element count, fixed at creation. */
  datatype Geometry = Geometry(eleSize: nat, eleCount: nat) {
    predicate Valid() {
      && eleSize > 0
      && eleSize % 8 == 0
      && eleCount > RESERVE_BLOCK_COUNT
    }

    function NodeSize(): (r: nat)
      ensures r >= NODE_HEAD
    {
      NODE_HEAD + eleSize
    }

    /** Number of nodes in the array: one more than the usable count. */
    function Slots(): (r: nat)
      ensures r > 0
    {
      eleCount + 1
    }

    function AddPos(pos: nat, val: nat): (r: nat)
      ensures r <= eleCount
    {
      Mod(pos + val, Slots())
    }

    function EmptyNodes(head: nat, tail: nat): nat
      requires tail <= eleCount
    {
      Mod(head + eleCount - tail, Slots())
    }

    function UsedNodes(head: nat, tail: nat): int
      requires tail <= eleCount
    {
      eleCount - EmptyNodes(head, tail)
    }

    /** A put of nr nodes is refused: the free nodes less the reserve are too few, or it would reach
        the last node and the nodes below the head are too few. */
    predicate Refuses(head: nat, tail: nat, nr: nat)
      requires tail <= eleCount
    {
      eleCount - UsedNodes(head, tail) < nr + RESERVE_BLOCK_COUNT || (tail + nr > eleCount && head <= nr)
    }

    function NeededNodes(len: nat): nat
    {
      Div(len + NODE_HEAD + NodeSize() - 1, NodeSize())
    }

    function Nodes(m: Msg): nat
    {
      NeededNodes(|m.payload|)
    }

    function RunNodes(msgs: seq<Msg>): nat
    {
      if msgs == [] then 0 else Nodes(msgs[0]) + RunNodes(msgs[1..])
    }
  }

  lemma ModOneLap(a: nat, n: nat)
    requires a < 2 * n
    ensures Mod(a, n) == if a < n then a else a - n
  {
  }

  /** The modular node counts are the plain distances of the two cases. */
  lemma NodeCounts(g: Geometry, head: nat, tail: nat)
    requires head <= g.eleCount && tail <= g.eleCount
    ensures head <= tail ==> g.EmptyNodes(head, tail) == head + g.eleCount - tail
    ensures tail < head ==> g.EmptyNodes(head, tail) == head - tail - 1
    ensures head <= tail ==> g.UsedNodes(head, tail) == tail - head
    ensures tail < head ==> g.UsedNodes(head, tail) == g.Slots() - head + tail
  {
    ModOneLap(head + g.eleCount - tail, g.Slots());
  }

  lemma NeededNodesBounds(g: Geometry, len: nat)
    requires len > 0
    ensures g.NeededNodes(len) >= 1
    ensures Mul(g.NeededNodes(len), g.NodeSize()) >= len + NODE_HEAD
    ensures Mul(g.NeededNodes(len) - 1, g.NodeSize()) < len + NODE_HEAD
  {
    DivBounds(len + NODE_HEAD + g.NodeSize() - 1, g.NodeSize());
  }

  lemma NeedsANode(g: Geometry, len: nat)
    requires len > 0
    ensures g.NeededNodes(len) >= 1
  {
    NeededNodesBounds(g, len);
  }

  lemma {:induction false} RunNodesAppend(g: Geometry, a: seq<Msg>, m: Msg)
    ensures g.RunNodes(a + [m]) == g.RunNodes(a) + g.Nodes(m)
  {
    if a == [] {
      assert (a + [m])[1..] == [];
    } else {
      assert (a + [m])[1..] == a[1..] + [m];
      RunNodesAppend(g, a[1..], m);
    }
  }

  /** Where everything is. brk is the end of the front run; when back is not empty the nodes
      from brk to the end of the array are skipped. */
  datatype Layout = Layout(head: nat, tail: nat, brk: nat, front: seq<Msg>, back: seq<Msg>) {

    predicate Wrapped() {
      back != []
    }

    function Queue(): seq<Msg> {
      front + back
    }

    predicate Valid(g: Geometry) {
      && head <= g.eleCount
      && tail <= g.eleCount
      && brk <= g.eleCount
      && head + g.RunNodes(front) == brk
      && AllValid(front)
      && AllValid(back)
      && if back == [] then brk == tail else g.RunNodes(back) == tail < head
    }

    predicate Skipped(g: Geometry, v: nat) {
      Wrapped() && brk <= v <= g.eleCount
    }

    predicate Free(g: Geometry, v: nat) {
      v <= g.eleCount && if Wrapped() then tail <= v < head else v < head || tail <= v
    }
  }

  function Init(): Layout {
    Layout(0, 0, 0, [], [])
  }

  // ---- What one call does to the layout

  /** The effect of sq_put: the new layout and the returned code. */
  function Put(g: Geometry, l: Layout, m: Msg): (r: (Layout, int))
    requires g.Valid() && l.Valid(g)
  {
    if !m.Valid() then (l, -1)
    else
      var nr := g.Nodes(m);
      if g.EmptyNodes(l.head, l.tail) < nr + RESERVE_BLOCK_COUNT then (l, -2)
      else
        var newTail := g.AddPos(l.tail, nr);
        if newTail < l.tail then
          if l.head - 1 < nr then (l, -2)
          else (Layout(l.head, nr, l.tail, l.front, [m]), 0)
        else if l.Wrapped() then (l.(tail := newTail, back := l.back + [m]), 0)
        else (l.(tail := newTail, brk := newTail, front := l.front + [m]), 0)
  }

  /** The layout once the oldest message is taken. */
  function Drop(g: Geometry, l: Layout): Layout
    requires l.Queue() != []
  {
    if l.front != [] then l.(head := l.head + g.Nodes(l.front[0]), front := l.front[1..])
    else Layout(g.Nodes(l.back[0]), l.tail, l.tail, l.back[1..], [])
  }

  /** The effect of sq_get with a buffer of bufSize bytes. */
  function Get(g: Geometry, l: Layout, bufSize: int): (Layout, int)
  {
    if bufSize < 1 then (l, -1)
    else if l.Queue() == [] then (l, 0)
    else if |l.Queue()[0].payload| > bufSize then (l, -2)
    else (Drop(g, l), |l.Queue()[0].payload|)
  }

  // ---- What every call keeps

  /** A wrap happens only from an unwrapped layout, and only a put that would reach or pass
      the last node wraps; otherwise the message ends before the last node. */
  lemma PutShape(g: Geometry, l: Layout, m: Msg)
    requires g.Valid() && l.Valid(g) && m.Valid()
    requires g.EmptyNodes(l.head, l.tail) >= g.Nodes(m) + RESERVE_BLOCK_COUNT
    ensures g.Nodes(m) >= 1
    ensures g.AddPos(l.tail, g.Nodes(m)) < l.tail <==> l.tail + g.Nodes(m) > g.eleCount
    ensures l.tail + g.Nodes(m) <= g.eleCount ==> g.AddPos(l.tail, g.Nodes(m)) == l.tail + g.Nodes(m)
    ensures l.tail + g.Nodes(m) > g.eleCount ==> !l.Wrapped() && l.tail > 0
  {
    NodeCounts(g, l.head, l.tail);
    NeedsANode(g, |m.payload|);
    ModOneLap(l.tail + g.Nodes(m), g.Slots());
  }

  /** A put is a bad argument exactly when it has no data or more than 32 MB of it. */
  lemma BadArgumentIff(g: Geometry, l: Layout, m: Msg)
    requires g.Valid() && l.Valid(g)
    ensures Put(g, l, m).1 == -1 <==> |m.payload| == 0 || |m.payload| > 33554432
    ensures m.Valid() <==> 1 <= |m.payload| <= 33554432
  {
  }

  /** Which branch refuses. */
  lemma PutCode(g: Geometry, l: Layout, m: Msg)
    requires g.Valid() && l.Valid(g) && m.Valid()
    ensures Put(g, l, m).1 ==
            if g.EmptyNodes(l.head, l.tail) < g.Nodes(m) + RESERVE_BLOCK_COUNT then -2
            else if g.AddPos(l.tail, g.Nodes(m)) < l.tail && l.head - 1 < g.Nodes(m) then -2
            else 0
  {
  }

  /** The two accepting branches of a put, with plain positions. */
  lemma PutAccepted(g: Geometry, l: Layout, m: Msg)
    requires g.Valid() && l.Valid(g) && m.Valid()
    requires g.EmptyNodes(l.head, l.tail) >= g.Nodes(m) + RESERVE_BLOCK_COUNT
    ensures l.tail + g.Nodes(m) <= g.eleCount ==>
              Put(g, l, m).0 == if l.Wrapped()
                                then Layout(l.head, l.tail + g.Nodes(m), l.brk, l.front, l.back + [m])
                                else Layout(l.head, l.tail + g.Nodes(m), l.tail + g.Nodes(m), l.front + [m], [])
    ensures l.tail + g.Nodes(m) > g.eleCount && g.Nodes(m) < l.head ==>
              Put(g, l, m).0 == Layout(l.head, g.Nodes(m), l.tail, l.front, [m])
    ensures if l.Wrapped() then l.tail + g.Nodes(m) < l.head else l.head <= l.tail
  {
    PutShape(g, l, m);
    NodeCounts(g, l.head, l.tail);
  }

  lemma PutKeepsValid(g: Geometry, l: Layout, m: Msg)
    requires g.Valid() && l.Valid(g)
    ensures var (l', code) := Put(g, l, m);
            && l'.Valid(g)
            && code in {0, -1, -2}
            && (code == 0 ==> l'.Queue() == l.Queue() + [m] && m.Valid())
            && (code != 0 ==> l' == l)
  {
    if m.Valid() && g.EmptyNodes(l.head, l.tail) >= g.Nodes(m) + RESERVE_BLOCK_COUNT {
      PutShape(g, l, m);
      PutAccepted(g, l, m);
      if Put(g, l, m).1 == 0 {
        AcceptedIsValid(g, l, m);
      }
    }
  }

  /** A put on a ring that has not wrapped lengthens the front run, */
  lemma FrontGrows(g: Geometry, l: Layout, m: Msg)
    requires g.Valid() && l.Valid(g) && m.Valid() && !l.Wrapped() && l.tail + g.Nodes(m) <= g.eleCount
    ensures var l' := Layout(l.head, l.tail + g.Nodes(m), l.tail + g.Nodes(m), l.front + [m], []);
            l'.Valid(g) && l'.Queue() == l.Queue() + [m]
  {
    hide Geometry.NeededNodes;
    RunNodesAppend(g, l.front, m);
  }

  /** one on a ring that has wrapped lengthens the back run, */
  lemma BackGrows(g: Geometry, l: Layout, m: Msg)
    requires g.Valid() && l.Valid(g) && m.Valid() && l.Wrapped() && l.tail + g.Nodes(m) < l.head
    ensures var l' := Layout(l.head, l.tail + g.Nodes(m), l.brk, l.front, l.back + [m]);
            l'.Valid(g) && l'.Queue() == l.Queue() + [m]
  {
    hide Geometry.NeededNodes;
    RunNodesAppend(g, l.back, m);
    assert l.front + (l.back + [m]) == l.front + l.back + [m];
  }

  /** and one that wraps starts a back run. */
  lemma BackStarts(g: Geometry, l: Layout, m: Msg)
    requires g.Valid() && l.Valid(g) && m.Valid() && !l.Wrapped() && g.Nodes(m) < l.head
    ensures var l' := Layout(l.head, g.Nodes(m), l.tail, l.front, [m]);
            l'.Valid(g) && l'.Queue() == l.Queue() + [m]
  {
    hide Geometry.NeededNodes;
    RunNodesAppend(g, [], m);
    assert [] + [m] == [m];
  }

  lemma AcceptedIsValid(g: Geometry, l: Layout, m: Msg)
    requires g.Valid() && l.Valid(g) && m.Valid()
    requires Put(g, l, m).1 == 0
    ensures Put(g, l, m).0.Valid(g) && Put(g, l, m).0.Queue() == l.Queue() + [m]
  {
    hide Put, AllValid, Layout.Valid;
    hide Geometry.RunNodes, Geometry.NeededNodes, Geometry.EmptyNodes, Geometry.Nodes;
    PutCode(g, l, m);
    PutShape(g, l, m);
    PutAccepted(g, l, m);
    if l.tail + g.Nodes(m) > g.eleCount {
      BackStarts(g, l, m);
    } else if l.Wrapped() {
      BackGrows(g, l, m);
    } else {
      FrontGrows(g, l, m);
    }
  }

  lemma DropKeepsValid(g: Geometry, l: Layout)
    requires g.Valid() && l.Valid(g) && l.Queue() != []
    ensures Drop(g, l).Valid(g)
    ensures Drop(g, l).Queue() == l.Queue()[1..]
  {
    if l.front != [] {
      NeedsANode(g, |l.front[0].payload|);
      assert Drop(g, l).Queue() == l.Queue()[1..];
    } else {
      NeedsANode(g, |l.back[0].payload|);
      assert l.Queue() == l.back;
      assert Drop(g, l).Queue() == l.back[1..];
    }
  }

  /** A get either leaves everything as it was or removes exactly the oldest message. */
  lemma GetKeepsValid(g: Geometry, l: Layout, bufSize: int)
    requires g.Valid() && l.Valid(g)
    ensures var (l', code) := Get(g, l, bufSize);
            && l'.Valid(g)
            && (code <= 0 ==> l' == l)
            && (code == 0 <==> bufSize >= 1 && l.Queue() == [])
            && (code > 0 ==>
                  l.Queue() != [] && code == |l.Queue()[0].payload| <= bufSize && l'.Queue() == l.Queue()[1..])
  {
    if l.Queue() != [] {
      DropKeepsValid(g, l);
    }
  }

  /** Conservation of nodes: the used nodes are those of the queued messages plus the skipped
      ones, tail never catches up with head, and no message touches the last node. */
  lemma UsedNodesAreMessagesAndSkips(g: Geometry, l: Layout)
    requires g.Valid() && l.Valid(g)
    ensures g.UsedNodes(l.head, l.tail)
            == g.RunNodes(l.front) + g.RunNodes(l.back) + (if l.Wrapped() then g.Slots() - l.brk else 0)
    ensures 0 <= g.UsedNodes(l.head, l.tail) <= g.eleCount
    ensures l.head == l.tail <==> l.Queue() == []
    ensures forall v :: 0 <= v <= g.eleCount && !l.Free(g, v) && !l.Skipped(g, v) ==> v < g.eleCount
  {
    NodeCounts(g, l.head, l.tail);
    if l.front != [] {
      assert l.front[0].Valid();
      NeedsANode(g, |l.front[0].payload|);
    }
  }
}
