/** Whole runs of sq_put and sq_get by one process at a time: they are runs of a plain FIFO of
    messages, and exactly the messages up to half the ring can always be put on an empty one. */
module RingRuns {
  import opened RingLayout

  datatype Op = PutOp(m: Msg) | GetOp(bufSize: int)

  function Step(g: Geometry, l: Layout, op: Op): (Layout, int)
    requires g.Valid() && l.Valid(g)
  {
    match op
    case PutOp(m) => Put(g, l, m)
    case GetOp(n) => Get(g, l, n)
  }

  lemma StepKeepsValid(g: Geometry, l: Layout, op: Op)
    requires g.Valid() && l.Valid(g)
    ensures Step(g, l, op).0.Valid(g)
  {
    match op
    case PutOp(m) => PutKeepsValid(g, l, m);
    case GetOp(n) => GetKeepsValid(g, l, n);
  }

  /** The layout after a run. */
  function Exec(g: Geometry, l: Layout, ops: seq<Op>): (r: Layout)
    requires g.Valid() && l.Valid(g)
    ensures r.Valid(g)
    decreases ops
  {
    if ops == [] then l
    else StepKeepsValid(g, l, ops[0]); Exec(g, Step(g, l, ops[0]).0, ops[1..])
  }

  /** The codes the calls of a run return. */
  function Codes(g: Geometry, l: Layout, ops: seq<Op>): (r: seq<int>)
    requires g.Valid() && l.Valid(g)
    ensures |r| == |ops|
    decreases ops
  {
    if ops == [] then []
    else
      StepKeepsValid(g, l, ops[0]);
      [Step(g, l, ops[0]).1] + Codes(g, Step(g, l, ops[0]).0, ops[1..])
  }

  // ---- A plain FIFO

  /** What a FIFO of messages that may be full at any time answers to one call. */
  predicate FifoAnswers(q: seq<Msg>, op: Op, code: int) {
    match op
    case PutOp(m) => if 1 <= |m.payload| <= 33554432 then code in {0, -2} else code == -1
    case GetOp(n) =>
      if n < 1 then code == -1
      else if q == [] then code == 0
      else if |q[0].payload| > n then code == -2
      else code == |q[0].payload|
  }

  function FifoAfter(q: seq<Msg>, op: Op, code: int): seq<Msg> {
    match op
    case PutOp(m) => if code == 0 then q + [m] else q
    case GetOp(_) => if code > 0 && q != [] then q[1..] else q
  }

  predicate FifoRun(q: seq<Msg>, ops: seq<Op>, codes: seq<int>, end: seq<Msg>)
    requires |codes| == |ops|
    decreases ops
  {
    if ops == [] then q == end
    else
      && FifoAnswers(q, ops[0], codes[0])
      && FifoRun(FifoAfter(q, ops[0], codes[0]), ops[1..], codes[1..], end)
  }

  lemma StepIsFifo(g: Geometry, l: Layout, op: Op)
    requires g.Valid() && l.Valid(g)
    ensures var (l', code) := Step(g, l, op);
            FifoAnswers(l.Queue(), op, code) && l'.Queue() == FifoAfter(l.Queue(), op, code)
  {
    match op
    case PutOp(m) => PutKeepsValid(g, l, m);
    case GetOp(n) => GetKeepsValid(g, l, n);
  }

  /** Every run of the ring is a run of the FIFO with the same codes. */
  lemma {:induction false} RingRefinesFifo(g: Geometry, l: Layout, ops: seq<Op>)
    requires g.Valid() && l.Valid(g)
    ensures FifoRun(l.Queue(), ops, Codes(g, l, ops), Exec(g, l, ops).Queue())
    decreases ops
  {
    if ops != [] {
      StepKeepsValid(g, l, ops[0]);
      StepIsFifo(g, l, ops[0]);
      var l' := Step(g, l, ops[0]).0;
      RingRefinesFifo(g, l', ops[1..]);
      assert Codes(g, l, ops)[1..] == Codes(g, l', ops[1..]);
    }
  }

  /** The messages the successful puts of a run appended, in order. */
  function Accepted(ops: seq<Op>, codes: seq<int>): seq<Msg>
    requires |codes| == |ops|
    decreases ops
  {
    if ops == [] then []
    else (if ops[0].PutOp? && codes[0] == 0 then [ops[0].m] else []) + Accepted(ops[1..], codes[1..])
  }

  /** The messages the successful gets of a FIFO run returned, in order. */
  function Delivered(q: seq<Msg>, ops: seq<Op>, codes: seq<int>): seq<Msg>
    requires |codes| == |ops|
    decreases ops
  {
    if ops == [] then []
    else
      (if ops[0].GetOp? && codes[0] > 0 && q != [] then [q[0]] else [])
      + Delivered(FifoAfter(q, ops[0], codes[0]), ops[1..], codes[1..])
  }

  lemma OneMore<T>(q: seq<T>, put: seq<T>, q': seq<T>, got: seq<T>, acc: seq<T>, del: seq<T>, end: seq<T>)
    requires q + put == got + q' && q' + acc == del + end
    ensures q + (put + acc) == (got + del) + end
  {
    assert q + (put + acc) == (q + put) + acc;
    assert (got + q') + acc == got + (q' + acc);
    assert got + (del + end) == (got + del) + end;
  }

  lemma {:induction false} FifoConservation(q: seq<Msg>, ops: seq<Op>, codes: seq<int>, end: seq<Msg>)
    requires |codes| == |ops| && FifoRun(q, ops, codes, end)
    ensures q + Accepted(ops, codes) == Delivered(q, ops, codes) + end
    decreases ops
  {
    if ops != [] {
      var q' := FifoAfter(q, ops[0], codes[0]);
      FifoConservation(q', ops[1..], codes[1..], end);
      var put := if ops[0].PutOp? && codes[0] == 0 then [ops[0].m] else [];
      var got := if ops[0].GetOp? && codes[0] > 0 && q != [] then [q[0]] else [];
      OneMore(q, put, q', got, Accepted(ops[1..], codes[1..]), Delivered(q', ops[1..], codes[1..]), end);
    }
  }

  /** Nothing is lost, duplicated or reordered: what was queued and what was accepted is what
      was delivered followed by what is still queued. */
  lemma Conservation(g: Geometry, l: Layout, ops: seq<Op>)
    requires g.Valid() && l.Valid(g)
    ensures var codes := Codes(g, l, ops);
            l.Queue() + Accepted(ops, codes) == Delivered(l.Queue(), ops, codes) + Exec(g, l, ops).Queue()
  {
    RingRefinesFifo(g, l, ops);
    FifoConservation(l.Queue(), ops, Codes(g, l, ops), Exec(g, l, ops).Queue());
  }

  /** Over every run a put returns -1 exactly when its data is empty or longer than 32 MB, and a get
      exactly when its buffer has no room at all. */
  lemma {:induction false} BadArgumentsIff(g: Geometry, l: Layout, ops: seq<Op>, i: nat)
    requires g.Valid() && l.Valid(g) && i < |ops|
    ensures Codes(g, l, ops)[i] == -1 <==>
            match ops[i]
            case PutOp(m) => |m.payload| == 0 || |m.payload| > 33554432
            case GetOp(bufSize) => bufSize < 1
    decreases ops
  {
    StepKeepsValid(g, l, ops[0]);
    if i == 0 {
      match ops[0]
      case PutOp(m) => BadArgumentIff(g, l, m);
      case GetOp(n) => GetKeepsValid(g, l, n);
    } else {
      BadArgumentsIff(g, Step(g, l, ops[0]).0, ops[1..], i - 1);
    }
  }

  // ---- Progress

  /** A valid message is refused exactly when the free nodes, less the reserve, are too few, or
      when it would reach the last node and the nodes below the head are too few. */
  lemma RefusedIff(g: Geometry, l: Layout, m: Msg)
    requires g.Valid() && l.Valid(g) && 1 <= |m.payload| <= 33554432
    ensures Put(g, l, m).1 == -2 <==>
            || g.eleCount - g.UsedNodes(l.head, l.tail) < g.Nodes(m) + 10
            || (l.tail + g.Nodes(m) > g.eleCount && l.head <= g.Nodes(m))
    ensures Put(g, l, m).1 == -2 <==> g.Refuses(l.head, l.tail, g.Nodes(m))
    ensures Put(g, l, m).1 != -1
  {
    PutCode(g, l, m);
    if g.EmptyNodes(l.head, l.tail) >= g.Nodes(m) + RESERVE_BLOCK_COUNT {
      PutShape(g, l, m);
    }
  }

  /** Whatever happened before, an empty ring takes m. */
  ghost predicate AlwaysFitsWhenEmpty(g: Geometry, m: Msg)
    requires g.Valid()
  {
    forall ops: seq<Op> :: Exec(g, Init(), ops).Queue() == [] ==> Put(g, Exec(g, Init(), ops), m).1 == 0
  }

  /** One put and one get of m leave an empty ring with both positions at the node count of m. */
  lemma PutThenGet(g: Geometry, m: Msg)
    requires g.Valid() && m.Valid() && g.Nodes(m) + RESERVE_BLOCK_COUNT <= g.eleCount
    ensures Exec(g, Init(), [PutOp(m), GetOp(|m.payload|)]) == Layout(g.Nodes(m), g.Nodes(m), g.Nodes(m), [], [])
  {
    var ops := [PutOp(m), GetOp(|m.payload|)];
    PutAccepted(g, Init(), m);
    NodeCounts(g, 0, 0);
    PutShape(g, Init(), m);
    StepKeepsValid(g, Init(), ops[0]);
    var l1 := Step(g, Init(), ops[0]).0;
    assert [] + [m] == [m];
    assert l1 == Layout(0, g.Nodes(m), g.Nodes(m), [m], []);
    StepKeepsValid(g, l1, ops[1]);
    assert l1.Queue() == [m];
    assert Drop(g, l1) == Layout(g.Nodes(m), g.Nodes(m), g.Nodes(m), [], []);
    assert ops[1..] == [ops[1]] && ops[1..][1..] == [];
    assert Exec(g, l1, [ops[1]]) == Step(g, l1, ops[1]).0;
  }

  /** The tight bound: half the ring, and the reserve besides. */
  lemma ProgressBound(g: Geometry, m: Msg)
    requires g.Valid() && 1 <= |m.payload| <= 33554432
    ensures AlwaysFitsWhenEmpty(g, m) <==> g.Nodes(m) + 10 <= g.eleCount && 2 * g.Nodes(m) <= g.eleCount
  {
    var nr := g.Nodes(m);
    if nr + RESERVE_BLOCK_COUNT <= g.eleCount && 2 * nr <= g.eleCount {
      forall ops: seq<Op> | Exec(g, Init(), ops).Queue() == [] ensures Put(g, Exec(g, Init(), ops), m).1 == 0 {
        var l := Exec(g, Init(), ops);
        UsedNodesAreMessagesAndSkips(g, l);
        NodeCounts(g, l.head, l.tail);
        RefusedIff(g, l, m);
        PutCode(g, l, m);
      }
    } else if nr + RESERVE_BLOCK_COUNT > g.eleCount {
      NodeCounts(g, 0, 0);
      RefusedIff(g, Init(), m);
      assert Exec(g, Init(), []) == Init();
    } else {
      var ops := [PutOp(m), GetOp(|m.payload|)];
      PutThenGet(g, m);
      NodeCounts(g, nr, nr);
      RefusedIff(g, Exec(g, Init(), ops), m);
    }
  }
}
