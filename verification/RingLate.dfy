/** What a late clearing does: a run in which every tail move spares the readers that are still
    clearing, or finds them within the reserve, and which delivers a packet that nobody put. */
module RingLate {
  import opened RingArith
  import opened Bytes
  import opened RingLayout
  import opened RingBytes
  import opened RingProtocol
  import opened RingInvariant
  import opened RingReach
  import opened RingReserve
  import opened RingGap

  /** The reserve read as a promise: a tail move is safe while the readers still clearing have at
      most RESERVE_BLOCK_COUNT nodes to go. */
  ghost predicate WithinReserve(g: Geometry, s: State, step: Step) {
    ClearedInTime(g, s, step) || forall r :: Clearing(s, r) ==> Uncleared(g, s, r) <= RESERVE_BLOCK_COUNT
  }

  ghost predicate Trusting(g: Geometry, s: State, step: Step) {
    Enabled(g, s, step) && NoLap(s, step) && PublishedInTime(g, s, step) && WithinReserve(g, s, step)
  }

  ghost predicate TrustingRun(g: Geometry, states: seq<State>, steps: seq<Step>) {
    && |states| == |steps| + 1
    && (exists nw: nat, nr: nat :: states[0] == Start(g, nw, nr))
    && forall i :: 0 <= i < |steps| ==>
         Trusting(g, states[i], steps[i]) && states[i + 1] == Apply(g, states[i], steps[i])
  }

  ghost predicate Arrived(g: Geometry, s: State) {
    exists states, steps :: TrustingRun(g, states, steps) && states[|steps|] == s
  }

  lemma ReachedArrives(g: Geometry, s: State)
    requires Reached(g, s)
    ensures Arrived(g, s)
  {
    hide Enabled, Apply;
    var states, steps :| Schedule(g, states, steps) && states[|steps|] == s;
    assert TrustingRun(g, states, steps);
  }

  lemma Go(g: Geometry, s: State, step: Step)
    requires Arrived(g, s) && Trusting(g, s, step)
    ensures Arrived(g, Apply(g, s, step))
  {
    hide Trusting, Apply;
    Enables(g, s, step);
    var states, steps :| TrustingRun(g, states, steps) && states[|steps|] == s;
    var states', steps' := states + [Apply(g, s, step)], steps + [step];
    assert TrustingRun(g, states', steps');
    assert states'[|steps'|] == Apply(g, s, step);
  }

  lemma Enables(g: Geometry, s: State, step: Step)
    requires Trusting(g, s, step)
    ensures Enabled(g, s, step)
  {
  }

  /** Only tail moves can be late. */
  lemma GoOn(g: Geometry, s: State, step: Step)
    requires Arrived(g, s) && Enabled(g, s, step) && NoLap(s, step) && PublishedInTime(g, s, step)
    requires step.WriterStep? ==> step.w < |s.writers| && !s.writers[step.w].WCas?
    ensures Arrived(g, Apply(g, s, step))
  {
    hide Arrived, Apply;
    Go(g, s, step);
  }

  // ---- What the writer stores

  /** The marks, and nothing below them. */
  lemma {:induction false} MarkOn(g: Geometry, s: State, w: nat) returns (s': State)
    requires Arrived(g, s) && w < |s.writers| && s.writers[w].WMark? && s.writers[w].i < |s.log|
    requires s.writers[w].n <= g.eleCount && |s.mem| == Addr(g, g.Slots())
    ensures Arrived(g, s') && |s'.mem| == |s.mem|
    ensures var i := s.writers[w].i;
            s' == s.(mem := s'.mem, log := s.log[i := s.log[i].(marked := g.Slots())],
                     writers := s.writers[w := WFill(i, {})])
    ensures forall m: nat :: s.writers[w].n <= m <= g.eleCount ==> TokenAt(g, s', m) == TOKEN_SKIPPED
    ensures forall a: nat :: a < Addr(g, s.writers[w].n) ==> Load(s'.mem, a) == Load(s.mem, a)
    decreases g.eleCount - s.writers[w].n
  {
    hide Arrived, Addr;
    var n := s.writers[w].n;
    GoOn(g, s, WriterStep(w));
    var t := Apply(g, s, WriterStep(w));
    AddrMono(g, n, n + 1);
    AddrMono(g, n, g.Slots());
    if n < g.eleCount {
      s' := MarkOn(g, t, w);
    } else {
      s' := t;
    }
  }

  /** The packet, its token last, and nothing else. */
  lemma {:induction false} FillOn(g: Geometry, s: State, w: nat, k: nat, p: Packet) returns (s': State)
    requires Arrived(g, s) && w < |s.writers| && s.writers[w].WFill? && s.writers[w].i < |s.log|
    requires p == s.log[s.writers[w].i].p && p.Valid() && 1 <= k <= |p.Words()|
    requires s.log[s.writers[w].i].first.idx == 0 && |p.Words()| <= |s.mem|
    requires forall j: nat :: j in s.writers[w].done <==> 1 <= j < k
    requires forall j :: 1 <= j < k ==> Load(s.mem, j) == p.Words()[j]
    ensures Arrived(g, s') && |s'.mem| == |s.mem|
    ensures var i := s.writers[w].i;
            s' == s.(mem := s'.mem, log := s.log[i := s.log[i].(published := true)], writers := s.writers[w := WIdle])
    ensures forall j :: 0 <= j < |p.Words()| ==> Load(s'.mem, j) == p.Words()[j]
    ensures forall a :: |p.Words()| <= a ==> Load(s'.mem, a) == Load(s.mem, a)
    decreases |p.Words()| - k
  {
    hide Arrived;
    assert Addr(g, 0) == 0;
    if k == |p.Words()| {
      GoOn(g, s, WriterStep(w));
      s' := Apply(g, s, WriterStep(w));
    } else {
      GoOn(g, s, WriterStore(w, k));
      s' := FillOn(g, Apply(g, s, WriterStore(w, k)), w, k + 1, p);
    }
  }

  // ---- What a reader takes, whoever wrote it

  /** Reader r in its loop can reach a packet of len bytes at first: skipped nodes up to it, its
      token and its length. */
  ghost predicate CanTake(g: Geometry, s: State, first: Pos, len: nat) {
    && first.idx <= g.eleCount && s.tail.idx <= g.eleCount && first.idx != s.tail.idx
    && TokenAt(g, s, first.idx) == TOKEN_HAS_DATA && Load(s.mem, Addr(g, first.idx) + 1) == len
    && g.UsedNodes(first.idx, s.tail.idx) >= g.NeededNodes(len)
  }

  predicate Marked(g: Geometry, mem: seq<word>, m: nat) {
    Load(mem, Addr(g, m)) == TOKEN_SKIPPED
  }

  /** The nodes from n on are marked, and the tail is none of them. */
  ghost predicate MarkedFrom(g: Geometry, mem: seq<word>, n: nat, tail: nat) {
    forall m: nat :: n <= m <= g.eleCount ==> Marked(g, mem, m) && m != tail
  }

  ghost predicate SkipsTo(g: Geometry, s: State, cur: Pos, first: Pos) {
    || cur == first
    || (first == Pos(cur.lap + 1, 0) && cur.idx <= g.eleCount && MarkedFrom(g, s.mem, cur.idx, s.tail.idx))
  }

  lemma SkipsNext(g: Geometry, s: State, cur: Pos, first: Pos)
    requires SkipsTo(g, s, cur, first) && cur != first
    ensures SkipsTo(g, s, Next(g, cur), first) && Marked(g, s.mem, cur.idx) && cur.idx != s.tail.idx
  {
    hide Marked;
    assert Marked(g, s.mem, cur.idx);
  }

  lemma ReadOn(g: Geometry, s: State, r: nat)
    requires Arrived(g, s) && r < |s.readers| && !s.readers[r].RTok3? && !Swaps(s.readers[r])
    ensures Arrived(g, ReaderNext(g, s, r))
  {
    hide Arrived, ReaderNext;
    GoOn(g, s, ReaderStep(r));
  }

  lemma SkipOneOn(g: Geometry, s: State, r: nat, cur: Pos, first: Pos)
    requires Arrived(g, s) && r < |s.readers| && s.readers[r] == RLoop(s.head, cur) && cur != first
    requires SkipsTo(g, s, cur, first)
    ensures Arrived(g, SetReader(s, r, RLoop(s.head, Next(g, cur)))) && SkipsTo(g, s, Next(g, cur), first)
  {
    hide Arrived, Addr, Load, MarkedFrom;
    SkipsNext(g, s, cur, first);
    ReadOn(g, s, r);
    var s1 := SetReader(s, r, RTok1(s.head, cur));
    ReadOn(g, s1, r);
    var s2 := SetReader(s, r, RTok2(s.head, cur));
    assert SetReader(s1, r, s2.readers[r]) == s2;
    ReadOn(g, s2, r);
    var s3 := SetReader(s, r, RTok3(s.head, cur));
    assert SetReader(s2, r, s3.readers[r]) == s3;
    GoOn(g, s3, ReaderStep(r));
    var s4 := SetReader(s, r, RLoop(s.head, Next(g, cur)));
    assert SetReader(s3, r, s4.readers[r]) == s4;
  }

  lemma {:induction false} FindOn(g: Geometry, s: State, r: nat, cur: Pos, first: Pos, len: nat)
    requires Arrived(g, s) && r < |s.readers| && s.readers[r] == RLoop(s.head, cur)
    requires SkipsTo(g, s, cur, first) && CanTake(g, s, first, len)
    ensures Arrived(g, SetReader(s, r, RCopy(s.head, first, len, [])))
    decreases first.lap - cur.lap, g.Slots() - cur.idx
  {
    hide Arrived, Addr, Load, MarkedFrom;
    hide Geometry.UsedNodes, Geometry.NeededNodes;
    var s5 := SetReader(s, r, RCopy(s.head, first, len, []));
    if cur == first {
      ReadOn(g, s, r);
      var s1 := SetReader(s, r, RTok1(s.head, cur));
      ReadOn(g, s1, r);
      var s2 := SetReader(s, r, RLen(s.head, cur));
      assert SetReader(s1, r, s2.readers[r]) == s2;
      ReadOn(g, s2, r);
      var s3 := SetReader(s, r, RCheck(s.head, cur, len));
      assert SetReader(s2, r, s3.readers[r]) == s3;
      ReadOn(g, s3, r);
      assert SetReader(s3, r, s5.readers[r]) == s5;
    } else {
      SkipOneOn(g, s, r, cur, first);
      var t := SetReader(s, r, RLoop(s.head, Next(g, cur)));
      FindOn(g, t, r, Next(g, cur), first, len);
      assert SetReader(t, r, s5.readers[r]) == s5;
    }
  }

  /** q is what memory holds at first. */
  ghost predicate Copied(g: Geometry, s: State, first: Pos, len: nat, q: Packet) {
    && q.datalen == len && |q.data| == DataWords(len)
    && forall j :: 0 <= j < DataWords(len) ==> q.data[j] == Load(s.mem, Addr(g, first.idx) + 4 + j)
  }

  lemma {:induction false} CopyOn(g: Geometry, s: State, r: nat, first: Pos, len: nat) returns (s': State, q: Packet)
    requires Arrived(g, s) && r < |s.readers| && s.readers[r].RCopy?
    requires s.readers[r].oh == s.head && s.readers[r].cur == first && s.readers[r].len == len
    requires |s.readers[r].buf| <= 2 + DataWords(len)
    requires forall j :: 0 <= j < |s.readers[r].buf| ==>
               s.readers[r].buf[j] == Load(s.mem, Addr(g, first.idx) + 2 + j)
    ensures Arrived(g, s') && Copied(g, s, first, len, q)
    ensures var head := Advance(s.head, g.AddPos(first.idx, g.NeededNodes(len)));
            s' == s.(head := head, out := s.out + [q], readers := s.readers[r := RClear(s.head, head)])
    decreases 2 + DataWords(len) - |s.readers[r].buf|
  {
    hide Arrived, Addr, Load;
    hide Geometry.AddPos, Geometry.NeededNodes;
    GoOn(g, s, ReaderStep(r));
    var t := Apply(g, s, ReaderStep(r));
    var buf := s.readers[r].buf;
    if |buf| < 2 + DataWords(len) {
      s', q := CopyOn(g, t, r, first, len);
      assert s'.readers == s.readers[r := s'.readers[r]];
    } else {
      s', q := t, Packet(len, buf[0], buf[1], buf[2..]);
    }
  }

  /** An idle reader takes what memory holds. */
  lemma TakeOn(g: Geometry, s: State, r: nat, first: Pos, len: nat) returns (s': State, q: Packet)
    requires Arrived(g, s) && r < |s.readers| && s.readers[r].RIdle?
    requires SkipsTo(g, s, s.head, first) && CanTake(g, s, first, len)
    ensures Arrived(g, s') && Copied(g, s, first, len, q)
    ensures var head := Advance(s.head, g.AddPos(first.idx, g.NeededNodes(len)));
            s' == s.(head := head, out := s.out + [q], readers := s.readers[r := RClear(s.head, head)])
  {
    hide Arrived, Addr, Load, MarkedFrom;
    hide Geometry.UsedNodes, Geometry.AddPos, Geometry.NeededNodes;
    ReadOn(g, s, r);
    var s1 := SetReader(s, r, RLoop(s.head, s.head));
    FindOn(g, s1, r, s.head, first, len);
    var s2 := SetReader(s, r, RCopy(s.head, first, len, []));
    assert SetReader(s1, r, s2.readers[r]) == s2;
    s', q := CopyOn(g, s2, r, first, len);
    assert s'.readers == s.readers[r := s'.readers[r]];
  }

  // ---- The run

  /** A packet of four nodes whose every word is 1. */
  function Ones(datalen: nat): (p: Packet)
    ensures p.datalen == datalen && (1 <= datalen <= MAX_SQ_DATA_LENGTH ==> p.Valid())
    ensures forall j :: 0 <= j < |p.data| ==> p.data[j] == 1
  {
    Packet(datalen, 1, 1, seq(DataWords(datalen), _ => 1))
  }

  /** One word of the packet of four nodes is the token of node 3. */
  lemma TokenInside(g: Geometry)
    requires g == Wide()
    ensures 4 <= Addr(g, 3) < Addr(g, 4) == 4 + DataWords(FOUR_NODES)
    ensures Addr(g, 0) == 0 && forall n: nat :: 4 <= n <= g.Slots() ==> Addr(g, 4) <= Addr(g, n)
  {
    MulIsProduct(3, NodeWords(g));
    MulIsProduct(4, NodeWords(g));
    forall n: nat | 4 <= n <= g.Slots() ensures Addr(g, 4) <= Addr(g, n) {
      AddrMono(g, 4, n);
    }
  }

  /** A packet of eight nodes is at node n. */
  predicate HoldsEight(g: Geometry, mem: seq<word>, n: nat) {
    Load(mem, Addr(g, n)) == TOKEN_HAS_DATA && Load(mem, Addr(g, n) + 1) == EIGHT_NODES
  }

  lemma GapMemory(g: Geometry, s: State, x: Writer)
    requires g == Wide() && Reached(g, s) && AtTheGap(s, x)
    ensures |s.mem| == Addr(g, g.Slots()) && HoldsEight(g, s.mem, 11) && HoldsEight(g, s.mem, 19)
  {
    hide Reached, Inv, Zeros;
    GapNodes(g);
    ReachedInv(g, s);
    Parts(g, s);
    MemFact(g, s, 2);
    MemFact(g, s, 3);
    Heads(g, s.mem, s.log[2]);
    Heads(g, s.mem, s.log[3]);
  }

  lemma Heads(g: Geometry, mem: seq<word>, x: Res)
    requires x.p.Valid() && x.published && ResMem(g, mem, x)
    ensures Load(mem, Addr(g, x.first.idx)) == TOKEN_HAS_DATA
    ensures Load(mem, Addr(g, x.first.idx) + 1) == x.p.datalen
  {
    assert Load(mem, Addr(g, x.first.idx) + 0) == x.p.Words()[0];
    assert Load(mem, Addr(g, x.first.idx) + 1) == x.p.Words()[1];
  }

  /** The packet lies over the nodes 0 to 3, behind marks on the last four, and its token of node 3
      has been cleared. */
  ghost predicate Spoilt(g: Geometry, mem: seq<word>) {
    && HoldsEight(g, mem, 11) && HoldsEight(g, mem, 19)
    && (forall m: nat :: 27 <= m <= g.eleCount ==> Marked(g, mem, m))
    && Load(mem, Addr(g, 0)) == TOKEN_HAS_DATA && Load(mem, Addr(g, 0) + 1) == FOUR_NODES
    && Load(mem, Addr(g, 3)) == TOKEN_NO_DATA
  }

  /** The tail move, which finds a reader with eight nodes to clear. */
  lemma LateMove(g: Geometry, s: State, p: Packet) returns (t: State)
    requires g == Wide() && p.datalen == FOUR_NODES && p.Valid()
    requires Reached(g, s) && AtTheGap(s, WCas(p, Pos(0, 27), Pos(0, 11), Pos(0, 11), 4, true))
    ensures Arrived(g, t)
    ensures t == s.(tail := Pos(1, 4), writers := [WMark(4, 27)],
                    log := s.log + [Res(Pos(0, 27), Pos(1, 0), Pos(1, 4), p, 27, false)])
  {
    hide Reached, Arrived, Three, Eight;
    ReachedArrives(g, s);
    var step := WriterStep(0);
    assert WithinReserve(g, s, step);
    Go(g, s, step);
    t := Apply(g, s, step);
  }

  lemma ClearThree(g: Geometry, s: State) returns (s': State)
    requires g == Wide() && Arrived(g, s) && |s.readers| == 4 && s.readers[0] == RClear(Pos(0, 3), Pos(0, 11))
    ensures Arrived(g, s')
    ensures s' == s.(mem := s'.mem, readers := s.readers[0 := RClear(Pos(0, 4), Pos(0, 11))])
    ensures forall a: nat :: Load(s'.mem, a) == if a == Addr(g, 3) then TOKEN_NO_DATA else Load(s.mem, a)
  {
    hide Arrived, Addr;
    ReadOn(g, s, 0);
    s' := ReaderNext(g, s, 0);
  }

  /** The writer marks the skipped nodes, */
  lemma LateMark(g: Geometry, p: Packet) returns (s: State)
    requires g == Wide() && p.datalen == FOUR_NODES && p.Valid()
    ensures Arrived(g, s) && |s.mem| == Addr(g, g.Slots()) && HoldsEight(g, s.mem, 11) && HoldsEight(g, s.mem, 19)
    ensures forall m: nat :: 27 <= m <= g.eleCount ==> Marked(g, s.mem, m)
    ensures s.head == Pos(0, 11) && s.tail == Pos(1, 4) && s.writers == [WFill(4, {})] && |s.out| == 2
    ensures s.readers == [RClear(Pos(0, 3), Pos(0, 11)), RIdle, RIdle, RIdle]
    ensures s.log == [Three(), Eight(3), Eight(11), Eight(19),
                      Res(Pos(0, 27), Pos(1, 0), Pos(1, 4), p, g.Slots(), false)]
  {
    hide Reached, Arrived, Three, Eight, Addr, Load, Wide;
    GapNodes(g);
    var s0 := ReachTheGap(g, p);
    GapMemory(g, s0, s0.writers[0]);
    var s1 := LateMove(g, s0, p);
    s := MarkOn(g, s1, 0);
    AddrMono(g, 11, 27);
    AddrMono(g, 19, 27);
    forall m: nat | 27 <= m <= g.eleCount ensures Marked(g, s.mem, m) {
      assert TokenAt(g, s, m) == TOKEN_SKIPPED;
    }
  }

  /** fills in the packet and publishes it, and then the reader clears node 3. */
  lemma LateClear(g: Geometry, p: Packet) returns (s: State)
    requires g == Wide() && p.datalen == FOUR_NODES && p.Valid()
    ensures Arrived(g, s) && Spoilt(g, s.mem) && s.head == Pos(0, 11) && s.tail == Pos(1, 4)
    ensures |s.readers| == 4 && s.readers[1] == s.readers[2] == s.readers[3] == RIdle
    ensures s.log == [Three(), Eight(3), Eight(11), Eight(19),
                      Res(Pos(0, 27), Pos(1, 0), Pos(1, 4), p, g.Slots(), true)]
  {
    hide Arrived, Three, Eight, Addr, Load, Wide;
    GapNodes(g);
    TokenInside(g);
    var s2 := LateMark(g, p);
    assert |p.Words()| == Addr(g, 4);
    var s3 := FillOn(g, s2, 0, 1, p);
    s := ClearThree(g, s3);
    forall m: nat | 27 <= m <= g.eleCount ensures Marked(g, s.mem, m) {
      assert Marked(g, s2.mem, m);
    }
    assert Load(s3.mem, 0) == p.Words()[0] && Load(s3.mem, 1) == p.Words()[1];
  }

  lemma CanTakeHere(g: Geometry, s: State)
    requires g == Wide() && Spoilt(g, s.mem) && s.tail == Pos(1, 4)
    ensures forall lap :: CanTake(g, s, Pos(lap, 11), EIGHT_NODES) && CanTake(g, s, Pos(lap, 19), EIGHT_NODES)
    ensures forall lap :: CanTake(g, s, Pos(lap, 0), FOUR_NODES)
    ensures SkipsTo(g, s, Pos(0, 27), Pos(1, 0))
    ensures g.AddPos(11, g.NeededNodes(EIGHT_NODES)) == 19 && g.AddPos(19, g.NeededNodes(EIGHT_NODES)) == 27
    ensures g.AddPos(0, g.NeededNodes(FOUR_NODES)) == 4
  {
    hide Addr, Load, Wide;
    hide Geometry.NeededNodes;
    GapNodes(g);
    var at11, at19, at0, tail := 11, 19, 0, s.tail.idx;
    NodeCounts(g, at11, tail);
    NodeCounts(g, at19, tail);
    NodeCounts(g, at0, tail);
    ModOneLap(at11 + 8, g.Slots());
    ModOneLap(at19 + 8, g.Slots());
    ModOneLap(at0 + 4, g.Slots());
  }

  /** Trusting the reserve is not enough: a run in which every tail move either spares the readers
      that are still clearing or finds them at most RESERVE_BLOCK_COUNT nodes behind, with a reserve
      larger than the largest message, delivers a packet that is none of those put. */
  lemma LateClearingSpoils()
    ensures exists g: Geometry, s: State, k: nat ::
              && g.Valid() && RESERVE_BLOCK_COUNT * g.eleSize > MAX_SQ_DATA_LENGTH
              && Arrived(g, s) && k < |s.out| && forall i :: 0 <= i < |s.log| ==> s.log[i].p != s.out[k]
  {
    hide Arrived, Addr, Load, Wide, Zeros, Spoilt, CanTake, Ones;
    hide Geometry.NeededNodes, Geometry.AddPos;
    var g, p := Wide(), Ones(FOUR_NODES);
    GapNodes(g);
    var s := LateClear(g, p);
    CanTakeHere(g, s);
    var t1, q1 := TakeOn(g, s, 1, Pos(0, 11), EIGHT_NODES);
    CanTakeHere(g, t1);
    var t2, q2 := TakeOn(g, t1, 2, Pos(0, 19), EIGHT_NODES);
    CanTakeHere(g, t2);
    var t3, q := TakeOn(g, t2, 3, Pos(1, 0), FOUR_NODES);
    NotPut(g, t2, p, q);
    assert t3.out[|t2.out|] == q;
  }

  lemma NotPut(g: Geometry, s: State, p: Packet, q: Packet)
    requires g == Wide() && Spoilt(g, s.mem) && p == Ones(FOUR_NODES)
    requires Copied(g, s, Pos(1, 0), FOUR_NODES, q)
    ensures q != p && q.datalen == FOUR_NODES
  {
    hide Addr, Load, Ones;
    TokenInside(g);
    var j := Addr(g, 3) - 4;
    assert q.data[j] == Load(s.mem, Addr(g, 0) + 4 + j) == TOKEN_NO_DATA;
  }
}
