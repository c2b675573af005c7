/** A run that shows what the reserve does not cover: the branch of a put that wraps checks none. */
module RingGap {
  import opened RingArith
  import opened RingLayout
  import opened RingProtocol
  import opened RingInvariant
  import opened RingReach
  import opened RingReserve

  function Zeros(datalen: nat): (p: Packet)
    ensures p.datalen == datalen && (1 <= datalen <= MAX_SQ_DATA_LENGTH ==> p.Valid())
  {
    Packet(datalen, 0, 0, seq(DataWords(datalen), _ => 0))
  }

  /** Thirty usable nodes, the reserve of them larger than the largest message, as the header
      recommends. */
  function Wide(): Geometry {
    Geometry(3355448, 30)
  }

  const THREE_NODES: nat := 10066376
  const FOUR_NODES: nat := 13421840
  const EIGHT_NODES: nat := 26843696

  lemma GapNodes(g: Geometry)
    requires g == Wide()
    ensures g.Valid() && g.eleCount == 30 && RESERVE_BLOCK_COUNT * g.eleSize > MAX_SQ_DATA_LENGTH
    ensures g.NeededNodes(THREE_NODES) == 3 && g.NeededNodes(FOUR_NODES) == 4 && g.NeededNodes(EIGHT_NODES) == 8
  {
    DivModAreQuotientAndRemainder(THREE_NODES + 3355479, 3355464);
    DivModAreQuotientAndRemainder(FOUR_NODES + 3355479, 3355464);
    DivModAreQuotientAndRemainder(EIGHT_NODES + 3355479, 3355464);
  }

  /** A packet of three nodes, */
  function Three(): Res {
    Res(Pos(0, 0), Pos(0, 0), Pos(0, 3), Zeros(THREE_NODES), 0, true)
  }

  /** and one of eight from node n on. */
  function Eight(n: nat): Res {
    Res(Pos(0, n), Pos(0, n), Pos(0, n + 8), Zeros(EIGHT_NODES), n, true)
  }

  lemma GapStart(g: Geometry) returns (s: State)
    ensures Reached(g, s) && s.head == Pos(0, 0) && s.tail == Pos(0, 0) && s.log == [] && s.out == []
    ensures s.writers == [WIdle] && s.readers == [RIdle, RIdle, RIdle, RIdle]
  {
    hide Reached, Addr;
    StartReached(g, 1, 4);
    s := Start(g, 1, 4);
    assert s.writers == [WIdle] && s.readers == [RIdle, RIdle, RIdle, RIdle];
  }

  /** The next packet of the run: eight nodes behind a tail that has not wrapped. */
  lemma PutEight(g: Geometry, s: State) returns (s': State)
    requires g == Wide() && Reached(g, s) && s.writers == [WIdle] && Clear(s, Pos(0, s.tail.idx + 8))
    requires s.tail.lap == 0 && s.head.idx <= s.tail.idx <= 22 && s.head.idx + 30 - s.tail.idx >= 18
    ensures Reached(g, s')
    ensures s' == s.(tail := Pos(0, s.tail.idx + 8), log := s.log + [Eight(s.tail.idx)], mem := s'.mem)
  {
    hide Reached, Zeros, Accepts, Wide;
    hide Geometry.NeededNodes;
    GapNodes(g);
    AcceptsAhead(g, s, Zeros(EIGHT_NODES));
    s' := PutAlone(g, s, 0, Zeros(EIGHT_NODES));
  }

  lemma GapFirst(g: Geometry) returns (s: State)
    requires g == Wide()
    ensures Reached(g, s)
    ensures s == State(Pos(0, 0), Pos(0, 3), s.mem, [WIdle], [RIdle, RIdle, RIdle, RIdle], [Three()], [])
  {
    hide Reached, Zeros, Accepts, Wide;
    hide Geometry.NeededNodes;
    GapNodes(g);
    var s0 := GapStart(g);
    AcceptsAhead(g, s0, Zeros(THREE_NODES));
    s := PutAlone(g, s0, 0, Zeros(THREE_NODES));
    assert [] + [Three()] == [Three()];
  }

  /** Two packets are put, of three and of eight nodes, and a reader takes both; the second it has
      not yet cleared. */
  lemma GapTakes(g: Geometry) returns (s: State)
    requires g == Wide()
    ensures Reached(g, s) && |s.out| == 2
    ensures s == State(Pos(0, 11), Pos(0, 11), s.mem, [WIdle], [RClear(Pos(0, 3), Pos(0, 11)), RIdle, RIdle, RIdle],
                       [Three(), Eight(3)], s.out)
  {
    hide Reached, Zeros, Wide;
    GapNodes(g);
    var s0 := GapFirst(g);
    s0 := PutEight(g, s0);
    assert s0.log == [Three(), Eight(3)];
    var s1 := Take(g, s0, 0);
    assert s1.readers == [RClear(Pos(0, 0), Pos(0, 3)), RIdle, RIdle, RIdle];
    var s2 := ClearAll(g, s1, 0);
    assert s2.readers == [RIdle, RIdle, RIdle, RIdle] && |s2.out| == 1;
    s := Take(g, s2, 0);
    assert s.readers == [RClear(Pos(0, 3), Pos(0, 11)), RIdle, RIdle, RIdle];
  }

  /** The state in which the next put wraps: two packets of eight nodes are queued, one reader has
      eight nodes to clear, three others are idle. */
  ghost predicate AtTheGap(s: State, x: Writer) {
    && s.head == Pos(0, 11) && s.tail == Pos(0, 27) && |s.out| == 2 && s.writers == [x]
    && s.readers == [RClear(Pos(0, 3), Pos(0, 11)), RIdle, RIdle, RIdle]
    && s.log == [Three(), Eight(3), Eight(11), Eight(19)]
  }

  /** Two more packets of eight nodes are put. */
  lemma BeforeTheGap(g: Geometry) returns (s: State)
    requires g == Wide()
    ensures Reached(g, s) && AtTheGap(s, WIdle)
  {
    hide Reached, Three, Eight, Zeros, Wide;
    s := GapTakes(g);
    s := PutEight(g, s);
    assert s.log == [Three(), Eight(3), Eight(11)];
    s := PutEight(g, s);
  }

  /** The next packet, of four nodes, is accepted and wraps. */
  lemma FourWraps(g: Geometry, s: State, p: Packet)
    requires g == Wide() && s.head == Pos(0, 11) && s.tail == Pos(0, 27) && p.datalen == FOUR_NODES
    ensures Accepts(g, s, p) && Wraps(g, s, p) && Place(g, s, p).end == Pos(1, 4)
  {
    hide Wide;
    hide Geometry.NeededNodes;
    GapNodes(g);
    var head, tail := s.head.idx, s.tail.idx;
    NodeCounts(g, head, tail);
  }

  /** One look at the shared positions. */
  lemma LookOnce(g: Geometry, s: State, w: nat)
    requires Reached(g, s) && w < |s.writers|
    requires var x := s.writers[w]; x.WBegin? || x.WTail? || x.WHead? || x.WRoom? || x.WWrap?
    ensures Reached(g, SetWriter(s, w, WriterLook(g, s, s.writers[w])))
  {
    hide Reached, WriterLook;
    Extend(g, s, WriterStep(w));
  }

  /** The first looks of a put, up to the choice of the nodes. */
  lemma Begin(g: Geometry, s: State, w: nat, p: Packet)
    requires g.Valid() && Reached(g, s) && w < |s.writers| && s.writers[w].WIdle? && p.Valid()
    requires s.head.idx <= g.eleCount && Accepts(g, s, p)
    ensures Reached(g, SetWriter(s, w, WRoom(p, s.tail, s.head)))
  {
    hide Reached, Accepts, Wraps;
    hide Geometry.EmptyNodes, Geometry.NeededNodes;
    PlaceFacts(g, s, p);
    Extend(g, s, WriterBegin(w, p));
    var s1 := SetWriter(s, w, WBegin(p));
    LookOnce(g, s1, w);
    var s2 := SetWriter(s, w, WTail(p, s.tail));
    assert SetWriter(s1, w, WTail(p, s.tail)) == s2;
    LookOnce(g, s2, w);
    var s3 := SetWriter(s, w, WHead(p, s.tail, s.head));
    assert SetWriter(s2, w, WHead(p, s.tail, s.head)) == s3;
    LookOnce(g, s3, w);
    assert SetWriter(s3, w, WRoom(p, s.tail, s.head)) == SetWriter(s, w, WRoom(p, s.tail, s.head));
  }

  /** Up to the swap of the tail: with a wrap the head is read once more. */
  lemma Choose(g: Geometry, s: State, w: nat, p: Packet) returns (newTail: nat)
    requires g.Valid() && Reached(g, s) && w < |s.writers| && s.writers[w].WIdle? && p.Valid()
    requires s.head.idx <= g.eleCount && Accepts(g, s, p)
    ensures Reached(g, SetWriter(s, w, WCas(p, s.tail, s.head, s.head, newTail, Wraps(g, s, p))))
    ensures newTail == Place(g, s, p).end.idx && Advance(s.tail, newTail) == Place(g, s, p).end
  {
    hide Reached, Accepts;
    hide Geometry.EmptyNodes, Geometry.NeededNodes;
    PlaceFacts(g, s, p);
    Begin(g, s, w, p);
    newTail := Place(g, s, p).end.idx;
    var s1 := SetWriter(s, w, WRoom(p, s.tail, s.head));
    LookOnce(g, s1, w);
    var s2 := SetWriter(s, w, WCas(p, s.tail, s.head, s.head, newTail, Wraps(g, s, p)));
    if Wraps(g, s, p) {
      var t := SetWriter(s, w, WWrap(p, s.tail, s.head));
      assert SetWriter(s1, w, t.writers[w]) == t;
      LookOnce(g, t, w);
      assert SetWriter(t, w, s2.writers[w]) == s2;
    } else {
      assert SetWriter(s1, w, s2.writers[w]) == s2;
    }
  }

  /** The writer of a packet of four nodes is about to take the nodes 0 to 3. */
  lemma ReachTheGap(g: Geometry, p: Packet) returns (s: State)
    requires g == Wide() && p.datalen == FOUR_NODES && p.Valid()
    ensures Reached(g, s) && AtTheGap(s, WCas(p, Pos(0, 27), Pos(0, 11), Pos(0, 11), 4, true))
  {
    hide Reached, Accepts, Place, Wraps, Wide, Three, Eight;
    GapNodes(g);
    var s0 := BeforeTheGap(g);
    FourWraps(g, s0, p);
    var newTail := Choose(g, s0, 0, p);
    s := SetWriter(s0, 0, WCas(p, s0.tail, s0.head, s0.head, newTail, true));
  }

  /** The reserve does not cover a wrap, even when it is larger than the largest message: a run
      under the three suppositions reaches a state where fewer than RESERVE_BLOCK_COUNT nodes are
      uncleared, by one reader, and yet the next step of a writer takes some of them. */
  lemma WrapIgnoresReserve()
    ensures exists g: Geometry, s: State, w: nat, r: nat ::
              && g.Valid() && RESERVE_BLOCK_COUNT * g.eleSize > MAX_SQ_DATA_LENGTH
              && Reached(g, s) && Enabled(g, s, WriterStep(w)) && NoLap(s, WriterStep(w))
              && Clearing(s, r) && Uncleared(g, s, r) < RESERVE_BLOCK_COUNT
              && (forall q: nat :: Clearing(s, q) ==> q == r)
              && !ClearedInTime(g, s, WriterStep(w))
  {
    hide Reached, Zeros, Wide, Three, Eight;
    var g := Wide();
    GapNodes(g);
    var s := ReachTheGap(g, Zeros(FOUR_NODES));
    assert Clearing(s, 0) && Uncleared(g, s, 0) == 8;
    assert !ClearedInTime(g, s, WriterStep(0));
  }
}
