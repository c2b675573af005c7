/** A put that is refused although the queue is empty: its writer read the tail before a lap, and
    takes the new tail, which is smaller, for a wrap. */
module RingRace {
  import opened RingArith
  import opened RingLayout
  import opened RingProtocol
  import opened RingInvariant
  import opened RingReach

  function Small(): Geometry {
    Geometry(8, 30)
  }

  /** A packet of n nodes of 24 bytes. */
  function Sized(n: nat): (p: Packet)
    requires n > 0
    ensures p.datalen == 24 * n - 16 && |p.data| == (p.datalen + 3) / 4
  {
    Packet(24 * n - 16, 0, 0, seq((24 * n - 13) / 4, _ => 0))
  }

  lemma SizedNodes(g: Geometry, n: nat)
    requires g == Small() && 0 < n <= 30
    ensures g.Valid() && g.eleCount == 30 && g.NeededNodes(Sized(n).datalen) == n && Sized(n).Valid()
  {
    DivModAreQuotientAndRemainder(24 * n + 23, 24);
  }

  /** No call is under way but, perhaps, that of writer 0. */
  ghost predicate Quiet(s: State, x: Writer, at: Pos) {
    && s.head == s.tail == at && |s.out| == |s.log|
    && s.writers == [x, WIdle] && s.readers == [RIdle]
  }

  lemma NothingToClear(s: State, end: Pos)
    requires s.readers == [RIdle]
    ensures Clear(s, end)
  {
  }

  /** A packet comes and goes. */
  lemma PutAndGet(g: Geometry, s: State, x: Writer, at: Pos, n: nat) returns (s': State)
    requires g == Small() && Reached(g, s) && Quiet(s, x, at) && 0 < n <= 20 && at.idx <= 30
    requires at.idx + n > 30 ==> at.idx > n
    ensures Reached(g, s') && Quiet(s', x, if at.idx + n <= 30 then Pos(at.lap, at.idx + n) else Pos(at.lap + 1, n))
  {
    hide Reached, Clear, Alone, Sized, Small, Enabled;
    hide Geometry.NeededNodes, Geometry.EmptyNodes;
    var p := Sized(n);
    SizedNodes(g, n);
    NodeCounts(g, s.head.idx, s.tail.idx);
    NothingToClear(s, Place(g, s, p).end);
    var t := PutAlone(g, s, 1, p);
    assert t.log[|s.out|].p == p && Ready(t);
    s' := GetAlone(g, t, 0);
  }

  /** Writer 0 begins to put p and reads the tail. */
  lemma BeginAndRead(g: Geometry, s: State, at: Pos, p: Packet) returns (s': State)
    requires g == Small() && Reached(g, s) && Quiet(s, WIdle, at) && p.Valid()
    ensures Reached(g, s') && Quiet(s', WTail(p, at), at)
  {
    hide Reached;
    Extend(g, s, WriterBegin(0, p));
    var t := SetWriter(s, 0, WBegin(p));
    Extend(g, t, WriterStep(0));
    s' := Apply(g, t, WriterStep(0));
  }

  lemma QuietStart(g: Geometry) returns (s: State)
    ensures Reached(g, s) && Quiet(s, WIdle, Pos(0, 0))
  {
    hide Reached, Addr;
    StartReached(g, 2, 1);
    s := Start(g, 2, 1);
    assert s.writers == [WIdle, WIdle] && s.readers == [RIdle];
  }

  /** Up to the empty queue whose tail has wrapped since writer 0 read it. */
  lemma TailWraps(g: Geometry) returns (s: State)
    requires g == Small()
    ensures Reached(g, s) && Quiet(s, WTail(Sized(10), Pos(0, 26)), Pos(1, 5))
  {
    hide Reached, Quiet, Sized, Small;
    SizedNodes(g, 10);
    s := QuietStart(g);
    s := PutAndGet(g, s, WIdle, Pos(0, 0), 13);
    s := PutAndGet(g, s, WIdle, Pos(0, 13), 13);
    s := BeginAndRead(g, s, Pos(0, 26), Sized(10));
    s := PutAndGet(g, s, WTail(Sized(10), Pos(0, 26)), Pos(0, 26), 5);
  }

  lemma StaleTailGivesUp(g: Geometry, s: State, p: Packet, was: Pos)
    requires g == Small() && Quiet(s, WTail(p, was), Pos(1, 5)) && was.idx == 26 && p == Sized(10)
    ensures Accepts(g, s, p) && GivesUp(g, s, s.writers[0])
  {
    hide Small, Sized;
    hide Geometry.NeededNodes, Geometry.EmptyNodes;
    SizedNodes(g, 10);
    NodeCounts(g, s.head.idx, s.tail.idx);
    var tail := s.tail.idx;
    ModOneLap(tail + 10, g.Slots());
  }

  /** A run reaches an empty queue, with nobody else at work, that accepts p, and from it a writer
      with p in hand, running alone, ends without having put it. */
  lemma RefusedByAnEmptyQueue()
    ensures exists g: Geometry, s: State, p: Packet, s': State ::
              && g.Valid() && Reached(g, s) && s.head == s.tail && |s.writers| == 2 && s.writers[1].WIdle?
              && s.readers == [RIdle] && Holds(s.writers[0], p) && Accepts(g, s, p)
              && Alone(g, s, W(0), s') && s' == SetWriter(s, 0, WIdle)
  {
    hide Reached, Alone, Small, Sized, Accepts, GivesUp, HasPut, Clear;
    var g, p := Small(), Sized(10);
    SizedNodes(g, 10);
    var s := TailWraps(g);
    StaleTailGivesUp(g, s, p, Pos(0, 26));
    var s' := FinishAlone(g, s, 0, p);
  }
}
