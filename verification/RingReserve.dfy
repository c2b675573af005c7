/** What the reserve of RESERVE_BLOCK_COUNT nodes buys while a reader is still clearing the nodes
    it released, and where it buys nothing: the branch that wraps checks no reserve. */
module RingReserve {
  import opened RingLayout
  import opened RingBytes
  import opened RingProtocol
  import opened RingInvariant
  import opened RingSafety

  /** Reader r has moved the head but not yet cleared the nodes from pos on. */
  predicate Clearing(s: State, r: nat) {
    r < |s.readers| && s.readers[r].RClear? && s.readers[r].pos != s.readers[r].end
  }

  /** Number of nodes from a to b, b at most one lap ahead. */
  function Dist(g: Geometry, a: Pos, b: Pos): int {
    if a.lap == b.lap then b.idx - a.idx else g.Slots() - a.idx + b.idx
  }

  /** The nodes between the first uncleared node and the head. */
  function Uncleared(g: Geometry, s: State, r: nat): int
    requires Clearing(s, r)
  {
    Dist(g, s.readers[r].pos, s.head)
  }

  lemma ClearingFacts(g: Geometry, s: State, r: nat)
    requires Inv(g, s) && Clearing(s, r)
    ensures var c := s.readers[r];
            && c.pos.idx <= g.eleCount && Lt(c.pos, s.head) && Le(s.tail, Up(c.pos))
            && Uncleared(g, s, r) == if c.pos.lap == s.head.lap then s.head.idx - c.pos.idx
                                     else g.Slots() - c.pos.idx + s.head.idx
  {
    assert ReaderOk(g, s, s.readers[r]);
  }

  /** The condition under which the tail move of writer w takes no node reader r must still clear. */
  predicate Spares(g: Geometry, s: State, w: nat, r: nat)
    requires w < |s.writers| && s.writers[w].WCas? && Clearing(s, r)
    requires s.tail.idx <= g.eleCount
  {
    var nr := g.NeededNodes(s.writers[w].p.datalen);
    if s.writers[w].wrapped then nr + Uncleared(g, s, r) <= s.head.idx
    else g.UsedNodes(s.head.idx, s.tail.idx) + nr + Uncleared(g, s, r) <= g.Slots()
  }

  lemma SparesIff(g: Geometry, s: State, w: nat, r: nat)
    requires Inv(g, s) && w < |s.writers| && s.writers[w].WCas? && s.writers[w].ot == s.tail && Clearing(s, r)
    ensures Spares(g, s, w, r) <==> Le(Advance(s.tail, s.writers[w].newTail), Up(s.readers[r].pos))
  {
    hide Inv;
    hide Memory;
    hide Free;
    hide Writers;
    hide Readers;
    hide Geometry.NeededNodes;
    hide ResShape;
    var x := s.writers[w];
    WriterFact(g, s, w);
    Parts(g, s);
    NewResShape(g, s, w);
    ClearingFacts(g, s, r);
    NodeCounts(g, s.head.idx, s.tail.idx);
    NodeCounts(g, x.h.idx, x.ot.idx);
    PacketFits(g, x.p, 0);
    ModOneLap(x.ot.idx + g.NeededNodes(x.p.datalen), g.Slots());
  }

  /** Exactly when a tail move is safe: each clearing reader is spared. */
  lemma ClearedInTimeIff(g: Geometry, s: State, w: nat)
    requires Inv(g, s) && w < |s.writers| && s.writers[w].WCas? && s.writers[w].ot == s.tail
    ensures ClearedInTime(g, s, WriterStep(w)) <==> forall r: nat :: Clearing(s, r) ==> Spares(g, s, w, r)
  {
    forall r: nat | Clearing(s, r)
      ensures Spares(g, s, w, r) <==> Le(Advance(s.tail, s.writers[w].newTail), Up(s.readers[r].pos))
    {
      SparesIff(g, s, w, r);
    }
  }

  /** Without a wrap the reserve is enough for readers at most one node more than it behind the
      head: the space check was made against this head or an earlier one. */
  lemma ReserveCoversClearing(g: Geometry, s: State, w: nat, r: nat)
    requires Inv(g, s) && w < |s.writers| && s.writers[w].WCas? && s.writers[w].ot == s.tail && Clearing(s, r)
    requires !s.writers[w].wrapped && Uncleared(g, s, r) <= RESERVE_BLOCK_COUNT + 1
    ensures Spares(g, s, w, r)
  {
    var x := s.writers[w];
    assert WriterOk(g, s, x);
    ClearingFacts(g, s, r);
    NodeCounts(g, s.head.idx, s.tail.idx);
    NodeCounts(g, x.h.idx, x.ot.idx);
  }

  // ---- What readers of the current head never do

  /** A reader whose snapshot is still the head never reports corruption: it skips only marked
      nodes, its length check passes, and it never finds the queue empty after skipping. */
  lemma NoFalseCorruption(g: Geometry, s: State, r: nat)
    requires Inv(g, s) && r < |s.readers|
    requires !s.readers[r].RIdle? && !s.readers[r].RReload? && !s.readers[r].RClear? && s.readers[r].oh == s.head
    requires PublishedInTime(g, s, ReaderStep(r))
    ensures var y := s.readers[r];
            && !y.REmptyCas?
            && (y.RTok3? ==> TokenAt(g, s, y.cur.idx) in {TOKEN_HAS_DATA, TOKEN_SKIPPED})
            && (y.RCheck? ==> g.UsedNodes(y.cur.idx, s.tail.idx) >= g.NeededNodes(y.len))
  {
    var y := s.readers[r];
    assert ReaderOk(g, s, y);
    if y.RTok3? {
      TokenUnderCursor(g, s, y.cur);
    } else if y.RCheck? {
      PacketIsUsed(g, s);
    }
  }
}
