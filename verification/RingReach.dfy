/** Runs of the concurrent system, built step by step: what a writer or a reader achieves when it
    runs on its own from any state a run has reached. */
module RingReach {
  import opened RingLayout
  import opened RingBytes
  import opened RingProtocol
  import opened RingInvariant
  import opened RingSafety

  /** Some run under the three suppositions ends in s. */
  ghost predicate Reached(g: Geometry, s: State) {
    exists states, steps :: Schedule(g, states, steps) && states[|steps|] == s
  }

  lemma StartReached(g: Geometry, nw: nat, nr: nat)
    ensures Reached(g, Start(g, nw, nr))
  {
    assert Schedule(g, [Start(g, nw, nr)], []);
  }

  lemma Extend(g: Geometry, s: State, step: Step)
    requires Reached(g, s) && Enabled(g, s, step) && Supposed(g, s, step)
    ensures Reached(g, Apply(g, s, step))
  {
    hide Enabled, Supposed, Apply;
    var states, steps :| Schedule(g, states, steps) && states[|steps|] == s;
    var states', steps' := states + [Apply(g, s, step)], steps + [step];
    assert Schedule(g, states', steps');
    assert states'[|steps'|] == Apply(g, s, step);
  }

  lemma ReachedInv(g: Geometry, s: State)
    requires g.Valid() && Reached(g, s)
    ensures Inv(g, s)
  {
    hide Inv;
    var states, steps :| Schedule(g, states, steps) && states[|steps|] == s;
    RunKeepsInv(g, states, steps, |steps|);
  }

  // ---- One process on its own

  datatype Proc = W(w: nat) | R(r: nat)

  /** A step of the call that p is in. */
  predicate Of(p: Proc, step: Step) {
    match step
    case WriterBegin(_, _) => false
    case WriterStep(w) => p == W(w)
    case WriterStore(w, _) => p == W(w)
    case ReaderStep(r) => p == R(r)
    case ReaderTimeout(r) => p == R(r)
    case ReaderSmall(r) => p == R(r)
  }

  ghost predicate AloneRun(g: Geometry, p: Proc, states: seq<State>, steps: seq<Step>) {
    && |states| == |steps| + 1
    && forall i :: 0 <= i < |steps| ==>
         && Of(p, steps[i]) && Enabled(g, states[i], steps[i]) && Supposed(g, states[i], steps[i])
         && states[i + 1] == Apply(g, states[i], steps[i])
  }

  /** While p runs and nobody else does, s becomes s'. */
  ghost predicate Alone(g: Geometry, s: State, p: Proc, s': State) {
    exists states, steps :: AloneRun(g, p, states, steps) && states[0] == s && states[|steps|] == s'
  }

  /** p on its own leads from the reached state s0 to s. */
  ghost predicate From(g: Geometry, s0: State, p: Proc, s: State) {
    Reached(g, s0) && Alone(g, s0, p, s)
  }

  lemma FromSelf(g: Geometry, s: State, p: Proc)
    requires Reached(g, s)
    ensures From(g, s, p, s)
  {
    assert AloneRun(g, p, [s], []);
    assert [s][0] == s;
  }

  lemma Go(g: Geometry, s0: State, p: Proc, s: State, step: Step)
    requires From(g, s0, p, s) && Of(p, step) && Enabled(g, s, step) && Supposed(g, s, step)
    ensures From(g, s0, p, Apply(g, s, step))
  {
    hide Reached, Enabled, Supposed, Apply, Of;
    var states, steps :| AloneRun(g, p, states, steps) && states[0] == s0 && states[|steps|] == s;
    var states', steps' := states + [Apply(g, s, step)], steps + [step];
    assert AloneRun(g, p, states', steps');
    assert states'[0] == s0 && states'[|steps'|] == Apply(g, s, step);
  }

  lemma {:induction false} AloneIsReached(g: Geometry, p: Proc, states: seq<State>, steps: seq<Step>, i: nat)
    requires AloneRun(g, p, states, steps) && i <= |steps| && Reached(g, states[0])
    ensures Reached(g, states[i])
  {
    hide Reached, Enabled, Supposed, Apply, Of;
    if i > 0 {
      AloneIsReached(g, p, states, steps, i - 1);
      Extend(g, states[i - 1], steps[i - 1]);
    }
  }

  lemma FromInv(g: Geometry, s0: State, p: Proc, s: State)
    requires g.Valid() && From(g, s0, p, s)
    ensures Inv(g, s) && Reached(g, s)
  {
    hide Inv, Reached;
    var states, steps :| AloneRun(g, p, states, steps) && states[0] == s0 && states[|steps|] == s;
    AloneIsReached(g, p, states, steps, |steps|);
    ReachedInv(g, s);
  }

  // ---- A writer on its own

  /** The queue takes p. */
  predicate Accepts(g: Geometry, s: State, p: Packet) {
    s.tail.idx <= g.eleCount && !g.Refuses(s.head.idx, s.tail.idx, g.NeededNodes(p.datalen))
  }

  lemma AcceptsAhead(g: Geometry, s: State, p: Packet)
    requires s.head.idx <= s.tail.idx && s.tail.idx + g.NeededNodes(p.datalen) <= g.eleCount
    requires s.head.idx + g.eleCount - s.tail.idx >= g.NeededNodes(p.datalen) + RESERVE_BLOCK_COUNT
    ensures Accepts(g, s, p)
  {
    NodeCounts(g, s.head.idx, s.tail.idx);
  }

  /** Where p goes: after the tail, or at index 0 with the nodes from the tail on skipped. */
  predicate Wraps(g: Geometry, s: State, p: Packet) {
    s.tail.idx + g.NeededNodes(p.datalen) > g.eleCount
  }

  function Place(g: Geometry, s: State, p: Packet): Res {
    var nr := g.NeededNodes(p.datalen);
    if Wraps(g, s, p)
    then Res(s.tail, Pos(s.tail.lap + 1, 0), Pos(s.tail.lap + 1, nr), p, s.tail.idx, false)
    else Res(s.tail, s.tail, Pos(s.tail.lap, s.tail.idx + nr), p, s.tail.idx, false)
  }

  /** The node counts of the two ways. */
  lemma PlaceFacts(g: Geometry, s: State, p: Packet)
    requires g.Valid() && p.Valid() && s.head.idx <= g.eleCount && Accepts(g, s, p)
    ensures s.tail.idx <= g.eleCount
    ensures var nr := g.NeededNodes(p.datalen);
            && g.EmptyNodes(s.head.idx, s.tail.idx) >= nr + RESERVE_BLOCK_COUNT && nr > 0
            && if Wraps(g, s, p) then g.AddPos(s.tail.idx, nr) < s.tail.idx && nr < s.head.idx <= s.tail.idx
               else g.AddPos(s.tail.idx, nr) == s.tail.idx + nr
  {
    hide Geometry.NeededNodes;
    var nr := g.NeededNodes(p.datalen);
    NodeCounts(g, s.head.idx, s.tail.idx);
    NeedsANode(g, p.datalen);
    ModOneLap(s.tail.idx + nr, g.Slots());
  }

  /** x has p in hand and nothing reserved for it. */
  predicate Holds(x: Writer, p: Packet) {
    match x
    case WBegin(q) => q == p
    case WTail(q, _) => q == p
    case WHead(q, _, _) => q == p
    case WRoom(q, _, _) => q == p
    case WWrap(q, _, _) => q == p
    case WCas(q, _, _, _, _, _) => q == p
    case _ => false
  }

  /** The tail has moved since x read it. */
  predicate Lost(s: State, x: Writer) {
    (x.WTail? || x.WHead? || x.WRoom? || x.WWrap? || x.WCas?) && x.ot.idx != s.tail.idx
  }

  /** ... and has not come back to the same index after a lap. */
  predicate NotLapped(s: State, x: Writer) {
    (x.WTail? || x.WHead? || x.WRoom? || x.WWrap? || x.WCas?) && x.ot.idx == s.tail.idx ==> x.ot == s.tail
  }

  /** The free nodes, seen from an earlier head, less the reserve are too few. */
  predicate FullFrom(g: Geometry, s: State, h: nat, p: Packet) {
    s.tail.idx <= g.eleCount && g.EmptyNodes(h, s.tail.idx) < g.NeededNodes(p.datalen) + 10
  }

  /** Compared with the tail read earlier the new one has wrapped, and the nodes below the head are
      too few. */
  predicate FullBelow(g: Geometry, s: State, ot: nat, p: Packet) {
    g.AddPos(s.tail.idx, g.NeededNodes(p.datalen)) < ot && s.head.idx - 1 < g.NeededNodes(p.datalen)
  }

  /** The put returns without having put p: one of the looks still to come finds the queue too full,
      or the race for the tail is lost and the queue refuses p when it is tried again. */
  predicate GivesUp(g: Geometry, s: State, x: Writer) {
    match x
    case WBegin(p) => !Accepts(g, s, p)
    case WTail(p, ot) =>
      FullFrom(g, s, s.head.idx, p) || FullBelow(g, s, ot.idx, p) || (Lost(s, x) && !Accepts(g, s, p))
    case WHead(p, ot, h) =>
      FullFrom(g, s, h.idx, p) || FullBelow(g, s, ot.idx, p) || (Lost(s, x) && !Accepts(g, s, p))
    case WRoom(p, ot, h) => FullBelow(g, s, ot.idx, p) || (Lost(s, x) && !Accepts(g, s, p))
    case WWrap(p, ot, h) => s.head.idx - 1 < g.NeededNodes(p.datalen) || (Lost(s, x) && !Accepts(g, s, p))
    case WCas(p, _, _, _, _, _) => Lost(s, x) && !Accepts(g, s, p)
    case _ => false
  }

  /** The readers still clearing are all behind the nodes up to end. */
  ghost predicate Clear(s: State, end: Pos) {
    forall r :: 0 <= r < |s.readers| && s.readers[r].RClear? && s.readers[r].pos != s.readers[r].end ==>
      Le(end, Up(s.readers[r].pos))
  }

  /** The state in which p has been put. */
  ghost predicate HasPut(g: Geometry, s: State, w: nat, p: Packet, s': State)
    requires w < |s.writers|
  {
    var res := Place(g, s, p);
    var marked := if Wraps(g, s, p) then g.Slots() else s.tail.idx;
    s' == s.(tail := res.end, log := s.log + [res.(marked := marked, published := true)], mem := s'.mem,
             writers := s.writers[w := WIdle])
  }

  /** The marks on the skipped nodes, up to the last one. */
  lemma {:induction false} MarkAll(g: Geometry, s0: State, s: State, w: nat) returns (s': State)
    requires From(g, s0, W(w), s) && w < |s.writers| && s.writers[w].WMark? && s.writers[w].i < |s.log|
    requires s.writers[w].n <= g.eleCount
    ensures From(g, s0, W(w), s')
    ensures var i := s.writers[w].i;
            s' == s.(mem := s'.mem, log := s.log[i := s.log[i].(marked := g.Slots())],
                     writers := s.writers[w := WFill(i, {})])
    decreases g.eleCount - s.writers[w].n
  {
    hide From;
    Go(g, s0, W(w), s, WriterStep(w));
    var t := Apply(g, s, WriterStep(w));
    if s.writers[w].n < g.eleCount {
      s' := MarkAll(g, s0, t, w);
    } else {
      s' := t;
    }
  }

  /** The stores of a packet in order, its token last. */
  lemma {:induction false} Fill(g: Geometry, s0: State, s: State, w: nat, k: nat) returns (s': State)
    requires From(g, s0, W(w), s) && w < |s.writers| && s.writers[w].WFill? && s.writers[w].i < |s.log|
    requires var p := s.log[s.writers[w].i].p; p.Valid() && 1 <= k <= |p.Words()|
    requires forall j: nat :: j in s.writers[w].done <==> 1 <= j < k
    ensures From(g, s0, W(w), s')
    ensures var i := s.writers[w].i;
            s' == s.(mem := s'.mem, log := s.log[i := s.log[i].(published := true)], writers := s.writers[w := WIdle])
    decreases |s.log[s.writers[w].i].p.Words()| - k
  {
    hide From;
    var p := s.log[s.writers[w].i].p;
    if k == |p.Words()| {
      Go(g, s0, W(w), s, WriterStep(w));
      s' := Apply(g, s, WriterStep(w));
    } else {
      Go(g, s0, W(w), s, WriterStore(w, k));
      s' := Fill(g, s0, Apply(g, s, WriterStore(w, k)), w, k + 1);
    }
  }

  /** After the successful swap of the tail. */
  lemma PutReserved(g: Geometry, s0: State, s: State, w: nat, p: Packet) returns (s': State)
    requires g.Valid() && From(g, s0, W(w), s) && w < |s.writers| && p.Valid()
    requires s.writers[w].WCas? && s.writers[w].p == p && s.writers[w].ot == s.tail
    requires Clear(s, Place(g, s, p).end)
    ensures From(g, s0, W(w), s') && HasPut(g, s, w, p, s')
  {
    hide From, Inv, Reached;
    hide Geometry.EmptyNodes, Geometry.NeededNodes;
    FromInv(g, s0, W(w), s);
    ReservesPlace(g, s, w, p);
    Go(g, s0, W(w), s, WriterStep(w));
    var t := Apply(g, s, WriterStep(w));
    if Wraps(g, s, p) {
      t := MarkAll(g, s0, t, w);
    }
    s' := Fill(g, s0, t, w, 1);
    assert s'.writers == s.writers[w := WIdle];
  }

  /** The swap reserves the nodes that the counts name. */
  lemma ReservesPlace(g: Geometry, s: State, w: nat, p: Packet)
    requires Inv(g, s) && w < |s.writers| && s.writers[w].WCas? && s.writers[w].p == p && s.writers[w].ot == s.tail
    ensures NewRes(g, s, s.writers[w]) == Place(g, s, p) && s.writers[w].wrapped == Wraps(g, s, p)
    ensures s.tail.idx <= g.eleCount && Place(g, s, p).end == Advance(s.tail, s.writers[w].newTail)
  {
    hide Inv, Memory, Free, Writers, Readers;
    hide Geometry.NeededNodes;
    var x := s.writers[w];
    WriterFact(g, s, w);
    Parts(g, s);
    PacketFits(g, p, 0);
    NodeCounts(g, x.h.idx, x.ot.idx);
    ModOneLap(x.ot.idx + g.NeededNodes(p.datalen), g.Slots());
  }

  /** One step before anything is reserved changes what the writer knows, and not what becomes of
      its put. */
  lemma LookKeepsFate(g: Geometry, s: State, w: nat, p: Packet)
    requires g.Valid() && Inv(g, s) && w < |s.writers| && Holds(s.writers[w], p) && NotLapped(s, s.writers[w])
    requires s.writers[w].WCas? ==> Lost(s, s.writers[w])
    ensures var x, y := s.writers[w], WriterLook(g, s, s.writers[w]);
            && (y.WIdle? ==> GivesUp(g, s, x))
            && (!y.WIdle? ==> Holds(y, p) && NotLapped(s, y) && (GivesUp(g, s, x) <==> GivesUp(g, s, y)))
  {
    hide Inv, Accepts;
    hide Geometry.NeededNodes, Geometry.EmptyNodes, Geometry.AddPos;
    AcceptsByLooks(g, s, w, p);
  }

  /** A queue accepts p when neither look at it, as it is, finds it too full. */
  lemma AcceptsByLooks(g: Geometry, s: State, w: nat, p: Packet)
    requires g.Valid() && Inv(g, s) && w < |s.writers| && Holds(s.writers[w], p)
    ensures s.tail.idx <= g.eleCount
    ensures Accepts(g, s, p) <==> !FullFrom(g, s, s.head.idx, p) && !FullBelow(g, s, s.tail.idx, p)
  {
    hide Inv, Memory, Free, Writers, Readers;
    hide Geometry.NeededNodes;
    WriterFact(g, s, w);
    Parts(g, s);
    NodeCounts(g, s.head.idx, s.tail.idx);
    PacketFits(g, p, 0);
    if g.NeededNodes(p.datalen) <= g.eleCount {
      ModOneLap(s.tail.idx + g.NeededNodes(p.datalen), g.Slots());
    }
  }

  /** How far the put is from its swap; a lost race costs one more round. */
  function Stage(s: State, x: Writer): nat {
    (if Lost(s, x) then 10 else 0) +
    match x
    case WBegin(_) => 6
    case WTail(_, _) => 5
    case WHead(_, _, _) => 4
    case WRoom(_, _, _) => 3
    case WWrap(_, _, _) => 2
    case _ => 1
  }

  lemma LookIsProgress(g: Geometry, s: State, x: Writer, p: Packet)
    requires Holds(x, p) && (x.WCas? ==> Lost(s, x))
    ensures var y := WriterLook(g, s, x); !y.WIdle? ==> Stage(s, y) < Stage(s, x)
  {
    hide Geometry.EmptyNodes, Geometry.NeededNodes, Geometry.AddPos;
  }

  /** A writer with p in hand, in whatever state the others have left it, runs alone until it is
      idle: then p is reserved and published, unless the put gives up, and then nothing has changed. */
  lemma {:induction false} Finish(g: Geometry, s0: State, s: State, w: nat, p: Packet) returns (s': State)
    requires g.Valid() && From(g, s0, W(w), s) && w < |s.writers| && Holds(s.writers[w], p) && p.Valid()
    requires NotLapped(s, s.writers[w])
    requires !GivesUp(g, s, s.writers[w]) ==> Clear(s, Place(g, s, p).end)
    ensures From(g, s0, W(w), s')
    ensures if GivesUp(g, s, s.writers[w]) then s' == SetWriter(s, w, WIdle) else HasPut(g, s, w, p, s')
    decreases Stage(s, s.writers[w])
  {
    hide From, Inv, Clear, Accepts, FullFrom, FullBelow;
    hide Geometry.EmptyNodes, Geometry.NeededNodes, Geometry.AddPos;
    var x := s.writers[w];
    FromInv(g, s0, W(w), s);
    if x.WCas? && !Lost(s, x) {
      s' := PutReserved(g, s0, s, w, p);
    } else {
      LookKeepsFate(g, s, w, p);
      LookIsProgress(g, s, x, p);
      Look(g, s0, s, w);
      var t := SetWriter(s, w, WriterLook(g, s, x));
      if t.writers[w].WIdle? {
        s' := t;
      } else {
        SamePositions(g, s, t, p);
        s' := Finish(g, s0, t, w, p);
        assert s.writers[w := t.writers[w]][w := WIdle] == s.writers[w := WIdle];
      }
    }
  }

  /** One look at the shared positions, or the swap that fails. */
  lemma Look(g: Geometry, s0: State, s: State, w: nat)
    requires From(g, s0, W(w), s) && w < |s.writers|
    requires var x := s.writers[w];
             x.WBegin? || x.WTail? || x.WHead? || x.WRoom? || x.WWrap? || (x.WCas? && Lost(s, x))
    ensures From(g, s0, W(w), SetWriter(s, w, WriterLook(g, s, s.writers[w])))
  {
    hide From, WriterLook;
    Go(g, s0, W(w), s, WriterStep(w));
  }

  /** What is to come depends on the positions and the readers alone. */
  lemma SamePositions(g: Geometry, s: State, t: State, p: Packet)
    requires t == s.(writers := t.writers)
    ensures Place(g, t, p) == Place(g, s, p) && Wraps(g, t, p) == Wraps(g, s, p)
    ensures Clear(s, Place(g, s, p).end) <==> Clear(t, Place(g, s, p).end)
    ensures forall x :: GivesUp(g, t, x) <==> GivesUp(g, s, x)
  {
  }

  /** From every reached state in which a writer has p in hand: it ends, alone, with p reserved and
      published, unless it gives up. */
  lemma FinishAlone(g: Geometry, s: State, w: nat, p: Packet) returns (s': State)
    requires g.Valid() && Reached(g, s) && w < |s.writers| && Holds(s.writers[w], p)
    requires NotLapped(s, s.writers[w])
    requires !GivesUp(g, s, s.writers[w]) ==> Clear(s, Place(g, s, p).end)
    ensures Alone(g, s, W(w), s') && Reached(g, s')
    ensures if GivesUp(g, s, s.writers[w]) then s' == SetWriter(s, w, WIdle) else HasPut(g, s, w, p, s')
  {
    hide Alone, Reached, Inv, HasPut, GivesUp, Clear, Place;
    ReachedInv(g, s);
    PacketInHand(g, s, w, p);
    FromSelf(g, s, W(w));
    s' := Finish(g, s, s, w, p);
    FromInv(g, s, W(w), s');
  }

  lemma PacketInHand(g: Geometry, s: State, w: nat, p: Packet)
    requires Inv(g, s) && w < |s.writers| && Holds(s.writers[w], p)
    ensures p.Valid()
  {
    WriterFact(g, s, w);
  }

  /** A writer that has lost the race for the tail tries again, and alone it succeeds exactly when the
      queue accepts p: it never drops a packet that fits. */
  lemma TriesAgain(g: Geometry, s: State, w: nat, p: Packet) returns (s': State)
    requires g.Valid() && Reached(g, s) && w < |s.writers| && s.writers[w].WCas? && s.writers[w].p == p
    requires s.writers[w].ot.idx != s.tail.idx && Clear(s, Place(g, s, p).end)
    ensures Alone(g, s, W(w), s') && Reached(g, s')
    ensures if Accepts(g, s, p) then HasPut(g, s, w, p, s') else s' == SetWriter(s, w, WIdle)
  {
    hide Alone, Reached, HasPut, Clear, Place, Accepts;
    s' := FinishAlone(g, s, w, p);
  }

  /** From every reached state that accepts p, and in which no reader has still to clear a node
      that p takes, an idle writer that runs alone reserves the nodes, marks the skipped ones,
      fills in p and publishes it, and changes nothing else. Any data of 1 byte to 32 MB will do. */
  lemma PutAlone(g: Geometry, s: State, w: nat, p: Packet) returns (s': State)
    requires g.Valid() && Reached(g, s) && w < |s.writers| && s.writers[w].WIdle?
    requires 1 <= p.datalen <= 33554432 && |p.data| == (p.datalen + 3) / 4
    requires Accepts(g, s, p) && Clear(s, Place(g, s, p).end)
    ensures Enabled(g, s, WriterBegin(w, p)) && Alone(g, Apply(g, s, WriterBegin(w, p)), W(w), s') && Reached(g, s')
    ensures var res := Place(g, s, p);
            var marked := if Wraps(g, s, p) then g.Slots() else s.tail.idx;
            s' == s.(tail := res.end, log := s.log + [res.(marked := marked, published := true)], mem := s'.mem)
  {
    hide Alone, Reached, Clear, Accepts, Place, Wraps;
    Extend(g, s, WriterBegin(w, p));
    var t := SetWriter(s, w, WBegin(p));
    SamePositions(g, s, t, p);
    SameAcceptance(g, s, t, p);
    s' := FinishAlone(g, t, w, p);
    assert s.writers[w := WBegin(p)][w := WIdle] == s.writers;
  }

  lemma SameAcceptance(g: Geometry, s: State, t: State, p: Packet)
    requires t == s.(writers := t.writers)
    ensures Accepts(g, t, p) <==> Accepts(g, s, p)
  {
  }

  // ---- A reader on its own

  lemma ReadOn(g: Geometry, s0: State, s: State, r: nat)
    requires From(g, s0, R(r), s) && r < |s.readers| && !s.readers[r].RCopy? && !s.readers[r].REmptyCas?
    requires PublishedInTime(g, s, ReaderStep(r))
    ensures From(g, s0, R(r), ReaderNext(g, s, r))
  {
    hide From, ReaderNext;
    Go(g, s0, R(r), s, ReaderStep(r));
  }

  /** The oldest packet is published. */
  ghost predicate Ready(s: State) {
    |s.out| < |s.log| && s.log[|s.out|].published
  }

  /** A reader in its loop at cur. */
  ghost predicate AtLoop(g: Geometry, s0: State, s: State, r: nat) {
    && g.Valid() && From(g, s0, R(r), s) && |s.out| < |s.log|
    && r < |s.readers| && s.readers[r].RLoop? && s.readers[r].oh == s.head && Cursor(s, s.readers[r].cur)
  }

  lemma AtHead(g: Geometry, s0: State, s: State, r: nat)
    requires g.Valid() && From(g, s0, R(r), s) && |s.out| < |s.log| && r < |s.readers|
    requires s.readers[r] == RLoop(s.head, s.head)
    ensures AtLoop(g, s0, s, r)
  {
    hide From, Memory, Free, Writers, Readers, History;
    FromInv(g, s0, R(r), s);
    Parts(g, s);
    ResFact(g, s, |s.out|);
  }

  /** What the reader finds there. */
  lemma LoopFacts(g: Geometry, s0: State, s: State, r: nat)
    requires AtLoop(g, s0, s, r)
    ensures var x, cur := s.log[|s.out|], s.readers[r].cur;
            && cur.idx <= g.eleCount && cur.idx != s.tail.idx
            && TokenAt(g, s, cur.idx) ==
               (if cur == x.first then if x.published then TOKEN_HAS_DATA else TOKEN_NO_DATA
                else if x.published || cur.idx < x.marked then TOKEN_SKIPPED else TOKEN_NO_DATA)
            && (cur != x.first ==> cur.lap + 1 == x.first.lap && x.first.idx == 0 && Cursor(s, Next(g, cur)))
            && x.p.Valid()
  {
    hide From, Free, Writers, History, Addr;
    FromInv(g, s0, R(r), s);
    Parts(g, s);
    var x, cur := s.log[|s.out|], s.readers[r].cur;
    ReaderFact(g, s, r);
    MemFact(g, s, |s.out|);
    ResFact(g, s, |s.out|);
    if cur == x.first && x.published {
      PacketInMemory(g, s, 0);
    }
  }

  /** One round over a skipped node. */
  lemma SkipOne(g: Geometry, s0: State, s: State, r: nat)
    requires AtLoop(g, s0, s, r) && s.readers[r].cur != s.log[|s.out|].first
    requires TokenAt(g, s, s.readers[r].cur.idx) == TOKEN_SKIPPED
    ensures AtLoop(g, s0, SetReader(s, r, RLoop(s.head, Next(g, s.readers[r].cur))), r)
  {
    hide From, Addr, Load;
    LoopFacts(g, s0, s, r);
    var cur := s.readers[r].cur;
    ReadOn(g, s0, s, r);
    var s1 := SetReader(s, r, RTok1(s.head, cur));
    ReadOn(g, s0, s1, r);
    var s2 := SetReader(s, r, RTok2(s.head, cur));
    assert SetReader(s1, r, s2.readers[r]) == s2;
    ReadOn(g, s0, s2, r);
    var s3 := SetReader(s, r, RTok3(s.head, cur));
    assert SetReader(s2, r, s3.readers[r]) == s3;
    ReadOn(g, s0, s3, r);
    var s4 := SetReader(s, r, RLoop(s.head, Next(g, cur)));
    assert SetReader(s3, r, s4.readers[r]) == s4;
  }

  /** Over the skipped nodes to the packet's token. */
  lemma {:induction false} FindToken(g: Geometry, s0: State, s: State, r: nat)
    requires AtLoop(g, s0, s, r) && Ready(s)
    ensures From(g, s0, R(r), SetReader(s, r, RLen(s.head, s.log[|s.out|].first)))
    decreases s.log[|s.out|].first.lap - s.readers[r].cur.lap, g.Slots() - s.readers[r].cur.idx
  {
    hide From, Addr, Load;
    LoopFacts(g, s0, s, r);
    var x, cur := s.log[|s.out|], s.readers[r].cur;
    if cur == x.first {
      ReadOn(g, s0, s, r);
      var s1 := SetReader(s, r, RTok1(s.head, cur));
      ReadOn(g, s0, s1, r);
      assert SetReader(s1, r, RLen(s.head, cur)) == SetReader(s, r, RLen(s.head, cur));
    } else {
      SkipOne(g, s0, s, r);
      var t := SetReader(s, r, RLoop(s.head, Next(g, cur)));
      FindToken(g, s0, t, r);
      assert SetReader(t, r, RLen(s.head, x.first)) == SetReader(s, r, RLen(s.head, x.first));
    }
  }

  /** A packet that is reserved and not published: the reader stops where there is no token yet. */
  lemma {:induction false} FindNothing(g: Geometry, s0: State, s: State, r: nat)
    requires AtLoop(g, s0, s, r) && !Ready(s)
    ensures From(g, s0, R(r), SetReader(s, r, RIdle))
    decreases s.log[|s.out|].first.lap - s.readers[r].cur.lap, g.Slots() - s.readers[r].cur.idx
  {
    hide From, Addr, Load;
    LoopFacts(g, s0, s, r);
    var cur := s.readers[r].cur;
    if TokenAt(g, s, cur.idx) == TOKEN_SKIPPED {
      SkipOne(g, s0, s, r);
      var t := SetReader(s, r, RLoop(s.head, Next(g, cur)));
      FindNothing(g, s0, t, r);
      assert SetReader(t, r, RIdle) == SetReader(s, r, RIdle);
    } else {
      NoToken(g, s0, s, r);
    }
  }

  lemma NoToken(g: Geometry, s0: State, s: State, r: nat)
    requires AtLoop(g, s0, s, r) && s.readers[r].cur.idx != s.tail.idx
    requires TokenAt(g, s, s.readers[r].cur.idx) == TOKEN_NO_DATA
    ensures From(g, s0, R(r), SetReader(s, r, RIdle))
  {
    hide From, TokenAt;
    var cur := s.readers[r].cur;
    ReadOn(g, s0, s, r);
    var s1 := SetReader(s, r, RTok1(s.head, cur));
    SameTokens(g, s, s1, cur.idx);
    ReadOn(g, s0, s1, r);
    var s2 := SetReader(s, r, RTok2(s.head, cur));
    assert SetReader(s1, r, s2.readers[r]) == s2;
    SameTokens(g, s, s2, cur.idx);
    ReadOn(g, s0, s2, r);
    var s3 := SetReader(s, r, RConflict(s.head, cur));
    assert SetReader(s2, r, s3.readers[r]) == s3;
    ReadOn(g, s0, s3, r);
    assert SetReader(s3, r, RIdle) == SetReader(s, r, RIdle);
  }

  lemma SameTokens(g: Geometry, s: State, t: State, n: nat)
    requires t.mem == s.mem
    ensures TokenAt(g, t, n) == TokenAt(g, s, n)
  {
  }

  /** From the token on: the length is checked. */
  lemma CheckLength(g: Geometry, s0: State, s: State, r: nat)
    requires g.Valid() && From(g, s0, R(r), s) && r < |s.readers| && Ready(s)
    requires s.readers[r] == RLen(s.head, s.log[|s.out|].first)
    ensures From(g, s0, R(r), SetReader(s, r, RCopy(s.head, s.log[|s.out|].first, s.log[|s.out|].p.datalen, [])))
  {
    hide From, Inv, Addr, Memory, Free, Writers, Readers, History;
    hide Geometry.UsedNodes, Geometry.NeededNodes;
    FromInv(g, s0, R(r), s);
    Parts(g, s);
    ResFact(g, s, |s.out|);
    PacketInMemory(g, s, 1);
    PacketIsUsed(g, s);
    var x := s.log[|s.out|];
    ReadOn(g, s0, s, r);
    var t := SetReader(s, r, RCheck(s.head, x.first, x.p.datalen));
    ReadOn(g, s0, t, r);
    var u := SetReader(s, r, RCopy(s.head, x.first, x.p.datalen, []));
    assert SetReader(t, r, u.readers[r]) == u;
  }

  /** From the loop up to the copying of the oldest packet. */
  lemma Find(g: Geometry, s0: State, s: State, r: nat)
    requires g.Valid() && From(g, s0, R(r), s) && r < |s.readers| && s.readers[r] == RLoop(s.head, s.head) && Ready(s)
    ensures From(g, s0, R(r), SetReader(s, r, RCopy(s.head, s.log[|s.out|].first, s.log[|s.out|].p.datalen, [])))
  {
    hide From;
    AtHead(g, s0, s, r);
    FindToken(g, s0, s, r);
    var x := s.log[|s.out|];
    var t, u := RLen(s.head, x.first), RCopy(s.head, x.first, x.p.datalen, []);
    CheckLength(g, s0, SetReader(s, r, t), r);
    assert SetReader(SetReader(s, r, t), r, u) == SetReader(s, r, u);
  }

  lemma {:induction false} Copy(g: Geometry, s0: State, s: State, r: nat) returns (s': State)
    requires g.Valid() && From(g, s0, R(r), s) && r < |s.readers| && s.readers[r].RCopy? && s.readers[r].oh == s.head
    requires |s.readers[r].buf| <= 2 + DataWords(s.readers[r].len)
    ensures |s.out| < |s.log| && From(g, s0, R(r), s')
    ensures var x := s.log[|s.out|];
            s' == s.(head := x.end, out := s.out + [x.p], readers := s.readers[r := RClear(s.head, x.end)])
    decreases 2 + DataWords(s.readers[r].len) - |s.readers[r].buf|
  {
    hide From, Inv;
    FromInv(g, s0, R(r), s);
    Go(g, s0, R(r), s, ReaderStep(r));
    var t := Apply(g, s, ReaderStep(r));
    if |s.readers[r].buf| < 2 + DataWords(s.readers[r].len) {
      s' := Copy(g, s0, t, r);
      assert s'.readers == s.readers[r := s'.readers[r]];
    } else {
      HeadMoveShape(g, s, r);
      s' := t;
    }
  }

  /** Nothing is known of the queue: at the start of a get, or because another reader has swapped the
      head after this one copied. */
  predicate StartsOver(s: State, x: Reader) {
    x.RIdle? || x.RReload? || (x.RCopy? && |x.buf| >= 2 + DataWords(x.len) && x.oh.idx != s.head.idx)
  }

  lemma ToLoop(g: Geometry, s0: State, s: State, r: nat)
    requires From(g, s0, R(r), s) && r < |s.readers| && StartsOver(s, s.readers[r])
    ensures From(g, s0, R(r), SetReader(s, r, RLoop(s.head, s.head)))
  {
    hide From;
    if s.readers[r].RCopy? {
      Go(g, s0, R(r), s, ReaderStep(r));
      var t := SetReader(s, r, RReload);
      ReadOn(g, s0, t, r);
      assert SetReader(t, r, RLoop(s.head, s.head)) == SetReader(s, r, RLoop(s.head, s.head));
    } else {
      ReadOn(g, s0, s, r);
    }
  }

  lemma Taking(g: Geometry, s0: State, s: State, r: nat) returns (s': State)
    requires g.Valid() && From(g, s0, R(r), s) && r < |s.readers| && StartsOver(s, s.readers[r]) && Ready(s)
    ensures From(g, s0, R(r), s')
    ensures var x := s.log[|s.out|];
            s' == s.(head := x.end, out := s.out + [x.p], readers := s.readers[r := RClear(s.head, x.end)])
  {
    hide From;
    ToLoop(g, s0, s, r);
    var t := SetReader(s, r, RLoop(s.head, s.head));
    Find(g, s0, t, r);
    var u := SetReader(s, r, RCopy(s.head, s.log[|s.out|].first, s.log[|s.out|].p.datalen, []));
    assert SetReader(t, r, u.readers[r]) == u;
    s' := Copy(g, s0, u, r);
    assert s'.readers == s.readers[r := s'.readers[r]];
  }

  /** The clearing, to its end, less than a lap ahead. */
  lemma {:induction false} ClearUp(g: Geometry, s0: State, s: State, r: nat) returns (s': State)
    requires From(g, s0, R(r), s) && r < |s.readers| && s.readers[r].RClear?
    requires var y := s.readers[r];
             y.pos.idx <= g.eleCount && y.end.idx <= g.eleCount && Le(y.pos, y.end) && Lt(y.end, Up(y.pos))
    ensures From(g, s0, R(r), s') && s' == s.(mem := s'.mem, readers := s.readers[r := RIdle])
    decreases s.readers[r].end.lap - s.readers[r].pos.lap, g.eleCount - s.readers[r].pos.idx
  {
    hide From;
    ReadOn(g, s0, s, r);
    var t := ReaderNext(g, s, r);
    if s.readers[r].pos.idx != s.readers[r].end.idx {
      s' := ClearUp(g, s0, t, r);
      assert s'.readers == s.readers[r := RIdle];
    } else {
      s' := t;
    }
  }

  /** From every reached state whose oldest packet is published a reader that starts its get, or that
      has lost the race for the head and starts over, gets that packet when it runs alone, whatever
      the others left unfinished. */
  lemma Take(g: Geometry, s: State, r: nat) returns (s': State)
    requires g.Valid() && Reached(g, s) && r < |s.readers| && StartsOver(s, s.readers[r]) && Ready(s)
    ensures Alone(g, s, R(r), s') && Reached(g, s')
    ensures var x := s.log[|s.out|];
            s' == s.(head := x.end, out := s.out + [x.p], readers := s.readers[r := RClear(s.head, x.end)])
  {
    hide Alone, Reached, Inv;
    FromSelf(g, s, R(r));
    s' := Taking(g, s, s, r);
    FromInv(g, s, R(r), s');
  }

  /** A reader that still has to clear does so, alone, and is idle. */
  lemma ClearAll(g: Geometry, s: State, r: nat) returns (s': State)
    requires g.Valid() && Reached(g, s) && r < |s.readers| && s.readers[r].RClear?
    ensures Alone(g, s, R(r), s') && Reached(g, s')
    ensures s' == s.(mem := s'.mem, readers := s.readers[r := RIdle])
  {
    hide Alone, Reached, Inv;
    ReachedInv(g, s);
    ReaderFact(g, s, r);
    FromSelf(g, s, R(r));
    s' := ClearUp(g, s, s, r);
    FromInv(g, s, R(r), s');
  }

  /** The whole get, to its end. */
  lemma GetAlone(g: Geometry, s: State, r: nat) returns (s': State)
    requires g.Valid() && Reached(g, s) && r < |s.readers| && StartsOver(s, s.readers[r]) && Ready(s)
    ensures Alone(g, s, R(r), s') && Reached(g, s')
    ensures var x := s.log[|s.out|];
            s' == s.(head := x.end, out := s.out + [x.p], mem := s'.mem, readers := s.readers[r := RIdle])
  {
    hide Alone, Reached, Inv;
    FromSelf(g, s, R(r));
    var t := Taking(g, s, s, r);
    FromInv(g, s, R(r), t);
    ReaderFact(g, t, r);
    s' := ClearUp(g, s, t, r);
    FromInv(g, s, R(r), s');
    assert s.readers[r := t.readers[r]][r := RIdle] == s.readers[r := RIdle];
  }

  /** Alone, a get delivers only what is published: from every reached state whose oldest packet is
      not, with the conflict window open, or that has none, it ends idle and has changed nothing. */
  lemma NothingToTake(g: Geometry, s: State, r: nat) returns (s': State)
    requires g.Valid() && Reached(g, s) && r < |s.readers| && StartsOver(s, s.readers[r]) && !Ready(s)
    ensures Alone(g, s, R(r), s') && s' == SetReader(s, r, RIdle)
  {
    hide Reached, Inv, Alone;
    FromSelf(g, s, R(r));
    ToLoop(g, s, s, r);
    var t := SetReader(s, r, RLoop(s.head, s.head));
    s' := SetReader(s, r, RIdle);
    FromInv(g, s, R(r), t);
    NoneQueued(g, t);
    if |s.out| == |s.log| {
      ReadOn(g, s, t, r);
      assert SetReader(t, r, RIdle) == s';
    } else {
      AtHead(g, s, t, r);
      FindNothing(g, s, t, r);
      assert SetReader(t, r, RIdle) == s';
    }
  }

  lemma NoneQueued(g: Geometry, s: State)
    requires Inv(g, s)
    ensures |s.out| <= |s.log| && (|s.out| == |s.log| ==> s.head == s.tail)
  {
    Parts(g, s);
  }
}
