/** Why a call returns: over every run, a put is over only when its packet was published, or when one
    of its looks found the queue too full; a get only when it delivered, or for what it saw. */
module RingReturns {
  import opened RingLayout
  import opened RingBytes
  import opened RingProtocol
  import opened RingInvariant
  import opened RingSafety
  import opened RingReach

  // ---- Puts

  /** Writer w has a reservation for p, as number i. */
  predicate HasReserved(s: State, w: nat, i: nat, p: Packet) {
    w < |s.writers| && Busy(s.writers[w]) && s.writers[w].i == i && i < |s.log| && s.log[i].p == p
  }

  predicate HasPublished(s: State, i: nat, p: Packet) {
    i < |s.log| && s.log[i].p == p && s.log[i].published
  }

  /** The step is a look of writer w that finds too few free nodes, in the whole ring or, for a put
      that wraps, below the head. */
  predicate FindsItFull(g: Geometry, s: State, w: nat, step: Step) {
    && step == WriterStep(w) && w < |s.writers|
    && var x := s.writers[w];
       || (x.WHead? && s.tail.idx <= g.eleCount
           && g.EmptyNodes(x.h.idx, s.tail.idx) < g.NeededNodes(x.p.datalen) + 10)
       || (x.WWrap? && s.head.idx - 1 < g.NeededNodes(x.p.datalen))
  }

  predicate ByWriter(step: Step, w: nat) {
    match step
    case WriterBegin(v, _) => v == w
    case WriterStep(v) => v == w
    case WriterStore(v, _) => v == w
    case _ => false
  }

  /** Steps of others leave a writer alone, and no step changes the packet of a reservation or takes
      back its publication. */
  lemma LogKeeps(g: Geometry, s: State, step: Step)
    requires Enabled(g, s, step)
    ensures var s' := Apply(g, s, step);
            && |s'.writers| == |s.writers| && |s'.log| >= |s.log|
            && (forall i :: 0 <= i < |s.log| ==>
                  s'.log[i].p == s.log[i].p && (s.log[i].published ==> s'.log[i].published))
            && forall w :: 0 <= w < |s.writers| && !ByWriter(step, w) ==> s'.writers[w] == s.writers[w]
  {
  }

  /** One step of a writer with p in hand: it keeps p, or reserves it, or finds the queue full. */
  lemma HandStep(g: Geometry, s: State, step: Step, w: nat, p: Packet)
    requires Inv(g, s) && Enabled(g, s, step) && w < |s.writers| && Holds(s.writers[w], p)
    ensures var s' := Apply(g, s, step);
            && |s'.writers| == |s.writers|
            && (|| Holds(s'.writers[w], p)
                || (step == WriterStep(w) && |s'.log| == |s.log| + 1 && HasReserved(s', w, |s.log|, p))
                || (s'.writers[w].WIdle? && FindsItFull(g, s, w, step)))
  {
    hide Inv;
    hide Geometry.NeededNodes, Geometry.EmptyNodes, Geometry.AddPos;
    TailInRing(g, s);
    if !ByWriter(step, w) {
      LogKeeps(g, s, step);
    }
  }

  lemma TailInRing(g: Geometry, s: State)
    requires Inv(g, s)
    ensures s.tail.idx <= g.eleCount
  {
  }

  /** One step while it has a reservation: it keeps it, or publishes it. */
  lemma OwnerStep(g: Geometry, s: State, step: Step, w: nat, i: nat, p: Packet)
    requires Enabled(g, s, step) && HasReserved(s, w, i, p)
    ensures var s' := Apply(g, s, step);
            HasReserved(s', w, i, p) || (s'.writers[w].WIdle? && HasPublished(s', i, p) && step == WriterStep(w))
  {
    LogKeeps(g, s, step);
  }

  /** Between moments i and k writer w has moved the tail for p, as reservation n. */
  ghost predicate Reserves(g: Geometry, states: seq<State>, steps: seq<Step>, i: nat, k: nat, w: nat, n: nat, p: Packet)
    requires |states| == |steps| + 1 && k <= |steps|
  {
    exists m :: i <= m < k && steps[m] == WriterStep(w) && |states[m].log| == n && HasReserved(states[m + 1], w, n, p)
  }

  lemma ReservesStill(g: Geometry, states: seq<State>, steps: seq<Step>, i: nat, k: nat, w: nat, n: nat, p: Packet)
    requires |states| == |steps| + 1 && k < |steps| && Reserves(g, states, steps, i, k, w, n, p)
    ensures Reserves(g, states, steps, i, k + 1, w, n, p)
  {
    var m :| i <= m < k && steps[m] == WriterStep(w) && |states[m].log| == n && HasReserved(states[m + 1], w, n, p);
    assert i <= m < k + 1;
  }

  /** A put from its begin on, as long as its writer is not idle again. */
  lemma {:induction false} PutGoesOn(g: Geometry, states: seq<State>, steps: seq<Step>,
                                     i: nat, k: nat, w: nat, p: Packet)
    returns (n: nat)
    requires g.Valid() && Schedule(g, states, steps) && i < k <= |steps| && steps[i] == WriterBegin(w, p)
    requires forall m :: i < m <= k ==> w < |states[m].writers| && !states[m].writers[w].WIdle?
    ensures Holds(states[k].writers[w], p)
            || (HasReserved(states[k], w, n, p) && Reserves(g, states, steps, i, k, w, n, p))
    decreases k
  {
    hide Inv, Enabled, Supposed, Apply, Reserves;
    n := 0;
    if k == i + 1 {
      Begun(g, states[i], w, p);
    } else {
      n := PutGoesOn(g, states, steps, i, k - 1, w, p);
      var s, step := states[k - 1], steps[k - 1];
      if Holds(s.writers[w], p) {
        RunKeepsInv(g, states, steps, k - 1);
        HandStep(g, s, step, w, p);
        if !Holds(states[k].writers[w], p) {
          n := |s.log|;
          JustReserved(g, states, steps, i, k, w, p);
        }
      } else {
        OwnerStep(g, s, step, w, n, p);
        ReservesStill(g, states, steps, i, k - 1, w, n, p);
      }
    }
  }

  lemma JustReserved(g: Geometry, states: seq<State>, steps: seq<Step>, i: nat, k: nat, w: nat, p: Packet)
    requires |states| == |steps| + 1 && i < k <= |steps| && steps[k - 1] == WriterStep(w)
    requires HasReserved(states[k], w, |states[k - 1].log|, p)
    ensures Reserves(g, states, steps, i, k, w, |states[k - 1].log|, p)
  {
    var m := k - 1;
    assert i <= m < k && steps[m] == WriterStep(w) && HasReserved(states[m + 1], w, |states[m].log|, p);
  }

  lemma Begun(g: Geometry, s: State, w: nat, p: Packet)
    requires Enabled(g, s, WriterBegin(w, p))
    ensures var s' := Apply(g, s, WriterBegin(w, p)); w < |s'.writers| && Holds(s'.writers[w], p)
  {
  }

  /** In every run: a writer that began to put p at moment i and is idle again at moment k for the
      first time has reserved nodes for p, once, and published it, or its last step was a look that
      found the queue too full. */
  lemma PutReturnsOnlyIf(g: Geometry, states: seq<State>, steps: seq<Step>, i: nat, k: nat, w: nat, p: Packet)
    requires g.Valid() && Schedule(g, states, steps) && i + 1 < k <= |steps| && steps[i] == WriterBegin(w, p)
    requires forall m :: i < m < k ==> w < |states[m].writers| && !states[m].writers[w].WIdle?
    requires w < |states[k].writers| && states[k].writers[w].WIdle?
    ensures || FindsItFull(g, states[k - 1], w, steps[k - 1])
            || exists n :: Reserves(g, states, steps, i, k - 1, w, n, p) && HasPublished(states[k], n, p)
  {
    hide Inv, Enabled, Supposed, Apply, Reserves, FindsItFull;
    var n := PutGoesOn(g, states, steps, i, k - 1, w, p);
    var s, step := states[k - 1], steps[k - 1];
    if Holds(s.writers[w], p) {
      RunKeepsInv(g, states, steps, k - 1);
      HandStep(g, s, step, w, p);
    } else {
      OwnerStep(g, s, step, w, n, p);
    }
  }

  // ---- Gets

  /** The step is one of reader r that returns without data: the queue ends at its position, the
      conflict window is open and the head is where it was, the data is longer than its buffer, or
      another reader has moved the head past nodes that this one took for skipped. */
  predicate SeesNothing(g: Geometry, s: State, r: nat, step: Step) {
    && r < |s.readers|
    && var x := s.readers[r];
       || step == ReaderSmall(r)
       || (step == ReaderStep(r)
           && ((x.RLoop? && s.tail.idx == x.cur.idx && x.cur.idx == x.oh.idx)
               || (x.RConflict? && s.head.idx == x.oh.idx)
               || (x.REmptyCas? && s.head.idx != x.oh.idx)))
  }

  /** Reader r is at work on a get that has delivered nothing. */
  predicate Looking(x: Reader) {
    !x.RIdle? && !x.RClear?
  }

  lemma OthersLeaveReader(g: Geometry, s: State, step: Step, r: nat)
    requires Enabled(g, s, step) && r < |s.readers| && !Of(R(r), step)
    ensures var s' := Apply(g, s, step); |s'.readers| == |s.readers| && s'.readers[r] == s.readers[r]
  {
  }

  /** One step of a reader at work: it goes on, delivers the next packet and has its nodes to clear,
      or sees nothing. */
  lemma LookingStep(g: Geometry, s: State, step: Step, r: nat)
    requires Inv(g, s) && Enabled(g, s, step) && Supposed(g, s, step) && r < |s.readers| && Looking(s.readers[r])
    ensures var s' := Apply(g, s, step);
            && |s'.readers| == |s.readers|
            && (|| Looking(s'.readers[r])
                || (step == ReaderStep(r) && s'.readers[r].RClear? && |s.out| < |s.log|
                    && s'.out == s.out + [s.log[|s.out|].p])
                || (s'.readers[r].RIdle? && SeesNothing(g, s, r, step)))
  {
    hide Inv;
    if !Of(R(r), step) {
      OthersLeaveReader(g, s, step, r);
    } else {
      if step == ReaderStep(r) {
        NeverEmptyAfterSkipping(g, s, step, r);
      }
      if MovesHead(s, r) && step == ReaderStep(r) && s.readers[r].RCopy? {
        HeadMove(g, s, r);
      }
    }
  }

  lemma NeverEmptyAfterSkipping(g: Geometry, s: State, step: Step, r: nat)
    requires Inv(g, s) && r < |s.readers| && NoLap(s, step) && step == ReaderStep(r)
    ensures s.readers[r].REmptyCas? ==> s.head.idx != s.readers[r].oh.idx
  {
    ReaderFact(g, s, r);
  }

  lemma ClearingStep(g: Geometry, s: State, step: Step, r: nat)
    requires Enabled(g, s, step) && r < |s.readers| && s.readers[r].RClear?
    ensures var s' := Apply(g, s, step);
            |s'.readers| == |s.readers| && (s'.readers[r].RClear? || s'.readers[r].RIdle?)
  {
    if !Of(R(r), step) {
      OthersLeaveReader(g, s, step, r);
    }
  }

  /** Between moments i and k reader r has moved the head and delivered the next packet. */
  ghost predicate Delivers(states: seq<State>, steps: seq<Step>, i: nat, k: nat, r: nat)
    requires |states| == |steps| + 1 && k <= |steps|
  {
    exists m :: i <= m < k && steps[m] == ReaderStep(r) && |states[m].out| < |states[m].log|
             && states[m + 1].out == states[m].out + [states[m].log[|states[m].out|].p]
  }

  lemma DeliversStill(states: seq<State>, steps: seq<Step>, i: nat, k: nat, r: nat)
    requires |states| == |steps| + 1 && k < |steps| && Delivers(states, steps, i, k, r)
    ensures Delivers(states, steps, i, k + 1, r)
  {
    var m :| i <= m < k && steps[m] == ReaderStep(r) && |states[m].out| < |states[m].log|
             && states[m + 1].out == states[m].out + [states[m].log[|states[m].out|].p];
    assert i <= m < k + 1;
  }

  lemma {:induction false} GetGoesOn(g: Geometry, states: seq<State>, steps: seq<Step>, i: nat, k: nat, r: nat)
    requires g.Valid() && Schedule(g, states, steps) && i < k <= |steps| && steps[i] == ReaderStep(r)
    requires r < |states[i].readers| && states[i].readers[r].RIdle?
    requires forall m :: i < m <= k ==> r < |states[m].readers| && !states[m].readers[r].RIdle?
    ensures Looking(states[k].readers[r])
            || (states[k].readers[r].RClear? && Delivers(states, steps, i, k, r))
    decreases k
  {
    hide Inv, Enabled, Supposed, Apply, Delivers;
    if k == i + 1 {
      GetBegun(g, states[i], r);
    } else {
      GetGoesOn(g, states, steps, i, k - 1, r);
      var s, step := states[k - 1], steps[k - 1];
      if Looking(s.readers[r]) {
        RunKeepsInv(g, states, steps, k - 1);
        LookingStep(g, s, step, r);
        if !Looking(states[k].readers[r]) {
          JustDelivered(states, steps, i, k, r);
        }
      } else {
        ClearingStep(g, s, step, r);
        DeliversStill(states, steps, i, k - 1, r);
      }
    }
  }

  lemma JustDelivered(states: seq<State>, steps: seq<Step>, i: nat, k: nat, r: nat)
    requires |states| == |steps| + 1 && i < k <= |steps| && steps[k - 1] == ReaderStep(r)
    requires var s := states[k - 1]; |s.out| < |s.log| && states[k].out == s.out + [s.log[|s.out|].p]
    ensures Delivers(states, steps, i, k, r)
  {
    var m := k - 1;
    assert i <= m < k && steps[m] == ReaderStep(r) && states[m + 1] == states[k];
  }

  lemma GetBegun(g: Geometry, s: State, r: nat)
    requires r < |s.readers| && s.readers[r].RIdle?
    ensures Enabled(g, s, ReaderStep(r)) && Looking(Apply(g, s, ReaderStep(r)).readers[r])
  {
  }

  /** In every run: a reader whose get began at moment i and that is idle again at moment k for the
      first time has delivered the next packet, or its last step was one that saw nothing to take. */
  lemma GetReturnsOnlyIf(g: Geometry, states: seq<State>, steps: seq<Step>, i: nat, k: nat, r: nat)
    requires g.Valid() && Schedule(g, states, steps) && i + 1 < k <= |steps| && steps[i] == ReaderStep(r)
    requires r < |states[i].readers| && states[i].readers[r].RIdle?
    requires forall m :: i < m < k ==> r < |states[m].readers| && !states[m].readers[r].RIdle?
    requires r < |states[k].readers| && states[k].readers[r].RIdle?
    ensures SeesNothing(g, states[k - 1], r, steps[k - 1]) || Delivers(states, steps, i, k - 1, r)
  {
    hide Inv, Enabled, Supposed, Apply, Delivers, SeesNothing;
    GetGoesOn(g, states, steps, i, k - 1, r);
    if Looking(states[k - 1].readers[r]) {
      RunKeepsInv(g, states, steps, k - 1);
      LookingStep(g, states[k - 1], steps[k - 1], r);
    }
  }
}
