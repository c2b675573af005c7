/** Every step keeps the invariant, hence every run delivers the packets exactly once, whole,
    and in the order of the tail moves. */
module RingSafety {
  import opened Bytes
  import opened RingLayout
  import opened RingBytes
  import opened RingProtocol
  import opened RingInvariant

  // ---- Steps that touch one local state only

  lemma WriterLocal(g: Geometry, s: State, w: nat, x: Writer)
    requires Inv(g, s) && w < |s.writers| && !Busy(x) && WriterOk(g, s, x)
    ensures Inv(g, SetWriter(s, w, x))
  {
    hide ResMem;
    hide ResShape;
    hide Geometry.NeededNodes;
    hide Geometry.EmptyNodes;
    hide Geometry.UsedNodes;
    hide Geometry.AddPos;
    var s' := SetWriter(s, w, x);
    forall v | 0 <= v < |s'.writers| ensures WriterOk(g, s', s'.writers[v]) {
      assert WriterOk(g, s, s'.writers[v]);
    }
    forall r | 0 <= r < |s'.readers| ensures ReaderOk(g, s', s'.readers[r]) {
      assert ReaderOk(g, s, s.readers[r]);
    }
    forall n: nat | n <= g.eleCount && !In(s'.head, s'.tail, n) && TokenAt(g, s', n) != TOKEN_NO_DATA
      ensures Awaited(s', n)
    {
      assert TokenAt(g, s, n) != TOKEN_NO_DATA && Awaited(s, n);
      AwaitedBy(s, s', n);
    }
  }

  lemma AwaitedBy(s: State, s': State, n: nat)
    requires Awaited(s, n) && |s'.readers| == |s.readers|
    requires forall r :: 0 <= r < |s.readers| && Pending(s.readers[r], n) ==> Pending(s'.readers[r], n)
    ensures Awaited(s', n)
  {
    var r :| 0 <= r < |s.readers| && Pending(s.readers[r], n);
    assert Pending(s'.readers[r], n);
  }

  lemma ReaderLocal(g: Geometry, s: State, r: nat, x: Reader)
    requires Inv(g, s) && r < |s.readers| && ReaderOk(g, s, x)
    requires s.readers[r].RClear? ==> s.readers[r].pos == s.readers[r].end
    ensures Inv(g, SetReader(s, r, x))
  {
    hide ResMem;
    hide ResShape;
    hide Geometry.NeededNodes;
    hide Geometry.EmptyNodes;
    hide Geometry.UsedNodes;
    hide Geometry.AddPos;
    var s' := SetReader(s, r, x);
    forall v | 0 <= v < |s'.writers| ensures WriterOk(g, s', s'.writers[v]) {
      assert WriterOk(g, s, s.writers[v]);
    }
    forall q | 0 <= q < |s'.readers| ensures ReaderOk(g, s', s'.readers[q]) {
      assert ReaderOk(g, s, s'.readers[q]);
    }
    forall n: nat | n <= g.eleCount && !In(s'.head, s'.tail, n) && TokenAt(g, s', n) != TOKEN_NO_DATA
      ensures Awaited(s', n)
    {
      assert TokenAt(g, s, n) != TOKEN_NO_DATA && Awaited(s, n);
      AwaitedBy(s, s', n);
    }
  }

  // ---- The writer before it owns anything

  lemma LookIsOk(g: Geometry, s: State, x: Writer)
    requires !Busy(x) && Structure(g, s) && WriterOk(g, s, x)
    ensures WriterOk(g, s, WriterLook(g, s, x)) && !Busy(WriterLook(g, s, x))
  {
    hide Geometry.NeededNodes;
    hide Geometry.EmptyNodes;
    hide Geometry.AddPos;
  }

  /** Every step before the tail move, and a tail move that fails. */
  lemma WriterLocalStep(g: Geometry, s: State, w: nat)
    requires Inv(g, s) && Enabled(g, s, WriterStep(w))
    requires !Busy(s.writers[w])
    requires s.writers[w].WCas? ==> s.tail.idx != s.writers[w].ot.idx
    ensures Inv(g, WriterNext(g, s, w))
  {
    hide Memory;
    hide Free;
    hide Readers;
    hide WriterOk;
    hide WriterLook;
    LookIsOk(g, s, s.writers[w]);
    WriterLocal(g, s, w, WriterLook(g, s, s.writers[w]));
  }

  // ---- The tail move

  /** A tail move that succeeds on an unchanged tail: where the new reservation lies. */
  lemma NewResShape(g: Geometry, s: State, w: nat)
    requires Inv(g, s) && w < |s.writers| && s.writers[w].WCas? && s.writers[w].ot == s.tail
    ensures var x := NewRes(g, s, s.writers[w]);
            && ResShape(g, x) && x.start == s.tail && !x.published && x.marked == x.start.idx
            && Wrapped(x) == s.writers[w].wrapped
            && Lt(x.end, Up(s.head)) && Lt(x.start, x.end) && x.end.idx <= g.eleCount
  {
    hide Inv;
    hide Memory;
    hide Free;
    hide Writers;
    hide Readers;
    hide Geometry.NeededNodes;
    var x := s.writers[w];
    WriterFact(g, s, w);
    Parts(g, s);
    var nr := g.NeededNodes(x.p.datalen);
    PacketFits(g, x.p, 0);
    NodeCounts(g, x.h.idx, x.ot.idx);
    ModOneLap(x.ot.idx + nr, g.Slots());
  }

  lemma NotLiveBefore(g: Geometry, s: State, at: Pos)
    requires Structure(g, s) && Le(s.tail, at) && Lt(at, Up(s.head))
    ensures !In(s.head, s.tail, at.idx) && Le(s.head, at)
  {
  }

  lemma NewEnd(g: Geometry, s: State, w: nat, r: nat)
    requires w < |s.writers| && s.writers[w].WCas? && s.writers[w].ot == s.tail
    requires ClearedInTime(g, s, WriterStep(w)) && r < |s.readers| && s.readers[r].RClear?
    ensures s.readers[r].pos != s.readers[r].end ==> Le(NewRes(g, s, s.writers[w]).end, Up(s.readers[r].pos))
  {
  }

  /** Every node of the new reservation was free, and no reader still has to clear it. */
  lemma NewNodesAreClear(g: Geometry, s: State, w: nat, n: nat)
    requires Inv(g, s) && w < |s.writers| && s.writers[w].WCas? && s.writers[w].ot == s.tail
    requires ClearedInTime(g, s, WriterStep(w))
    requires n <= g.eleCount && Owns(g, NewRes(g, s, s.writers[w]), n)
    ensures !In(s.head, s.tail, n) && TokenAt(g, s, n) == TOKEN_NO_DATA
  {
    hide Inv;
    hide Structure;
    hide Memory;
    hide Writers;
    hide Readers;
    hide ResMem;
    hide NewRes;
    hide Geometry.NeededNodes;
    var x := NewRes(g, s, s.writers[w]);
    NewResShape(g, s, w);
    Parts(g, s);
    var at := if x.first.idx <= n < x.end.idx then Pos(x.first.lap, n) else Pos(x.start.lap, n);
    assert Le(s.tail, at) && Lt(at, x.end);
    NotLiveBefore(g, s, at);
    forall r | 0 <= r < |s.readers| ensures !Pending(s.readers[r], n) {
      ReaderFact(g, s, r);
      if s.readers[r].RClear? {
        NewEnd(g, s, w, r);
      }
    }
  }

  lemma TailMoveMemory(g: Geometry, s: State, w: nat)
    requires Inv(g, s) && w < |s.writers| && s.writers[w].WCas? && s.writers[w].ot == s.tail
    requires ClearedInTime(g, s, WriterStep(w))
    requires Structure(g, Reserved(g, s, w))
    ensures Memory(g, Reserved(g, s, w)) && Free(g, Reserved(g, s, w))
  {
    hide Inv;
    hide Structure;
    hide Writers;
    hide Readers;
    hide ClearedInTime;
    hide Geometry.NeededNodes;
    var s' := Reserved(g, s, w);
    var x := NewRes(g, s, s.writers[w]);
    NewResShape(g, s, w);
    Parts(g, s);
    forall n: nat | n <= g.eleCount && Owns(g, x, n) ensures TokenAt(g, s, n) == TOKEN_NO_DATA {
      NewNodesAreClear(g, s, w, n);
    }
    assert TokenAt(g, s, x.first.idx) == TOKEN_NO_DATA;
    forall i | |s'.out| <= i < |s'.log| ensures s'.log[i].p.Valid() && ResMem(g, s'.mem, s'.log[i]) {
      if i == |s.log| {
        assert x.p.Valid();
        forall n: nat | Wrapped(x) && x.start.idx <= n <= g.eleCount ensures Load(s.mem, Addr(g, n)) == TOKEN_NO_DATA {
          assert TokenAt(g, s, n) == TOKEN_NO_DATA;
        }
      } else {
        MemFact(g, s, i);
      }
    }
    forall n: nat | n <= g.eleCount && !In(s'.head, s'.tail, n) && TokenAt(g, s', n) != TOKEN_NO_DATA
      ensures Awaited(s', n)
    {
      assert !In(s.head, s.tail, n);
      assert TokenAt(g, s, n) != TOKEN_NO_DATA && Awaited(s, n);
      AwaitedBy(s, s', n);
    }
  }

  lemma TailMoveReaders(g: Geometry, s: State, w: nat)
    requires Inv(g, s) && w < |s.writers| && s.writers[w].WCas? && s.writers[w].ot == s.tail
    requires ClearedInTime(g, s, WriterStep(w))
    ensures Readers(g, Reserved(g, s, w))
  {
    hide Inv;
    hide Memory;
    hide Free;
    hide Writers;
    hide Geometry.NeededNodes;
    var s' := Reserved(g, s, w);
    NewResShape(g, s, w);
    Parts(g, s);
    forall r | 0 <= r < |s'.readers| ensures ReaderOk(g, s', s'.readers[r]) {
      assert ReaderOk(g, s, s.readers[r]);
    }
  }

  lemma TailMove(g: Geometry, s: State, w: nat)
    requires Inv(g, s) && w < |s.writers| && s.writers[w].WCas? && s.writers[w].ot == s.tail
    requires ClearedInTime(g, s, WriterStep(w))
    ensures Inv(g, Reserved(g, s, w))
  {
    hide Inv;
    hide Structure;
    hide Memory;
    hide Writers;
    hide Readers;
    hide Free;
    var s' := Reserved(g, s, w);
    Parts(g, s);
    TailMoveStructure(g, s, w);
    TailMoveMemory(g, s, w);
    TailMoveWriters(g, s, w);
    TailMoveReaders(g, s, w);
    FromParts(g, s');
  }

  lemma TailMoveStructure(g: Geometry, s: State, w: nat)
    requires Inv(g, s) && w < |s.writers| && s.writers[w].WCas? && s.writers[w].ot == s.tail
    ensures Structure(g, Reserved(g, s, w)) && History(Reserved(g, s, w))
  {
    hide Memory;
    hide Free;
    hide Writers;
    hide Readers;
    NewResShape(g, s, w);
    AppendStructure(g, s, Reserved(g, s, w), NewRes(g, s, s.writers[w]));
  }

  lemma AppendStructure(g: Geometry, s: State, s': State, x: Res)
    requires Structure(g, s) && History(s)
    requires ResShape(g, x) && x.start == s.tail && Lt(x.end, Up(s.head)) && Lt(x.start, x.end)
    requires x.end.idx <= g.eleCount
    requires s'.head == s.head && s'.tail == x.end && s'.log == s.log + [x] && s'.out == s.out && s'.mem == s.mem
    ensures Structure(g, s') && History(s')
  {
    hide ResShape;
    assert forall i :: 0 <= i < |s.log| ==> s'.log[i] == s.log[i];
    forall i | 0 <= i < |s'.log| ensures Le(s'.log[i].end, s'.tail) && ResShape(g, s'.log[i]) {
      if i < |s.log| {
        assert Le(s.log[i].end, s.tail);
      }
    }
  }

  lemma TailMoveOther(g: Geometry, s: State, w: nat, x: Writer)
    requires Inv(g, s) && w < |s.writers| && s.writers[w].WCas? && s.writers[w].ot == s.tail
    requires Structure(g, s) && WriterOk(g, s, x)
    ensures WriterOk(g, Reserved(g, s, w), x)
  {
    hide Inv, Memory, Free, Readers, Writers;
    hide Geometry.NeededNodes, Geometry.EmptyNodes, Geometry.AddPos;
    NewResShape(g, s, w);
  }

  lemma TailMoveOwner(g: Geometry, s: State, w: nat)
    requires Inv(g, s) && w < |s.writers| && s.writers[w].WCas? && s.writers[w].ot == s.tail
    ensures var x := Reserved(g, s, w).writers[w]; WriterOk(g, Reserved(g, s, w), x) && Busy(x) && x.i == |s.log|
  {
    hide Inv, Memory, Free, Readers, Writers;
    hide Geometry.NeededNodes, Geometry.EmptyNodes, Geometry.AddPos;
    Parts(g, s);
    NewResShape(g, s, w);
  }

  lemma TailMoveWriters(g: Geometry, s: State, w: nat)
    requires Inv(g, s) && w < |s.writers| && s.writers[w].WCas? && s.writers[w].ot == s.tail
    ensures Writers(g, Reserved(g, s, w))
  {
    hide Memory, Free, Readers, Structure, Reserved, Inv;
    hide Geometry.NeededNodes, Geometry.EmptyNodes, Geometry.AddPos;
    var s' := Reserved(g, s, w);
    Parts(g, s);
    OthersStay(g, s, w);
    TailMoveOwner(g, s, w);
    forall v | 0 <= v < |s'.writers|
      ensures WriterOk(g, s', s'.writers[v])
      ensures v != w && Busy(s'.writers[v]) ==> s'.writers[v].i < |s.log|
    {
      if v != w {
        WriterFact(g, s, v);
        TailMoveOther(g, s, w, s.writers[v]);
      }
    }
  }

  lemma OthersStay(g: Geometry, s: State, w: nat)
    requires w < |s.writers| && s.writers[w].WCas?
    ensures var s' := Reserved(g, s, w);
            |s'.writers| == |s.writers| && forall v :: 0 <= v < |s.writers| && v != w ==> s'.writers[v] == s.writers[v]
  {
  }

  // ---- Stores of an owner

  /** mem' is mem with one word changed, inside node m. */
  ghost predicate OneStore(g: Geometry, mem: seq<word>, mem': seq<word>, m: nat, a: nat) {
    && Addr(g, m) <= a < Addr(g, m + 1)
    && |mem'| == |mem|
    && forall b: nat :: b != a ==> Load(mem', b) == Load(mem, b)
  }

  lemma StoreIsOneStore(g: Geometry, s: State, m: nat, a: nat, v: word)
    requires Structure(g, s) && m <= g.eleCount && Addr(g, m) <= a < Addr(g, m + 1)
    ensures OneStore(g, s.mem, Store(s, a, v).mem, m, a)
    ensures Load(Store(s, a, v).mem, a) == v
  {
    AddrMono(g, m + 1, g.Slots());
  }

  lemma SameLength(g: Geometry, mem: seq<word>, mem': seq<word>, m: nat, a: nat)
    requires OneStore(g, mem, mem', m, a)
    ensures |mem'| == |mem|
  {
  }

  lemma ResOrder(g: Geometry, x: Res)
    requires ResShape(g, x)
    ensures x.p.Valid() && Lt(x.start, x.end) && x.first.idx < x.end.idx
  {
  }

  lemma OtherTokens(g: Geometry, mem: seq<word>, mem': seq<word>, m: nat, a: nat, n: nat)
    requires OneStore(g, mem, mem', m, a) && n != m
    ensures Load(mem', Addr(g, n)) == Load(mem, Addr(g, n))
  {
    AddrMono(g, n, m);
    AddrMono(g, m + 1, n);
  }

  /** The words of a packet outside node m are untouched. */
  lemma OtherWord(g: Geometry, mem: seq<word>, mem': seq<word>, m: nat, a: nat, x: Res, k: nat)
    requires g.Valid() && ResShape(g, x) && OneStore(g, mem, mem', m, a)
    requires !(x.first.idx <= m < x.end.idx) && k < |x.p.Words()|
    ensures Load(mem', Addr(g, x.first.idx) + k) == Load(mem, Addr(g, x.first.idx) + k)
  {
    PacketFits(g, x.p, x.first.idx);
    AddrMono(g, m + 1, x.first.idx);
    AddrMono(g, x.end.idx, m);
  }

  lemma ResMemFrame(g: Geometry, mem: seq<word>, mem': seq<word>, m: nat, a: nat, x: Res)
    requires g.Valid() && ResShape(g, x) && OneStore(g, mem, mem', m, a) && !Owns(g, x, m)
    requires ResMem(g, mem, x)
    ensures ResMem(g, mem', x)
  {
    forall k | 0 <= k < |x.p.Words()| && x.published
      ensures Load(mem', Addr(g, x.first.idx) + k) == x.p.Words()[k]
    {
      OtherWord(g, mem, mem', m, a, x, k);
    }
    PacketFits(g, x.p, 0);
    OtherWord(g, mem, mem', m, a, x, 0);
    forall n: nat | Wrapped(x) && x.start.idx <= n <= g.eleCount
      ensures Load(mem', Addr(g, n)) == Load(mem, Addr(g, n))
    {
      OtherTokens(g, mem, mem', m, a, n);
    }
  }

  /** Only the progress recorded for reservation i differs. */
  ghost predicate Progress(s: State, s': State, i: nat) {
    && i < |s.log| && |s'.log| == |s.log|
    && s'.head == s.head && s'.tail == s.tail && s'.out == s.out && s'.readers == s.readers
    && (forall j :: 0 <= j < |s.log| && j != i ==> s'.log[j] == s.log[j])
    && s'.log[i] == s.log[i].(marked := s'.log[i].marked, published := s'.log[i].published)
  }

  /** A store by writer w, the owner of reservation i, into its node m. */
  ghost predicate OwnerStore(g: Geometry, s: State, s': State, w: nat, i: nat, m: nat, a: nat) {
    && g.Valid() && Structure(g, s)
    && Progress(s, s', i)
    && |s.out| <= i && !s.log[i].published
    && w < |s.writers| && Busy(s.writers[w]) && s.writers[w].i == i
    && Owns(g, s.log[i], m) && m <= g.eleCount
    && OneStore(g, s.mem, s'.mem, m, a)
    && |s'.writers| == |s.writers|
    && (forall v :: 0 <= v < |s.writers| && v != w ==> s'.writers[v] == s.writers[v])
    && (Busy(s'.writers[w]) ==> s'.writers[w].i == i)
  }

  lemma OwnerStoreKeeps(g: Geometry, s: State, s': State, w: nat, i: nat, m: nat, a: nat)
    requires Inv(g, s) && OwnerStore(g, s, s', w, i, m, a)
    requires ResShape(g, s'.log[i]) && ResMem(g, s'.mem, s'.log[i])
    requires WriterOk(g, s', s'.writers[w])
    ensures Inv(g, s')
  {
    hide ResMem;
    hide WriterOk;
    hide ReaderOk;
    hide ResShape;
    hide OneStore;
    SameLength(g, s.mem, s'.mem, m, a);
    OwnerStructure(g, s, s', i);
    OwnerMemory(g, s, s', w, i, m, a);
    OwnerFree(g, s, s', w, i, m, a);
    OwnerWriters(g, s, s', w, i, m, a);
    forall r | 0 <= r < |s'.readers| ensures ReaderOk(g, s', s'.readers[r]) {
      OwnerReader(g, s, s', w, i, m, a, s.readers[r]);
    }
  }

  lemma OwnerStructure(g: Geometry, s: State, s': State, i: nat)
    requires Structure(g, s) && History(s) && Progress(s, s', i) && |s.out| <= i
    requires ResShape(g, s'.log[i]) && |s'.mem| == |s.mem|
    ensures Structure(g, s') && History(s')
  {
    hide ResShape;
    forall j | 0 <= j < |s.log|
      ensures s'.log[j].start == s.log[j].start && s'.log[j].end == s.log[j].end && ResShape(g, s'.log[j])
    {
      assert ResShape(g, s.log[j]);
    }
  }

  lemma OwnerMemory(g: Geometry, s: State, s': State, w: nat, i: nat, m: nat, a: nat)
    requires OwnerStore(g, s, s', w, i, m, a) && Memory(g, s) && Structure(g, s')
    requires ResMem(g, s'.mem, s'.log[i])
    ensures Memory(g, s')
  {
    hide OneStore;
    hide ResMem;
    forall j | |s'.out| <= j < |s'.log| ensures ResMem(g, s'.mem, s'.log[j]) {
      if j != i {
        OwnersDiffer(g, s, i, j, m);
        assert ResMem(g, s.mem, s.log[j]);
        ResMemFrame(g, s.mem, s'.mem, m, a, s.log[j]);
      }
    }
  }

  lemma OwnerFree(g: Geometry, s: State, s': State, w: nat, i: nat, m: nat, a: nat)
    requires OwnerStore(g, s, s', w, i, m, a) && Free(g, s)
    ensures Free(g, s')
  {
    hide OneStore;
    hide Structure;
    OwnedIsLive(g, s, i, m);
    forall n: nat | n <= g.eleCount && !In(s'.head, s'.tail, n) && TokenAt(g, s', n) != TOKEN_NO_DATA
      ensures Awaited(s', n)
    {
      OtherTokens(g, s.mem, s'.mem, m, a, n);
      assert TokenAt(g, s, n) != TOKEN_NO_DATA && Awaited(s, n);
      AwaitedBy(s, s', n);
    }
  }

  lemma OwnerWriters(g: Geometry, s: State, s': State, w: nat, i: nat, m: nat, a: nat)
    requires OwnerStore(g, s, s', w, i, m, a) && Writers(g, s) && WriterOk(g, s', s'.writers[w])
    ensures Writers(g, s')
  {
    hide WriterOk;
    hide Structure;
    hide OneStore;
    forall v | 0 <= v < |s'.writers| ensures WriterOk(g, s', s'.writers[v]) {
      if v != w {
        OtherWriter(g, s, s', w, i, m, a, s.writers[v]);
      }
    }
    forall u, v | 0 <= u < v < |s'.writers| && Busy(s'.writers[u]) && Busy(s'.writers[v])
      ensures s'.writers[u].i != s'.writers[v].i
    {
      assert Busy(s.writers[u]) && Busy(s.writers[v]);
    }
  }

  lemma OtherWriter(g: Geometry, s: State, s': State, w: nat, i: nat, m: nat, a: nat, y: Writer)
    requires OwnerStore(g, s, s', w, i, m, a) && WriterOk(g, s, y) && (Busy(y) ==> y.i != i)
    ensures WriterOk(g, s', y)
  {
    hide Geometry.NeededNodes;
    hide Geometry.EmptyNodes;
    hide Geometry.AddPos;
    if Busy(y) {
      OwnersDiffer(g, s, i, y.i, m);
    }
    if y.WFill? {
      assert ResShape(g, s.log[y.i]);
      hide Structure;
      forall k | k in y.done ensures Load(s'.mem, Addr(g, s.log[y.i].first.idx) + k) == s.log[y.i].p.Words()[k] {
        OtherWord(g, s.mem, s'.mem, m, a, s.log[y.i], k);
      }
    }
  }

  lemma OwnerReader(g: Geometry, s: State, s': State, w: nat, i: nat, m: nat, a: nat, y: Reader)
    requires OwnerStore(g, s, s', w, i, m, a) && ReaderOk(g, s, y)
    ensures ReaderOk(g, s', y)
  {
    hide OneStore;
    hide Structure;
    hide Owns;
  }

  /** The node an address below node hi lies in. */
  lemma {:induction false} NodeOf(g: Geometry, a: nat, lo: nat, hi: nat) returns (m: nat)
    requires Addr(g, lo) <= a < Addr(g, hi) && lo <= hi
    ensures lo <= m < hi && Addr(g, m) <= a < Addr(g, m + 1)
    decreases hi - lo
  {
    AddrMono(g, lo, hi);
    if a < Addr(g, lo + 1) {
      m := lo;
    } else {
      AddrMono(g, hi, lo + 1);
      m := NodeOf(g, a, lo + 1, hi);
    }
  }

  /** The nodes a live reservation skips are not nodes of its packet. */
  lemma SkipsApart(g: Geometry, s: State, i: nat, n: nat)
    requires Structure(g, s) && |s.out| <= i < |s.log| && Wrapped(s.log[i])
    requires s.log[i].start.idx <= n
    ensures s.log[i].first.idx == 0 && s.log[i].end.idx < n
  {
    var x := s.log[i];
    assert ResShape(g, x) && Le(s.head, x.start) && Le(x.end, s.tail);
  }

  /** Marking the next skipped node of a reservation that has not been published. */
  lemma MarkMemory(g: Geometry, mem: seq<word>, mem': seq<word>, x: Res, n: nat)
    requires ResShape(g, x) && ResMem(g, mem, x) && Wrapped(x) && !x.published && x.marked == n && x.first.idx != n
    requires OneStore(g, mem, mem', n, Addr(g, n)) && Load(mem', Addr(g, n)) == TOKEN_SKIPPED
    ensures ResMem(g, mem', x.(marked := n + 1))
  {
    OtherTokens(g, mem, mem', n, Addr(g, n), x.first.idx);
    forall q: nat | x.start.idx <= q <= g.eleCount
      ensures Load(mem', Addr(g, q)) == if q < n + 1 then TOKEN_SKIPPED else TOKEN_NO_DATA
    {
      if q != n {
        OtherTokens(g, mem, mem', n, Addr(g, n), q);
      }
    }
  }

  lemma MarkStep(g: Geometry, s: State, w: nat)
    requires Inv(g, s) && Enabled(g, s, WriterStep(w)) && s.writers[w].WMark?
    ensures Inv(g, WriterNext(g, s, w))
  {
    hide ResMem;
    hide OneStore;
    hide Inv;
    hide History;
    hide Memory;
    hide Free;
    hide Writers;
    hide Readers;
    hide Structure;
    var i, n := s.writers[w].i, s.writers[w].n;
    var x := s.log[i];
    var s' := WriterNext(g, s, w);
    var a := Addr(g, n);
    Parts(g, s);
    WriterFact(g, s, w);
    MemFact(g, s, i);
    AddrMono(g, n, n + 1);
    StoreIsOneStore(g, s, n, a, TOKEN_SKIPPED);
    SkipsApart(g, s, i, n);
    MarkMemory(g, s.mem, s'.mem, x, n);
    OwnerStoreKeeps(g, s, s', w, i, n, a);
  }

  /** A store into the packet nodes of a live reservation leaves its skip marks. */
  lemma MarksKept(g: Geometry, s: State, i: nat, mem': seq<word>, m: nat, a: nat)
    requires Structure(g, s) && |s.out| <= i < |s.log| && ResMem(g, s.mem, s.log[i])
    requires OneStore(g, s.mem, mem', m, a) && s.log[i].first.idx <= m < s.log[i].end.idx
    ensures var x := s.log[i];
            Wrapped(x) ==> forall q: nat :: x.start.idx <= q <= g.eleCount ==>
                             Load(mem', Addr(g, q)) == if q < x.marked then TOKEN_SKIPPED else TOKEN_NO_DATA
  {
    var x := s.log[i];
    forall q: nat | Wrapped(x) && x.start.idx <= q <= g.eleCount
      ensures Load(mem', Addr(g, q)) == Load(s.mem, Addr(g, q))
    {
      SkipsApart(g, s, i, q);
      OtherTokens(g, s.mem, mem', m, a, q);
    }
  }

  /** Storing word k of the packet: the token is untouched and one more word is in place. */
  lemma FillMemory(g: Geometry, s: State, s': State, w: nat, k: nat, m: nat, a: nat)
    requires Inv(g, s) && Enabled(g, s, WriterStore(w, k)) && s' == Apply(g, s, WriterStore(w, k))
    requires var x := s.log[s.writers[w].i];
             a == Addr(g, x.first.idx) + k && x.first.idx <= m < x.end.idx && Addr(g, m) <= a < Addr(g, m + 1)
    ensures var i := s.writers[w].i;
            && OneStore(g, s.mem, s'.mem, m, a)
            && ResMem(g, s'.mem, s'.log[i]) && WriterOk(g, s', s'.writers[w])
  {
    hide Inv;
    hide History;
    hide Memory;
    hide Free;
    hide Writers;
    hide Readers;
    hide Structure;
    hide Geometry.NeededNodes;
    var i := s.writers[w].i;
    var x := s.log[i];
    Parts(g, s);
    WriterFact(g, s, w);
    MemFact(g, s, i);
    StoreIsOneStore(g, s, m, a, x.p.Words()[k]);
    MarksKept(g, s, i, s'.mem, m, a);
  }

  lemma FillStep(g: Geometry, s: State, w: nat, k: nat)
    requires Inv(g, s) && Enabled(g, s, WriterStore(w, k))
    ensures Inv(g, Apply(g, s, WriterStore(w, k)))
  {
    hide Memory;
    hide Free;
    hide Readers;
    hide ResMem;
    hide Structure;
    hide OneStore;
    var i := s.writers[w].i;
    var x := s.log[i];
    var s' := Apply(g, s, WriterStore(w, k));
    var a := Addr(g, x.first.idx) + k;
    WriterFact(g, s, w);
    MemFact(g, s, i);
    Parts(g, s);
    PacketFits(g, x.p, x.first.idx);
    var m := NodeOf(g, a, x.first.idx, x.end.idx);
    FillMemory(g, s, s', w, k, m, a);
    OwnerStoreKeeps(g, s, s', w, i, m, a);
  }

  /** Once the token is stored, all words of the packet are in place. */
  lemma PublishedWords(g: Geometry, s: State, x: Writer, mem': seq<word>)
    requires x.WFill? && WriterOk(g, s, x) && AllStored(s, x)
    requires Load(mem', Addr(g, s.log[x.i].first.idx)) == TOKEN_HAS_DATA
    requires forall b: nat :: b != Addr(g, s.log[x.i].first.idx) ==> Load(mem', b) == Load(s.mem, b)
    ensures var y := s.log[x.i];
            forall k :: 0 <= k < |y.p.Words()| ==> Load(mem', Addr(g, y.first.idx) + k) == y.p.Words()[k]
  {
    var y := s.log[x.i];
    forall k | 0 <= k < |y.p.Words()| ensures Load(mem', Addr(g, y.first.idx) + k) == y.p.Words()[k] {
      if k > 0 {
        assert k in x.done;
      }
    }
  }

  lemma PublishMemory(g: Geometry, s: State, s': State, w: nat)
    requires Inv(g, s) && Enabled(g, s, WriterStep(w)) && s.writers[w].WFill?
    requires s' == WriterNext(g, s, w)
    ensures var i := s.writers[w].i; var x := s.log[i];
            && OneStore(g, s.mem, s'.mem, x.first.idx, Addr(g, x.first.idx))
            && ResShape(g, s'.log[i]) && ResMem(g, s'.mem, s'.log[i])
  {
    hide Inv;
    hide History;
    hide Memory;
    hide Free;
    hide Writers;
    hide Readers;
    hide Structure;
    hide Geometry.NeededNodes;
    var i := s.writers[w].i;
    var x := s.log[i];
    var a := Addr(g, x.first.idx);
    Parts(g, s);
    WriterFact(g, s, w);
    MemFact(g, s, i);
    AddrMono(g, x.first.idx, x.first.idx + 1);
    StoreIsOneStore(g, s, x.first.idx, a, TOKEN_HAS_DATA);
    PublishedWords(g, s, s.writers[w], s'.mem);
    MarksKept(g, s, i, s'.mem, x.first.idx, a);
  }

  lemma PublishStep(g: Geometry, s: State, w: nat)
    requires Inv(g, s) && Enabled(g, s, WriterStep(w)) && s.writers[w].WFill?
    ensures Inv(g, WriterNext(g, s, w))
  {
    hide Memory;
    hide Free;
    hide Readers;
    hide ResMem;
    hide Structure;
    hide OneStore;
    var i := s.writers[w].i;
    var x := s.log[i];
    var s' := WriterNext(g, s, w);
    WriterFact(g, s, w);
    MemFact(g, s, i);
    Parts(g, s);
    PublishMemory(g, s, s', w);
    OwnerStoreKeeps(g, s, s', w, i, x.first.idx, Addr(g, x.first.idx));
  }

  // ---- Readers

  /** The token a reader of the current head finds: its own kind of node, or nothing yet. */
  lemma TokenUnderCursor(g: Geometry, s: State, cur: Pos)
    requires Inv(g, s) && Cursor(s, cur) && |s.out| < |s.log| && cur.idx <= g.eleCount
    ensures var x := s.log[|s.out|];
            && ResShape(g, x)
            && (TokenAt(g, s, cur.idx) == TOKEN_HAS_DATA ==> AtPacket(s, cur))
            && (TokenAt(g, s, cur.idx) != TOKEN_HAS_DATA ==>
                  TokenAt(g, s, cur.idx) in {TOKEN_NO_DATA, TOKEN_SKIPPED}
                  && (TokenAt(g, s, cur.idx) == TOKEN_SKIPPED ==> Lt(cur, x.first)))
  {
    var x := s.log[|s.out|];
    assert ResShape(g, x) && ResMem(g, s.mem, x);
    if cur == x.first {
      if x.published {
        assert Load(s.mem, Addr(g, x.first.idx) + 0) == x.p.Words()[0];
      }
    } else {
      assert Wrapped(x) && x.start.idx <= cur.idx <= g.eleCount;
    }
  }

  /** A packet's own fields, as its reader finds them. */
  lemma PacketInMemory(g: Geometry, s: State, k: nat)
    requires Inv(g, s) && |s.out| < |s.log| && s.log[|s.out|].published && s.log[|s.out|].p.Valid()
    requires k < |s.log[|s.out|].p.Words()|
    ensures Load(s.mem, Addr(g, s.log[|s.out|].first.idx) + k) == s.log[|s.out|].p.Words()[k]
  {
    assert ResMem(g, s.mem, s.log[|s.out|]);
  }

  lemma ReaderTokenStep(g: Geometry, s: State, r: nat)
    requires Inv(g, s) && r < |s.readers|
    requires s.readers[r].RTok1? || s.readers[r].RTok2? || s.readers[r].RTok3?
    requires PublishedInTime(g, s, ReaderStep(r))
    ensures Inv(g, ReaderNext(g, s, r))
  {
    hide Inv;
    var y := s.readers[r];
    ReaderFact(g, s, r);
    if y.oh == s.head {
      TokenUnderCursor(g, s, y.cur);
    }
    var y' := ReaderNext(g, s, r).readers[r];
    assert ReaderOk(g, s, y');
    ReaderLocal(g, s, r, y');
  }

  lemma ReaderPlainStep(g: Geometry, s: State, r: nat)
    requires Inv(g, s) && r < |s.readers|
    requires var y := s.readers[r]; y.RIdle? || y.RReload? || y.RLoop? || y.RConflict?
    ensures Inv(g, ReaderNext(g, s, r))
  {
    hide Inv;
    hide Memory;
    hide Free;
    hide Writers;
    hide Readers;
    var y := s.readers[r];
    ReaderFact(g, s, r);
    Parts(g, s);
    if |s.out| < |s.log| {
      ResFact(g, s, |s.out|);
    }
    var y' := ReaderNext(g, s, r).readers[r];
    assert ReaderOk(g, s, y');
    ReaderLocal(g, s, r, y');
  }

  /** The length check never fails for a reader of the current head. */
  lemma PacketIsUsed(g: Geometry, s: State)
    requires Inv(g, s) && |s.out| < |s.log|
    ensures var x := s.log[|s.out|];
            g.UsedNodes(x.first.idx, s.tail.idx) >= g.NeededNodes(x.p.datalen)
  {
    var x := s.log[|s.out|];
    assert ResShape(g, x) && Le(x.end, s.tail) && Le(s.head, x.start);
    NodeCounts(g, x.first.idx, s.tail.idx);
  }

  lemma ReaderLengthStep(g: Geometry, s: State, r: nat)
    requires Inv(g, s) && r < |s.readers| && (s.readers[r].RLen? || s.readers[r].RCheck?)
    ensures Inv(g, ReaderNext(g, s, r))
  {
    hide Inv;
    hide Geometry.NeededNodes;
    hide Geometry.UsedNodes;
    var y := s.readers[r];
    ReaderFact(g, s, r);
    Parts(g, s);
    if y.oh == s.head {
      PacketInMemory(g, s, 1);
      PacketIsUsed(g, s);
    }
    var y' := ReaderNext(g, s, r).readers[r];
    assert ReaderOk(g, s, y');
    ReaderLocal(g, s, r, y');
  }

  lemma CopiedWord(g: Geometry, s: State, y: Reader)
    requires Inv(g, s) && y.RCopy? && FreshOk(g, s, y) && |y.buf| < 2 + DataWords(y.len)
    ensures FreshOk(g, s, y.(buf := y.buf + [Load(s.mem, Addr(g, y.cur.idx) + 2 + |y.buf|)]))
  {
    hide Inv;
    hide Addr;
    var k := 2 + |y.buf|;
    PacketInMemory(g, s, k);
    var words := s.log[|s.out|].p.Words();
    assert words[2..k + 1] == words[2..k] + [words[k]];
  }

  lemma ReaderCopyStep(g: Geometry, s: State, r: nat)
    requires Inv(g, s) && r < |s.readers| && s.readers[r].RCopy?
    requires |s.readers[r].buf| < 2 + DataWords(s.readers[r].len) || s.head.idx != s.readers[r].oh.idx
    ensures Inv(g, ReaderNext(g, s, r))
  {
    hide Inv;
    hide FreshOk;
    var y := s.readers[r];
    ReaderFact(g, s, r);
    var y' := if |y.buf| < 2 + DataWords(y.len)
              then RCopy(y.oh, y.cur, y.len, y.buf + [Load(s.mem, Addr(g, y.cur.idx) + 2 + |y.buf|)])
              else RReload;
    if y.oh == s.head && |y.buf| < 2 + DataWords(y.len) {
      CopiedWord(g, s, y);
    }
    ReaderLocal(g, s, r, y');
  }

  // ---- The head move

  /** A reader of the current head that has copied everything holds the oldest packet, and its
      head move ends where that packet ends. */
  lemma HeadMoveShape(g: Geometry, s: State, r: nat)
    requires Inv(g, s) && r < |s.readers| && s.readers[r].RCopy? && s.readers[r].oh == s.head
    requires |s.readers[r].buf| >= 2 + DataWords(s.readers[r].len)
    ensures |s.out| < |s.log|
    ensures var x := s.log[|s.out|]; var y := s.readers[r];
            && ResShape(g, x) && x.published
            && Packet(y.len, y.buf[0], y.buf[1], y.buf[2..]) == x.p
            && Advance(s.head, g.AddPos(y.cur.idx, g.NeededNodes(y.len))) == x.end
  {
    var y := s.readers[r];
    var x := s.log[|s.out|];
    assert ReaderOk(g, s, y);
    assert ResShape(g, x) && Le(s.head, x.start) && Le(x.end, s.tail);
    assert y.buf[2..] == x.p.data;
    ModOneLap(x.first.idx + g.NeededNodes(y.len), g.Slots());
  }

  /** The head moves over the oldest reservation, which becomes pending for reader r. */
  ghost predicate Dropped(g: Geometry, s: State, s': State, r: nat) {
    && Inv(g, s) && |s.out| < |s.log| && s.log[|s.out|].published
    && r < |s.readers| && s.readers[r].RCopy?
    && s' == s.(head := s.log[|s.out|].end, out := s.out + [s.log[|s.out|].p],
                readers := s.readers[r := RClear(s.head, s.log[|s.out|].end)])
  }

  lemma DropStructure(g: Geometry, s: State, s': State, x: Res)
    requires Structure(g, s) && History(s) && |s.out| < |s.log| && x == s.log[|s.out|] && x.published
    requires s'.head == x.end && s'.tail == s.tail && s'.log == s.log && s'.mem == s.mem && s'.out == s.out + [x.p]
    ensures Structure(g, s') && History(s')
    ensures Lt(s.head, s'.head)
  {
    hide ResShape;
    ResFact(g, s, |s.out|);
    ResOrder(g, x);
    forall i | |s'.out| <= i < |s'.log| ensures Le(s'.head, s'.log[i].start) {
      assert Le(x.end, s.log[i].start);
    }
    if |s'.out| < |s'.log| {
      assert s.log[|s.out|].end == s.log[|s.out| + 1].start;
    }
    forall i | 0 <= i < |s'.out| ensures s'.log[i].published && s'.out[i] == s'.log[i].p {
      if i < |s.out| {
        assert s.log[i].published && s.out[i] == s.log[i].p;
      }
    }
  }

  lemma DropFree(g: Geometry, s: State, s': State, r: nat)
    requires Dropped(g, s, s', r)
    ensures Free(g, s')
  {
    forall n: nat | n <= g.eleCount && !In(s'.head, s'.tail, n) && TokenAt(g, s', n) != TOKEN_NO_DATA
      ensures Awaited(s', n)
    {
      if In(s.head, s.tail, n) {
        Parts(g, s);
        DropStructure(g, s, s', s.log[|s.out|]);
        assert Pending(s'.readers[r], n);
      } else {
        assert TokenAt(g, s, n) != TOKEN_NO_DATA && Awaited(s, n);
        AwaitedBy(s, s', n);
      }
    }
  }

  lemma DropWriter(g: Geometry, s: State, s': State, r: nat, y: Writer)
    requires Dropped(g, s, s', r) && WriterOk(g, s, y)
    ensures WriterOk(g, s', y)
  {
    hide Structure;
    hide History;
    hide ResMem;
    hide ResShape;
    hide Inv;
    hide Geometry.NeededNodes;
    hide Geometry.EmptyNodes;
    hide Geometry.AddPos;
    Parts(g, s);
    DropStructure(g, s, s', s.log[|s.out|]);
  }

  lemma DropReader(g: Geometry, s: State, s': State, r: nat, q: nat)
    requires Dropped(g, s, s', r) && q < |s.readers|
    ensures ReaderOk(g, s', s'.readers[q])
  {
    hide ResMem;
    hide History;
    hide Inv;
    hide Memory;
    hide Free;
    hide Writers;
    hide Readers;
    hide Geometry.NeededNodes;
    Parts(g, s);
    DropStructure(g, s, s', s.log[|s.out|]);
    Parts(g, s);
    ReaderFact(g, s, q);
    ResFact(g, s, |s.out|);
  }

  lemma DropLocals(g: Geometry, s: State, s': State, r: nat)
    requires Dropped(g, s, s', r)
    ensures Writers(g, s') && Readers(g, s')
  {
    hide Inv;
    hide Memory;
    hide Free;
    hide WriterOk;
    hide ReaderOk;
    Parts(g, s);
    DropStructure(g, s, s', s.log[|s.out|]);
    Parts(g, s);
    forall v | 0 <= v < |s'.writers| ensures WriterOk(g, s', s'.writers[v]) {
      DropWriter(g, s, s', r, s.writers[v]);
    }
    forall q | 0 <= q < |s'.readers| ensures ReaderOk(g, s', s'.readers[q]) {
      DropReader(g, s, s', r, q);
    }
  }

  lemma DropKeepsInv(g: Geometry, s: State, s': State, r: nat)
    requires Dropped(g, s, s', r)
    ensures Inv(g, s')
  {
    hide Inv;
    hide ResMem;
    hide Free;
    hide Writers;
    hide Readers;
    Parts(g, s);
    DropStructure(g, s, s', s.log[|s.out|]);
    forall i | |s'.out| <= i < |s'.log| ensures ResMem(g, s'.mem, s'.log[i]) {
      MemFact(g, s, i);
    }
    DropFree(g, s, s', r);
    DropLocals(g, s, s', r);
    FromParts(g, s');
  }

  lemma HeadMove(g: Geometry, s: State, r: nat)
    requires Inv(g, s) && r < |s.readers| && s.readers[r].RCopy? && s.readers[r].oh == s.head
    requires |s.readers[r].buf| >= 2 + DataWords(s.readers[r].len)
    ensures Inv(g, Delivered(g, s, r))
    ensures |s.out| < |s.log| && Delivered(g, s, r).out == s.out + [s.log[|s.out|].p]
  {
    hide Inv;
    hide ResShape;
    HeadMoveShape(g, s, r);
    DropKeepsInv(g, s, Delivered(g, s, r), r);
  }

  // ---- Clearing

  /** A node still to be cleared holds no live reservation. */
  lemma PendingIsNotLive(g: Geometry, s: State, r: nat)
    requires Inv(g, s) && r < |s.readers| && s.readers[r].RClear? && s.readers[r].pos != s.readers[r].end
    ensures var c := s.readers[r];
            && c.pos.idx <= g.eleCount && c.pos.idx != c.end.idx
            && !In(s.head, s.tail, c.pos.idx)
            && ReaderOk(g, s, RClear(Next(g, c.pos), c.end))
  {
    assert ReaderOk(g, s, s.readers[r]);
  }

  lemma ClearNext(g: Geometry, s: State, r: nat)
    requires r < |s.readers| && s.readers[r].RClear? && s.readers[r].pos.idx != s.readers[r].end.idx
    ensures var c := s.readers[r];
            ReaderNext(g, s, r)
            == SetReader(Store(s, Addr(g, c.pos.idx), TOKEN_NO_DATA), r, RClear(Next(g, c.pos), c.end))
  {
  }

  lemma SameStructure(g: Geometry, s: State, s': State)
    requires Structure(g, s) && History(s)
    requires s'.head == s.head && s'.tail == s.tail && s'.log == s.log && s'.out == s.out && |s'.mem| == |s.mem|
    ensures Structure(g, s') && History(s')
  {
  }

  lemma ClearStep(g: Geometry, s: State, r: nat)
    requires Inv(g, s) && r < |s.readers| && s.readers[r].RClear? && s.readers[r].pos.idx != s.readers[r].end.idx
    ensures Inv(g, ReaderNext(g, s, r))
  {
    hide Inv;
    hide Memory;
    hide Free;
    hide Writers;
    hide Readers;
    hide ReaderOk;
    hide ResShape;
    hide ReaderNext;
    hide OneStore;
    hide Structure;
    hide History;
    var c := s.readers[r];
    var s' := ReaderNext(g, s, r);
    var m := c.pos.idx;
    var a := Addr(g, m);
    Parts(g, s);
    PendingIsNotLive(g, s, r);
    AddrMono(g, m, m + 1);
    StoreIsOneStore(g, s, m, a, TOKEN_NO_DATA);
    var x := RClear(Next(g, c.pos), c.end);
    ClearNext(g, s, r);
    SameLength(g, s.mem, s'.mem, m, a);
    SameStructure(g, s, s');
    ClearMemory(g, s, s', m, a);
    ClearFree(g, s, s', r, m, a);
    ClearLocals(g, s, s', r, m, a);
    FromParts(g, s');
  }

  /** One token outside the queue is cleared. */
  ghost predicate ClearedToken(g: Geometry, s: State, s': State, m: nat, a: nat) {
    && g.Valid() && Structure(g, s)
    && m <= g.eleCount && a == Addr(g, m) && !In(s.head, s.tail, m)
    && OneStore(g, s.mem, s'.mem, m, a) && Load(s'.mem, a) == TOKEN_NO_DATA
    && s'.head == s.head && s'.tail == s.tail && s'.log == s.log && s'.out == s.out && s'.writers == s.writers
  }

  lemma ClearMemory(g: Geometry, s: State, s': State, m: nat, a: nat)
    requires ClearedToken(g, s, s', m, a) && Memory(g, s) && Structure(g, s')
    ensures Memory(g, s')
  {
    hide OneStore;
    hide ResMem;
    forall j | |s'.out| <= j < |s'.log| ensures ResMem(g, s'.mem, s'.log[j]) {
      if Owns(g, s.log[j], m) {
        OwnedIsLive(g, s, j, m);
      }
      assert ResMem(g, s.mem, s.log[j]);
      ResMemFrame(g, s.mem, s'.mem, m, a, s.log[j]);
    }
  }

  lemma ClearFree(g: Geometry, s: State, s': State, r: nat, m: nat, a: nat)
    requires ClearedToken(g, s, s', m, a) && Free(g, s)
    requires r < |s.readers| && s.readers[r].RClear? && s.readers[r].pos.idx == m
    requires s'.readers == s.readers[r := RClear(Next(g, s.readers[r].pos), s.readers[r].end)]
    ensures Free(g, s')
  {
    forall n: nat | n <= g.eleCount && !In(s'.head, s'.tail, n) && TokenAt(g, s', n) != TOKEN_NO_DATA
      ensures Awaited(s', n)
    {
      assert n != m;
      OtherTokens(g, s.mem, s'.mem, m, a, n);
      assert TokenAt(g, s, n) != TOKEN_NO_DATA && Awaited(s, n);
      AwaitedBy(s, s', n);
    }
  }

  lemma ClearWriter(g: Geometry, s: State, s': State, m: nat, a: nat, y: Writer)
    requires ClearedToken(g, s, s', m, a) && WriterOk(g, s, y)
    ensures WriterOk(g, s', y)
  {
    hide In;
    hide Geometry.NeededNodes;
    hide Geometry.EmptyNodes;
    hide Geometry.AddPos;
    if y.WFill? {
      assert ResShape(g, s.log[y.i]);
      if Owns(g, s.log[y.i], m) {
        OwnedIsLive(g, s, y.i, m);
      }
      hide Structure;
      forall k | k in y.done ensures Load(s'.mem, Addr(g, s.log[y.i].first.idx) + k) == s.log[y.i].p.Words()[k] {
        OtherWord(g, s.mem, s'.mem, m, a, s.log[y.i], k);
      }
    }
  }

  lemma ClearReader(g: Geometry, s: State, s': State, m: nat, a: nat, y: Reader)
    requires ClearedToken(g, s, s', m, a) && ReaderOk(g, s, y)
    ensures ReaderOk(g, s', y)
  {
    hide OneStore;
    hide Structure;
  }

  lemma ClearLocals(g: Geometry, s: State, s': State, r: nat, m: nat, a: nat)
    requires ClearedToken(g, s, s', m, a) && Writers(g, s) && Readers(g, s)
    requires |s'.readers| == |s.readers| && r < |s.readers|
    requires forall q :: 0 <= q < |s.readers| && q != r ==> s'.readers[q] == s.readers[q]
    requires ReaderOk(g, s, s'.readers[r])
    ensures Writers(g, s') && Readers(g, s')
  {
    hide ClearedToken;
    hide WriterOk;
    hide ReaderOk;
    assert s'.writers == s.writers by { ClearedFacts(g, s, s', m, a); }
    forall v | 0 <= v < |s'.writers| ensures WriterOk(g, s', s'.writers[v]) {
      ClearWriter(g, s, s', m, a, s.writers[v]);
    }
    forall q | 0 <= q < |s'.readers| ensures ReaderOk(g, s', s'.readers[q]) {
      ClearReader(g, s, s', m, a, s'.readers[q]);
    }
  }

  lemma ClearedFacts(g: Geometry, s: State, s': State, m: nat, a: nat)
    requires ClearedToken(g, s, s', m, a)
    ensures s'.writers == s.writers
  {
  }

  lemma FromParts(g: Geometry, s: State)
    requires g.Valid() && Structure(g, s) && History(s) && Memory(g, s) && Free(g, s) && Writers(g, s) && Readers(g, s)
    ensures Inv(g, s)
  {
  }

  // ---- Every step, every run

  lemma WriterStepKeepsInv(g: Geometry, s: State, w: nat)
    requires Inv(g, s) && Enabled(g, s, WriterStep(w)) && Supposed(g, s, WriterStep(w))
    ensures Inv(g, WriterNext(g, s, w)) && WriterNext(g, s, w).out == s.out
  {
    hide Inv;
    var x := s.writers[w];
    if x.WMark? {
      MarkStep(g, s, w);
    } else if x.WFill? {
      PublishStep(g, s, w);
    } else if x.WCas? && s.tail.idx == x.ot.idx {
      TailMove(g, s, w);
    } else {
      WriterLocalStep(g, s, w);
    }
  }

  predicate MovesHead(s: State, r: nat) {
    r < |s.readers| && s.readers[r].RCopy? && s.head.idx == s.readers[r].oh.idx
    && |s.readers[r].buf| >= 2 + DataWords(s.readers[r].len)
  }

  /** The plain shape of the steps of a reader, whatever the state. */
  lemma OutGrowsOnlyByHeadMove(g: Geometry, s: State, r: nat)
    requires r < |s.readers|
    ensures MovesHead(s, r) ==> ReaderNext(g, s, r) == Delivered(g, s, r)
    ensures !MovesHead(s, r) ==> ReaderNext(g, s, r).out == s.out
    ensures s.readers[r].RClear? && s.readers[r].pos.idx == s.readers[r].end.idx ==>
      ReaderNext(g, s, r) == SetReader(s, r, RIdle)
    ensures s.readers[r].REmptyCas? && s.readers[r].oh.idx != s.head.idx ==>
      ReaderNext(g, s, r) == SetReader(s, r, RIdle)
  {
  }

  lemma ReaderStepKeepsInv(g: Geometry, s: State, r: nat)
    requires Inv(g, s) && r < |s.readers| && NoLap(s, ReaderStep(r)) && PublishedInTime(g, s, ReaderStep(r))
    ensures Inv(g, ReaderNext(g, s, r))
    ensures var s' := ReaderNext(g, s, r);
            s'.out == s.out || (|s.out| < |s.log| && s'.out == s.out + [s.log[|s.out|].p])
  {
    hide Structure;
    hide Memory;
    hide Free;
    hide Writers;
    hide ReaderNext;
    OutGrowsOnlyByHeadMove(g, s, r);
    assert ReaderOk(g, s, s.readers[r]);
    match s.readers[r]
    case RTok1(_, _) => ReaderTokenStep(g, s, r);
    case RTok2(_, _) => ReaderTokenStep(g, s, r);
    case RTok3(_, _) => ReaderTokenStep(g, s, r);
    case RLen(_, _) => ReaderLengthStep(g, s, r);
    case RCheck(_, _, _) => ReaderLengthStep(g, s, r);
    case RCopy(oh, _, len, buf) =>
      if MovesHead(s, r) {
        HeadMove(g, s, r);
      } else {
        ReaderCopyStep(g, s, r);
      }
    case RClear(pos, end) =>
      if pos.idx != end.idx {
        ClearStep(g, s, r);
      } else {
        ReaderLocal(g, s, r, RIdle);
      }
    case REmptyCas(oh, _) => ReaderLocal(g, s, r, RIdle);
    case _ => ReaderPlainStep(g, s, r);
  }

  lemma StepKeepsInv(g: Geometry, s: State, step: Step)
    requires Inv(g, s) && Enabled(g, s, step) && Supposed(g, s, step)
    ensures Inv(g, Apply(g, s, step))
    ensures var s' := Apply(g, s, step);
            s'.out == s.out || (|s.out| < |s.log| && s'.out == s.out + [s.log[|s.out|].p])
  {
    hide Structure;
    hide Memory;
    hide Free;
    hide Writers;
    hide Readers;
    hide WriterNext;
    hide ReaderNext;
    match step
    case WriterBegin(w, p) => WriterLocal(g, s, w, WBegin(p));
    case WriterStep(w) => WriterStepKeepsInv(g, s, w);
    case WriterStore(w, k) => FillStep(g, s, w, k);
    case ReaderStep(r) => ReaderStepKeepsInv(g, s, r);
    case ReaderTimeout(r) =>
      var y := s.readers[r];
      ReaderFact(g, s, r);
      ReaderLocal(g, s, r, RTok3(y.oh, y.cur));
    case ReaderSmall(r) => ReaderLocal(g, s, r, RIdle);
  }

  lemma {:induction false} RunKeepsInv(g: Geometry, states: seq<State>, steps: seq<Step>, i: nat)
    requires g.Valid() && Schedule(g, states, steps) && i <= |steps|
    ensures Inv(g, states[i])
  {
    if i == 0 {
      var nw: nat, nr: nat :| states[0] == Start(g, nw, nr);
      StartInv(g, nw, nr);
    } else {
      RunKeepsInv(g, states, steps, i - 1);
      StepKeepsInv(g, states[i - 1], steps[i - 1]);
    }
  }

  /** Exactly once, in order, whole: in every run and at every moment the deliveries are the
      packets of the first reservations, in the order of the tail moves. */
  lemma ExactlyOnceInOrder(g: Geometry, states: seq<State>, steps: seq<Step>, i: nat)
    requires g.Valid() && Schedule(g, states, steps) && i <= |steps|
    ensures var s := states[i];
            && |s.out| <= |s.log|
            && (forall k :: 0 <= k < |s.out| ==> s.out[k] == s.log[k].p && s.log[k].published)
  {
    RunKeepsInv(g, states, steps, i);
  }
}
