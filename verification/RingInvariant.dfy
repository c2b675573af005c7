/** What every state of the concurrent ring satisfies. */
module RingInvariant {
  import opened RingArith
  import opened Bytes
  import opened RingLayout
  import opened RingBytes
  import opened RingProtocol

  // ---- Addresses

  lemma AddrMono(g: Geometry, i: nat, j: nat)
    ensures i <= j ==> Addr(g, i) <= Addr(g, j)
    ensures i < j ==> Addr(g, i) + NodeWords(g) <= Addr(g, j)
  {
    if i < j {
      MulAdd(i, j - i, NodeWords(g));
      MulAdd(j - i - 1, 1, NodeWords(g));
      assert Mul(1, NodeWords(g)) == Mul(0, NodeWords(g)) + NodeWords(g);
    }
  }

  lemma {:induction false} MulScale(k: nat, n: nat)
    ensures Mul(k, 4 * n) == 4 * Mul(k, n)
  {
    if k > 0 {
      MulScale(k - 1, n);
    }
  }

  lemma NodeIsWords(g: Geometry)
    requires g.Valid()
    ensures g.NodeSize() == 4 * NodeWords(g)
  {
    Quarters(g.eleSize);
  }

  lemma Quarters(x: nat)
    requires x % 8 == 0
    ensures 4 * (x / 4) == x
  {
    var k := x / 8;
    assert x == 8 * k;
    assert x / 4 == 2 * k;
  }

  /** The words of a packet lie within the nodes reserved for it. */
  lemma PacketFits(g: Geometry, p: Packet, n: nat)
    requires g.Valid() && p.Valid()
    ensures g.NeededNodes(p.datalen) >= 1
    ensures Addr(g, n) + |p.Words()| <= Addr(g, n + g.NeededNodes(p.datalen))
  {
    hide Mul, NodeWords;
    hide Geometry.NeededNodes, Geometry.NodeSize, Geometry.Valid;
    var nr, words := g.NeededNodes(p.datalen), NodeWords(g);
    NeededNodesBounds(g, p.datalen);
    NodeIsWords(g);
    MulScale(nr, words);
    assert 4 * Mul(nr, words) >= p.datalen + NODE_HEAD;
    MulAdd(n, nr, words);
  }

  // ---- Reservations

  predicate Wrapped(x: Res) {
    x.first != x.start
  }

  /** Start, first node and end fit together; no packet reaches the last node of the array. */
  predicate ResShape(g: Geometry, x: Res) {
    && x.p.Valid()
    && x.start.idx <= g.eleCount
    && (Wrapped(x) ==> x.first == Pos(x.start.lap + 1, 0) && x.start.idx > 0)
    && x.end == Pos(x.first.lap, x.first.idx + g.NeededNodes(x.p.datalen))
    && x.end.idx <= g.eleCount
    && Lt(x.first, x.end)
    && x.start.idx <= x.marked <= g.Slots()
    && (x.published && Wrapped(x) ==> x.marked == g.Slots())
  }

  /** The nodes of a reservation: those of the packet and those it skips. */
  predicate Owns(g: Geometry, x: Res, n: nat) {
    x.first.idx <= n < x.end.idx || (Wrapped(x) && x.start.idx <= n <= g.eleCount)
  }

  ghost predicate ResMem(g: Geometry, mem: seq<word>, x: Res)
    requires x.p.Valid()
  {
    && (x.published ==> forall k :: 0 <= k < |x.p.Words()| ==> Load(mem, Addr(g, x.first.idx) + k) == x.p.Words()[k])
    && (!x.published ==> Load(mem, Addr(g, x.first.idx)) == TOKEN_NO_DATA)
    && (Wrapped(x) ==> forall n: nat :: x.start.idx <= n <= g.eleCount ==>
                         Load(mem, Addr(g, n)) == if n < x.marked then TOKEN_SKIPPED else TOKEN_NO_DATA)
  }

  /** A node with index n lies between a and b, which are less than a lap apart. */
  predicate In(a: Pos, b: Pos, n: nat) {
    || (Le(a, Pos(a.lap, n)) && Lt(Pos(a.lap, n), b))
    || Lt(Pos(a.lap + 1, n), b)
  }

  // ---- The parts of the invariant

  ghost predicate Structure(g: Geometry, s: State) {
    && s.head.idx <= g.eleCount && s.tail.idx <= g.eleCount
    && Le(s.head, s.tail) && Lt(s.tail, Up(s.head))
    && |s.mem| == Addr(g, g.Slots())
    && |s.out| <= |s.log|
    && (forall i :: 0 <= i < |s.log| ==> ResShape(g, s.log[i]))
    && (forall i :: 0 <= i < |s.log| ==> Le(s.log[i].end, s.tail))
    && (forall i :: |s.out| <= i < |s.log| ==> Le(s.head, s.log[i].start))
    && (forall i, j :: 0 <= i < j < |s.log| ==> Le(s.log[i].end, s.log[j].start))
    && (forall i :: 0 <= i < |s.log| - 1 ==> s.log[i].end == s.log[i + 1].start)
    && (s.log != [] ==> s.log[|s.log| - 1].end == s.tail)
    && s.head == (if |s.out| < |s.log| then s.log[|s.out|].start else s.tail)
  }

  ghost predicate History(s: State)
    requires |s.out| <= |s.log|
  {
    forall i :: 0 <= i < |s.out| ==> s.log[i].published && s.out[i] == s.log[i].p
  }

  ghost predicate Memory(g: Geometry, s: State)
    requires Structure(g, s)
  {
    forall i :: |s.out| <= i < |s.log| ==> ResMem(g, s.mem, s.log[i])
  }

  predicate Pending(x: Reader, n: nat) {
    x.RClear? && In(x.pos, x.end, n)
  }

  ghost predicate Awaited(s: State, n: nat) {
    exists r :: 0 <= r < |s.readers| && Pending(s.readers[r], n)
  }

  /** A node outside the queue has no token unless a reader is still about to clear it. */
  ghost predicate Free(g: Geometry, s: State) {
    forall n: nat :: n <= g.eleCount && !In(s.head, s.tail, n) ==>
      TokenAt(g, s, n) == TOKEN_NO_DATA || Awaited(s, n)
  }

  predicate Busy(x: Writer) {
    x.WMark? || x.WFill?
  }

  ghost predicate WriterOk(g: Geometry, s: State, x: Writer) {
    match x
    case WIdle => true
    case WBegin(p) => p.Valid()
    case WTail(p, ot) => p.Valid() && OldTail(g, s, ot)
    case WHead(p, ot, h) => p.Valid() && OldTail(g, s, ot) && OldHead(g, s, ot, h)
    case WRoom(p, ot, h) =>
      p.Valid() && OldTail(g, s, ot) && OldHead(g, s, ot, h) && (ot == s.tail ==> Room(g, p, ot, h))
    case WWrap(p, ot, h) =>
      && p.Valid() && OldTail(g, s, ot) && OldHead(g, s, ot, h)
      && (ot == s.tail ==> Room(g, p, ot, h) && g.AddPos(ot.idx, g.NeededNodes(p.datalen)) < ot.idx)
    case WCas(p, ot, h, h2, newTail, wrapped) =>
      && p.Valid() && OldTail(g, s, ot) && OldHead(g, s, ot, h) && Le(h2, s.head) && Le(h, h2)
      && (ot == s.tail ==>
            && Room(g, p, ot, h)
            && var nr := g.NeededNodes(p.datalen);
               if wrapped then g.AddPos(ot.idx, nr) < ot.idx && newTail == nr < h2.idx
               else newTail == g.AddPos(ot.idx, nr) >= ot.idx)
    case WMark(i, n) =>
      && |s.out| <= i < |s.log| && !s.log[i].published && Wrapped(s.log[i]) && n == s.log[i].marked <= g.eleCount
    case WFill(i, done) =>
      && |s.out| <= i < |s.log| && !s.log[i].published && s.log[i].p.Valid()
      && (Wrapped(s.log[i]) ==> s.log[i].marked == g.Slots())
      && forall k :: k in done ==>
           1 <= k < |s.log[i].p.Words()| && Load(s.mem, Addr(g, s.log[i].first.idx) + k) == s.log[i].p.Words()[k]
  }

  predicate OldTail(g: Geometry, s: State, ot: Pos) {
    ot.idx <= g.eleCount && Le(ot, s.tail)
  }

  predicate OldHead(g: Geometry, s: State, ot: Pos, h: Pos) {
    h.idx <= g.eleCount && Le(h, s.head) && (ot == s.tail ==> Le(h, ot) && Lt(ot, Up(h)))
  }

  predicate Room(g: Geometry, p: Packet, ot: Pos, h: Pos) {
    && ot.idx <= g.eleCount && h.idx <= g.eleCount
    && g.EmptyNodes(h.idx, ot.idx) >= g.NeededNodes(p.datalen) + RESERVE_BLOCK_COUNT
  }

  ghost predicate Writers(g: Geometry, s: State) {
    && (forall w :: 0 <= w < |s.writers| ==> WriterOk(g, s, s.writers[w]))
    && (forall v, w :: 0 <= v < w < |s.writers| && Busy(s.writers[v]) && Busy(s.writers[w]) ==>
          s.writers[v].i != s.writers[w].i)
  }

  /** The positions a reader of the current head can stand on: the skipped nodes of the oldest
      reservation and its first packet node. */
  predicate Cursor(s: State, cur: Pos) {
    if |s.out| < |s.log| then Le(s.head, cur) && Le(cur, s.log[|s.out|].first) else cur == s.head
  }

  predicate AtPacket(s: State, cur: Pos) {
    |s.out| < |s.log| && cur == s.log[|s.out|].first && s.log[|s.out|].published && s.log[|s.out|].p.Valid()
  }

  /** What a reader knows as long as the head it started from is still the head. */
  ghost predicate FreshOk(g: Geometry, s: State, x: Reader) {
    match x
    case RLoop(_, cur) => Cursor(s, cur)
    case REmptyCas(_, _) => false
    case RTok1(_, cur) => Cursor(s, cur) && |s.out| < |s.log|
    case RTok2(_, cur) => Cursor(s, cur) && |s.out| < |s.log|
    case RConflict(_, cur) => Cursor(s, cur) && |s.out| < |s.log|
    case RTok3(_, cur) => Cursor(s, cur) && |s.out| < |s.log|
    case RLen(_, cur) => AtPacket(s, cur)
    case RCheck(_, cur, len) => AtPacket(s, cur) && len == s.log[|s.out|].p.datalen
    case RCopy(_, cur, len, buf) =>
      && AtPacket(s, cur) && len == s.log[|s.out|].p.datalen
      && 2 + |buf| <= |s.log[|s.out|].p.Words()|
      && buf == s.log[|s.out|].p.Words()[2..2 + |buf|]
    case _ => true
  }

  ghost predicate ReaderOk(g: Geometry, s: State, x: Reader) {
    match x
    case RIdle => true
    case RReload => true
    case RClear(pos, end) =>
      && pos.idx <= g.eleCount && end.idx <= g.eleCount
      && Le(pos, end) && Le(end, s.head) && Lt(end, Up(pos))
      && (pos != end ==> Le(s.tail, Up(pos)))
    case _ => Le(x.oh, s.head) && x.cur.idx <= g.eleCount && (x.oh == s.head ==> FreshOk(g, s, x))
  }

  ghost predicate Readers(g: Geometry, s: State) {
    forall r :: 0 <= r < |s.readers| ==> ReaderOk(g, s, s.readers[r])
  }

  ghost predicate Inv(g: Geometry, s: State) {
    && g.Valid()
    && Structure(g, s)
    && History(s)
    && Memory(g, s)
    && Free(g, s)
    && Writers(g, s)
    && Readers(g, s)
  }

  // Single facts out of the invariant, for proofs that must not unfold all of it.

  lemma Parts(g: Geometry, s: State)
    requires Inv(g, s)
    ensures g.Valid() && Structure(g, s) && History(s) && Memory(g, s) && Free(g, s) && Writers(g, s) && Readers(g, s)
  {
  }

  lemma WriterFact(g: Geometry, s: State, w: nat)
    requires Inv(g, s) && w < |s.writers|
    ensures WriterOk(g, s, s.writers[w])
  {
  }

  lemma ReaderFact(g: Geometry, s: State, r: nat)
    requires Inv(g, s) && r < |s.readers|
    ensures ReaderOk(g, s, s.readers[r])
  {
  }

  lemma ResFact(g: Geometry, s: State, i: nat)
    requires Structure(g, s) && i < |s.log|
    ensures ResShape(g, s.log[i]) && Le(s.log[i].end, s.tail)
    ensures i >= |s.out| ==> Le(s.head, s.log[i].start)
  {
  }

  lemma MemFact(g: Geometry, s: State, i: nat)
    requires Inv(g, s) && |s.out| <= i < |s.log|
    ensures ResShape(g, s.log[i]) && ResMem(g, s.mem, s.log[i])
  {
  }

  lemma StartInv(g: Geometry, nw: nat, nr: nat)
    requires g.Valid()
    ensures Inv(g, Start(g, nw, nr))
  {
    var s := Start(g, nw, nr);
    forall n: nat | n <= g.eleCount ensures TokenAt(g, s, n) == TOKEN_NO_DATA {
      AddrMono(g, n, g.Slots());
    }
  }

  // ---- Who owns which node

  /** The nodes of a live reservation are live, and no two live reservations share one. */
  lemma OwnedIsLive(g: Geometry, s: State, i: nat, n: nat)
    requires Structure(g, s) && |s.out| <= i < |s.log| && Owns(g, s.log[i], n)
    ensures In(s.head, s.tail, n)
  {
    var x := s.log[i];
    assert ResShape(g, x) && Le(s.head, x.start) && Le(x.end, s.tail);
    if x.first.idx <= n < x.end.idx {
      assert Le(s.head, Pos(x.first.lap, n)) && Lt(Pos(x.first.lap, n), s.tail);
    } else {
      assert Le(s.head, Pos(x.start.lap, n)) && Lt(Pos(x.start.lap, n), s.tail);
    }
  }

  lemma OwnersDiffer(g: Geometry, s: State, i: nat, j: nat, n: nat)
    requires Structure(g, s) && |s.out| <= i < |s.log| && |s.out| <= j < |s.log| && i != j
    requires Owns(g, s.log[i], n)
    ensures !Owns(g, s.log[j], n)
  {
    var a, b := if i < j then s.log[i] else s.log[j], if i < j then s.log[j] else s.log[i];
    assert ResShape(g, a) && ResShape(g, b) && Le(a.end, b.start);
    assert Le(s.head, a.start) && Le(b.end, s.tail);
  }
}
