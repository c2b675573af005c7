/** sq_put and sq_get by any number of processes at once, one shared-memory access at a time.
    Memory is a sequence of 32-bit words; a packet's data overwrites the header words of its
    continuation nodes. A position carries, besides the index the code stores, the number of
    laps made so far, which the code does not have and no step depends on. */
module RingProtocol {
  import opened RingArith
  import opened Bytes
  import opened RingLayout
  import opened RingBytes

  datatype Pos = Pos(lap: nat, idx: nat)

  predicate Le(a: Pos, b: Pos) {
    a.lap < b.lap || (a.lap == b.lap && a.idx <= b.idx)
  }

  predicate Lt(a: Pos, b: Pos) {
    Le(a, b) && a != b
  }

  /** The same node one lap later. */
  function Up(a: Pos): Pos {
    Pos(a.lap + 1, a.idx)
  }

  function Next(g: Geometry, a: Pos): Pos {
    if a.idx >= g.eleCount then Pos(a.lap + 1, 0) else Pos(a.lap, a.idx + 1)
  }

  /** The position of index idx strictly after a, as a compare-and-swap to idx moves it. */
  function Advance(a: Pos, idx: nat): Pos {
    if idx > a.idx then Pos(a.lap, idx) else Pos(a.lap + 1, idx)
  }

  // ---- Packets in words

  datatype Packet = Packet(datalen: nat, sec: word, usec: word, data: seq<word>) {
    predicate Valid() {
      1 <= datalen <= MAX_SQ_DATA_LENGTH && |data| == DataWords(datalen)
    }

    /** The words of the packet in memory, start token first. */
    function Words(): (r: seq<word>)
      requires Valid()
      ensures |r| == 4 + |data|
    {
      [TOKEN_HAS_DATA, datalen, sec, usec] + data
    }
  }

  function DataWords(datalen: nat): nat {
    (datalen + 3) / 4
  }

  function NodeWords(g: Geometry): (r: nat)
    ensures r >= 4
  {
    4 + g.eleSize / 4
  }

  /** Address of the first word of a node, its token. */
  function Addr(g: Geometry, n: nat): nat {
    Mul(n, NodeWords(g))
  }

  function Load(mem: seq<word>, a: nat): word {
    if a < |mem| then mem[a] else 0
  }

  // ---- Local states

  datatype Writer =
    | WIdle
    | WBegin(p: Packet)
    | WTail(p: Packet, ot: Pos)
    | WHead(p: Packet, ot: Pos, h: Pos)
    | WRoom(p: Packet, ot: Pos, h: Pos)
    | WWrap(p: Packet, ot: Pos, h: Pos)
    | WCas(p: Packet, ot: Pos, h: Pos, h2: Pos, newTail: nat, wrapped: bool)
    | WMark(i: nat, n: nat)
    | WFill(i: nat, done: set<nat>)

  datatype Reader =
    | RIdle
    | RReload
    | RLoop(oh: Pos, cur: Pos)
    | REmptyCas(oh: Pos, cur: Pos)
    | RTok1(oh: Pos, cur: Pos)
    | RTok2(oh: Pos, cur: Pos)
    | RConflict(oh: Pos, cur: Pos)
    | RTok3(oh: Pos, cur: Pos)
    | RLen(oh: Pos, cur: Pos)
    | RCheck(oh: Pos, cur: Pos, len: nat)
    | RCopy(oh: Pos, cur: Pos, len: nat, buf: seq<word>)
    | RClear(pos: Pos, end: Pos)

  /** One successful tail move: the nodes from start, the packet at first, up to end. marked is
      the first node not yet marked as skipped. */
  datatype Res = Res(start: Pos, first: Pos, end: Pos, p: Packet, marked: nat, published: bool)

  /** The shared words, the local states, and the history: every reservation in the order of the
      tail moves, and every delivery in the order of the head moves. */
  datatype State = State(head: Pos, tail: Pos, mem: seq<word>, writers: seq<Writer>, readers: seq<Reader>,
                         log: seq<Res>, out: seq<Packet>)

  function Start(g: Geometry, nw: nat, nr: nat): State {
    State(Pos(0, 0), Pos(0, 0), seq(Addr(g, g.Slots()), _ => 0),
          seq(nw, _ => WIdle), seq(nr, _ => RIdle), [], [])
  }

  // ---- Steps

  datatype Step =
    | WriterBegin(w: nat, p: Packet)
    | WriterStep(w: nat)
    | WriterStore(w: nat, k: nat)
    | ReaderStep(r: nat)
    | ReaderTimeout(r: nat)
    | ReaderSmall(r: nat)

  function TokenAt(g: Geometry, s: State, n: nat): word {
    Load(s.mem, Addr(g, n))
  }

  function SetWriter(s: State, w: nat, x: Writer): State
    requires w < |s.writers|
  {
    s.(writers := s.writers[w := x])
  }

  function SetReader(s: State, r: nat, x: Reader): State
    requires r < |s.readers|
  {
    s.(readers := s.readers[r := x])
  }

  function Store(s: State, a: nat, v: word): State {
    if a < |s.mem| then s.(mem := s.mem[a := v]) else s
  }

  predicate Enabled(g: Geometry, s: State, step: Step) {
    match step
    case WriterBegin(w, p) => w < |s.writers| && s.writers[w].WIdle? && p.Valid()
    case WriterStep(w) =>
      w < |s.writers| && !s.writers[w].WIdle?
      && (s.writers[w].WMark? || s.writers[w].WFill? ==> s.writers[w].i < |s.log|)
      && (s.writers[w].WFill? ==> s.log[s.writers[w].i].p.Valid() && AllStored(s, s.writers[w]))
    case WriterStore(w, k) =>
      w < |s.writers| && s.writers[w].WFill? && s.writers[w].i < |s.log|
      && s.log[s.writers[w].i].p.Valid()
      && 1 <= k < |s.log[s.writers[w].i].p.Words()| && k !in s.writers[w].done
    case ReaderStep(r) => r < |s.readers|
    case ReaderTimeout(r) => r < |s.readers| && s.readers[r].RConflict?
    case ReaderSmall(r) => r < |s.readers| && s.readers[r].RCopy? && s.readers[r].buf == []
  }

  /** memcpy and the header stores may happen in any order, but all before the token. */
  predicate AllStored(s: State, x: Writer)
    requires x.WFill? && x.i < |s.log| && s.log[x.i].p.Valid()
  {
    forall k :: 1 <= k < |s.log[x.i].p.Words()| ==> k in x.done
  }

  /** What a writer knows after one look at the shared positions, before it owns anything. */
  function WriterLook(g: Geometry, s: State, x: Writer): Writer {
    match x
    case WBegin(p) => WTail(p, s.tail)
    case WTail(p, ot) => WHead(p, ot, s.head)
    case WHead(p, ot, h) =>
      if s.tail.idx > g.eleCount || g.EmptyNodes(h.idx, s.tail.idx) < g.NeededNodes(p.datalen) + RESERVE_BLOCK_COUNT
      then WIdle
      else WRoom(p, ot, h)
    case WRoom(p, ot, h) =>
      var newTail := g.AddPos(s.tail.idx, g.NeededNodes(p.datalen));
      if newTail < ot.idx then WWrap(p, ot, h) else WCas(p, ot, h, h, newTail, false)
    case WWrap(p, ot, h) =>
      var nr := g.NeededNodes(p.datalen);
      if s.head.idx - 1 < nr then WIdle else WCas(p, ot, h, s.head, nr, true)
    case WCas(p, ot, h, h2, newTail, wrapped) => WBegin(p)
    case _ => x
  }

  function WriterNext(g: Geometry, s: State, w: nat): State
    requires Enabled(g, s, WriterStep(w))
  {
    match s.writers[w]
    case WCas(p, ot, h, h2, newTail, wrapped) =>
      if s.tail.idx == ot.idx then Reserved(g, s, w) else SetWriter(s, w, WriterLook(g, s, s.writers[w]))
    case WMark(i, n) =>
      var s1 := Store(s, Addr(g, n), TOKEN_SKIPPED);
      var s2 := s1.(log := s.log[i := s.log[i].(marked := n + 1)]);
      SetWriter(s2, w, if n >= g.eleCount then WFill(i, {}) else WMark(i, n + 1))
    case WFill(i, done) =>
      var s1 := Store(s, Addr(g, s.log[i].first.idx), TOKEN_HAS_DATA);
      var s2 := s1.(log := s.log[i := s.log[i].(published := true)]);
      SetWriter(s2, w, WIdle)
    case _ => SetWriter(s, w, WriterLook(g, s, s.writers[w]))
  }

  /** The reservation a successful compare-and-swap of the tail makes. */
  function NewRes(g: Geometry, s: State, x: Writer): Res
    requires x.WCas?
  {
    var end := Advance(s.tail, x.newTail);
    Res(s.tail, if x.wrapped then Pos(end.lap, 0) else s.tail, end, x.p, s.tail.idx, false)
  }

  function Reserved(g: Geometry, s: State, w: nat): State
    requires w < |s.writers| && s.writers[w].WCas?
  {
    var x := s.writers[w];
    var res := NewRes(g, s, x);
    s.(tail := res.end,
       log := s.log + [res],
       writers := s.writers[w := if x.wrapped then WMark(|s.log|, s.tail.idx) else WFill(|s.log|, {})])
  }

  function ReaderNext(g: Geometry, s: State, r: nat): State
    requires r < |s.readers|
  {
    match s.readers[r]
    case RIdle => SetReader(s, r, RLoop(s.head, s.head))
    case RReload => SetReader(s, r, RLoop(s.head, s.head))
    case RLoop(oh, cur) =>
      if s.tail.idx == cur.idx then SetReader(s, r, if cur.idx != oh.idx then REmptyCas(oh, cur) else RIdle)
      else SetReader(s, r, RTok1(oh, cur))
    case REmptyCas(oh, cur) =>
      if s.head.idx != oh.idx then SetReader(s, r, RIdle)
      else SetReader(s, r, RClear(s.head, Advance(s.head, cur.idx))).(head := Advance(s.head, cur.idx))
    case RTok1(oh, cur) =>
      SetReader(s, r, if TokenAt(g, s, cur.idx) == TOKEN_HAS_DATA then RLen(oh, cur) else RTok2(oh, cur))
    case RTok2(oh, cur) =>
      SetReader(s, r, if TokenAt(g, s, cur.idx) == TOKEN_SKIPPED then RTok3(oh, cur) else RConflict(oh, cur))
    case RConflict(oh, cur) =>
      SetReader(s, r, if s.head.idx != oh.idx then RReload else RIdle)
    case RTok3(oh, cur) =>
      SetReader(s, r, if TokenAt(g, s, cur.idx) == TOKEN_HAS_DATA then RLen(oh, cur) else RLoop(oh, Next(g, cur)))
    case RLen(oh, cur) => SetReader(s, r, RCheck(oh, cur, Load(s.mem, Addr(g, cur.idx) + 1)))
    case RCheck(oh, cur, len) =>
      if s.tail.idx > g.eleCount || g.UsedNodes(cur.idx, s.tail.idx) < g.NeededNodes(len)
      then SetReader(s, r, RLoop(oh, Next(g, cur)))
      else SetReader(s, r, RCopy(oh, cur, len, []))
    case RCopy(oh, cur, len, buf) =>
      if |buf| < 2 + DataWords(len) then
        SetReader(s, r, RCopy(oh, cur, len, buf + [Load(s.mem, Addr(g, cur.idx) + 2 + |buf|)]))
      else if s.head.idx != oh.idx then SetReader(s, r, RReload)
      else Delivered(g, s, r)
    case RClear(pos, end) =>
      if pos.idx == end.idx then SetReader(s, r, RIdle)
      else SetReader(Store(s, Addr(g, pos.idx), TOKEN_NO_DATA), r, RClear(Next(g, pos), end))
  }

  /** The successful compare-and-swap of the head. */
  function Delivered(g: Geometry, s: State, r: nat): State
    requires r < |s.readers| && s.readers[r].RCopy? && |s.readers[r].buf| >= 2
  {
    var x := s.readers[r];
    var newHead := Advance(s.head, g.AddPos(x.cur.idx, g.NeededNodes(x.len)));
    s.(head := newHead,
       out := s.out + [Packet(x.len, x.buf[0], x.buf[1], x.buf[2..])],
       readers := s.readers[r := RClear(s.head, newHead)])
  }

  function Apply(g: Geometry, s: State, step: Step): State
    requires Enabled(g, s, step)
  {
    match step
    case WriterBegin(w, p) => SetWriter(s, w, WBegin(p))
    case WriterStep(w) => WriterNext(g, s, w)
    case WriterStore(w, k) =>
      var x := s.writers[w];
      SetWriter(Store(s, Addr(g, s.log[x.i].first.idx) + k, s.log[x.i].p.Words()[k]), w, WFill(x.i, x.done + {k}))
    case ReaderStep(r) => ReaderNext(g, s, r)
    case ReaderTimeout(r) => SetReader(s, r, RTok3(s.readers[r].oh, s.readers[r].cur))
    case ReaderSmall(r) => SetReader(s, r, RIdle)
  }

  // ---- What the theorems suppose of a step

  /** The next step of the reader swaps the head. */
  predicate Swaps(x: Reader) {
    x.REmptyCas? || (x.RCopy? && |x.buf| >= 2 + DataWords(x.len))
  }

  /** No compare-and-swap meets its old index again after a full lap. */
  predicate NoLap(s: State, step: Step) {
    match step
    case WriterStep(w) =>
      w < |s.writers| && s.writers[w].WCas? && s.writers[w].ot.idx == s.tail.idx ==> s.writers[w].ot == s.tail
    case ReaderStep(r) =>
      r < |s.readers| && Swaps(s.readers[r]) && s.readers[r].oh.idx == s.head.idx ==> s.readers[r].oh == s.head
    case _ => true
  }

  /** The second look at the token, after the conflict window has closed, never finds a node of the
      current head still without one. */
  predicate PublishedInTime(g: Geometry, s: State, step: Step) {
    match step
    case ReaderStep(r) =>
      r < |s.readers| && s.readers[r].RTok3? && s.readers[r].oh == s.head
      ==> TokenAt(g, s, s.readers[r].cur.idx) != TOKEN_NO_DATA
    case _ => true
  }

  /** The nodes a tail move takes have all been cleared by the readers that released them. */
  predicate ClearedInTime(g: Geometry, s: State, step: Step) {
    match step
    case WriterStep(w) =>
      w < |s.writers| && s.writers[w].WCas? && s.writers[w].ot.idx == s.tail.idx ==>
      forall r :: 0 <= r < |s.readers| && s.readers[r].RClear? && s.readers[r].pos != s.readers[r].end ==>
        Le(Advance(s.tail, s.writers[w].newTail), Up(s.readers[r].pos))
    case _ => true
  }

  predicate Supposed(g: Geometry, s: State, step: Step) {
    NoLap(s, step) && PublishedInTime(g, s, step) && ClearedInTime(g, s, step)
  }

  /** A run: enabled steps from the start, each under the three suppositions. */
  ghost predicate Schedule(g: Geometry, states: seq<State>, steps: seq<Step>) {
    && |states| == |steps| + 1
    && (exists nw: nat, nr: nat :: states[0] == Start(g, nw, nr))
    && forall i :: 0 <= i < |steps| ==>
         && Enabled(g, states[i], steps[i])
         && Supposed(g, states[i], steps[i])
         && states[i + 1] == Apply(g, states[i], steps[i])
  }
}
