/** The queue object used by one process at a time: the byte array of the nodes and the two
    positions, updated in place, proved against RingLayout.Put and RingLayout.Get. */
module ShmQueue {
  import opened Bytes
  import opened RingLayout
  import opened RingBytes

  class Ring {
    const geo: Geometry
    const nodes: array<byte>
    var headPos: nat
    var tailPos: nat
    var rwConflictTime: nat
    ghost var layout: Layout

    ghost predicate Valid()
      reads this, nodes
    {
      && geo.Valid()
      && layout.Valid(geo)
      && headPos == layout.head
      && tailPos == layout.tail
      && Image(geo, nodes[..], layout)
    }

    /** A zeroed segment with the element size rounded up to a multiple of 8. */
    constructor (eleSize: nat, eleCount: nat)
      requires eleSize > 0 && eleCount > RESERVE_BLOCK_COUNT
      ensures Valid() && fresh(nodes)
      ensures geo == Geometry((eleSize + 7) / 8 * 8, eleCount)
      ensures geo.eleSize % 8 == 0 && eleSize <= geo.eleSize < eleSize + 8
      ensures layout == Init()
    {
      var g := Geometry((eleSize + 7) / 8 * 8, eleCount);
      geo := g;
      nodes := new byte[Base(g, g.Slots())](_ => 0);
      headPos, tailPos, rwConflictTime := 0, 0, 0;
      layout := Init();
      new;
      forall v: nat | v <= geo.eleCount ensures Token(geo, nodes[..], v, TOKEN_NO_DATA) {
        BaseApart(geo, v, v + 1);
        BaseStep(geo, v + 1, geo.eleCount - v);
      }
    }

    // ---- Words

    method ReadWord(a: nat) returns (v: word)
      requires a + 4 <= nodes.Length
      ensures v == WordAt(nodes[..], a)
    {
      v := ToWord(nodes[a..a + 4]);
      assert nodes[a..a + 4] == nodes[..][a..a + 4];
    }

    method WriteWord(a: nat, v: word)
      requires a + 4 <= nodes.Length
      modifies nodes
      ensures WordAt(nodes[..], a) == v
      ensures forall k :: 0 <= k < nodes.Length && !(a <= k < a + 4) ==> nodes[k] == old(nodes[k])
    {
      var b := Le32(v);
      nodes[a], nodes[a + 1], nodes[a + 2], nodes[a + 3] := b[0], b[1], b[2], b[3];
      assert nodes[..][a..a + 4] == b;
      Le32RoundTrip(v);
    }

    // ---- sq_put

    /** Length, time and data first; the start token, which publishes the message, last. */
    method WriteMsg(idx: nat, data: seq<byte>, sec: word, usec: word)
      requires Msg(data, sec, usec).Valid()
      requires Base(geo, idx) + NODE_HEAD + |data| <= nodes.Length
      modifies nodes
      ensures MsgAt(geo, nodes[..], idx, Msg(data, sec, usec))
      ensures var a := Base(geo, idx);
              forall k :: 0 <= k < nodes.Length && !(a <= k < a + NODE_HEAD + |data|) ==> nodes[k] == old(nodes[k])
    {
      hide WordAt, Base;
      var a := Base(geo, idx);
      WriteWord(a + 4, |data|);
      ghost var m1 := nodes[..];
      WriteWord(a + 8, sec);
      ghost var m2 := nodes[..];
      WriteWord(a + 12, usec);
      ghost var m3 := nodes[..];
      CopyIn(a + NODE_HEAD, data);
      ghost var m4 := nodes[..];
      WriteWord(a, TOKEN_HAS_DATA);
      ghost var m5 := nodes[..];
      WordFrame(m1, m5, a + 4, a + 8, a + 4);
      WordFrame(m2, m5, a + 8, a + 12, a + 8);
      WordFrame(m3, m5, a + 12, a + 16, a + 12);
      assert m5[a + NODE_HEAD..a + NODE_HEAD + |data|] == m4[a + NODE_HEAD..a + NODE_HEAD + |data|] == data;
    }

    method CopyIn(a: nat, data: seq<byte>)
      requires a + |data| <= nodes.Length
      modifies nodes
      ensures nodes[..][a..a + |data|] == data
      ensures forall k :: 0 <= k < nodes.Length && !(a <= k < a + |data|) ==> nodes[k] == old(nodes[k])
    {
      for i := 0 to |data|
        invariant forall k :: 0 <= k < i ==> nodes[a + k] == data[k]
        invariant forall k :: 0 <= k < nodes.Length && !(a <= k < a + i) ==> nodes[k] == old(nodes[k])
      {
        nodes[a + i] := data[i];
      }
    }

    /** Marks the nodes from oldTail to the end of the array. */
    method MarkSkipped(oldTail: nat)
      requires geo.Valid() && 0 < oldTail <= geo.eleCount
      requires nodes.Length == Base(geo, geo.Slots())
      modifies nodes
      ensures forall v: nat :: oldTail <= v <= geo.eleCount ==> Token(geo, nodes[..], v, TOKEN_SKIPPED)
      ensures Agree(old(nodes[..]), nodes[..], 0, Base(geo, oldTail))
    {
      hide Base;
      hide Token;
      var v := oldTail;
      BaseStep(geo, oldTail, geo.Slots() - oldTail);
      while true
        invariant oldTail <= v <= geo.eleCount
        invariant forall u: nat :: oldTail <= u < v ==> Token(geo, nodes[..], u, TOKEN_SKIPPED)
        invariant Agree(old(nodes[..]), nodes[..], 0, Base(geo, oldTail))
        decreases geo.eleCount - v
      {
        BaseStep(geo, oldTail, v - oldTail);
        SetToken(v, TOKEN_SKIPPED);
        ModOneLap(v + 1, geo.Slots());
        v := geo.AddPos(v, 1);
        if v == 0 {
          break;
        }
      }
    }

    /** Writes the token of one node; the other tokens and the other bytes stay. */
    method SetToken(v: nat, token: word)
      requires geo.Valid() && v <= geo.eleCount && nodes.Length == Base(geo, geo.Slots())
      modifies nodes
      ensures Token(geo, nodes[..], v, token)
      ensures Agree(old(nodes[..]), nodes[..], 0, Base(geo, v))
      ensures forall u: nat, t :: u <= geo.eleCount && u != v && Token(geo, old(nodes[..]), u, t) ==>
        Token(geo, nodes[..], u, t)
      ensures forall u: nat :: u <= geo.eleCount && u != v ==>
        Agree(old(nodes[..]), nodes[..], Base(geo, u), Base(geo, u + 1))
    {
      hide ToWord;
      ghost var before := nodes[..];
      ghost var a := Base(geo, v);
      BaseApart(geo, v, v + 1);
      BaseStep(geo, v + 1, geo.eleCount - v);
      WriteWord(Base(geo, v), token);
      forall u: nat | u <= geo.eleCount && u != v ensures Agree(before, nodes[..], Base(geo, u), Base(geo, u + 1)) {
        BaseStep(geo, u + 1, geo.eleCount - u);
        if u < v {
          BaseApart(geo, u, v);
          BaseStep(geo, u, 1);
        } else {
          BaseApart(geo, v, u);
        }
      }
      forall u: nat, t | u <= geo.eleCount && u != v && Token(geo, before, u, t) ensures Token(geo, nodes[..], u, t) {
        TokenFrame(geo, before, nodes[..], u, u + 1, u, t);
      }
    }

    /** The position part of sq_put: the space checks and the move of the tail. */
    method Reserve(ghost m: Msg, datalen: nat) returns (code: int, idx: nat, oldTail: nat)
      requires Valid() && m.Valid() && datalen == |m.payload|
      modifies `tailPos
      ensures code == Put(geo, layout, m).1
      ensures oldTail == layout.tail
      ensures code != 0 ==> tailPos == old(tailPos)
      ensures code == 0 ==>
                && tailPos == Put(geo, layout, m).0.tail
                && geo.EmptyNodes(layout.head, layout.tail) >= geo.Nodes(m) + RESERVE_BLOCK_COUNT
                && if layout.tail + geo.Nodes(m) > geo.eleCount
                   then idx == 0 && oldTail != 0 && geo.Nodes(m) < layout.head
                   else idx == oldTail
    {
      hide Image;
      hide Geometry.NeededNodes;
      PutCode(geo, layout, m);
      idx, oldTail := tailPos, tailPos;
      var nr := geo.NeededNodes(datalen);
      if geo.EmptyNodes(headPos, tailPos) < nr + RESERVE_BLOCK_COUNT {
        return -2, idx, oldTail;
      }
      PutShape(geo, layout, m);
      PutAccepted(geo, layout, m);
      hide Geometry.EmptyNodes;
      hide Put;
      var newTail := geo.AddPos(tailPos, nr);
      if newTail < oldTail {
        idx := 0;
        newTail := nr;
        if headPos - 1 < nr {
          return -2, idx, oldTail;
        }
      }
      tailPos := newTail;
      code := 0;
    }

    /** The memory part of sq_put: the skip marks of a wrap, then the message. */
    method Store(idx: nat, oldTail: nat, data: seq<byte>, sec: word, usec: word)
      requires geo.Valid() && layout.Valid(geo) && Image(geo, nodes[..], layout)
      requires Msg(data, sec, usec).Valid()
      requires oldTail == layout.tail
      requires var nr := geo.Nodes(Msg(data, sec, usec));
               && geo.EmptyNodes(layout.head, layout.tail) >= nr + RESERVE_BLOCK_COUNT
               && if layout.tail + nr > geo.eleCount then idx == 0 && oldTail != 0 && nr < layout.head
                  else idx == oldTail
      modifies nodes
      ensures Image(geo, nodes[..], Put(geo, layout, Msg(data, sec, usec)).0)
    {
      hide Image;
      hide MsgAt;
      hide Token;
      hide Base;
      hide Put;
      hide Geometry.NeededNodes;
      ghost var m := Msg(data, sec, usec);
      PutAccepted(geo, layout, m);
      hide Geometry.EmptyNodes;
      ghost var before := nodes[..];
      Lengths(before);
      MsgFits(geo, idx, m);
      BaseStep(geo, idx + geo.Nodes(m), geo.Slots() - idx - geo.Nodes(m));
      if idx == 0 && oldTail != 0 {
        MarkSkipped(oldTail);
        ghost var marked := nodes[..];
        BaseZero(geo);
        WriteMsg(idx, data, sec, usec);
        FinishWrapped(before, marked, m);
      } else {
        WriteMsg(idx, data, sec, usec);
        FinishInPlace(before, m);
      }
    }

    /** Appends the message exactly when it fits; every refusal leaves the queue as it was. */
    method SqPut(data: seq<byte>, sec: word, usec: word) returns (ret: int)
      requires Valid()
      modifies `tailPos, `layout, nodes
      ensures Valid()
      ensures (layout, ret) == Put(geo, old(layout), Msg(data, sec, usec))
      ensures ret == -1 <==> |data| == 0 || |data| > 33554432
      ensures ret == 0 ==> layout.Queue() == old(layout.Queue()) + [Msg(data, sec, usec)]
      ensures ret != 0 ==> layout == old(layout) && nodes[..] == old(nodes[..])
    {
      hide Image;
      hide Geometry.NeededNodes;
      hide Geometry.EmptyNodes;
      BadArgumentIff(geo, layout, Msg(data, sec, usec));
      if |data| == 0 || |data| > MAX_SQ_DATA_LENGTH {
        return -1;
      }
      ghost var m := Msg(data, sec, usec);
      PutKeepsValid(geo, layout, m);
      var idx, oldTail;
      ret, idx, oldTail := Reserve(m, |data|);
      if ret == 0 {
        Store(idx, oldTail, data, sec, usec);
        layout := Put(geo, layout, m).0;
      }
    }

    lemma Lengths(mem: seq<byte>)
      requires Image(geo, mem, layout)
      ensures |mem| == Base(geo, geo.Slots())
    {
    }

    lemma FinishInPlace(before: seq<byte>, m: Msg)
      requires geo.Valid() && layout.Valid(geo) && m.Valid() && Image(geo, before, layout)
      requires geo.EmptyNodes(layout.head, layout.tail) >= geo.Nodes(m) + RESERVE_BLOCK_COUNT
      requires layout.tail + geo.Nodes(m) <= geo.eleCount
      requires nodes.Length == |before| && MsgAt(geo, nodes[..], layout.tail, m)
      requires var a := Base(geo, layout.tail);
               forall k :: 0 <= k < nodes.Length && !(a <= k < a + NODE_HEAD + |m.payload|) ==> nodes[k] == before[k]
      ensures Image(geo, nodes[..], Put(geo, layout, m).0)
    {
      hide MsgAt;
      hide Token;
      hide Base;
      MsgFits(geo, layout.tail, m);
      BaseStep(geo, layout.tail, geo.Slots() - layout.tail);
      PutInPlaceImage(geo, before, nodes[..], layout, m);
    }

    lemma FinishWrapped(before: seq<byte>, marked: seq<byte>, m: Msg)
      requires geo.Valid() && layout.Valid(geo) && m.Valid() && Image(geo, before, layout)
      requires geo.EmptyNodes(layout.head, layout.tail) >= geo.Nodes(m) + RESERVE_BLOCK_COUNT
      requires layout.tail + geo.Nodes(m) > geo.eleCount && geo.Nodes(m) < layout.head
      requires forall v: nat :: layout.tail <= v <= geo.eleCount ==> Token(geo, marked, v, TOKEN_SKIPPED)
      requires Agree(before, marked, 0, Base(geo, layout.tail))
      requires nodes.Length == |before| && MsgAt(geo, nodes[..], 0, m)
      requires forall k :: 0 <= k < nodes.Length && !(0 <= k < NODE_HEAD + |m.payload|) ==> nodes[k] == marked[k]
      ensures Image(geo, nodes[..], Put(geo, layout, m).0)
    {
      hide MsgAt;
      hide Token;
      hide Base;
      var nr := geo.Nodes(m);
      MsgFits(geo, 0, m);
      NodeCounts(geo, layout.head, layout.tail);
      PutAccepted(geo, layout, m);
      BaseZero(geo);
      BaseStep(geo, nr, layout.tail - nr);
      BaseStep(geo, layout.tail, geo.Slots() - layout.tail);
      forall v: nat | layout.tail <= v <= geo.eleCount ensures Token(geo, nodes[..], v, TOKEN_SKIPPED) {
        TokenFrame(geo, marked, nodes[..], layout.tail, geo.Slots(), v, TOKEN_SKIPPED);
      }
      PutWrappedImage(geo, before, nodes[..], layout, m);
    }

    // ---- sq_get

    /** The local head stands on the oldest message, not on a skipped node before it. */
    ghost predicate AtFirst(head: nat)
      reads this
    {
      if layout.front != [] then head == layout.head else head == 0
    }

    /** Every position the reading loop can reach. */
    ghost predicate Cursor(head: nat)
      reads this
    {
      || head == layout.head
      || (layout.Wrapped() && layout.front == [] && (layout.brk <= head <= geo.eleCount || head == 0))
    }

    lemma AtCursor(head: nat)
      requires Valid() && layout.Queue() != [] && Cursor(head)
      ensures head <= geo.eleCount && head != tailPos
      ensures Base(geo, head) + 4 <= nodes.Length
      ensures AtFirst(head) ==>
                && MsgAt(geo, nodes[..], head, layout.Queue()[0])
                && WordAt(nodes[..], Base(geo, head)) == TOKEN_HAS_DATA
                && geo.UsedNodes(head, tailPos) >= geo.Nodes(layout.Queue()[0])
                && geo.AddPos(head, geo.Nodes(layout.Queue()[0])) == Drop(geo, layout).head
      ensures !AtFirst(head) ==>
                && WordAt(nodes[..], Base(geo, head)) == TOKEN_SKIPPED
                && layout.Wrapped() && layout.front == [] && layout.brk <= head
    {
      hide Base;
      hide Geometry.NeededNodes;
      hide ToWord;
      NodeCounts(geo, head, tailPos);
      DropKeepsValid(geo, layout);
      UsedNodesAreMessagesAndSkips(geo, layout);
      NeedsANode(geo, |layout.Queue()[0].payload|);
      if AtFirst(head) {
        ModOneLap(head + geo.Nodes(layout.Queue()[0]), geo.Slots());
      }
      if !AtFirst(head) {
        assert layout.Skipped(geo, head);
        assert Token(geo, nodes[..], head, TOKEN_SKIPPED);
      }
    }

    method ReadToken(pos: nat) returns (v: word)
      requires Base(geo, pos) + 4 <= nodes.Length
      ensures v == WordAt(nodes[..], Base(geo, pos))
    {
      v := ReadWord(Base(geo, pos));
    }

    method ReadHead(pos: nat, ghost m: Msg) returns (datalen: nat, sec: word, usec: word)
      requires MsgAt(geo, nodes[..], pos, m)
      ensures datalen == |m.payload| && sec == m.sec && usec == m.usec
    {
      var a := Base(geo, pos);
      datalen := ReadWord(a + 4);
      sec := ReadWord(a + 8);
      usec := ReadWord(a + 12);
    }

    method ReadData(pos: nat, datalen: nat, ghost m: Msg) returns (buf: seq<byte>)
      requires MsgAt(geo, nodes[..], pos, m) && datalen == |m.payload|
      ensures buf == m.payload
    {
      var a := Base(geo, pos) + NODE_HEAD;
      buf := nodes[a..a + datalen];
      assert buf == nodes[..][a..a + datalen];
    }

    static predicate Between(first: nat, end: nat, v: nat) {
      if first <= end then first <= v < end else first <= v || v < end
    }

    /** The clearing loop after the head has moved. */
    method ClearTokens(first: nat, end: nat)
      requires geo.Valid() && first <= geo.eleCount && end <= geo.eleCount
      requires nodes.Length == Base(geo, geo.Slots())
      modifies nodes
      ensures forall v: nat :: v <= geo.eleCount && Between(first, end, v) ==> Token(geo, nodes[..], v, TOKEN_NO_DATA)
      ensures forall v: nat :: v <= geo.eleCount && !Between(first, end, v) ==>
                Agree(old(nodes[..]), nodes[..], Base(geo, v), Base(geo, v + 1))
    {
      hide Base;
      hide Token;
      var pos: nat := first;
      forall v: nat | v <= geo.eleCount ensures Agree(nodes[..], nodes[..], Base(geo, v), Base(geo, v + 1)) {
        BaseStep(geo, v + 1, geo.eleCount - v);
      }
      while pos != end
        invariant pos <= geo.eleCount && (pos == end || Between(first, end, pos))
        invariant forall v: nat :: v <= geo.eleCount && Between(first, end, v) && !Between(pos, end, v) ==>
                    Token(geo, nodes[..], v, TOKEN_NO_DATA)
        invariant forall v: nat :: v <= geo.eleCount && !Between(first, end, v) ==>
                    Agree(old(nodes[..]), nodes[..], Base(geo, v), Base(geo, v + 1))
        decreases if pos <= end then end - pos else geo.Slots() - pos + end
      {
        SetToken(pos, TOKEN_NO_DATA);
        ModOneLap(pos + 1, geo.Slots());
        pos := geo.AddPos(pos, 1);
      }
    }

    /** The reading loop, up to the move of the head. Only the four listed outcomes exist: the
        read-write conflict, the corruption branches and the branch for a queue empty after
        skipping are never taken. */
    method Locate(bufSize: int) returns (ret: int, newHead: nat, buf: seq<byte>, sec: word, usec: word)
      requires Valid() && bufSize >= 1
      modifies `rwConflictTime
      ensures ret == Get(geo, layout, bufSize).1
      ensures ret > 0 ==> layout.Queue()[0] == Msg(buf, sec, usec) && newHead == Drop(geo, layout).head
      ensures ret <= 0 ==> rwConflictTime == 0
    {
      hide MsgAt;
      hide Token;
      hide Base;
      hide Run;
      hide ToWord;
      hide Geometry.NeededNodes;
      UsedNodesAreMessagesAndSkips(geo, layout);
      GetKeepsValid(geo, layout, bufSize);
      hide Geometry.EmptyNodes;
      hide Geometry.UsedNodes;
      hide Geometry.AddPos;
      hide Drop;
      hide Image;
      buf, sec, usec := [], 0, 0;
      newHead := headPos;
      var head: nat, oldHead := headPos, headPos;
      while true
        invariant Valid()
        invariant Cursor(head) && head <= geo.eleCount
        decreases geo.UsedNodes(head, tailPos)
      {
        if layout.Queue() != [] {
          AtCursor(head);
        }
        if tailPos == head {
          if head != oldHead {
            assert false;  // empty after skipping
          }
          rwConflictTime := 0;
          return 0, newHead, buf, sec, usec;
        }
        var token := ReadToken(head);
        if token != TOKEN_HAS_DATA {
          if token != TOKEN_SKIPPED {
            assert false;  // conflict or corruption
          }
          rwConflictTime := 0;
          SkipStep(head);
          head := geo.AddPos(head, 1);
          continue;
        }
        var datalen;
        datalen, sec, usec := ReadHead(head, layout.Queue()[0]);
        var nr := geo.NeededNodes(datalen);
        if geo.UsedNodes(head, tailPos) < nr {
          assert false;  // invalid length
        }
        if datalen > bufSize {
          rwConflictTime := 0;
          return -2, newHead, buf, sec, usec;
        }
        buf := ReadData(head, datalen, layout.Queue()[0]);
        newHead := geo.AddPos(head, nr);
        ret := datalen;
        break;
      }
    }

    lemma SkipStep(head: nat)
      requires geo.Valid() && layout.Valid(geo)
      requires layout.Wrapped() && layout.front == [] && layout.brk <= head <= geo.eleCount
      ensures var next := geo.AddPos(head, 1);
              && Cursor(next) && next <= geo.eleCount
              && 0 <= geo.UsedNodes(next, layout.tail) < geo.UsedNodes(head, layout.tail)
    {
      ModOneLap(head + 1, geo.Slots());
      NodeCounts(geo, head, layout.tail);
      NodeCounts(geo, geo.AddPos(head, 1), layout.tail);
    }

    /** Takes the oldest message, complete and with its time; every other outcome leaves the
        queue as it was. */
    method SqGet(bufSize: int) returns (ret: int, buf: seq<byte>, sec: word, usec: word)
      requires Valid()
      modifies `headPos, `rwConflictTime, `layout, nodes
      ensures Valid()
      ensures (layout, ret) == Get(geo, old(layout), bufSize)
      ensures ret == if bufSize < 1 then -1
                     else if old(layout.Queue()) == [] then 0
                     else if |old(layout.Queue())[0].payload| > bufSize then -2
                     else |old(layout.Queue())[0].payload|
      ensures ret > 0 ==> old(layout.Queue()) == [Msg(buf, sec, usec)] + layout.Queue()
      ensures ret <= 0 ==> layout == old(layout) && nodes[..] == old(nodes[..])
      ensures rwConflictTime == if ret == -1 then old(rwConflictTime) else 0
    {
      hide Image, Base, Drop;
      hide Geometry.NeededNodes;
      if bufSize < 1 {
        return -1, [], 0, 0;
      }
      ghost var before := nodes[..];
      GetKeepsValid(geo, layout, bufSize);
      var newHead;
      ret, newHead, buf, sec, usec := Locate(bufSize);
      assert nodes[..] == before;
      if ret <= 0 {
        return;
      }
      Release(newHead);
      rwConflictTime := 0;
    }

    /** The move of the head, and the clearing of the tokens behind it. */
    method Release(newHead: nat)
      requires Valid() && layout.Queue() != [] && newHead == Drop(geo, layout).head
      modifies `headPos, `layout, nodes
      ensures Valid() && layout == Drop(geo, old(layout))
    {
      hide Image, Base, Token;
      hide Geometry.NeededNodes;
      ghost var before := nodes[..];
      DropKeepsValid(geo, layout);
      Lengths(before);
      var oldHead := headPos;
      headPos := newHead;
      ClearTokens(oldHead, newHead);
      FinishGet(before, oldHead, newHead);
      layout := Drop(geo, layout);
    }

    lemma FinishGet(before: seq<byte>, first: nat, end: nat)
      requires geo.Valid() && layout.Valid(geo) && Image(geo, before, layout) && layout.Queue() != []
      requires first == layout.head && end == Drop(geo, layout).head
      requires nodes.Length == |before|
      requires forall v: nat :: v <= geo.eleCount && Between(first, end, v) ==> Token(geo, nodes[..], v, TOKEN_NO_DATA)
      requires forall v: nat :: v <= geo.eleCount && !Between(first, end, v) ==>
                 Agree(before, nodes[..], Base(geo, v), Base(geo, v + 1))
      ensures Image(geo, nodes[..], Drop(geo, layout))
    {
      hide Image;
      hide Token;
      hide Base;
      hide Geometry.NeededNodes;
      NeedsANode(geo, |layout.Queue()[0].payload|);
      DropKeepsValid(geo, layout);
      assert forall v: nat :: v <= geo.eleCount ==> (Between(first, end, v) <==> Released(geo, layout, v));
      GetImage(geo, before, nodes[..], layout);
    }
  }
}
