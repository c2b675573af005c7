/** The time a reader gives a writer to publish. It is stored with the process, not with the node:
    a return without data leaves it set, and later looks, at whatever packet, count from it. */
module ConflictWindow {

  const SQ_MAX_CONFLICT_TIME_MS := 50

  /** One process's looks at nodes without a token, each at a time in ms and at a packet, and the
      points at which it clears the stored time: an empty queue, a head moved by another reader, a
      skipped node, a buffer too small, and a packet taken. */
  datatype Look = Conflict(now: nat, packet: nat) | Reset

  /** rw_conflict_time. */
  function Since(looks: seq<Look>): nat {
    if looks == [] then 0
    else
      var since := Since(looks[..|looks| - 1]);
      match looks[|looks| - 1]
      case Conflict(now, _) => if since == 0 then now else since
      case Reset => 0
  }

  /** A look at time now finds the window closed. */
  predicate Closed(looks: seq<Look>, now: nat) {
    var since := if Since(looks) == 0 then now else Since(looks);
    now >= since + SQ_MAX_CONFLICT_TIME_MS
  }

  /** The clock never goes back and is never 0. */
  predicate Clocked(looks: seq<Look>) {
    forall i, j :: 0 <= i <= j < |looks| && looks[i].Conflict? && looks[j].Conflict? ==>
      0 < looks[i].now <= looks[j].now
  }

  /** The look at i, with no clearing since: it belongs to the present window. */
  predicate Present(looks: seq<Look>, i: nat) {
    i < |looks| && looks[i].Conflict? && forall j :: i < j < |looks| ==> looks[j].Conflict?
  }

  lemma PresentBefore(looks: seq<Look>, i: nat)
    requires looks != [] && looks[|looks| - 1].Conflict?
    ensures i < |looks| - 1 ==> (Present(looks, i) <==> Present(looks[..|looks| - 1], i))
  {
    var before := looks[..|looks| - 1];
    if i < |before| {
      assert before[i] == looks[i];
      assert forall j :: 0 <= j < |before| ==> before[j] == looks[j];
    }
  }

  /** The stored time is that of the first look of the present window, and 0 when there is none. */
  lemma {:induction false} SinceIsFirst(looks: seq<Look>)
    requires Clocked(looks)
    ensures Since(looks) == 0 ==> forall i: nat :: !Present(looks, i)
    ensures Since(looks) != 0 ==> exists i: nat :: Present(looks, i) && looks[i].now == Since(looks)
    ensures forall i: nat :: Present(looks, i) ==> looks[i].now >= Since(looks)
    decreases looks
  {
    if looks != [] && looks[|looks| - 1].Conflict? {
      var n, before := |looks| - 1, looks[..|looks| - 1];
      SinceIsFirst(before);
      forall i: nat ensures i < n ==> (Present(looks, i) <==> Present(before, i)) {
        PresentBefore(looks, i);
      }
      assert Present(looks, n);
      if Since(before) != 0 {
        var i: nat :| Present(before, i) && before[i].now == Since(before);
        assert Present(looks, i) && looks[i].now == Since(looks);
      }
    }
  }

  /** The window is closed exactly when some look of it is at least 50 ms past. */
  lemma ClosedIff(looks: seq<Look>, now: nat)
    requires Clocked(looks) && now > 0
    ensures Closed(looks, now)
            <==> exists i: nat :: Present(looks, i) && now >= looks[i].now + SQ_MAX_CONFLICT_TIME_MS
  {
    SinceIsFirst(looks);
  }

  /** A look at this packet, in the present window, is 50 ms past. */
  ghost predicate WaitedFor(looks: seq<Look>, packet: nat, now: nat) {
    exists i: nat :: Present(looks, i) && looks[i].packet == packet && now >= looks[i].now + SQ_MAX_CONFLICT_TIME_MS
  }

  /** The window was opened by a look at this packet. */
  ghost predicate OpenedBy(looks: seq<Look>, packet: nat) {
    exists i: nat :: Present(looks, i) && looks[i].packet == packet && looks[i].now == Since(looks)
  }

  /** A packet gets its full 50 ms, at whatever time the window is found closed, exactly when no
      window is open or it was this packet that opened it. */
  lemma OwnWindowIff(looks: seq<Look>, packet: nat)
    requires Clocked(looks)
    ensures (forall now :: now > 0 && Closed(looks, now) ==> WaitedFor(looks, packet, now))
            <==> Since(looks) == 0 || OpenedBy(looks, packet)
  {
    SinceIsFirst(looks);
    if Since(looks) != 0 {
      var due := Since(looks) + SQ_MAX_CONFLICT_TIME_MS;
      assert Closed(looks, due);
      if WaitedFor(looks, packet, due) {
        var i: nat :| Present(looks, i) && looks[i].packet == packet && due >= looks[i].now + SQ_MAX_CONFLICT_TIME_MS;
        assert looks[i].now == Since(looks);
      }
      if OpenedBy(looks, packet) {
        var i: nat :| Present(looks, i) && looks[i].packet == packet && looks[i].now == Since(looks);
        forall now | now > 0 && Closed(looks, now) ensures WaitedFor(looks, packet, now) {
          assert now >= looks[i].now + SQ_MAX_CONFLICT_TIME_MS;
        }
      }
    }
  }

  /** A look at packet 1, and 60 ms later the first look at packet 2, which another process's get has
      brought to the head: packet 2 is given up at once. */
  lemma StaleWindow()
    ensures var looks := [Conflict(1, 1)]; Closed(looks, 61) && !WaitedFor(looks, 2, 61)
  {
    assert [Conflict(1, 1)][..0] == [];
  }
}
