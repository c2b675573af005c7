/** The frames of a whole run: when the background that was drawn before the first one stays right. */
module Frames {
  import opened Permutations
  import opened MaterialList
  import opened Drawing
  import opened MainLoop

  /** A frame that shows its list exactly is followed by one that does, if and only if what happens
      in between leaves what shows of the front of the list alone. */
  lemma EventKeepsExactIff(s: Loop, e: Event, s': Loop, background: List, staticIdx: nat, productId: int)
    requires Happens(s, e, s') && Exact(background, staticIdx, s.mlist, productId)
    ensures Exact(background, staticIdx, s'.mlist, productId)
            <==> Visible(Front(s'.mlist, staticIdx), productId) == Visible(Front(s.mlist, staticIdx), productId)
    ensures e.Opening? ==> Exact(background, staticIdx, s'.mlist, productId)
  {
    hide Happens, Visible, Front, Exact;
    ExactIff(background, staticIdx, s.mlist, productId);
    ExactIff(background, staticIdx, s'.mlist, productId);
    if e.Opening? {
      OpeningKeepsList(s, e, s');
    }
  }

  lemma OpeningKeepsList(s: Loop, e: Event, s': Loop)
    requires Happens(s, e, s') && e.Opening?
    ensures s'.mlist == s.mlist
  {
  }

  // ---- What leaves the front alone

  /** A command that names nothing at the front, or nothing it may touch. */
  predicate Spares(s: List, c: Command, staticIdx: nat) {
    match c
    case Add(_, _, _) => true
    case Del(p, id) =>
      var k := First(s, p, id);
      id < 1 || k >= staticIdx || k == |s| || IsMain(s[k].kind)
    case Mod(p, id, _, _) => id < 1 || First(s, p, id) >= staticIdx || !CanMove(s, p, id)
    case Stream => true
  }

  ghost predicate AllSpare(s: List, cmds: seq<Command>, xRatio: real, yRatio: real, staticIdx: nat) {
    forall i :: 0 <= i < |cmds| ==> Spares(Batch(s, cmds[..i], xRatio, yRatio).list, cmds[i], staticIdx)
  }

  lemma {:induction false} BatchKeepsFront(s: List, cmds: seq<Command>, xRatio: real, yRatio: real, staticIdx: nat)
    requires AllSpare(s, cmds, xRatio, yRatio, staticIdx) && staticIdx <= |s|
    ensures var t := Batch(s, cmds, xRatio, yRatio).list; staticIdx <= |t| && t[..staticIdx] == s[..staticIdx]
  {
    hide First, CanMove, Scaled;
    if cmds != [] {
      var before, last := cmds[..|cmds| - 1], cmds[|cmds| - 1];
      forall i | 0 <= i < |before|
        ensures Spares(Batch(s, before[..i], xRatio, yRatio).list, before[i], staticIdx)
      {
        assert before[..i] == cmds[..i];
      }
      BatchKeepsFront(s, before, xRatio, yRatio, staticIdx);
      OneKeepsFront(Batch(s, before, xRatio, yRatio), last, xRatio, yRatio, staticIdx);
    }
  }

  lemma OneKeepsFront(b: Books, c: Command, xRatio: real, yRatio: real, staticIdx: nat)
    requires staticIdx <= |b.list| && Spares(b.list, c, staticIdx)
    ensures var t := After(b, c, xRatio, yRatio).list; staticIdx <= |t| && t[..staticIdx] == b.list[..staticIdx]
  {
  }

  /** Each material at the front is strictly below all that follow it. */
  ghost predicate LowFront(s: List, staticIdx: nat) {
    staticIdx <= |s| && forall i, j :: 0 <= i < staticIdx && i < j < |s| ==> s[i].layer < s[j].layer
  }

  /** Then every order by layer begins with the same front. */
  lemma {:induction false} SortKeepsLowFront(s: List, t: List, staticIdx: nat)
    requires LowFront(s, staticIdx) && multiset(s) == multiset(t) && Sorted(t)
    ensures |t| == |s| && t[..staticIdx] == s[..staticIdx]
    decreases staticIdx
  {
    hide LowFront, Sorted;
    assert |s| == |multiset(s)| == |multiset(t)| == |t|;
    if staticIdx > 0 {
      LowestIsFirst(s, t, staticIdx);
      TailsAgree(s, t);
      TailsAreOrdered(s, t, staticIdx);
      SortKeepsLowFront(s[1..], t[1..], staticIdx - 1);
      assert s[..staticIdx] == [s[0]] + s[1..][..staticIdx - 1];
      assert t[..staticIdx] == [t[0]] + t[1..][..staticIdx - 1];
    }
  }

  lemma TailsAgree(s: List, t: List)
    requires s != [] && t != [] && s[0] == t[0] && multiset(s) == multiset(t)
    ensures multiset(s[1..]) == multiset(t[1..])
  {
    HeadOff(s);
    HeadOff(t);
    Cancel(multiset(s[1..]), multiset(t[1..]), s[0]);
  }

  lemma TailsAreOrdered(s: List, t: List, staticIdx: nat)
    requires 0 < staticIdx && LowFront(s, staticIdx) && Sorted(t) && t != []
    ensures LowFront(s[1..], staticIdx - 1) && Sorted(t[1..])
  {
  }

  lemma LowestIsFirst(s: List, t: List, staticIdx: nat)
    requires 0 < staticIdx && LowFront(s, staticIdx) && multiset(s) == multiset(t) && Sorted(t)
    ensures t != [] && s != [] && t[0] == s[0]
  {
    hide LowFront;
    LowFirst(s, staticIdx, 0);
    assert s[0] in multiset(t);
    var j := IndexOf(t, s[0]);
    assert t[0].layer <= t[j].layer;
    assert t[0] in multiset(s);
    var q := IndexOf(s, t[0]);
    LowFirst(s, staticIdx, q);
  }

  lemma LowFirst(s: List, staticIdx: nat, q: nat)
    requires 0 < staticIdx && LowFront(s, staticIdx)
    ensures s != [] && (0 < q < |s| ==> s[0].layer < s[q].layer)
  {
  }

  /** An event that leaves the front alone: commands that name nothing of it, and a delivery or a
      sort while the front is strictly below the rest. */
  ghost predicate Quiet(s: Loop, e: Event, s': Loop, staticIdx: nat) {
    match e
    case Commands(cmds, xRatio, yRatio) => AllSpare(s.mlist, cmds, xRatio, yRatio, staticIdx)
    case Deliver =>
      var arrival := Arrived(s.steps);
      (arrival.Nothing? && !s.moved) ||
      (LowFront(s.mlist + arrival.Materials(), staticIdx) && Fits(s.mlist + arrival.Materials()))
    case Opening(_) => true
  }

  lemma QuietKeepsFront(s: Loop, e: Event, s': Loop, staticIdx: nat)
    requires Happens(s, e, s') && Quiet(s, e, s', staticIdx) && staticIdx <= |s.mlist|
    ensures staticIdx <= |s'.mlist| && s'.mlist[..staticIdx] == s.mlist[..staticIdx]
  {
    hide Batch, AllSpare, LowFront, Sorted, Fits, Arrived;
    match e
    case Commands(cmds, xRatio, yRatio) =>
      BatchKeepsFront(s.mlist, cmds, xRatio, yRatio, staticIdx);
    case Deliver =>
      var arrival := Arrived(s.steps);
      if arrival.Came? || s.moved {
        var whole := s.mlist + arrival.Materials();
        SameElements(whole, s'.mlist);
        SortKeepsLowFront(whole, s'.mlist, staticIdx);
        assert whole[..staticIdx] == s.mlist[..staticIdx];
      }
    case Opening(_) =>
  }

  /** As long as every event leaves the front alone, every frame shows its list exactly. */
  lemma {:induction false} QuietRunIsExact(mlist: List, states: seq<Loop>, events: seq<Event>, i: nat,
                                           background: List, staticIdx: nat, productId: int)
    requires MainLoop.Frames(mlist, states, events) && i <= |events| && staticIdx <= |mlist|
    requires background == Visible(mlist[..staticIdx], productId)
    requires forall j :: 0 <= j < i ==> Quiet(states[j], events[j], states[j + 1], staticIdx)
    ensures staticIdx <= |states[i].mlist| && states[i].mlist[..staticIdx] == mlist[..staticIdx]
    ensures Exact(background, staticIdx, states[i].mlist, productId)
  {
    hide Visible, Exact, Quiet, Happens;
    if i > 0 {
      QuietRunIsExact(mlist, states, events, i - 1, background, staticIdx, productId);
      QuietKeepsFront(states[i - 1], events[i - 1], states[i], staticIdx);
    }
    ExactIff(background, staticIdx, states[i].mlist, productId);
  }
}
