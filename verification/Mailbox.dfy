/** The one-slot mailbox between the threads that open materials and the main loop. Any number of
    openers swap their list in when the slot is empty, and try again when it is not; the main loop
    swaps an empty slot in once a frame. Every step below is one atomic action of one thread. */
module Mailbox {

  /** An opener has the list it was given and, once it has opened it, what opening made of it. */
  datatype Opener<T> =
    | Opening(list: T)
    | Failed(list: T)
    | Waiting(list: T, result: T, ptr: nat)
    | Posted(list: T, result: T)

  /** An opened list in memory, with the opener that put it there. */
  datatype Cell<T> = Cell(owner: nat, list: T)

  /** The slot holds an address, 0 when it is empty. What was posted and delivered is recorded in
      the order of the swaps. */
  datatype State<T> = State(slot: nat, heap: map<nat, Cell<T>>, openers: seq<Opener<T>>,
                            posted: seq<Cell<T>>, delivered: seq<Cell<T>>)
  {
    /** What the slot shows. */
    function Pending(): seq<Cell<T>> {
      if slot != 0 && slot in heap then [heap[slot]] else []
    }
  }

  datatype Step<T> =
    | Submit(list: T)
    | OpenSucceeds(opener: nat, ptr: nat, result: T)
    | OpenFails(opener: nat)
    | TryPost(opener: nat)
    | Take

  function Start<T>(): State<T> {
    State(0, map[], [], [], [])
  }

  ghost predicate Enabled<T>(s: State<T>, a: Step<T>) {
    match a
    case Submit(_) => true
    // an allocation gives an address that nothing alive has; one delivered before may come back
    case OpenSucceeds(i, ptr, _) => i < |s.openers| && s.openers[i].Opening? && ptr != 0 && ptr !in s.heap
    case OpenFails(i) => i < |s.openers| && s.openers[i].Opening?
    case TryPost(i) => i < |s.openers| && s.openers[i].Waiting?
    case Take => true
  }

  function Apply<T>(s: State<T>, a: Step<T>): State<T> {
    match a
    case Submit(list) => s.(openers := s.openers + [Opening(list)])
    case OpenSucceeds(i, ptr, result) =>
      if i < |s.openers| then
        s.(openers := s.openers[i := Waiting(s.openers[i].list, result, ptr)], heap := s.heap[ptr := Cell(i, result)])
      else s
    case OpenFails(i) =>
      if i < |s.openers| then s.(openers := s.openers[i := Failed(s.openers[i].list)]) else s
    case TryPost(i) =>
      if i < |s.openers| && s.openers[i].Waiting? && s.slot == 0 then
        var x := s.openers[i];
        s.(slot := x.ptr, openers := s.openers[i := Posted(x.list, x.result)], posted := s.posted + [Cell(i, x.result)])
      else s
    case Take =>
      s.(slot := 0, delivered := s.delivered + s.Pending(), heap := s.heap - {s.slot})
  }

  ghost predicate Possible<T>(steps: seq<Step<T>>) {
    steps == [] ||
    (Possible(steps[..|steps| - 1]) && Enabled(Run(steps[..|steps| - 1]), steps[|steps| - 1]))
  }

  function Run<T>(steps: seq<Step<T>>): State<T> {
    if steps == [] then Start() else Apply(Run(steps[..|steps| - 1]), steps[|steps| - 1])
  }

  // ---- Invariant

  ghost predicate HeapHolds<T>(s: State<T>) {
    && (s.slot != 0 ==> s.slot in s.heap)
    && forall i :: 0 <= i < |s.openers| && s.openers[i].Waiting? ==>
         var p := s.openers[i].ptr;
         p != 0 && p != s.slot && p in s.heap && s.heap[p] == Cell(i, s.openers[i].result)
  }

  ghost predicate PostedOnce<T>(s: State<T>) {
    && (forall k :: 0 <= k < |s.posted| ==>
          var i := s.posted[k].owner;
          i < |s.openers| && s.openers[i].Posted? && s.openers[i].result == s.posted[k].list)
    && (forall j, k :: 0 <= j < k < |s.posted| ==> s.posted[j].owner != s.posted[k].owner)
    && (forall i :: 0 <= i < |s.openers| && s.openers[i].Posted? ==> Cell(i, s.openers[i].result) in s.posted)
  }

  ghost predicate Inv<T>(s: State<T>) {
    HeapHolds(s) && PostedOnce(s) && s.posted == s.delivered + s.Pending()
  }

  lemma OpeningKeepsInv<T>(s: State<T>, a: Step<T>)
    requires Inv(s) && Enabled(s, a) && (a.OpenSucceeds? || a.OpenFails?)
    ensures Inv(Apply(s, a))
  {
    var t, i := Apply(s, a), a.opener;
    assert forall j :: 0 <= j < |s.openers| && j != i ==> t.openers[j] == s.openers[j];
    assert t.Pending() == s.Pending();
  }

  lemma PostKeepsHeap<T>(s: State<T>, i: nat)
    requires Inv(s) && Enabled(s, TryPost(i)) && s.slot == 0
    ensures HeapHolds(Apply(s, TryPost(i)))
  {
    var t := Apply(s, TryPost(i));
    assert forall j :: 0 <= j < |s.openers| && j != i ==> t.openers[j] == s.openers[j];
  }

  lemma PostIsOnce<T>(s: State<T>, i: nat)
    requires Inv(s) && Enabled(s, TryPost(i)) && s.slot == 0
    ensures PostedOnce(Apply(s, TryPost(i)))
  {
    var t := Apply(s, TryPost(i));
    assert forall j :: 0 <= j < |s.openers| && j != i ==> t.openers[j] == s.openers[j];
    assert Cell(i, s.openers[i].result) == t.posted[|s.posted|];
  }

  lemma StepKeepsInv<T>(s: State<T>, a: Step<T>)
    requires Inv(s) && Enabled(s, a)
    ensures Inv(Apply(s, a))
  {
    var t := Apply(s, a);
    match a
    case Submit(_) =>
    case OpenSucceeds(_, _, _) => OpeningKeepsInv(s, a);
    case OpenFails(_) => OpeningKeepsInv(s, a);
    case TryPost(i) =>
      if s.slot == 0 {
        PostKeepsHeap(s, i);
        PostIsOnce(s, i);
        assert t.Pending() == [Cell(i, s.openers[i].result)] && s.Pending() == [];
      }
    case Take =>
      assert t.Pending() == [];
  }

  lemma {:induction false} RunKeepsInv<T>(steps: seq<Step<T>>)
    requires Possible(steps)
    ensures Inv(Run(steps))
  {
    if steps != [] {
      RunKeepsInv(steps[..|steps| - 1]);
      StepKeepsInv(Run(steps[..|steps| - 1]), steps[|steps| - 1]);
    }
  }

  // ---- Submissions

  function Submitted<T>(steps: seq<Step<T>>): seq<T> {
    if steps == [] then []
    else
      var before := Submitted(steps[..|steps| - 1]);
      match steps[|steps| - 1]
      case Submit(list) => before + [list]
      case _ => before
  }

  lemma {:induction false} OpenersKeepTheirLists<T>(steps: seq<Step<T>>)
    ensures |Run(steps).openers| == |Submitted(steps)|
    ensures forall i :: 0 <= i < |Submitted(steps)| ==> Run(steps).openers[i].list == Submitted(steps)[i]
  {
    if steps != [] {
      OpenersKeepTheirLists(steps[..|steps| - 1]);
    }
  }

  /** Opener i opened its list, which became this one. */
  ghost predicate OpenedTo<T>(steps: seq<Step<T>>, i: nat, list: T) {
    exists j :: 0 <= j < |steps| && steps[j].OpenSucceeds? && steps[j].opener == i && steps[j].result == list
  }

  predicate HasOpened<T>(x: Opener<T>) {
    x.Waiting? || x.Posted?
  }

  lemma OpenedBefore<T>(steps: seq<Step<T>>, i: nat, list: T)
    requires steps != [] && OpenedTo(steps[..|steps| - 1], i, list)
    ensures OpenedTo(steps, i, list)
  {
    var before := steps[..|steps| - 1];
    var j :| 0 <= j < |before| && before[j].OpenSucceeds? && before[j].opener == i && before[j].result == list;
    assert steps[j] == before[j];
  }

  lemma {:induction false} OpenersKnowWhatTheyOpened<T>(steps: seq<Step<T>>)
    requires Possible(steps)
    ensures forall i :: 0 <= i < |Run(steps).openers| && HasOpened(Run(steps).openers[i]) ==>
              OpenedTo(steps, i, Run(steps).openers[i].result)
  {
    if steps != [] {
      var before, n := steps[..|steps| - 1], |steps| - 1;
      OpenersKnowWhatTheyOpened(before);
      var s, t := Run(before), Run(steps);
      forall i | 0 <= i < |t.openers| && HasOpened(t.openers[i])
        ensures OpenedTo(steps, i, t.openers[i].result)
      {
        if steps[n].OpenSucceeds? && steps[n].opener == i {
          assert steps[n].result == t.openers[i].result;
        } else {
          OpenedBefore(steps, i, t.openers[i].result);
        }
      }
    }
  }

  /** Opener i has opened its list, or has failed to. */
  ghost predicate EverOpened<T>(steps: seq<Step<T>>, i: nat) {
    exists j :: 0 <= j < |steps| && steps[j].OpenSucceeds? && steps[j].opener == i
  }

  ghost predicate EverFailed<T>(steps: seq<Step<T>>, i: nat) {
    exists j :: 0 <= j < |steps| && steps[j] == OpenFails(i)
  }

  lemma EverAgain<T>(steps: seq<Step<T>>, i: nat)
    requires steps != []
    ensures var last := steps[|steps| - 1];
            && (EverOpened(steps, i)
                <==> EverOpened(steps[..|steps| - 1], i) || (last.OpenSucceeds? && last.opener == i))
            && (EverFailed(steps, i) <==> EverFailed(steps[..|steps| - 1], i) || last == OpenFails(i))
  {
    var before := steps[..|steps| - 1];
    assert forall j :: 0 <= j < |before| ==> before[j] == steps[j];
  }

  /** In every run: a list that was opened waits for the slot until it is posted, however often the
      slot was full, and only a list that could not be opened is given up. */
  lemma {:induction false} NoListIsDropped<T>(steps: seq<Step<T>>, i: nat)
    requires Possible(steps) && i < |Run(steps).openers|
    ensures var x := Run(steps).openers[i];
            && (x.Waiting? || x.Posted? <==> EverOpened(steps, i))
            && (x.Failed? <==> EverFailed(steps, i))
    decreases |steps|
  {
    hide EverOpened, EverFailed;
    if steps == [] {
      assert false;
    } else {
      var before := steps[..|steps| - 1];
      EverAgain(steps, i);
      if i < |Run(before).openers| {
        NoListIsDropped(before, i);
      } else {
        NotYet(before, i);
      }
    }
  }

  lemma {:induction false} NotYet<T>(steps: seq<Step<T>>, i: nat)
    requires Possible(steps) && i >= |Run(steps).openers|
    ensures !EverOpened(steps, i) && !EverFailed(steps, i)
    decreases |steps|
  {
    if steps != [] {
      NotYet(steps[..|steps| - 1], i);
      EverAgain(steps, i);
    }
  }

  /** In every run: no list is delivered twice, every delivered list is one that was submitted,
      complete and as its opener opened it, deliveries come in the order of the swaps, and a list
      swapped in has been delivered or is the one in the slot, so none was overwritten. */
  lemma DeliveredOnce<T>(steps: seq<Step<T>>)
    requires Possible(steps)
    ensures var s, lists := Run(steps), Submitted(steps);
            && (forall j, k :: 0 <= j < k < |s.delivered| ==> s.delivered[j].owner != s.delivered[k].owner)
            && (forall k :: 0 <= k < |s.delivered| ==>
                  s.delivered[k].owner < |lists| && OpenedTo(steps, s.delivered[k].owner, s.delivered[k].list))
            && s.posted == s.delivered + s.Pending()
            && |s.openers| == |lists|
            && forall i :: 0 <= i < |lists| ==>
                 && s.openers[i].list == lists[i]
                 && (s.openers[i].Posted? <==> exists c :: c in s.delivered + s.Pending() && c.owner == i)
  {
    hide Run, Submitted, Possible, OpenedTo;
    var s := Run(steps);
    RunKeepsInv(steps);
    OpenersKeepTheirLists(steps);
    OpenersKnowWhatTheyOpened(steps);
    forall k | 0 <= k < |s.delivered|
      ensures s.delivered[k].owner < |s.openers| && OpenedTo(steps, s.delivered[k].owner, s.delivered[k].list)
    {
      assert s.delivered[k] == s.posted[k];
    }
    forall j, k | 0 <= j < k < |s.delivered| ensures s.delivered[j].owner != s.delivered[k].owner {
      assert s.delivered[j] == s.posted[j] && s.delivered[k] == s.posted[k];
    }
    forall i | 0 <= i < |s.openers|
      ensures s.openers[i].Posted? <==> exists c :: c in s.posted && c.owner == i
    {
      PostedIff(s, i);
    }
  }

  lemma PostedIff<T>(s: State<T>, i: nat)
    requires Inv(s) && i < |s.openers|
    ensures s.openers[i].Posted? <==> exists c :: c in s.posted && c.owner == i
  {
    if s.openers[i].Posted? {
      assert Cell(i, s.openers[i].result) in s.posted;
    }
    if c :| c in s.posted && c.owner == i {
      var k :| 0 <= k < |s.posted| && s.posted[k] == c;
    }
  }

  /** An opener that waits gets through: once the slot has been emptied its next attempt succeeds,
      and the next delivery is its list. */
  lemma EmptyingLetsOneThrough<T>(s: State<T>, i: nat)
    requires Inv(s) && i < |s.openers| && s.openers[i].Waiting?
    ensures var t := Apply(Apply(Apply(s, Take), TryPost(i)), Take);
            t.delivered == s.delivered + s.Pending() + [Cell(i, s.openers[i].result)] && t.openers[i].Posted?
  {
    StepKeepsInv(s, Take);
    StepKeepsInv(Apply(s, Take), TryPost(i));
  }
}
