/** Whole runs of the main loop with its mailbox: frame after frame the loop runs its commands,
    submits what they add, takes what an opener has posted and sorts, while the openers go on at
    any time in between. */
module MainLoop {
  import opened MaterialList
  import opened Mailbox

  type List = seq<Material>

  /** The mailbox by its history, the list, whether a command moved a material, and whether the
      loop is between its commands and its delivery. */
  datatype Loop = Loop(steps: seq<Step<List>>, mlist: List, moved: bool, preparing: bool)

  datatype Event =
    | Commands(cmds: seq<Command>, xRatio: real, yRatio: real)
    | Deliver
    | Opening(step: Step<List>)

  function Arrived(steps: seq<Step<List>>): Arrival {
    var pending := Run(steps).Pending();
    if pending == [] then Nothing else Came(pending[0].list)
  }

  ghost predicate Happens(s: Loop, e: Event, s': Loop) {
    match e
    case Commands(cmds, xRatio, yRatio) =>
      var b := Batch(s.mlist, cmds, xRatio, yRatio);
      && !s.preparing
      && s' == Loop(if b.added == [] then s.steps else s.steps + [Submit(b.added)], b.list, b.moved, true)
    case Deliver =>
      && s.preparing
      && Prepared(s.mlist, s.moved, Arrived(s.steps), s'.mlist)
      && s' == Loop(s.steps + [Take], s'.mlist, false, false)
    case Opening(step) =>
      && !step.Submit? && !step.Take? && Enabled(Run(s.steps), step)
      && (step.OpenSucceeds? ==> OpenedAs(Run(s.steps).openers[step.opener].list, step.result))
      && s' == s.(steps := s.steps + [step])
  }

  ghost predicate Frames(mlist: List, states: seq<Loop>, events: seq<Event>) {
    && |states| == |events| + 1
    && states[0] == Loop([], mlist, false, false)
    && forall i :: 0 <= i < |events| ==> Happens(states[i], events[i], states[i + 1])
  }

  // ---- Invariant

  ghost predicate Submissions(steps: seq<Step<List>>) {
    && Possible(steps)
    && (forall i :: 0 <= i < |Submitted(steps)| ==> Mains(Submitted(steps)[i]) == [])
    && forall j :: 0 <= j < |steps| && steps[j].OpenSucceeds? ==> Mains(steps[j].result) == []
  }

  /** ordered: every list drawn so far had layers that fit. */
  ghost predicate Inv(mlist: List, s: Loop, ordered: bool) {
    && Submissions(s.steps)
    && multiset(Mains(s.mlist)) == multiset(Mains(mlist))
    && (ordered ==> (s.moved || Sorted(s.mlist)) && (!s.preparing ==> Sorted(s.mlist)))
  }

  lemma LastStep(steps: seq<Step<List>>, step: Step<List>)
    ensures Run(steps + [step]) == Mailbox.Apply(Run(steps), step)
    ensures Possible(steps) && Enabled(Run(steps), step) ==> Possible(steps + [step])
    ensures Submitted(steps + [step]) == if step.Submit? then Submitted(steps) + [step.list] else Submitted(steps)
  {
    hide Enabled, Mailbox.Apply;
    assert (steps + [step])[..|steps|] == steps;
  }

  lemma OneMoreStep(steps: seq<Step<List>>, step: Step<List>)
    requires Submissions(steps) && Enabled(Run(steps), step)
    requires step.Submit? ==> Mains(step.list) == []
    requires step.OpenSucceeds? ==> Mains(step.result) == []
    ensures Submissions(steps + [step])
    ensures Run(steps + [step]) == Mailbox.Apply(Run(steps), step)
  {
    hide Run, Enabled, Mains, Possible, Submitted;
    LastStep(steps, step);
  }

  lemma ArrivalHasNoMains(steps: seq<Step<List>>)
    requires Submissions(steps)
    ensures Mains(Arrived(steps).Materials()) == []
  {
    hide Run, Submitted, Mains;
    NoMains([]);
    var s, pending := Run(steps), Run(steps).Pending();
    if pending != [] {
      OneMoreStep(steps, Take);
      DeliveriesHaveNoMains(steps + [Take], |s.delivered|);
    }
  }

  lemma EventKeepsInv(mlist: List, s: Loop, e: Event, s': Loop, ordered: bool)
    requires Inv(mlist, s, ordered) && Happens(s, e, s')
    ensures Inv(mlist, s', ordered && (s'.preparing || Fits(s'.mlist)))
  {
    hide Submissions, Mains, Sorted, Fits, Batch, Enabled, Run, OpenedAs;
    match e
    case Commands(cmds, xRatio, yRatio) =>
      var b := Batch(s.mlist, cmds, xRatio, yRatio);
      if Sorted(s.mlist) {
        OrderHoldsUntilMoved(s.mlist, cmds, xRatio, yRatio);
      }
      CommandsKeepMains(s.mlist, cmds, xRatio, yRatio);
      if b.added != [] {
        Always(s.steps, Submit(b.added));
        OneMoreStep(s.steps, Submit(b.added));
      }
    case Deliver =>
      ArrivalHasNoMains(s.steps);
      PreparedKeepsMains(s.mlist, s.moved, Arrived(s.steps), s'.mlist);
      Always(s.steps, Take);
      OneMoreStep(s.steps, Take);
    case Opening(step) =>
      if step.OpenSucceeds? {
        OpenedHasNoMains(s.steps, step);
      }
      OneMoreStep(s.steps, step);
  }

  lemma OpenedHasNoMains(steps: seq<Step<List>>, step: Step<List>)
    requires Submissions(steps) && Enabled(Run(steps), step) && step.OpenSucceeds?
    requires OpenedAs(Run(steps).openers[step.opener].list, step.result)
    ensures Mains(step.result) == []
  {
    hide Run, Submitted, Mains, OpenedAs;
    OpenersKeepTheirLists(steps);
    OpeningKeepsMains(Run(steps).openers[step.opener].list, step.result);
  }

  lemma Always(steps: seq<Step<List>>, step: Step<List>)
    requires step.Submit? || step.Take?
    ensures Enabled(Run(steps), step)
  {
  }

  /** Every list drawn up to moment i has layers whose differences fit 32 bits. */
  ghost predicate AllFit(states: seq<Loop>, i: nat)
    requires i < |states|
  {
    forall j :: 0 < j <= i ==> states[j].preparing || Fits(states[j].mlist)
  }

  /** In every run, however the openers interleave: at every moment the list holds exactly the main
      materials it started with, and whenever a frame is drawn it is in layer order, as long as the
      differences of the layers drawn have fit 32 bits. */
  lemma {:induction false} SameMainsInOrder(mlist: List, states: seq<Loop>, events: seq<Event>, i: nat)
    requires Frames(mlist, states, events) && i <= |events|
    requires Sorted(mlist)
    ensures Inv(mlist, states[i], AllFit(states, i))
    ensures multiset(Mains(states[i].mlist)) == multiset(Mains(mlist))
    ensures AllFit(states, i) && !states[i].preparing ==> Sorted(states[i].mlist)
  {
    hide Mains, Sorted, Fits;
    if i > 0 {
      SameMainsInOrder(mlist, states, events, i - 1);
      EventKeepsInv(mlist, states[i - 1], events[i - 1], states[i], AllFit(states, i - 1));
      OneMoreFits(states, i);
    }
  }

  lemma OneMoreFits(states: seq<Loop>, i: nat)
    requires 0 < i < |states|
    ensures AllFit(states, i) <==> AllFit(states, i - 1) && (states[i].preparing || Fits(states[i].mlist))
  {
  }

  // ---- What becomes of additions

  /** The list that an event adds, if it adds any. */
  function AddedBy(s: Loop, e: Event): seq<List> {
    match e
    case Commands(cmds, xRatio, yRatio) =>
      var added := Batch(s.mlist, cmds, xRatio, yRatio).added;
      if added == [] then [] else [added]
    case _ => []
  }

  /** The lists that the first i events add, batch by batch. */
  function AddedSoFar(states: seq<Loop>, events: seq<Event>, i: nat): seq<List>
    requires i <= |events| && |states| == |events| + 1
  {
    if i == 0 then [] else AddedSoFar(states, events, i - 1) + AddedBy(states[i - 1], events[i - 1])
  }

  lemma EventSubmits(s: Loop, e: Event, s': Loop)
    requires Happens(s, e, s')
    ensures Submitted(s'.steps) == Submitted(s.steps) + AddedBy(s, e)
  {
    hide Batch, Run, Prepared, Enabled, Submitted, OpenedAs;
    match e
    case Commands(cmds, xRatio, yRatio) => LastStep(s.steps, Submit(Batch(s.mlist, cmds, xRatio, yRatio).added));
    case Deliver => LastStep(s.steps, Take);
    case Opening(step) => LastStep(s.steps, step);
  }

  /** A delivery empties the slot and adds to the list what was in it, no more and no less. */
  lemma DeliveryArrives(s: Loop, s': Loop)
    requires Happens(s, Deliver, s')
    ensures var before, after := Run(s.steps), Run(s'.steps);
            && after.delivered == before.delivered + before.Pending() && after.slot == 0
            && multiset(s'.mlist) == multiset(s.mlist + Arrived(s.steps).Materials())
  {
    hide Run, Submitted, Possible, Fits, Sorted;
    LastStep(s.steps, Take);
  }

  /** In every run each batch that adds materials is given to an opener of its own, in order. */
  lemma {:induction false} AdditionsAreSubmitted(mlist: List, states: seq<Loop>, events: seq<Event>, i: nat)
    requires Frames(mlist, states, events) && i <= |events|
    ensures Submitted(states[i].steps) == AddedSoFar(states, events, i)
    ensures |Run(states[i].steps).openers| == |AddedSoFar(states, events, i)|
    ensures forall k :: 0 <= k < |AddedSoFar(states, events, i)| ==>
              Run(states[i].steps).openers[k].list == AddedSoFar(states, events, i)[k]
  {
    hide Run, AddedBy, Happens;
    OpenersKeepTheirLists(states[i].steps);
    if i > 0 {
      AdditionsAreSubmitted(mlist, states, events, i - 1);
      EventSubmits(states[i - 1], events[i - 1], states[i]);
    }
  }
}
