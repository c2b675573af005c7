/** Which frame of an animated image is shown at a time: the conversion of the decoder's time
    stamps to display times, in place, and the walk that follows the output clock. */
module GifTiming {
  import opened Products
  import RingArith

  /** A display time: milliseconds, or what the division by zero for a single frame gives. A time
      that is infinite or undefined is never seen to be over; a negative infinite one always is. */
  datatype Time = Ms(ms: real) | Endless | Never

  function Length(t: Time): real {
    if t.Ms? then t.ms else 0.0
  }

  ghost predicate Finite(d: seq<Time>) {
    forall i :: 0 <= i < |d| ==> d[i].Ms?
  }

  // ---- Timeline: frame k, counted over all cycles, is shown from its start to its end

  ghost function Start(d: seq<Time>, k: nat): real
    requires |d| > 0
  {
    if k == 0 then 0.0 else Start(d, k - 1) + Length(d[(k - 1) % |d|])
  }

  ghost function End(d: seq<Time>, k: nat): real
    requires |d| > 0
  {
    Start(d, k) + Length(d[k % |d|])
  }

  /** Frame k is not over before ts. */
  ghost predicate Lasts(d: seq<Time>, k: nat, ts: real)
    requires |d| > 0
  {
    match d[k % |d|]
    case Ms(_) => End(d, k) >= ts
    case Endless => true
    case Never => false
  }

  lemma EndIsNextStart(d: seq<Time>, k: nat)
    requires |d| > 0
    ensures Start(d, k + 1) == End(d, k)
  {
  }

  ghost function Cycle(d: seq<Time>): real
    requires |d| > 0
  {
    Start(d, |d|)
  }

  /** k is the first frame, from the given one on, that ends at ts or later. */
  ghost predicate IsFirst(d: seq<Time>, from: nat, ts: real, k: nat)
    requires |d| > 0
  {
    && from <= k && Lasts(d, k, ts)
    && forall j :: from <= j < k ==> !Lasts(d, j, ts)
  }

  /** From the given frame on some frame ends at ts or later, so the walk ends. */
  ghost predicate Reaches(d: seq<Time>, from: nat, ts: real)
    requires |d| > 0
  {
    exists k :: k >= from && Lasts(d, k, ts)
  }

  lemma OneMoreCycle(k: nat, n: nat)
    requires n > 0
    ensures (k + n) % n == k % n
  {
    assert (k / n + 1) * n == k / n * n + n;
    RingArith.QuotientUnique(n, k / n + 1, k % n, (k + n) / n, (k + n) % n);
  }

  lemma {:induction false} NextCycle(d: seq<Time>, k: nat)
    requires |d| > 0
    ensures Start(d, k + |d|) == Start(d, k) + Cycle(d)
  {
    if k > 0 {
      NextCycle(d, k - 1);
      OneMoreCycle(k - 1, |d|);
      assert k + |d| - 1 == k - 1 + |d|;
    }
  }

  lemma {:induction false} LaterCycle(d: seq<Time>, k: nat, q: nat)
    requires |d| > 0
    ensures Start(d, k + RingArith.Mul(q, |d|)) == Start(d, k) + Cycles(d, q)
  {
    hide Start, Cycle;
    if q > 0 {
      LaterCycle(d, k, q - 1);
      var m := k + RingArith.Mul(q - 1, |d|);
      assert k + RingArith.Mul(q, |d|) == m + |d|;
      NextCycle(d, m);
    }
  }

  /** q whole cycles. */
  ghost function Cycles(d: seq<Time>, q: nat): real
    requires |d| > 0
  {
    if q == 0 then 0.0 else Cycles(d, q - 1) + Cycle(d)
  }

  lemma {:induction false} CyclesIsProduct(d: seq<Time>, q: nat)
    requires |d| > 0
    ensures Cycles(d, q) == (q as real) * Cycle(d)
  {
    hide Cycle;
    if q > 0 {
      CyclesIsProduct(d, q - 1);
      OneMore((q - 1) as real, Cycle(d));
    }
  }

  lemma OneMore(x: real, c: real)
    ensures (x + 1.0) * c == x * c + c
  {
  }

  // ---- The walk arrives exactly when a whole cycle takes time

  lemma Arrives(d: seq<Time>, k: nat, ts: real)
    requires |d| > 0 && Finite(d) && Cycle(d) > 0.0
    ensures Reaches(d, k, ts)
  {
    hide Start, Cycle, End;
    var q := Enough(ts - End(d, k), Cycle(d));
    CyclesIsProduct(d, q);
    LaterCycle(d, k + 1, q);
    var goal := k + RingArith.Mul(q, |d|);
    EndIsNextStart(d, k);
    EndIsNextStart(d, goal);
    assert goal + 1 == k + 1 + RingArith.Mul(q, |d|);
    assert Lasts(d, goal, ts);
  }

  lemma Enough(gap: real, c: real) returns (q: nat)
    requires c > 0.0
    ensures (q as real) * c >= gap
  {
    var need := gap / c;
    q := if need <= 0.0 then 0 else need.Floor + 1;
    Scaled(need, q as real, c);
  }

  lemma {:induction false} Bounded(d: seq<Time>, k: nat, top: real)
    requires |d| > 0 && Cycle(d) <= 0.0
    requires forall j :: 0 <= j <= |d| ==> Start(d, j) <= top
    ensures Start(d, k) <= top
  {
    if k > |d| {
      Bounded(d, k - |d|, top);
      NextCycle(d, k - |d|);
    }
  }

  lemma {:induction false} Highest(d: seq<Time>, n: nat) returns (top: real)
    requires |d| > 0
    ensures forall j :: 0 <= j <= n ==> Start(d, j) <= top
  {
    if n == 0 {
      top := 0.0;
    } else {
      var t := Highest(d, n - 1);
      top := if t >= Start(d, n) then t else Start(d, n);
    }
  }

  ghost predicate Always(d: seq<Time>)
    requires |d| > 0
  {
    forall k, ts :: Reaches(d, k, ts)
  }

  /** The walk ends for every time, from every frame, exactly when the cycle is longer than
      nothing: at or below zero there is a time it never reaches. */
  lemma ArrivesIff(d: seq<Time>)
    requires |d| > 0 && Finite(d)
    ensures Always(d) <==> Cycle(d) > 0.0
    ensures Cycle(d) <= 0.0 ==> exists ts :: !Reaches(d, 0, ts)
  {
    if Cycle(d) > 0.0 {
      forall k: nat, ts: real ensures Reaches(d, k, ts) {
        Arrives(d, k, ts);
      }
    } else {
      var top := Highest(d, |d|);
      var late := top + 1.0;
      forall k: nat ensures !Lasts(d, k, late) {
        EndIsNextStart(d, k);
        Bounded(d, k + 1, top);
      }
      assert !Reaches(d, 0, late);
    }
  }

  /** A single frame is shown for ever, or the walk never ends. */
  lemma SingleFrame(d: seq<Time>)
    requires |d| == 1 && !d[0].Ms?
    ensures Always(d) <==> d[0].Endless?
    ensures d[0].Endless? ==> forall ts :: IsFirst(d, 0, ts, 0)
  {
    if d[0].Endless? {
      forall k: nat, ts: real ensures Reaches(d, k, ts) {
        assert Lasts(d, k, ts);
      }
    } else {
      assert !Reaches(d, 0, 0.0);
    }
  }

  // ---- Path independence

  ghost function Latest(asked: seq<real>): real
    requires asked != []
  {
    var last := asked[|asked| - 1];
    if |asked| == 1 then last
    else
      var m := Latest(asked[..|asked| - 1]);
      if m >= last then m else last
  }

  /** Walking on from where an earlier time led gives what the later of the two alone gives. */
  lemma WalkOn(d: seq<Time>, before: real, k: nat, ts: real, k': nat)
    requires |d| > 0 && IsFirst(d, 0, before, k) && IsFirst(d, k, ts, k')
    ensures IsFirst(d, 0, if before >= ts then before else ts, k')
  {
    hide Lasts;
    if before >= ts {
      LastsLess(d, k, ts, before);
    } else {
      forall j | 0 <= j < k ensures !Lasts(d, j, ts) {
        if Lasts(d, j, ts) {
          LastsLess(d, j, before, ts);
        }
      }
    }
  }

  lemma LastsLess(d: seq<Time>, k: nat, ts: real, later: real)
    requires |d| > 0 && ts <= later && Lasts(d, k, later)
    ensures Lasts(d, k, ts)
  {
  }

  lemma LatestSoFar(asked: seq<real>, ts: real)
    ensures Latest(asked + [ts]) == if asked != [] && Latest(asked) >= ts then Latest(asked) else ts
  {
    assert (asked + [ts])[..|asked|] == asked;
  }

  /** When the times never go back, the latest is the last one. */
  lemma {:induction false} LatestIsLast(asked: seq<real>)
    requires asked != [] && forall i, j :: 0 <= i < j < |asked| ==> asked[i] <= asked[j]
    ensures Latest(asked) == asked[|asked| - 1]
  {
    if |asked| > 1 {
      LatestIsLast(asked[..|asked| - 1]);
    }
  }

  /** Two players of one animation whose clocks never went back show the same frame at the same
      time, whatever they were asked before. */
  lemma PathIndependent(d: seq<Time>, a: seq<real>, b: seq<real>, k: nat, k': nat)
    requires |d| > 0 && a != [] && b != [] && a[|a| - 1] == b[|b| - 1]
    requires forall i, j :: 0 <= i < j < |a| ==> a[i] <= a[j]
    requires forall i, j :: 0 <= i < j < |b| ==> b[i] <= b[j]
    requires IsFirst(d, 0, Latest(a), k) && IsFirst(d, 0, Latest(b), k')
    ensures k == k'
  {
    hide Start, End;
    LatestIsLast(a);
    LatestIsLast(b);
  }

  // ---- The conversion

  /** The mean gap, which the first frame gets; with a single frame the code divides by zero. */
  function MeanGap(last: real, gaps: nat): Time {
    if gaps > 0 then Ms(last / gaps as real * 1000.0) else if last >= 0.0 then Endless else Never
  }

  /** Display times: the gap to the frame before; for the first frame the mean gap. */
  ghost function Converted(t: seq<real>): (d: seq<Time>)
    requires |t| >= 1
    ensures |d| == |t|
    ensures |t| > 1 ==> Finite(d)
  {
    seq(|t|, i requires 0 <= i < |t| =>
      if i == 0 then MeanGap(t[|t| - 1], |t| - 1) else Ms((t[i] - t[i - 1]) * 1000.0))
  }

  /** The first frame is shown for the mean gap, in ms; each other one for the gap before it. */
  lemma ConvertedGaps(t: seq<real>, k: nat)
    requires |t| >= 2 && k < |t|
    ensures Converted(t)[0].Ms? && Converted(t)[0].ms * (|t| - 1) as real == t[|t| - 1] * 1000.0
    ensures k > 0 ==> Converted(t)[k] == Ms((t[k] - t[k - 1]) * 1000.0)
  {
    var n := (|t| - 1) as real;
    assert t[|t| - 1] / n * n == t[|t| - 1];
    Thousandfold(t[|t| - 1] / n, n);
  }

  lemma Thousandfold(x: real, n: real)
    ensures x * 1000.0 * n == x * n * 1000.0
  {
  }

  /** The gaps telescope: frame k of the first cycle ends as long after the first frame's end as
      its time stamp is after the first one. */
  lemma {:induction false} Telescopes(t: seq<real>, k: nat)
    requires |t| >= 1 && k < |t|
    ensures End(Converted(t), k) == Length(Converted(t)[0]) + (t[k] - t[0]) * 1000.0
  {
    RingArith.QuotientUnique(|t|, 0, k, k / |t|, k % |t|);
    if k == 0 {
      assert Start(Converted(t), 0) == 0.0;
    } else {
      Telescopes(t, k - 1);
      EndIsNextStart(Converted(t), k - 1);
    }
  }

  /** n stamps give an animation that plays at every time exactly when n times the last one
      exceeds n - 1 times the first; a single frame may also have stamp zero. */
  lemma ConvertedArrivesIff(t: seq<real>)
    requires |t| >= 1
    ensures Always(Converted(t)) <==>
            || t[|t| - 1] * (|t| as real) > t[0] * ((|t| - 1) as real)
            || (|t| == 1 && t[0] == 0.0)
  {
    if |t| == 1 {
      SingleFrame(Converted(t));
    } else {
      ArrivesIff(Converted(t));
      Telescopes(t, |t| - 1);
      EndIsNextStart(Converted(t), |t| - 1);
      LastGap(t[0], t[|t| - 1], (|t| - 1) as real);
    }
  }

  /** Two frames, both stamped zero: a time the walk never reaches. */
  lemma StillStampsNeverEnd()
    ensures exists ts :: !Reaches(Converted([0.0, 0.0]), 0, ts)
  {
    var t := [0.0, 0.0];
    ArrivesIff(Converted(t));
    ConvertedArrivesIff(t);
  }

  lemma LastGap(first: real, last: real, m: real)
    requires m > 0.0
    ensures last / m * 1000.0 + (last - first) * 1000.0 > 0.0 <==> last * (m + 1.0) > first * m
  {
    var x := last / m + last - first;
    assert x * m == last / m * m + last * m - first * m;
    SameSign(x, m);
  }

  lemma SameSign(x: real, m: real)
    requires m > 0.0
    ensures x > 0.0 <==> x * m > 0.0
  {
  }

  // ---- The player

  lemma StartAtZero(d: seq<Time>)
    requires |d| > 0
    ensures Start(d, 0) == 0.0
  {
  }

  /** cts + d < ts, with the outcomes of floating-point comparison for times that are not finite. */
  predicate Over(cts: real, d: Time, ts: real) {
    d.Never? || (d.Ms? && cts + d.ms < ts)
  }

  lemma OverIff(d: seq<Time>, k: nat, ts: real)
    requires |d| > 0
    ensures Over(Start(d, k), d[k % |d|], ts) <==> !Lasts(d, k, ts)
  {
  }

  lemma NextStart(d: seq<Time>, k: nat)
    requires |d| > 0
    ensures Start(d, k + 1) == Start(d, k) + Length(d[k % |d|])
  {
  }

  /** The loop from the last stamp back to the first. */
  method ConvertTimes(times: array<Time>)
    requires times.Length >= 1 && Finite(times[..])
    modifies times
    ensures times[..] == Converted(Stamps(old(times[..])))
  {
    hide Finite;
    var n := times.Length;
    FiniteAt(times[..]);
    var timebase := MeanGap(times[n - 1].ms, n - 1);
    ghost var t := Stamps(times[..]);
    ghost var d := Converted(t);
    var i := n - 1;
    while i >= 0
      invariant -1 <= i < n
      invariant forall k :: 0 <= k <= i ==> times[k] == Ms(t[k])
      invariant forall k :: i < k < n ==> times[k] == d[k]
    {
      if i > 0 {
        times[i] := Ms((times[i].ms - times[i - 1].ms) * 1000.0);
      } else {
        times[i] := timebase;
      }
      i := i - 1;
    }
    assert times[..] == d;
  }

  class Animation {
    const fpsTimes: array<Time>
    var findex: nat
    var cts: real
    /** The times asked for so far. */
    ghost var asked: seq<real>

    ghost predicate Valid()
      reads this, fpsTimes
    {
      && fpsTimes.Length > 0
      && cts == Start(fpsTimes[..], findex)
      && if asked == [] then findex == 0 else IsFirst(fpsTimes[..], 0, Latest(asked), findex)
    }

    /** Opens an animation with the decoder's time stamps, which are converted from the last one
        back to the first in the place where they stand. */
    constructor (times: array<Time>)
      requires times.Length >= 1 && Finite(times[..])
      modifies times
      ensures Valid() && asked == [] && fpsTimes == times
      ensures times[..] == Converted(Stamps(old(times[..])))
    {
      fpsTimes, findex, cts, asked := times, 0, 0.0, [];
      new;
      hide Start, Finite, Latest, IsFirst;
      ConvertTimes(times);
      StartAtZero(times[..]);
    }

    /** Shows the frame for ts. Whatever was asked before, it is the first frame that ends at or
        after the latest time asked for so far. */
    method ReadNextFrame(ts: real) returns (cur: nat)
      requires Valid() && Reaches(fpsTimes[..], findex, ts)
      modifies this
      ensures Valid() && asked == old(asked) + [ts]
      ensures cur == findex % fpsTimes.Length && IsFirst(fpsTimes[..], 0, Latest(asked), findex)
    {
      hide Start, Latest, Lasts, Over;
      ghost var d := fpsTimes[..];
      cur := findex % fpsTimes.Length;
      ghost var goal :| goal >= findex && Lasts(d, goal, ts);
      while Over(cts, fpsTimes[cur], ts)
        invariant cur == findex % fpsTimes.Length && cts == Start(d, findex)
        invariant old(findex) <= findex <= goal
        invariant forall j :: old(findex) <= j < findex ==> !Lasts(d, j, ts)
        invariant asked == old(asked)
        decreases goal - findex
      {
        OverIff(d, findex, ts);
        NextStart(d, findex);
        cts := cts + Length(fpsTimes[cur]);
        findex := findex + 1;
        cur := findex % fpsTimes.Length;
      }
      OverIff(d, findex, ts);
      assert IsFirst(d, old(findex), ts, findex);
      LatestSoFar(asked, ts);
      if asked != [] {
        WalkOn(d, Latest(asked), old(findex), ts, findex);
      }
      asked := asked + [ts];
    }
  }

  /** The decoder's stamps as numbers. */
  ghost function Stamps(times: seq<Time>): (t: seq<real>)
    ensures |t| == |times|
  {
    seq(|times|, i requires 0 <= i < |times| => Length(times[i]))
  }

  lemma FiniteAt(times: seq<Time>)
    requires Finite(times)
    ensures forall k :: 0 <= k < |times| ==> times[k] == Ms(Stamps(times)[k])
  {
  }
}
