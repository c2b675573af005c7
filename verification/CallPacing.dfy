/** The reading accounts over many calls. cache_video_data starts its accounts at zero each time
    it is called, and the decoder thread calls it again and again, so the fraction a call ends on
    is forgotten. */
module CallPacing {
  import opened Pacing

  /** One sequence of read sizes for each call. */
  function Frames(calls: seq<seq<int>>): nat {
    if calls == [] then 0 else Frames(calls[..|calls| - 1]) + |calls[|calls| - 1]|
  }

  function Total(calls: seq<seq<int>>): int {
    if calls == [] then 0 else Total(calls[..|calls| - 1]) + Sum(calls[|calls| - 1])
  }

  ghost predicate AllReads(perFrame: real, calls: seq<seq<int>>) {
    forall i :: 0 <= i < |calls| ==> Reads(perFrame, calls[i])
  }

  /** Bytes taken beyond the exact amount. */
  ghost function Ahead(perFrame: real, calls: seq<seq<int>>): real {
    Total(calls) as real - Exact(perFrame, Frames(calls))
  }

  lemma {:induction false} ExactAdds(perFrame: real, j: nat, k: nat)
    ensures Exact(perFrame, j + k) == Exact(perFrame, j) + Exact(perFrame, k)
  {
    if k > 0 {
      ExactAdds(perFrame, j, k - 1);
    }
  }

  /** One more call. */
  lemma OneMoreCall(perFrame: real, calls: seq<seq<int>>, sizes: seq<int>)
    ensures Total(calls + [sizes]) == Total(calls) + Sum(sizes)
    ensures Frames(calls + [sizes]) == Frames(calls) + |sizes|
    ensures Ahead(perFrame, calls + [sizes])
            == Ahead(perFrame, calls) + (Sum(sizes) as real - Exact(perFrame, |sizes|))
  {
    assert (calls + [sizes])[..|calls|] == calls;
    ExactAdds(perFrame, Frames(calls), |sizes|);
  }

  // ---- Any reads

  /** What the calls add up to: each may end a byte ahead, and each may fall AUDIO_DELTA bytes and
      a fraction behind. */
  lemma {:induction false} DriftOverCalls(perFrame: real, calls: seq<seq<int>>)
    requires perFrame > 0.0 && AllReads(perFrame, calls)
    ensures -((AUDIO_DELTA + 1) * |calls|) as real <= Ahead(perFrame, calls) <= |calls| as real
  {
    if calls != [] {
      var n := |calls| - 1;
      var last := calls[n];
      DriftOverCalls(perFrame, calls[..n]);
      assert calls == calls[..n] + [last];
      OneMoreCall(perFrame, calls[..n], last);
      NoDrift(perFrame, last);
      FloorBounds(Exact(perFrame, |last|));
    }
  }

  /** The same call m times. */
  function Repeated(sizes: seq<int>, m: nat): (r: seq<seq<int>>)
    ensures |r| == m && forall i :: 0 <= i < m ==> r[i] == sizes
  {
    if m == 0 then [] else Repeated(sizes, m - 1) + [sizes]
  }

  lemma {:induction false} RepeatedAhead(perFrame: real, sizes: seq<int>, m: nat)
    ensures Ahead(perFrame, Repeated(sizes, m)) == Exact(Sum(sizes) as real - Exact(perFrame, |sizes|), m)
  {
    hide Sum, Total, Frames, Wanted;
    if m > 0 {
      RepeatedAhead(perFrame, sizes, m - 1);
      OneMoreCall(perFrame, Repeated(sizes, m - 1), sizes);
    } else {
      NoCalls(perFrame);
    }
  }

  lemma NoCalls(perFrame: real)
    ensures Ahead(perFrame, []) == 0.0
  {
  }

  lemma {:induction false} RepeatedTotals(sizes: seq<int>, m: nat)
    ensures Frames(Repeated(sizes, m)) == m * |sizes| && Total(Repeated(sizes, m)) == m * Sum(sizes)
  {
    hide Sum, Exact;
    if m > 0 {
      RepeatedTotals(sizes, m - 1);
      OneMoreCall(0.0, Repeated(sizes, m - 1), sizes);
      OneMoreTime(m, |sizes|);
      OneMoreTime(m, Sum(sizes));
    }
  }

  lemma OneMoreTime(m: nat, x: int)
    requires m > 0
    ensures m * x == (m - 1) * x + x
  {
  }

  lemma SumOfOne(size: int)
    ensures Sum([size]) == size
  {
    assert [size][..0] == [];
  }

  /** The bytes a call of one frame asks for. */
  function FirstWanted(perFrame: real): int {
    Wanted(perFrame, 0, 0)
  }

  lemma OneFrameCall(perFrame: real, short: nat)
    requires perFrame >= 2.0 && short <= AUDIO_DELTA
    ensures FirstWanted(perFrame) == EvenUp(perFrame.Floor)
    ensures Reads(perFrame, [FirstWanted(perFrame) - short])
    ensures Exact(perFrame, 1) == perFrame
  {
    var size := FirstWanted(perFrame) - short;
    assert [size][..0] == [];
    assert Exact(perFrame, 1) == Exact(perFrame, 0) + perFrame;
    assert Reads(perFrame, []);
  }

  /** Short reads add up: when every call reads one frame and gets AUDIO_DELTA bytes less than it
      asks for, which each call takes for a full read, m calls end at least m times 63 bytes
      behind. */
  lemma ShortfallAddsUp(perFrame: real, m: nat)
    requires perFrame >= 2.0
    ensures var calls := Repeated([FirstWanted(perFrame) - AUDIO_DELTA], m);
            && AllReads(perFrame, calls) && |calls| == Frames(calls) == m
            && Ahead(perFrame, calls) <= -((AUDIO_DELTA - 1) * m) as real
  {
    hide Ahead, Exact, Frames, Total, Repeated, FirstWanted, Reads, Sum;
    var size := FirstWanted(perFrame) - AUDIO_DELTA;
    OneFrameCall(perFrame, AUDIO_DELTA);
    SumOfOne(size);
    RepeatedAhead(perFrame, [size], m);
    RepeatedTotals([size], m);
    FloorBounds(perFrame);
    ExactMono(size as real - perFrame, -(AUDIO_DELTA - 1) as real, m);
    ExactOfWhole(-(AUDIO_DELTA - 1), m);
  }

  lemma {:induction false} ExactMono(x: real, y: real, m: nat)
    requires x <= y
    ensures Exact(x, m) <= Exact(y, m)
  {
    if m > 0 {
      ExactMono(x, y, m - 1);
    }
  }

  lemma {:induction false} ExactOfWhole(n: int, m: nat)
    ensures Exact(n as real, m) == (n * m) as real
  {
    if m > 0 {
      ExactOfWhole(n, m - 1);
      assert n * m == n * (m - 1) + n;
    }
  }

  // ---- Full reads

  /** A call of n full reads takes the exact amount, rounded down to a byte and up to a sample. */
  lemma {:induction false} FullCall(perFrame: real, n: nat)
    requires perFrame >= 0.0
    ensures Sum(FullReads(perFrame, n)) == EvenUp(Exact(perFrame, n).Floor)
  {
    hide Wanted;
    if n > 0 {
      FullCall(perFrame, n - 1);
      var before := FullReads(perFrame, n - 1);
      assert FullReads(perFrame, n)[..n - 1] == before;
      WantedAfter(perFrame, n);
    }
  }

  lemma WantedAfter(perFrame: real, n: nat)
    requires perFrame >= 0.0 && n > 0
    ensures var sum := EvenUp(Exact(perFrame, n - 1).Floor);
            sum + Wanted(perFrame, n - 1, sum) == EvenUp(Exact(perFrame, n).Floor)
  {
    ExactGrows(perFrame, n - 1);
    FloorMono(Exact(perFrame, n - 1), Exact(perFrame, n));
  }

  /** The calls of full reads with these frame counts. */
  ghost function FullCalls(perFrame: real, counts: seq<nat>): (r: seq<seq<int>>)
    ensures |r| == |counts|
  {
    if counts == [] then []
    else FullCalls(perFrame, counts[..|counts| - 1]) + [FullReads(perFrame, counts[|counts| - 1])]
  }

  ghost predicate Near(perFrame: real, counts: seq<nat>, bound: real) {
    -bound <= Ahead(perFrame, FullCalls(perFrame, counts)) <= bound
  }

  ghost predicate AlwaysNear(perFrame: real, bound: real) {
    forall counts: seq<nat> :: Near(perFrame, counts, bound)
  }

  /** Some bound holds for any number of calls of any number of frames. */
  ghost predicate Steady(perFrame: real) {
    exists bound :: AlwaysNear(perFrame, bound)
  }

  predicate EvenWhole(x: real) {
    x == x.Floor as real && x.Floor % 2 == 0
  }

  lemma {:induction false} EvenWholeExact(perFrame: real, k: nat)
    requires EvenWhole(perFrame)
    ensures EvenWhole(Exact(perFrame, k))
  {
    if k > 0 {
      EvenWholeExact(perFrame, k - 1);
      FloorIs(Exact(perFrame, k), Exact(perFrame, k - 1).Floor + perFrame.Floor);
    }
  }

  lemma {:induction false} EvenWholeIsSteady(perFrame: real, counts: seq<nat>)
    requires EvenWhole(perFrame) && perFrame >= 0.0
    ensures Ahead(perFrame, FullCalls(perFrame, counts)) == 0.0
  {
    if counts != [] {
      var n := |counts| - 1;
      EvenWholeIsSteady(perFrame, counts[..n]);
      OneMoreCall(perFrame, FullCalls(perFrame, counts[..n]), FullReads(perFrame, counts[n]));
      FullCall(perFrame, counts[n]);
      EvenWholeExact(perFrame, counts[n]);
    }
  }

  /** m calls of one frame. */
  function Ones(m: nat): (r: seq<nat>)
    ensures |r| == m
  {
    if m == 0 then [] else Ones(m - 1) + [1]
  }

  lemma {:induction false} OnesAreRepeated(perFrame: real, m: nat)
    ensures FullCalls(perFrame, Ones(m)) == Repeated(FullReads(perFrame, 1), m)
  {
    hide FullReads;
    if m > 0 {
      OnesAreRepeated(perFrame, m - 1);
      assert Ones(m)[..m - 1] == Ones(m - 1);
    }
  }

  /** Each call of one frame is off by the same amount, so m of them are off by m times that. */
  lemma OnesAhead(perFrame: real, m: nat)
    requires perFrame >= 0.0
    ensures var calls := FullCalls(perFrame, Ones(m));
            && Ahead(perFrame, calls) == Exact(EvenUp(perFrame.Floor) as real - perFrame, m)
            && Frames(calls) == m && Total(calls) == m * EvenUp(perFrame.Floor)
  {
    hide FullReads, Ahead, Frames, Total, Repeated, EvenUp;
    OnesAreRepeated(perFrame, m);
    RepeatedAhead(perFrame, FullReads(perFrame, 1), m);
    RepeatedTotals(FullReads(perFrame, 1), m);
    FullCall(perFrame, 1);
    assert Exact(perFrame, 1) == Exact(perFrame, 0) + perFrame;
  }

  lemma {:induction false} ExactOfOpposite(x: real, m: nat)
    ensures Exact(-x, m) == -Exact(x, m)
  {
    if m > 0 {
      ExactOfOpposite(x, m - 1);
    }
  }

  lemma OffIff(perFrame: real)
    ensures EvenUp(perFrame.Floor) as real == perFrame <==> EvenWhole(perFrame)
  {
    FloorBounds(perFrame);
  }

  /** A rate that is not a whole number of samples passes every bound. */
  lemma PassesEveryBound(perFrame: real, bound: real) returns (m: nat)
    requires perFrame >= 0.0 && !EvenWhole(perFrame)
    ensures !Near(perFrame, Ones(m), bound)
  {
    hide Ahead, Exact, FullCalls, EvenUp, EvenWhole, Ones;
    OffIff(perFrame);
    var gap := EvenUp(perFrame.Floor) as real - perFrame;
    var far := if bound > 0.0 then bound else 1.0;
    if gap > 0.0 {
      m := Archimedes(gap, far);
    } else {
      m := Archimedes(-gap, far);
      ExactOfOpposite(gap, m);
    }
    OnesAhead(perFrame, m);
  }

  /** Full reads stay within a fixed bound over every sequence of calls exactly when a frame is a
      whole number of 16-bit samples. */
  lemma SteadyIff(perFrame: real)
    requires perFrame >= 2.0
    ensures Steady(perFrame) <==> EvenWhole(perFrame)
  {
    if EvenWhole(perFrame) {
      forall counts: seq<nat> ensures Near(perFrame, counts, 0.0) {
        EvenWholeIsSteady(perFrame, counts);
      }
      assert AlwaysNear(perFrame, 0.0);
    } else if Steady(perFrame) {
      var bound :| AlwaysNear(perFrame, bound);
      var m := PassesEveryBound(perFrame, bound);
      assert false;
    }
  }

  // ---- Inputs

  /** 16 kHz mono at 24 frames a second: three calls of one frame take 4002 bytes for 4000. */
  lemma DriftsAhead()
    ensures var perFrame := 32000.0 / 24.0; var calls := FullCalls(perFrame, Ones(3));
            Total(calls) == 4002 && Frames(calls) == 3 && Exact(perFrame, 3).Floor + 1 == 4001
  {
    OnesAhead(32000.0 / 24.0, 3);
    FloorIs(32000.0 / 24.0, 1333);
    ExactIsProduct(32000.0 / 24.0, 3);
  }

  /** At 30 frames a second 300 calls of one frame take 319800 bytes for 320000. */
  lemma DriftsBehind()
    ensures var perFrame := 32000.0 / 30.0; var calls := FullCalls(perFrame, Ones(300));
            && Total(calls) == 319800 && Frames(calls) == 300
            && Exact(perFrame, 300) == 320000.0 && Total(calls) < 320000 - AUDIO_DELTA
  {
    OnesAhead(32000.0 / 30.0, 300);
    FloorIs(32000.0 / 30.0, 1066);
    ExactIsProduct(32000.0 / 30.0, 300);
  }
}
