/** How many bytes of audio go with each frame when a frame lasts a fractional number of bytes.
    Doubles are reals; a conversion to int truncates toward zero. */
module Pacing {
  import opened Products

  const AUDIO_DELTA := 64

  function Trunc(x: real): int {
    if x >= 0.0 then x.Floor else -(-x).Floor
  }

  /** if (n & 1) n += 1 */
  function EvenUp(n: int): (r: int)
    ensures r % 2 == 0 && n <= r <= n + 1
  {
    if n % 2 == 1 then n + 1 else n
  }

  lemma FloorBounds(x: real)
    ensures x.Floor as real <= x < x.Floor as real + 1.0
  {
  }

  lemma FloorIs(x: real, n: int)
    requires n as real <= x < n as real + 1.0
    ensures x.Floor == n
  {
  }

  lemma FloorMono(x: real, y: real)
    requires x <= y
    ensures x.Floor <= y.Floor
  {
  }

  /** k frames of perFrame bytes, added up one frame at a time. */
  function Exact(perFrame: real, k: nat): real {
    if k == 0 then 0.0 else Exact(perFrame, k - 1) + perFrame
  }

  function Times(perFrame: real, k: nat): real {
    perFrame * k as real
  }

  lemma {:induction false} ExactIsProduct(perFrame: real, k: nat)
    ensures Exact(perFrame, k) == Times(perFrame, k)
  {
    if k > 0 {
      ExactIsProduct(perFrame, k - 1);
      var n := (k - 1) as real;
      assert k as real == n + 1.0;
      assert perFrame * (n + 1.0) == perFrame * n + perFrame;
    }
  }

  lemma {:induction false} ExactGrows(perFrame: real, k: nat)
    requires perFrame >= 0.0
    ensures Exact(perFrame, k) >= 0.0
  {
    if k > 0 {
      ExactGrows(perFrame, k - 1);
    }
  }

  // ---- Reading: the audio of a frame in cache_video_data

  /** Bytes asked for in frame k (from 0) after taken bytes so far, perFrame bytes a frame. */
  function Wanted(perFrame: real, k: nat, taken: int): int {
    EvenUp(Trunc(Exact(perFrame, k) + perFrame) - taken)
  }

  function Sum(sizes: seq<int>): int {
    if sizes == [] then 0 else Sum(sizes[..|sizes| - 1]) + sizes[|sizes| - 1]
  }

  /** Reads that each return what was asked for, or up to AUDIO_DELTA bytes less. */
  ghost predicate Reads(perFrame: real, sizes: seq<int>)
    decreases sizes
  {
    sizes == [] ||
    (var k := |sizes| - 1;
     var wanted := Wanted(perFrame, k, Sum(sizes[..k]));
     && Reads(perFrame, sizes[..k])
     && wanted > 0
     && wanted - AUDIO_DELTA <= sizes[k] <= wanted)
  }

  /** No drift within one call: whatever the reads returned, the total is never more than a byte
      ahead of the exact amount and never more than AUDIO_DELTA behind it. */
  lemma NoDrift(perFrame: real, sizes: seq<int>)
    requires perFrame > 0.0 && Reads(perFrame, sizes)
    ensures var exact := Exact(perFrame, |sizes|).Floor;
            exact - AUDIO_DELTA <= Sum(sizes) <= exact + 1
  {
    ExactGrows(perFrame, |sizes|);
    if sizes != [] {
      var k := |sizes| - 1;
      assert Exact(perFrame, |sizes|) == Exact(perFrame, k) + perFrame;
    }
  }

  /** With at least two bytes a frame every frame asks for something: a request of 0 would mean
      everything in the buffer. */
  lemma AsksForSomething(perFrame: real, k: nat, taken: int)
    requires perFrame >= 2.0 && taken <= Exact(perFrame, k).Floor + 1
    ensures Wanted(perFrame, k, taken) >= 2
    ensures taken + Wanted(perFrame, k, taken) <= Exact(perFrame, k + 1).Floor + 1
  {
    var x := Exact(perFrame, k);
    ExactGrows(perFrame, k);
    FloorBounds(x);
    FloorMono(x + 2.0, x + perFrame);
    FloorIs(x + 2.0, x.Floor + 2);
  }

  ghost predicate NeverAsksForAll(perFrame: real) {
    forall sizes: seq<int> :: Reads(perFrame, sizes) ==> Wanted(perFrame, |sizes|, Sum(sizes)) > 0
  }

  /** n reads that all return what was asked for. */
  ghost function FullReads(perFrame: real, n: nat): (r: seq<int>)
    ensures |r| == n
  {
    if n == 0 then []
    else
      var before := FullReads(perFrame, n - 1);
      before + [Wanted(perFrame, n - 1, Sum(before))]
  }

  lemma AsksEven(perFrame: real, sizes: seq<int>)
    requires NeverAsksForAll(perFrame) && Reads(perFrame, sizes)
    ensures Wanted(perFrame, |sizes|, Sum(sizes)) >= 2
  {
  }

  lemma {:induction false} FullReadsAreReads(perFrame: real, n: nat)
    requires perFrame > 0.0 && NeverAsksForAll(perFrame)
    ensures Reads(perFrame, FullReads(perFrame, n))
    ensures Sum(FullReads(perFrame, n)) >= 2 * n
  {
    hide Wanted;
    hide NeverAsksForAll;
    var all := FullReads(perFrame, n);
    if n > 0 {
      FullReadsAreReads(perFrame, n - 1);
      var before := FullReads(perFrame, n - 1);
      assert all[..n - 1] == before;
      AsksEven(perFrame, before);
    }
  }

  /** A rate below two bytes a frame falls behind any even amount each frame. */
  lemma {:induction false} SlowRate(perFrame: real, n: nat)
    ensures Exact(perFrame, n) == 2.0 * n as real - Exact(2.0 - perFrame, n)
  {
    if n > 0 {
      SlowRate(perFrame, n - 1);
    }
  }

  /** Adding a positive amount often enough passes any bound. */
  lemma Archimedes(gap: real, bound: real) returns (n: nat)
    requires gap > 0.0 && bound > 0.0
    ensures Exact(gap, n) > bound
  {
    var x := bound / gap;
    n := x.Floor + 1;
    ExactIsProduct(gap, n);
    Divided(bound, gap);
    FloorBounds(x);
    Scaled(x, n as real, gap);
  }

  lemma Divided(x: real, c: real)
    requires c > 0.0
    ensures c * (x / c) == x
  {
  }

  /** At one byte a frame the second frame already asks for nothing. */
  lemma OneByteAFrame()
    ensures Reads(1.0, [2]) && Wanted(1.0, 1, Sum([2])) == 0
  {
    assert [2][..0] == [];
    assert Sum([2]) == Sum([]) + 2;
    assert Exact(1.0, 0) == 0.0 && Exact(1.0, 1) == 1.0;
  }

  lemma FallsBehind(perFrame: real)
    requires 0.0 < perFrame < 2.0
    ensures !NeverAsksForAll(perFrame)
  {
    hide Reads, NeverAsksForAll, Exact, Sum;
    if NeverAsksForAll(perFrame) {
      var n := Archimedes(2.0 - perFrame, 1.0);
      FullReadsAreReads(perFrame, n);
      NoDrift(perFrame, FullReads(perFrame, n));
      FloorBounds(Exact(perFrame, n));
      SlowRate(perFrame, n);
      assert false;
    }
  }

  /** Exactly two bytes a frame are needed. */
  lemma AsksForSomethingIff(perFrame: real)
    requires perFrame > 0.0
    ensures NeverAsksForAll(perFrame) <==> perFrame >= 2.0
  {
    if perFrame >= 2.0 {
      forall sizes: seq<int> | Reads(perFrame, sizes) ensures Wanted(perFrame, |sizes|, Sum(sizes)) > 0 {
        NoDrift(perFrame, sizes);
        AsksForSomething(perFrame, |sizes|, Sum(sizes));
      }
    } else if NeverAsksForAll(perFrame) {
      FallsBehind(perFrame);
      assert false;
    }
  }

  // ---- Writing: the audio of an output frame without main audio

  /** audio_bytes_cur_frame in frame num (from 0) after sent bytes. */
  function CurFrame(perFrame: real, num: nat, sent: int): int {
    EvenUp(Trunc(Times(perFrame, num + 1) - sent as real))
  }

  /** What one frame sends: nothing when less than a sample is due, otherwise the mixer's
      output of half as many samples. */
  function SentAfter(perFrame: real, num: nat, sent: int): int {
    var cur := CurFrame(perFrame, num, sent);
    if cur < 2 then sent else sent + 2 * (cur / 2)
  }

  function Sent(perFrame: real, frames: nat): int {
    if frames == 0 then 0 else SentAfter(perFrame, frames - 1, Sent(perFrame, frames - 1))
  }

  /** Truncation toward zero of what is due, seen from the even amount already sent. */
  lemma DueBytes(x: real, sent: int)
    requires x >= 0.0 && sent <= x.Floor + 1
    ensures if sent <= x.Floor then Trunc(x - sent as real) == x.Floor - sent else -1 <= Trunc(x - sent as real) <= 0
  {
    FloorBounds(x);
    if sent <= x.Floor {
      FloorIs(x - sent as real, x.Floor - sent);
    }
  }

  lemma CurFrameIsExact(perFrame: real, num: nat, sent: int)
    ensures CurFrame(perFrame, num, sent) == EvenUp(Trunc(Exact(perFrame, num + 1) - sent as real))
  {
    hide Times;
    ExactIsProduct(perFrame, num + 1);
  }

  lemma {:induction false} SentIsExact(perFrame: real, frames: nat)
    requires perFrame >= 0.0
    ensures Sent(perFrame, frames) == EvenUp(Exact(perFrame, frames).Floor)
  {
    hide CurFrame;
    hide Trunc;
    if frames > 0 {
      SentIsExact(perFrame, frames - 1);
      var sent := Sent(perFrame, frames - 1);
      CurFrameIsExact(perFrame, frames - 1, sent);
      ExactGrows(perFrame, frames - 1);
      FloorMono(Exact(perFrame, frames - 1), Exact(perFrame, frames));
      DueBytes(Exact(perFrame, frames), sent);
    }
  }

  /** The output never drifts at all: after every frame the total sent is the exact amount,
      rounded down to a byte and up to a sample, for every rate. */
  lemma OutputPacing(perFrame: real, frames: nat)
    requires perFrame >= 0.0
    ensures Sent(perFrame, frames) == EvenUp(Times(perFrame, frames).Floor)
  {
    hide Times;
    SentIsExact(perFrame, frames);
    ExactIsProduct(perFrame, frames);
  }

  /** The main loop's audio accounting over whole frames, without main audio: totals[n] is what
      was sent before frame n. */
  method SendFrames(perFrame: real, frames: nat) returns (totals: seq<int>)
    requires perFrame >= 0.0
    ensures |totals| == frames + 1
    ensures forall n :: 0 <= n <= frames ==> totals[n] == EvenUp(Times(perFrame, n).Floor)
  {
    hide Times, Exact;
    var sentAudioBytes := 0;
    var num := -1;
    totals := [0];
    OutputPacing(perFrame, 0);
    while num + 1 < frames
      invariant -1 <= num < frames && |totals| == num + 2
      invariant sentAudioBytes == totals[num + 1] == Sent(perFrame, num + 1)
      invariant forall n :: 0 <= n <= num + 1 ==> totals[n] == EvenUp(Times(perFrame, n).Floor)
    {
      num := num + 1;
      var cur := Trunc(Times(perFrame, num + 1) - sentAudioBytes as real);
      if cur % 2 == 1 {
        cur := cur + 1;
      }
      if cur >= 2 {
        var mixedSize := 2 * (cur / 2);
        sentAudioBytes := sentAudioBytes + mixedSize;
      }
      totals := totals + [sentAudioBytes];
      OutputPacing(perFrame, num + 1);
    }
  }
}
