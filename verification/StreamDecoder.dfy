/** Reading a network stream: audio out of a queue of frames of any size, and video discarded in
    step with audio when the reader falls behind. */
module StreamDecoder {
  import opened Bytes
  import opened Pacing
  import opened Products
  import opened SafeQueue

  function Concat(frames: seq<seq<byte>>): seq<byte> {
    if frames == [] then [] else frames[0] + Concat(frames[1..])
  }

  /** Bytes handed out, bytes left over, frames left in the queue. */
  datatype Taken = Taken(buffer: seq<byte>, left: seq<byte>, frames: seq<seq<byte>>)

  /** Frames are appended to the leftover until it is long enough, give or take AUDIO_DELTA, or
      the queue is empty; a negative length compares as a huge unsigned one. */
  function TakeAudio(left: seq<byte>, frames: seq<seq<byte>>, maxLength: int): Taken
    decreases frames
  {
    if 0 <= maxLength <= |left| + AUDIO_DELTA then
      var n := if maxLength > |left| then |left| else maxLength;
      Taken(left[..n], left[n..], frames)
    else if frames == [] then Taken(left, [], [])
    else TakeAudio(left + frames[0], frames[1..], maxLength)
  }

  /** Not a byte is lost, duplicated or reordered, whatever length was asked for. */
  lemma {:induction false} AudioConserved(left: seq<byte>, frames: seq<seq<byte>>, maxLength: int)
    ensures var t := TakeAudio(left, frames, maxLength);
            t.buffer + (t.left + Concat(t.frames)) == left + Concat(frames)
    decreases frames
  {
    if 0 <= maxLength <= |left| + AUDIO_DELTA {
      var n := if maxLength > |left| then |left| else maxLength;
      assert left[..n] + (left[n..] + Concat(frames)) == left + Concat(frames);
    } else if frames == [] {
      assert left + ([] + []) == left + [];
    } else {
      AudioConserved(left + frames[0], frames[1..], maxLength);
      assert (left + frames[0]) + Concat(frames[1..]) == left + (frames[0] + Concat(frames[1..]));
    }
  }

  /** Never more than asked for, and AUDIO_DELTA less only when the stream has run dry. */
  lemma {:induction false} AudioLength(left: seq<byte>, frames: seq<seq<byte>>, maxLength: int)
    ensures var t := TakeAudio(left, frames, maxLength);
            && (maxLength >= 0 ==> |t.buffer| <= maxLength)
            && (maxLength < 0 || |t.buffer| + AUDIO_DELTA < maxLength ==> t.left == [] && t.frames == [])
    decreases frames
  {
    if !(0 <= maxLength <= |left| + AUDIO_DELTA) && frames != [] {
      AudioLength(left + frames[0], frames[1..], maxLength);
    }
  }

  /** The first n frames make the leftover long enough, give or take 64 bytes. */
  predicate Covers(left: seq<byte>, frames: seq<seq<byte>>, n: nat, maxLength: int)
    requires n <= |frames|
  {
    0 <= maxLength <= |left| + |Concat(frames[..n])| + 64
  }

  lemma CoversNext(left: seq<byte>, frames: seq<seq<byte>>)
    requires frames != []
    ensures forall m :: 0 < m <= |frames| ==>
              && |left| + |Concat(frames[..m])| == |left + frames[0]| + |Concat(frames[1..][..m - 1])|
              && forall maxLength ::
                   Covers(left, frames, m, maxLength) <==> Covers(left + frames[0], frames[1..], m - 1, maxLength)
  {
    forall m | 0 < m <= |frames|
      ensures |left| + |Concat(frames[..m])| == |left + frames[0]| + |Concat(frames[1..][..m - 1])|
    {
      assert frames[..m][1..] == frames[1..][..m - 1];
    }
  }

  /** A read takes the least number of frames that is enough, or all of them, and hands out as many
      bytes as asked for, or all there are. */
  lemma {:induction false} TakesLeast(left: seq<byte>, frames: seq<seq<byte>>, maxLength: int) returns (n: nat)
    ensures n <= |frames| && (Covers(left, frames, n, maxLength) || n == |frames|)
    ensures forall m :: 0 <= m < n ==> !Covers(left, frames, m, maxLength)
    ensures var t, total := TakeAudio(left, frames, maxLength), |left| + |Concat(frames[..n])|;
            && t.frames == frames[n..]
            && |t.buffer| == if maxLength < 0 || maxLength > total then total else maxLength
    decreases frames
  {
    assert frames[..0] == [] && Concat([]) == [];
    if 0 <= maxLength <= |left| + 64 || frames == [] {
      n := 0;
    } else {
      var k := TakesLeast(left + frames[0], frames[1..], maxLength);
      n := k + 1;
      CoversNext(left, frames);
      assert frames[n..] == frames[1..][k..];
    }
  }

  // ---- Video discarded in step

  /** Frames to discard for some bytes of audio: the nearest whole number. */
  function DiscardFor(audioBytes: nat, bytesPerFrame: real): int
    requires bytesPerFrame > 0.0
  {
    Trunc(audioBytes as real / bytesPerFrame + 0.5)
  }

  /** Taking at most the audio of may frames discards at most may frames, and the discarded
      video and audio differ by at most half a frame. */
  lemma DiscardInStep(may: nat, audioBytes: nat, bytesPerFrame: real)
    requires bytesPerFrame > 0.0
    requires audioBytes <= Trunc(Times(bytesPerFrame, may))
    ensures var discard := DiscardFor(audioBytes, bytesPerFrame);
            && 0 <= discard <= may
            && Within(audioBytes as real, discard as real, bytesPerFrame)
  {
    var q := audioBytes as real / bytesPerFrame;
    var d := DiscardFor(audioBytes, bytesPerFrame) as real;
    Quotient(audioBytes as real, bytesPerFrame);
    FloorBounds(q + 0.5);
    AtMost(may, audioBytes, bytesPerFrame);
    HalfScaled(q, d, audioBytes as real, bytesPerFrame);
  }

  /** The audio is that of the discarded frames, to within half a frame. */
  predicate Within(audioBytes: real, discard: real, bytesPerFrame: real) {
    -0.5 * bytesPerFrame <= audioBytes - discard * bytesPerFrame < 0.5 * bytesPerFrame
  }

  lemma HalfScaled(q: real, d: real, bytes: real, c: real)
    requires c > 0.0 && q - 0.5 < d <= q + 0.5 && q * c == bytes
    ensures Within(bytes, d, c)
  {
    var e, f := q - d, d * c;
    Difference(q, d, c);
    assert e * c == bytes - f;
    Scaled(-0.5, e, c);
    Scaled(e, 0.5, c);
  }

  lemma Difference(x: real, y: real, c: real)
    ensures (x - y) * c == x * c - y * c
  {
  }

  lemma Quotient(x: real, y: real)
    requires y > 0.0
    ensures x / y * y == x
    ensures x >= 0.0 ==> x / y >= 0.0
  {
  }

  lemma AtMost(may: nat, audioBytes: nat, bytesPerFrame: real)
    requires bytesPerFrame > 0.0
    requires audioBytes <= Trunc(Times(bytesPerFrame, may))
    ensures audioBytes as real / bytesPerFrame <= may as real
  {
    var q, m := audioBytes as real / bytesPerFrame, may as real;
    Quotient(audioBytes as real, bytesPerFrame);
    Scaled(0.0, m, bytesPerFrame);
    assert bytesPerFrame * m == m * bytesPerFrame;
    FloorBounds(m * bytesPerFrame);
    Scaled(m, q, bytesPerFrame);
  }

  /** The frame shown is the first that has data; what is behind it stays queued, what is before it
      goes. */
  lemma {:induction false} NextVideoIsFirst(frames: seq<seq<byte>>, k: nat)
    requires k <= |frames| && forall j :: 0 <= j < k ==> frames[j] == []
    requires k < |frames| ==> frames[k] != []
    ensures NextVideo(frames) == if k < |frames| then (frames[k], frames[k + 1..]) else ([], [])
    decreases frames
  {
    if k > 0 {
      NextVideoIsFirst(frames[1..], k - 1);
    }
  }

  // ---- The decoder thread in between

  /** What the decoder thread does to the video queue, each in one locked step. */
  datatype Act = PushVideo(frame: seq<byte>) | ClearVideo

  function AfterActs(q: seq<seq<byte>>, acts: seq<Act>): seq<seq<byte>> {
    if acts == [] then q
    else
      match acts[|acts| - 1]
      case PushVideo(frame) => AfterActs(q, acts[..|acts| - 1]) + [frame]
      case ClearVideo => []
  }

  predicate Cleared(acts: seq<Act>) {
    exists i :: 0 <= i < |acts| && acts[i].ClearVideo?
  }

  /** The pushes behind the last clear. */
  function PushedSince(acts: seq<Act>): nat {
    if acts == [] || acts[|acts| - 1].ClearVideo? then 0 else PushedSince(acts[..|acts| - 1]) + 1
  }

  /** Frames that were there are still there exactly when nothing was cleared or enough has come
      since; and then, without a clear, they are the same frames, still in front. */
  lemma {:induction false} StillThere(q: seq<seq<byte>>, acts: seq<Act>, d: nat)
    requires d <= |q|
    ensures d <= |AfterActs(q, acts)| <==> !Cleared(acts) || d <= PushedSince(acts)
    ensures if Cleared(acts) then |AfterActs(q, acts)| == PushedSince(acts) else q <= AfterActs(q, acts)
    decreases acts
  {
    if acts != [] {
      var n := |acts| - 1;
      StillThere(q, acts[..n], d);
      if acts[n].PushVideo? {
        assert Cleared(acts) <==> Cleared(acts[..n]) by {
          if i :| 0 <= i < |acts| && acts[i].ClearVideo? {
            assert acts[..n][i].ClearVideo?;
          }
        }
      }
    }
  }

  function MayBytes(bytesPerFrame: real, may: int): int {
    Trunc(bytesPerFrame * may as real)
  }

  /** The frames that Discard is asked to drop when the queue had size frames at the second look. */
  function Asked(floorSize: int, bytesPerFrame: real, size: nat, left: seq<byte>, frames: seq<seq<byte>>): nat
    requires bytesPerFrame > 0.0
  {
    var audio := TakeAudio(left, frames, MayBytes(bytesPerFrame, size - floorSize / 2)).buffer;
    DiscardIsCount(|audio|, bytesPerFrame);
    DiscardFor(|audio|, bytesPerFrame)
  }

  lemma DiscardIsCount(audioBytes: nat, bytesPerFrame: real)
    requires bytesPerFrame > 0.0
    ensures DiscardFor(audioBytes, bytesPerFrame) >= 0
  {
    Quotient(audioBytes as real, bytesPerFrame);
  }

  /** Without a clear before the second look, no more than the frames above half the floor. */
  lemma AskedFits(floorSize: int, bytesPerFrame: real, size: nat, left: seq<byte>, frames: seq<seq<byte>>)
    requires bytesPerFrame > 0.0 && floorSize > 0 && size >= floorSize / 2
    ensures Asked(floorSize, bytesPerFrame, size, left, frames) <= size - floorSize / 2
    ensures var audio := TakeAudio(left, frames, MayBytes(bytesPerFrame, size - floorSize / 2)).buffer;
            Within(|audio| as real, Asked(floorSize, bytesPerFrame, size, left, frames) as real, bytesPerFrame)
  {
    hide TakeAudio, Trunc, DiscardFor, Within;
    var may := size - floorSize / 2;
    AudioLength(left, frames, MayBytes(bytesPerFrame, may));
    NonNegative(may, bytesPerFrame);
    DiscardInStep(may, |TakeAudio(left, frames, MayBytes(bytesPerFrame, may)).buffer|, bytesPerFrame);
  }

  /** Discard finds all the frames it is asked to drop exactly when the decoder thread has cleared
      nothing between the read of the audio and the discard, or has pushed as many since. */
  lemma DiscardFindsThemIff(floorSize: int, bytesPerFrame: real, q: seq<seq<byte>>, left: seq<byte>,
                            frames: seq<seq<byte>>, acts: seq<Act>)
    requires bytesPerFrame > 0.0 && floorSize > 0 && |q| >= floorSize / 2
    ensures var d := Asked(floorSize, bytesPerFrame, |q|, left, frames);
            d <= |AfterActs(q, acts)| <==> !Cleared(acts) || d <= PushedSince(acts)
  {
    AskedFits(floorSize, bytesPerFrame, |q|, left, frames);
    StillThere(q, acts, Asked(floorSize, bytesPerFrame, |q|, left, frames));
  }

  /** Between the two looks at the size the same holds of half the floor: below it the length asked
      for is negative, and all the audio is taken. */
  lemma SecondLookIff(floorSize: int, q: seq<seq<byte>>, acts: seq<Act>)
    requires floorSize > 0 && |q| >= floorSize
    ensures floorSize / 2 <= |AfterActs(q, acts)| <==> !Cleared(acts) || floorSize / 2 <= PushedSince(acts)
  {
    StillThere(q, acts, floorSize / 2);
  }

  /** With no clear in between nothing can go wrong. */
  lemma NoClearIsSafe(floorSize: int, bytesPerFrame: real, q: seq<seq<byte>>, left: seq<byte>,
                      frames: seq<seq<byte>>, first: seq<Act>, second: seq<Act>)
    requires bytesPerFrame > 0.0 && floorSize > 0 && |q| >= floorSize && !Cleared(first) && !Cleared(second)
    ensures var q' := AfterActs(q, first);
            Asked(floorSize, bytesPerFrame, |q'|, left, frames) <= |AfterActs(q', second)|
  {
    SecondLookIff(floorSize, q, first);
    DiscardFindsThemIff(floorSize, bytesPerFrame, AfterActs(q, first), left, frames, second);
  }

  /** Four frames and the audio of two: with a clear before the discard, two frames are to be dropped
      from an empty queue; with one between the looks at the size, as well. */
  lemma ClearInBetween(q: seq<seq<byte>>, left: seq<byte>)
    requires |q| == 4 && |left| == 4
    ensures Asked(4, 2.0, |q|, left, []) == 2 > |AfterActs(q, [ClearVideo])|
    ensures Asked(4, 2.0, |AfterActs(q, [ClearVideo])|, left, []) == 2 > |AfterActs(AfterActs(q, [ClearVideo]), [])|
  {
    assert MayBytes(2.0, 2) == 4 && MayBytes(2.0, -2) == -4;
    assert TakeAudio(left, [], 4).buffer == left && TakeAudio(left, [], -4).buffer == left;
    assert 4 as real / 2.0 + 0.5 == 2.5;
    FloorIs(2.5, 2);
  }

  // ---- The decoder object

  /** The first frame that has data, and what is behind it. */
  function NextVideo(frames: seq<seq<byte>>): (r: (seq<byte>, seq<seq<byte>>))
    ensures r.0 == [] ==> r.1 == []
  {
    if frames == [] then ([], [])
    else if frames[0] != [] then (frames[0], frames[1..])
    else NextVideo(frames[1..])
  }

  class Decoder {
    const vQueue: Queue<seq<byte>>
    const aQueue: Queue<seq<byte>>
    const floorSize: int
    const decodeAudio: bool
    const bytesPerFrame: real
    var lastAudio: seq<byte>
    var lastVideo: seq<byte>
    var lastProduct: int
    var lastReopen: int
    var reopenTime: int
    var errorRet: int

    ghost predicate Valid()
      reads this, vQueue, aQueue
    {
      && vQueue != aQueue
      && !vQueue.aborted && !aQueue.aborted
      && bytesPerFrame > 0.0
    }

    constructor (floorSize: int, decodeAudio: bool, bytesPerFrame: real)
      requires bytesPerFrame > 0.0
      ensures Valid() && fresh(vQueue) && fresh(aQueue)
      ensures vQueue.items == [] && aQueue.items == [] && lastAudio == [] && lastVideo == []
    {
      this.floorSize, this.decodeAudio, this.bytesPerFrame := floorSize, decodeAudio, bytesPerFrame;
      vQueue := new Queue();
      aQueue := new Queue();
      lastAudio, lastVideo, lastProduct, lastReopen, reopenTime, errorRet := [], [], 0, 0, 0, 0;
    }

    /** The audio waiting: what is left of the last frame taken, unless the source was reopened. */
    ghost function Leftover(): seq<byte>
      reads this
    {
      if lastReopen != reopenTime then [] else lastAudio
    }

    /** read_thread_stream_audio_frame */
    method ReadStreamAudio(maxLength: int) returns (ret: int, buffer: seq<byte>, productId: int)
      requires Valid()
      modifies `lastAudio, `lastReopen, aQueue`items
      ensures Valid() && ret == 0
      ensures !decodeAudio ==>
                buffer == [] && productId == 0 && lastAudio == old(lastAudio) && aQueue.items == old(aQueue.items)
      ensures decodeAudio ==>
                && Taken(buffer, lastAudio, aQueue.items) == TakeAudio(old(Leftover()), old(aQueue.items), maxLength)
                && buffer + (lastAudio + Concat(aQueue.items)) == old(Leftover()) + Concat(old(aQueue.items))
                && lastReopen == reopenTime && productId == lastProduct
    {
      ret := 0;
      if !decodeAudio {
        return 0, [], 0;
      }
      AudioConserved(Leftover(), aQueue.items, maxLength);
      if lastReopen != reopenTime {
        lastAudio := [];
        lastReopen := reopenTime;
      }
      ghost var left, frames := lastAudio, aQueue.items;
      var max := maxLength;
      while max < 0 || max > |lastAudio| + AUDIO_DELTA
        invariant Valid() && lastReopen == reopenTime && max == maxLength
        invariant TakeAudio(lastAudio, aQueue.items, maxLength) == TakeAudio(left, frames, maxLength)
        decreases |aQueue.items|
      {
        var ok, frame := aQueue.Pop();
        if ok {
          lastAudio := lastAudio + frame[0];
        } else {
          max := |lastAudio|;
          break;
        }
      }
      if max > |lastAudio| {
        max := |lastAudio|;
      }
      buffer := lastAudio[..max];
      lastAudio := lastAudio[max..];
      productId := lastProduct;
    }

    /** Too many frames wait. */
    predicate Behind()
      reads this, vQueue
    {
      floorSize > 0 && vQueue.Size() >= floorSize
    }

    /** The decoder thread's steps while the consumer is between two of its own. */
    method Interleave(acts: seq<Act>)
      requires Valid()
      modifies vQueue`items
      ensures vQueue.items == AfterActs(old(vQueue.items), acts)
    {
      for i := 0 to |acts|
        invariant vQueue.items == AfterActs(old(vQueue.items), acts[..i]) && !vQueue.aborted
      {
        assert acts[..i + 1][..i] == acts[..i];
        match acts[i]
        case PushVideo(frame) => var _ := vQueue.Push(frame);
        case ClearVideo => var _ := vQueue.Floors(0);
      }
      assert acts[..|acts|] == acts;
    }

    /** Discard never pops an empty queue: what it is asked for is still there. */
    ghost predicate Enough(first: seq<Act>, second: seq<Act>)
      reads this, vQueue, aQueue
      requires Valid()
    {
      Behind() && decodeAudio ==>
        var q := AfterActs(vQueue.items, first);
        Asked(floorSize, bytesPerFrame, |q|, Leftover(), aQueue.items) <= |AfterActs(q, second)|
    }

    /** The first half of read_thread_stream_video_frame: when too many frames wait, the oldest
        are discarded, with their audio if there is any. In between the decoder thread goes on:
        first between the two looks at the size, second between the audio and the discard. */
    method CatchUp(first: seq<Act>, second: seq<Act>) returns (discarded: nat)
      requires Valid() && Enough(first, second)
      modifies `lastAudio, `lastReopen, aQueue`items, vQueue`items
      ensures Valid()
      ensures !old(Behind()) ==>
                && discarded == 0 && vQueue.items == old(vQueue.items)
                && aQueue.items == old(aQueue.items) && lastAudio == old(lastAudio)
      ensures old(Behind()) && !decodeAudio ==>
                var q := AfterActs(old(vQueue.items), first);
                && discarded == (if |q| > floorSize / 2 then |q| - floorSize / 2 else 0)
                && vQueue.items == q[discarded..]
      ensures old(Behind()) && decodeAudio ==>
                var q := AfterActs(old(vQueue.items), first);
                && discarded == Asked(floorSize, bytesPerFrame, |q|, old(Leftover()), old(aQueue.items))
                && discarded <= |AfterActs(q, second)| && vQueue.items == AfterActs(q, second)[discarded..]
                && exists audio: seq<byte> ::
                     && audio + (lastAudio + Concat(aQueue.items)) == old(Leftover()) + Concat(old(aQueue.items))
                     && (|q| >= floorSize / 2 ==>
                           && discarded <= |q| - floorSize / 2
                           && Within(|audio| as real, discarded as real, bytesPerFrame))
    {
      hide Asked, Within, AfterActs, Concat;
      discarded := 0;
      if floorSize > 0 && vQueue.Size() >= floorSize {
        Interleave(first);
        if decodeAudio {
          discarded := DiscardWithAudio(second);
        } else {
          discarded := vQueue.Floors(floorSize / 2);
        }
      }
    }

    /** Drops as many frames as there was audio for. */
    method DiscardWithAudio(second: seq<Act>) returns (discarded: nat)
      requires Valid() && decodeAudio && floorSize > 0
      requires Asked(floorSize, bytesPerFrame, |vQueue.items|, Leftover(), aQueue.items)
               <= |AfterActs(vQueue.items, second)|
      modifies `lastAudio, `lastReopen, aQueue`items, vQueue`items
      ensures Valid()
      ensures var q := old(vQueue.items);
              && discarded == Asked(floorSize, bytesPerFrame, |q|, old(Leftover()), old(aQueue.items))
              && discarded <= |AfterActs(q, second)| && vQueue.items == AfterActs(q, second)[discarded..]
              && exists audio: seq<byte> ::
                   && audio + (lastAudio + Concat(aQueue.items)) == old(Leftover()) + Concat(old(aQueue.items))
                   && (|q| >= floorSize / 2 ==>
                         && discarded <= |q| - floorSize / 2
                         && Within(|audio| as real, discarded as real, bytesPerFrame))
    {
      hide Trunc, TakeAudio, DiscardFor, Within, AfterActs, MayBytes, Concat;
      discarded := 0;
      ghost var size, left, frames := |vQueue.items|, Leftover(), aQueue.items;
      var mayDiscard := vQueue.Size() - floorSize / 2;
      var code, audio, _ := ReadStreamAudio(MayBytes(bytesPerFrame, mayDiscard));
      Interleave(second);
      if code >= 0 {
        if size >= floorSize / 2 {
          AskedFits(floorSize, bytesPerFrame, size, left, frames);
        }
        discarded := vQueue.Discard(DiscardFor(|audio|, bytesPerFrame));
      }
    }

    /** The video queue when the pops begin. */
    ghost function Waiting(first: seq<Act>, second: seq<Act>): seq<seq<byte>>
      reads this, vQueue, aQueue
      requires Valid() && Enough(first, second)
    {
      var q := AfterActs(vQueue.items, first);
      if !Behind() then vQueue.items
      else if decodeAudio then
        AfterActs(q, second)[Asked(floorSize, bytesPerFrame, |q|, Leftover(), aQueue.items)..]
      else if |q| > floorSize / 2 then q[|q| - floorSize / 2..]
      else q
    }

    /** read_thread_stream_video_frame: after catching up, the next frame with data replaces the
        last one shown; without one the last one stays. */
    method ReadStreamVideo(first: seq<Act>, second: seq<Act>) returns (ret: int, available: bool)
      requires Valid() && Enough(first, second)
      modifies `lastAudio, `lastReopen, `lastVideo, aQueue`items, vQueue`items
      ensures Valid()
      ensures var (frame, rest) := NextVideo(old(Waiting(first, second)));
              && vQueue.items == rest
              && lastVideo == (if frame != [] then frame else old(lastVideo))
              && ret == (if frame == [] then errorRet else 0)
              && available == (ret == 0 && lastVideo != [])
    {
      hide AfterActs, TakeAudio, DiscardFor, Within;
      var _ := CatchUp(first, second);
      ghost var queued := vQueue.items;
      assert queued == old(Waiting(first, second));
      while true
        invariant Valid() && lastVideo == old(lastVideo)
        invariant NextVideo(vQueue.items) == NextVideo(queued)
        decreases |vQueue.items|
      {
        var ok, frame := vQueue.Pop();
        if !ok {
          break;
        }
        if frame[0] == [] {
          continue;
        }
        lastVideo := frame[0];
        return 0, true;
      }
      if errorRet != 0 {
        return errorRet, false;
      }
      return 0, lastVideo != [];
    }
  }

  lemma NonNegative(may: nat, bytesPerFrame: real)
    requires bytesPerFrame > 0.0
    ensures Trunc(Times(bytesPerFrame, may)) >= 0
  {
    Scaled(0.0, may as real, bytesPerFrame);
    assert bytesPerFrame * may as real >= 0.0;
  }
}
