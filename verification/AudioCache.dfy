/** The audio half of cache_video_data for a source read frame by frame: cuts the raw audio into
    frames of a fractional length and queues them. */
module AudioCache {
  import opened Bytes
  import opened Pacing
  import opened CallPacing
  import opened Permutations
  import opened SafeQueue
  import RawMedia
  import opened RawAudioRuns
  import opened StreamDecoder

  /** A read that comes up short has reached the end of the input, and a read that leaves the
      input as it was has not changed the buffer. */
  lemma {:induction false} ShortReadIsEof(input: seq<byte>, sound: RawMedia.Sound, wanted: int)
    ensures var r := RawMedia.ParseAudio(input, sound, wanted);
            && (r.ret >= 0 && |r.sound.bytes| + AUDIO_DELTA < wanted ==> r.rest == [])
            && |r.rest| <= |input| && (|r.rest| < |input| || r.sound == sound)
            && (r.ret == 0 || r.ret == -1)
    decreases |input|
  {
    hide RawMedia.HeadOf;
    var (head, rest) := RawMedia.HeadOf(input);
    assert |rest| <= |input|;
    match head
    case Video(len) =>
      if 0 < len <= |rest| {
        ShortReadIsEof(rest[len..], sound, wanted);
      }
    case Audio(pid, len) =>
      if 0 < len <= |rest| && len <= RawMedia.MAX_AUDIO {
        ShortReadIsEof(rest[len..], sound.Add(pid, rest[..len]), wanted);
      }
    case Short => ShortInput(input);
    case Bad => ShortInput(input);
    case ShortExt => ShortInput(input);
  }

  /** The same of a read that may be served from the buffer. */
  lemma NextAudioIsShortAtEof(input: seq<byte>, sound: RawMedia.Sound, wanted: int)
    ensures var r := RawMedia.NextAudio(true, input, sound, wanted);
            && (r.ret >= 0 && |r.sound.bytes| + AUDIO_DELTA < wanted ==> r.rest == [])
            && |r.rest| <= |input| && (|r.rest| < |input| || r.sound == sound)
            && (r.ret == 0 || r.ret == -1)
  {
    hide RawMedia.ParseAudio;
    ShortReadIsEof(input, sound, wanted);
  }

  lemma ShortInput(input: seq<byte>)
    ensures var (head, rest) := RawMedia.HeadOf(input);
            && (head.Short? || head.ShortExt? ==> rest == [])
            && (head.Bad? || head.ShortExt? ==> |rest| < |input|)
  {
  }

  lemma {:induction false} ConcatPush(frames: seq<seq<byte>>, frame: seq<byte>)
    ensures Concat(frames + [frame]) == Concat(frames) + frame
    ensures |Concat(frames + [frame])| == |Concat(frames)| + |frame|
  {
    if frames == [] {
      assert frames + [frame] == [frame];
      assert Concat([frame]) == frame + Concat([]);
    } else {
      assert (frames + [frame])[1..] == frames[1..] + [frame];
      ConcatPush(frames[1..], frame);
      Joins(frames[0], Concat(frames[1..]), frame);
    }
  }

  /** The lengths of the frames, and the reads that brought one. */
  function Lengths(frames: seq<seq<byte>>): seq<int> {
    seq(|frames|, i requires 0 <= i < |frames| => |frames[i]|)
  }

  function Positive(sizes: seq<int>): seq<int> {
    if sizes == [] then []
    else
      var last := sizes[|sizes| - 1];
      Positive(sizes[..|sizes| - 1]) + if last > 0 then [last] else []
  }

  lemma OneMorePositive(sizes: seq<int>, size: int)
    ensures Positive(sizes + [size]) == Positive(sizes) + if size > 0 then [size] else []
  {
    assert (sizes + [size])[..|sizes|] == sizes;
  }

  /** A read moves audio from the input and the buffer to the queue. */
  lemma FlowStep(queue: seq<byte>, data: seq<byte>, rest: seq<byte>, all: seq<byte>)
    requires data + rest == all
    ensures (queue + data) + rest == queue + all
  {
  }

  /** From an empty buffer the first frame asks the input for anything only when a frame lasts at least
      65 bytes: less is within the tolerance of nothing. */
  lemma FirstReadIff(perFrame: real, input: seq<byte>, pid: int)
    requires perFrame >= 2.0
    ensures Wanted(perFrame, 0, 0) <= 64 <==> perFrame < 65.0
    ensures perFrame < 65.0 ==>
              RawMedia.ReadAudio(true, input, RawMedia.Sound(pid, []), Wanted(perFrame, 0, 0))
              == RawMedia.Audible(0, [], RawMedia.Sound(pid, []), input)
  {
    hide RawMedia.ParseAudio;
    FloorBounds(perFrame);
    assert Exact(perFrame, 0) + perFrame == perFrame;
  }

  /** With 66 bytes a frame every frame asks for more than the tolerance. */
  lemma AsksForMore(perFrame: real, k: nat, taken: int)
    requires perFrame >= 66.0 && taken <= Exact(perFrame, k).Floor + 1
    ensures Wanted(perFrame, k, taken) > 64
  {
    var x := Exact(perFrame, k);
    ExactGrows(perFrame, k);
    FloorBounds(x);
    FloorMono(x + 66.0, x + perFrame);
    FloorIs(x + 66.0, x.Floor + 66);
  }

  lemma OneMoreRead(perFrame: real, sizes: seq<int>, size: int)
    ensures var wanted := Wanted(perFrame, |sizes|, Sum(sizes));
            && Sum(sizes + [size]) == Sum(sizes) + size
            && (Reads(perFrame, sizes) && wanted > 0 && wanted - AUDIO_DELTA <= size <= wanted
                ==> Reads(perFrame, sizes + [size]))
  {
    assert (sizes + [size])[..|sizes|] == sizes;
  }

  lemma NoReads(perFrame: real)
    ensures Reads(perFrame, []) && Sum([]) == 0 && Exact(perFrame, 0) == 0.0 && Positive([]) == []
  {
  }

  /** The queue after a frame was pushed to it, or none. */
  lemma OneFrameMore(frames: seq<seq<byte>>, frames': seq<seq<byte>>, before: seq<int>, sizes: seq<int>, size: nat)
    requires Lengths(frames) == before + Positive(sizes)
    requires |frames'| == |frames| + (if size > 0 then 1 else 0) && frames'[..|frames|] == frames
    requires size > 0 ==> |frames'[|frames|]| == size
    ensures Lengths(frames') == before + Positive(sizes + [size])
  {
    hide Lengths, Positive;
    OneMorePositive(sizes, size);
    LengthsOfParts(frames, frames', size);
    Associates(before, Positive(sizes), if size > 0 then [size] else []);
  }

  lemma LengthsOfParts(frames: seq<seq<byte>>, frames': seq<seq<byte>>, size: nat)
    requires |frames'| == |frames| + (if size > 0 then 1 else 0) && frames'[..|frames|] == frames
    requires size > 0 ==> |frames'[|frames|]| == size
    ensures Lengths(frames') == Lengths(frames) + if size > 0 then [size] else []
  {
    assert forall i :: 0 <= i < |frames| ==> frames'[i] == frames'[..|frames|][i];
  }

  lemma SaneRead(input: seq<byte>, sound: RawMedia.Sound, wanted: nat)
    requires Sane(input)
    ensures var r := RawMedia.ReadAudio(true, input, sound, wanted); r.ret == 0 && Sane(r.rest)
  {
    hide RawMedia.ParseAudio, Sane;
    SaneIsRead(input, sound, wanted);
  }

  class Cache {
    const video: RawMedia.FFReader
    const aQueue: Queue<seq<byte>>
    const audioPerFrame: real
    var eof: bool

    ghost predicate Valid()
      reads this, video, aQueue
    {
      video.Valid() && video.audFmt && !aQueue.aborted && audioPerFrame >= 2.0
    }

    constructor (video: RawMedia.FFReader, aQueue: Queue<seq<byte>>, audioPerFrame: real)
      requires video.Valid() && video.audFmt && !aQueue.aborted && audioPerFrame >= 2.0
      ensures Valid() && !eof && this.video == video && this.aQueue == aQueue
    {
      this.video, this.aQueue, this.audioPerFrame, eof := video, aQueue, audioPerFrame, false;
    }

    /** The audio stream from here on: what is queued, what is buffered, what is still to come. */
    ghost function Flow(): seq<byte>
      reads this, video, video.rawAudio, aQueue
      requires Valid()
    {
      Concat(aQueue.items) + (video.Held().bytes + AudioIn(video.input))
    }

    /** All audio to come is of the product that is buffered. */
    ghost predicate OfOneProduct()
      reads this, video
    {
      OneProduct(video.input, video.productId)
    }

    /** The accounts of a call in progress: sizes are the reads made so far, their sum is what was
        queued, and only a source at its end has fallen behind. */
    ghost predicate Accounts(sizes: seq<int>, queued: nat, recvF: real, recvI: int)
      reads this, video
    {
      && recvF == Exact(audioPerFrame, |sizes|)
      && recvI == Sum(sizes) == queued
      && recvI <= recvF.Floor + 1
      && (video.input != [] ==> Reads(audioPerFrame, sizes))
    }

    /** Reads one frame of audio: what was wanted, short by no more than AUDIO_DELTA before the end of
        the input, the oldest bytes of the stream. */
    method ReadFrame(wanted: nat) returns (ret: int, data: seq<byte>)
      requires Valid() && wanted > 0
      modifies video, video.rawAudio
      ensures Valid() && (video.rawAudio == old(video.rawAudio) || fresh(video.rawAudio))
      ensures |video.input| <= |old(video.input)| && (ret == 0 || ret == -1)
      ensures |data| <= wanted && (ret == 0 && video.input != [] ==> wanted - AUDIO_DELTA <= |data|)
      ensures ret == 0 ==> |data| > 0 || |video.input| < |old(video.input)| || old(video.audioSize) == 0
      ensures ret == 0 && data == [] ==> video.audioSize == 0 && (video.input == [] || wanted <= 64)
      ensures old(OfOneProduct()) ==> OfOneProduct()
      ensures old(OfOneProduct()) ==>
                data + (video.Held().bytes + AudioIn(video.input)) == old(video.Held().bytes + AudioIn(video.input))
      ensures old(Sane(video.input)) ==> ret == 0 && Sane(video.input)
      ensures ret < 0 ==> data == []
    {
      hide RawMedia.NextAudio, AudioIn, OneProduct, Sane;
      ghost var held := video.Held();
      NextAudioIsShortAtEof(video.input, held, wanted);
      if OfOneProduct() {
        ReadKeepsAudio(video.input, held, wanted);
      }
      if Sane(video.input) {
        SaneRead(video.input, held, wanted);
      }
      ret, data := video.ReadAudioData(wanted);
    }

    /** Reads one frame of audio and queues it unless it is empty. */
    method CacheFrame(ghost sizes: seq<int>, ghost queued: nat, recvF: real, recvI: int)
      returns (ret: int, size: nat, wanted: nat, recvF': real, recvI': int, ghost sizes': seq<int>)
      requires Valid() && Accounts(sizes, queued, recvF, recvI)
      modifies video, video.rawAudio, aQueue`items
      ensures Valid() && (video.rawAudio == old(video.rawAudio) || fresh(video.rawAudio))
      ensures |video.input| <= |old(video.input)|
      ensures ret == 0 || ret == -1
      ensures ret < 0 ==> aQueue.items == old(aQueue.items)
      ensures old(OfOneProduct()) ==> OfOneProduct() && Flow() == old(Flow())
      ensures old(Sane(video.input)) ==> ret == 0 && Sane(video.input)
      ensures ret == 0 ==>
                && sizes' == sizes + [size] && Accounts(sizes', queued + size, recvF', recvI')
                && |aQueue.items| == |old(aQueue.items)| + (if size > 0 then 1 else 0)
                && |Concat(aQueue.items)| == |Concat(old(aQueue.items))| + size
                && (size > 0 || |video.input| < |old(video.input)| || old(video.audioSize) == 0)
                && (size == 0 ==> video.audioSize == 0 && (video.input == [] || wanted <= 64))
                && wanted == Wanted(audioPerFrame, |sizes|, recvI)
                && aQueue.items[..|old(aQueue.items)|] == old(aQueue.items)
                && (size > 0 ==> |aQueue.items[|old(aQueue.items)|]| == size)
    {
      hide Reads, Sum, Trunc, Concat, AudioIn, OneProduct, Sane;
      AsksForSomething(audioPerFrame, |sizes|, recvI);
      var n := Trunc(recvF + audioPerFrame) - recvI;
      if n % 2 == 1 {
        n := n + 1;
      }
      wanted := n;
      ghost var queue, all := Concat(aQueue.items), video.Held().bytes + AudioIn(video.input);
      var data;
      ret, data := ReadFrame(wanted);
      if old(OfOneProduct()) {
        FlowStep(queue, data, video.Held().bytes + AudioIn(video.input), all);
      }
      size := |data|;
      recvF', recvI', sizes' := recvF + audioPerFrame, recvI + size, sizes + [size];
      ghost var whole := queue + data;
      if data == [] {
        assert whole == queue;
      }
      if ret < 0 {
        return;
      }
      OneMoreRead(audioPerFrame, sizes, size);
      if size > 0 {
        ConcatPush(aQueue.items, data);
        var _ := aQueue.Push(data);
      }
    }

    /** Reads frames while the buffer is expected to hold whole ones, and stops at a short one. */
    method CacheAvailable(availFrames: int, ghost before: nat, ghost lengths: seq<int>, recvF: real, recvI: int,
                          ghost sizes: seq<int>)
      returns (ret: int, recvF': real, recvI': int, ghost sizes': seq<int>)
      requires Valid() && availFrames > 0 && video.audioSize > 0
      requires Sum(sizes) >= 0 && Accounts(sizes, Sum(sizes), recvF, recvI)
      requires |Concat(aQueue.items)| == before + Sum(sizes)
      requires Lengths(aQueue.items) == lengths + Positive(sizes)
      modifies video, video.rawAudio, aQueue`items
      ensures Valid() && (video.rawAudio == old(video.rawAudio) || fresh(video.rawAudio))
      ensures ret == 0 || ret == -1
      ensures Sum(sizes') >= 0 && Accounts(sizes', Sum(sizes'), recvF', recvI')
      ensures |Concat(aQueue.items)| == before + Sum(sizes')
      ensures Lengths(aQueue.items) == lengths + Positive(sizes')
      ensures old(OfOneProduct()) ==> OfOneProduct() && Flow() == old(Flow())
      ensures old(Sane(video.input)) ==> ret == 0 && Sane(video.input)
      ensures |aQueue.items| >= |old(aQueue.items)| && |video.input| <= |old(video.input)|
      ensures ret == 0 ==> |aQueue.items| > |old(aQueue.items)| || |video.input| < |old(video.input)|
    {
      hide Concat, AudioIn, OneProduct, Sane, Lengths, Positive, Reads, Sum, Wanted;
      ret, recvF', recvI', sizes' := 0, recvF, recvI, sizes;
      var i := 0;
      while i < availFrames
        invariant 0 <= i <= availFrames && Valid() && ret == 0
        invariant video.rawAudio == old(video.rawAudio) || fresh(video.rawAudio)
        invariant Sum(sizes') >= 0 && Accounts(sizes', Sum(sizes'), recvF', recvI')
        invariant |Concat(aQueue.items)| == before + Sum(sizes')
        invariant Lengths(aQueue.items) == lengths + Positive(sizes')
        invariant old(OfOneProduct()) ==> OfOneProduct() && Flow() == old(Flow())
        invariant old(Sane(video.input)) ==> Sane(video.input)
        invariant |aQueue.items| >= |old(aQueue.items)| && |video.input| <= |old(video.input)|
        invariant if i == 0 then video.audioSize > 0
                  else |aQueue.items| > |old(aQueue.items)| || |video.input| < |old(video.input)|
      {
        var size, wanted, f, n;
        ghost var s;
        ghost var frames := aQueue.items;
        ret, size, wanted, f, n, s := CacheFrame(sizes', Sum(sizes'), recvF', recvI');
        if ret < 0 {
          return;
        }
        OneFrameMore(frames, aQueue.items, lengths, sizes', size);
        OneMoreRead(audioPerFrame, sizes', size);
        recvF', recvI', sizes' := f, n, s;
        i := i + 1;
        if size < wanted {
          break;
        }
      }
    }

    lemma Drift(sizes: seq<int>)
      requires audioPerFrame >= 2.0
      ensures Reads(audioPerFrame, sizes) ==> Sum(sizes) >= Exact(audioPerFrame, |sizes|).Floor - AUDIO_DELTA
    {
      if Reads(audioPerFrame, sizes) {
        NoDrift(audioPerFrame, sizes);
      }
    }

    /** One call: fills the queue up to frameNum frames. However the input is split into packets,
        the bytes queued for k frames of this call are never more than one ahead of the exact
        amount and, before the end of the input, never more than AUDIO_DELTA behind it. */
    method CacheAudio(frameNum: nat) returns (ret: int, ghost sizes: seq<int>)
      requires Valid() && !eof
      modifies this`eof, video, video.rawAudio, aQueue`items
      ensures Valid() && (ret == 0 || ret == -1)
      ensures |Concat(aQueue.items)| == |Concat(old(aQueue.items))| + Sum(sizes)
      ensures Sum(sizes) <= Exact(audioPerFrame, |sizes|).Floor + 1
      ensures video.input != [] ==> Sum(sizes) >= Exact(audioPerFrame, |sizes|).Floor - AUDIO_DELTA
      ensures ret == 0 && !eof ==> |aQueue.items| >= frameNum
      ensures Lengths(aQueue.items) == Lengths(old(aQueue.items)) + Positive(sizes)
      ensures old(OfOneProduct()) ==> OfOneProduct() && Flow() == old(Flow())
      ensures old(Sane(video.input)) ==> ret == 0 && Sane(video.input)
      ensures eof ==> video.audioSize == 0 && (audioPerFrame >= 66.0 ==> video.input == [])
      ensures video.rawAudio == old(video.rawAudio) || fresh(video.rawAudio)
      ensures |video.input| <= |old(video.input)|
    {
      hide Concat, AudioIn, OneProduct, Sane, Lengths, Reads, Wanted, Sum, Positive;
      sizes := [];
      ret := 0;
      var recvF, recvI := 0.0, 0;
      ghost var before, lengths := |Concat(aQueue.items)|, Lengths(aQueue.items);
      assert lengths == lengths + [];
      NoReads(audioPerFrame);
      while |aQueue.items| < frameNum
        invariant Valid() && !eof && ret == 0
        invariant video.rawAudio == old(video.rawAudio) || fresh(video.rawAudio)
        invariant |video.input| <= |old(video.input)|
        invariant |Concat(aQueue.items)| == before + Sum(sizes) && Sum(sizes) >= 0
        invariant Accounts(sizes, Sum(sizes), recvF, recvI)
        invariant Lengths(aQueue.items) == lengths + Positive(sizes)
        invariant old(OfOneProduct()) ==> OfOneProduct() && Flow() == old(Flow())
        invariant old(Sane(video.input)) ==> Sane(video.input)
        decreases frameNum - |aQueue.items|, |video.input|
      {
        var availFrames := Trunc(video.audioSize as real / audioPerFrame);
        if availFrames != 0 {
          ret, recvF, recvI, sizes := CacheAvailable(availFrames, before, lengths, recvF, recvI, sizes);
          if ret < 0 {
            Drift(sizes);
            return;
          }
        } else {
          var size, wanted, f, i;
          ghost var s;
          ghost var frames, taken := aQueue.items, recvI;
          ret, size, wanted, f, i, s := CacheFrame(sizes, Sum(sizes), recvF, recvI);
          if ret < 0 {
            Drift(sizes);
            return;
          }
          OneFrameMore(frames, aQueue.items, lengths, sizes, size);
          OneMoreRead(audioPerFrame, sizes, size);
          if audioPerFrame >= 66.0 {
            AsksForMore(audioPerFrame, |sizes|, taken);
          }
          recvF, recvI, sizes := f, i, s;
          if size == 0 {
            eof := true;
            Drift(sizes);
            return;
          }
        }
      }
      Drift(sizes);
    }

    /** The consumer takes n frames, or all there are. */
    method Consume(n: nat) returns (bytes: seq<byte>)
      requires Valid()
      modifies aQueue`items
      ensures Valid() && aQueue.items == old(aQueue.items)[if n < |old(aQueue.items)| then n else |old(aQueue.items)|..]
      ensures bytes + Concat(aQueue.items) == Concat(old(aQueue.items))
    {
      bytes := [];
      for i := 0 to n
        invariant Valid() && i <= |old(aQueue.items)| && aQueue.items == old(aQueue.items)[i..]
        invariant bytes + Concat(aQueue.items) == Concat(old(aQueue.items))
      {
        if aQueue.Size() == 0 {
          break;
        }
        ghost var frames := aQueue.items;
        var _, frame := aQueue.Pop();
        Joins(bytes, frames[0], Concat(frames[1..]));
        bytes := bytes + frame[0];
      }
    }

    /** The decoder thread's loop: between two calls the consumer takes takes[i] frames. What it took,
        joined, what is queued and buffered at the end and the audio still to come are the audio
        stream, in order and without a gap. Over all calls the bytes read are within a byte a call
        ahead of the exact amount and, before the end of the input, AUDIO_DELTA bytes and a fraction a
        call behind it. */
    method Run(takes: seq<nat>, frameNum: nat) returns (consumed: seq<byte>, ghost calls: seq<seq<int>>)
      requires Valid() && !eof
      modifies this`eof, video, video.rawAudio, aQueue`items
      ensures Valid() && |calls| <= |takes|
      ensures |consumed| + |Concat(aQueue.items)| == |Concat(old(aQueue.items))| + Total(calls)
      ensures Ahead(audioPerFrame, calls) <= |calls| as real
      ensures video.input != [] ==> Ahead(audioPerFrame, calls) >= -((AUDIO_DELTA + 1) * |calls|) as real
      ensures old(OfOneProduct()) ==> OfOneProduct() && consumed + Flow() == old(Flow())
      ensures old(Sane(video.input)) && !eof ==> |calls| == |takes|
      ensures eof ==> video.audioSize == 0 && (audioPerFrame >= 66.0 ==> video.input == [])
    {
      hide Concat, AudioIn, OneProduct, Sane, Exact;
      consumed, calls := [], [];
      NoCalls(audioPerFrame);
      assert [] + Flow() == Flow();
      for i := 0 to |takes|
        invariant Valid() && !eof && |calls| == i
        invariant video.rawAudio == old(video.rawAudio) || fresh(video.rawAudio)
        invariant |consumed| + |Concat(aQueue.items)| == |Concat(old(aQueue.items))| + Total(calls)
        invariant Ahead(audioPerFrame, calls) <= i as real
        invariant video.input != [] ==> Ahead(audioPerFrame, calls) >= -((AUDIO_DELTA + 1) * i) as real
        invariant old(OfOneProduct()) ==> OfOneProduct() && consumed + Flow() == old(Flow())
        invariant old(Sane(video.input)) ==> Sane(video.input)
      {
        ghost var flow := Flow();
        var bytes := Consume(takes[i]);
        Joins(bytes, Concat(aQueue.items), video.Held().bytes + AudioIn(video.input));
        assert bytes + Flow() == flow;
        Joins(consumed, bytes, Flow());
        consumed := consumed + bytes;
        ghost var sizes;
        var ret;
        ret, sizes := CacheAudio(frameNum);
        OneMoreCall(audioPerFrame, calls, sizes);
        FloorBounds(Exact(audioPerFrame, |sizes|));
        calls := calls + [sizes];
        if ret < 0 || eof {
          break;
        }
      }
    }
  }
}
