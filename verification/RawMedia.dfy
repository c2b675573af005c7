/** The raw media pipe: the packets the encoder thread frames, and the reader that collects
    audio packets in a growing buffer until a video frame arrives. */
module RawMedia {
  import opened Bytes
  import Pacing

  const RAWMEDIA_VIDEO: int := 1
  const RAWMEDIA_AUDIO: int := 2
  const RAWMEDIA_EXT_AUDIO: int := 3
  const HEAD_SIZE := 12
  const EXT_SIZE := 4
  const MAX_AUDIO := 1024 * 1024
  const AUDIO_DELTA := Pacing.AUDIO_DELTA

  function Int32Bytes(v: int32): (r: seq<byte>)
    ensures |r| == 4
  {
    Le32(if v < 0 then v + 0x1_0000_0000 else v)
  }

  function Int32At(b: seq<byte>, i: nat): int32
    requires i + 4 <= |b|
  {
    var w := ToWord(b[i..i + 4]);
    if w < 0x8000_0000 then w else w - 0x1_0000_0000
  }

  lemma Int32RoundTrip(v: int32, b: seq<byte>, i: nat)
    requires i + 4 <= |b| && b[i..i + 4] == Int32Bytes(v)
    ensures Int32At(b, i) == v
  {
    Le32RoundTrip(if v < 0 then v + 0x1_0000_0000 else v);
  }

  // ---- The writer

  function Header(kind: int32, len: int32): (r: seq<byte>)
    ensures |r| == HEAD_SIZE
  {
    Int32Bytes(1) + Int32Bytes(kind) + Int32Bytes(len)
  }

  /** What FFVideoEncodeThread::Write queues for one buffer: kind 0 carries no header. */
  function Framed(data: seq<byte>, kind: int32): seq<byte>
    requires |data| < 0x8000_0000
  {
    if kind == 0 then data else Header(kind, |data|) + data
  }

  /** Fills the buffer in place and pushes it at the end of the queue, unless the queue is aborted. */
  class VideoEncodeThread {
    var videoBuffers: seq<seq<byte>>
    var aborted: bool

    method Write(data: seq<byte>, kind: int32) returns (ret: int)
      requires |data| < 0x8000_0000
      modifies `videoBuffers
      ensures videoBuffers == old(videoBuffers) + (if aborted then [] else [Framed(data, kind)])
      ensures ret == 0
    {
      var offset := if kind != 0 then HEAD_SIZE else 0;
      var buf := new byte[|data| + offset](_ => 0);
      if kind != 0 {
        Put32(buf, 0, 1);
        Put32(buf, 4, kind);
        Put32(buf, 8, |data|);
        assert buf[..offset] == buf[0..4] + buf[4..8] + buf[8..12] == Header(kind, |data|);
      } else {
        assert buf[..offset] == [];
      }
      ghost var head := buf[..offset];
      for i := 0 to |data|
        invariant buf[..offset] == head
        invariant forall k :: 0 <= k < i ==> buf[offset + k] == data[k]
        modifies buf
      {
        buf[offset + i] := data[i];
      }
      assert buf[..] == head + data;
      if !aborted {
        videoBuffers := videoBuffers + [buf[..]];
      }
      ret := 0;
    }
  }

  method Put32(buf: array<byte>, at: nat, v: int32)
    requires at + 4 <= buf.Length
    modifies buf
    ensures buf[at..at + 4] == Int32Bytes(v)
    ensures forall k :: 0 <= k < buf.Length && !(at <= k < at + 4) ==> buf[k] == old(buf[k])
  {
    var b := Int32Bytes(v);
    buf[at], buf[at + 1], buf[at + 2], buf[at + 3] := b[0], b[1], b[2], b[3];
  }

  // ---- What the reader finds

  datatype Head = Short | Bad | Video(len: int) | Audio(pid: int, len: int) | ShortExt

  /** The header at the front of the input, and the input behind it. */
  function HeadOf(input: seq<byte>): (r: (Head, seq<byte>))
    ensures |r.1| <= |input|
    ensures r.0.Video? || r.0.Audio? || r.0.Bad? ==> |r.1| < |input|
  {
    if |input| < HEAD_SIZE then (Short, [])
    else
      var ver, kind, len := Int32At(input, 0), Int32At(input, 4), Int32At(input, 8);
      var rest := input[HEAD_SIZE..];
      if ver != 1 || (kind != RAWMEDIA_VIDEO && kind != RAWMEDIA_AUDIO && kind != RAWMEDIA_EXT_AUDIO) then (Bad, rest)
      else if kind == RAWMEDIA_VIDEO then (Video(len), rest)
      else if kind == RAWMEDIA_AUDIO then (Audio(0, len), rest)
      else if |rest| < EXT_SIZE then (ShortExt, [])
      else (Audio(Int32At(rest, 0), len), rest[EXT_SIZE..])
  }

  /** The buffered audio and the product it belongs to. */
  datatype Sound = Sound(pid: int, bytes: seq<byte>) {
    function Switch(p: int): Sound {
      if p != pid then Sound(p, []) else this
    }

    function Add(p: int, data: seq<byte>): Sound {
      Switch(p).(bytes := Switch(p).bytes + data)
    }
  }

  /** Code, frame when there is one, buffered audio, remaining input. */
  datatype Read = Read(ret: int, frame: seq<byte>, sound: Sound, rest: seq<byte>)

  function BodyOf(input: seq<byte>, sound: Sound, framesize: nat): Read {
    if |input| < framesize then Read(0, [], sound, [])
    else Read(0, input[..framesize], sound, input[framesize..])
  }

  /** One call of read_rawvideo_frame on a source with audio. */
  function ParseVideo(input: seq<byte>, sound: Sound, framesize: nat): Read
    decreases |input|
  {
    var (head, rest) := HeadOf(input);
    match head
    case Short => Read(0, [], sound, rest)
    case Bad => Read(-1, [], sound, rest)
    case Video(len) => if len != framesize then Read(-1, [], sound, rest) else BodyOf(rest, sound, framesize)
    case ShortExt => BodyOf(rest, sound, framesize)
    case Audio(pid, len) =>
      if len <= 0 || len > MAX_AUDIO then Read(-1, [], sound.Switch(pid), rest)
      else if |rest| < len then Read(0, [], sound.Switch(pid), [])
      else ParseVideo(rest[len..], sound.Add(pid, rest[..len]), framesize)
  }

  /** One call of read_rawaudio_frame: video is read and thrown away. */
  function ParseAudio(input: seq<byte>, sound: Sound, maxLength: int): Read
    decreases |input|
  {
    var (head, rest) := HeadOf(input);
    match head
    case Short => Read(0, [], sound, rest)
    case Bad => Read(-1, [], sound, rest)
    case Video(len) =>
      if len <= 0 then Read(-1, [], sound, rest)
      else if |rest| < len then Read(0, [], sound, [])
      else ParseAudio(rest[len..], sound, maxLength)
    case ShortExt => Read(0, [], sound, rest)
    case Audio(pid, len) =>
      if len <= 0 || len > MAX_AUDIO then Read(-1, [], sound.Switch(pid), rest)
      else if |rest| < len then Read(0, [], sound.Switch(pid), [])
      else
        var sound' := sound.Add(pid, rest[..len]);
        if |sound'.bytes| + AUDIO_DELTA >= maxLength then Read(0, [], sound', rest[len..])
        else ParseAudio(rest[len..], sound', maxLength)
  }

  /** The size of rawBuffer after one call of read_rawaudio_frame, which had that size before: video
      that is thrown away resizes it to its own length, a product switch clears it. */
  function RoomAfter(input: seq<byte>, sound: Sound, maxLength: int, size: nat): nat
    decreases |input|
  {
    var (head, rest) := HeadOf(input);
    match head
    case Video(len) =>
      if len < 0 then size
      else if len == 0 || |rest| < len then len
      else RoomAfter(rest[len..], sound, maxLength, len)
    case Audio(pid, len) =>
      var size' := if pid != sound.pid then 0 else size;
      if len <= 0 || len > MAX_AUDIO || |rest| < len then size'
      else
        var sound' := sound.Add(pid, rest[..len]);
        if |sound'.bytes| + AUDIO_DELTA >= maxLength then size' else RoomAfter(rest[len..], sound', maxLength, size')
    case _ => size
  }

  // ---- The reader object

  /** One call of read_rawvideo_frame: without an audio format the pipe is bare frames. */
  function NextFrame(audFmt: bool, input: seq<byte>, sound: Sound, framesize: nat): Read {
    if audFmt then ParseVideo(input, sound, framesize) else BodyOf(input, sound, framesize)
  }

  /** One call of read_audio_data on a raw pipe: enough in the buffer, or more is read first. */
  function NextAudio(audFmt: bool, input: seq<byte>, sound: Sound, wanted: int): Read {
    if !audFmt || |sound.bytes| + AUDIO_DELTA >= wanted then Read(0, [], sound, input)
    else ParseAudio(input, sound, wanted)
  }

  /** What a call hands out of the buffer: the oldest bytes, as many as wanted, or all of them when
      there are fewer or none in particular are wanted; and what it keeps. */
  function HandOut(sound: Sound, wanted: nat): (seq<byte>, Sound) {
    var n := if wanted == 0 || wanted > |sound.bytes| then |sound.bytes| else wanted;
    (sound.bytes[..n], Sound(sound.pid, sound.bytes[n..]))
  }

  /** The result of read_audio_data: the code, what is handed out, what is kept, and the input left. */
  datatype Audible = Audible(ret: int, buffer: seq<byte>, sound: Sound, rest: seq<byte>)

  function ReadAudio(audFmt: bool, input: seq<byte>, sound: Sound, wanted: nat): Audible {
    var r := NextAudio(audFmt, input, sound, wanted);
    if r.ret < 0 || !audFmt then Audible(r.ret, [], r.sound, r.rest)
    else
      var (buffer, kept) := HandOut(r.sound, wanted);
      Audible(r.ret, buffer, kept, r.rest)
  }

  /** The reader of a raw pipe. Only the first audioSize bytes of rawAudio are audio of product
      productId. */
  class FFReader {
    /** Whether the pipe carries audio. */
    const audFmt: bool
    const framesize: nat
    var rawBuffer: array<byte>
    var input: seq<byte>
    var rawAudio: array<byte>
    var audioSize: nat
    var productId: int

    ghost predicate Valid()
      reads this
    {
      audioSize <= rawAudio.Length && rawAudio != rawBuffer
    }

    ghost function Held(): Sound
      reads this, rawAudio
      requires Valid()
    {
      Sound(productId, rawAudio[..audioSize])
    }

    constructor (audFmt: bool, framesize: nat, input: seq<byte>)
      ensures this.audFmt == audFmt
      ensures Valid() && fresh(rawAudio) && fresh(rawBuffer)
      ensures this.framesize == framesize && this.input == input && Held() == Sound(0, [])
      ensures rawBuffer.Length == framesize
    {
      this.audFmt := audFmt;
      this.framesize := framesize;
      this.input := input;
      rawBuffer := new byte[framesize](_ => 0);
      rawAudio := new byte[MAX_AUDIO](_ => 0);
      audioSize, productId := 0, 0;
    }

    /** fread of size bytes: all of them, or the end of the file. */
    method Fread(size: nat) returns (ok: bool, data: seq<byte>)
      modifies `input
      ensures ok == (|old(input)| >= size)
      ensures if ok then data == old(input)[..size] && input == old(input)[size..] else data == [] && input == []
    {
      ok := |input| >= size;
      data := if ok then input[..size] else [];
      input := if ok then input[size..] else [];
    }

    /** The three header fields and, for extended audio, the product that follows them. */
    method ReadHead() returns (head: Head)
      modifies `input
      ensures (head, input) == HeadOf(old(input))
    {
      var ok, data := Fread(HEAD_SIZE);
      if !ok {
        return Short;
      }
      assert data[0..4] == old(input)[0..4] && data[4..8] == old(input)[4..8] && data[8..12] == old(input)[8..12];
      var ver, kind, len := Int32At(data, 0), Int32At(data, 4), Int32At(data, 8);
      if ver != 1 || (kind != RAWMEDIA_VIDEO && kind != RAWMEDIA_AUDIO && kind != RAWMEDIA_EXT_AUDIO) {
        return Bad;
      }
      if kind == RAWMEDIA_VIDEO {
        return Video(len);
      }
      var pid := 0;
      if kind == RAWMEDIA_EXT_AUDIO {
        ok, data := Fread(EXT_SIZE);
        if !ok {
          return ShortExt;
        }
        pid := Int32At(data, 0);
      }
      head := Audio(pid, len);
    }

    /** The audio branch shared by both readers: a product switch empties the buffer, the buffer
        grows at most once by 1 MB, and that is always enough. */
    method ReadAudioBody(pid: int, len: int) returns (code: int)
      requires Valid()
      modifies this, rawAudio
      ensures Valid() && (rawAudio == old(rawAudio) || fresh(rawAudio))
      ensures code == if len <= 0 || len > MAX_AUDIO then -1 else if |old(input)| < len then 0 else 1
      ensures Held() == if code == 1 then old(Held()).Add(pid, old(input)[..len]) else old(Held()).Switch(pid)
      ensures input == if code == 1 then old(input)[len..] else if code == 0 then [] else old(input)
      ensures rawAudio.Length <= old(rawAudio.Length) + MAX_AUDIO
      ensures rawBuffer == old(rawBuffer)
    {
      if pid != productId {
        productId := pid;
        audioSize := 0;
      }
      ghost var held := Held();
      assert held == old(Held()).Switch(pid);
      if len <= 0 || len > MAX_AUDIO {
        return -1;
      }
      if len + audioSize > rawAudio.Length {
        Grow();
      }
      var ok, data := Fread(len);
      assert Held() == held;
      if !ok {
        return 0;
      }
      Append(data);
      code := 1;
    }

    method Append(data: seq<byte>)
      requires Valid() && audioSize + |data| <= rawAudio.Length
      modifies `audioSize, rawAudio
      ensures Valid() && Held() == Sound(old(productId), old(Held()).bytes + data)
    {
      ghost var bytes := rawAudio[..audioSize];
      for i := 0 to |data|
        invariant rawAudio[..audioSize] == bytes
        invariant forall k :: 0 <= k < i ==> rawAudio[audioSize + k] == data[k]
        modifies rawAudio
      {
        rawAudio[audioSize + i] := data[i];
      }
      assert rawAudio[..audioSize + |data|] == bytes + data;
      audioSize := audioSize + |data|;
    }

    method Grow()
      requires Valid()
      modifies `rawAudio
      ensures Valid() && fresh(rawAudio)
      ensures rawAudio.Length == old(rawAudio.Length) + MAX_AUDIO
      ensures Held() == old(Held())
    {
      var bigger := new byte[rawAudio.Length + MAX_AUDIO](_ => 0);
      for i := 0 to rawAudio.Length
        invariant forall k :: 0 <= k < i ==> bigger[k] == rawAudio[k]
        modifies bigger
      {
        bigger[i] := rawAudio[i];
      }
      assert bigger[..audioSize] == rawAudio[..audioSize];
      rawAudio := bigger;
    }

    method StoreFrame(data: seq<byte>)
      requires |data| <= rawBuffer.Length
      modifies rawBuffer
      ensures rawBuffer[..] == data + old(rawBuffer[..])[|data|..]
    {
      for i := 0 to |data|
        invariant forall k :: 0 <= k < i ==> rawBuffer[k] == data[k]
        invariant forall k :: i <= k < rawBuffer.Length ==> rawBuffer[k] == old(rawBuffer[..])[k]
      {
        rawBuffer[i] := data[i];
      }
    }

    /** Reads audio packets into the buffer up to the next video frame, for which there must be room:
        the code reads it into rawBuffer at the size it has. */
    method ReadRawVideoFrame() returns (ret: int, got: bool)
      requires Valid() && 0 < framesize <= rawBuffer.Length
      modifies this, rawAudio, rawBuffer
      ensures Valid() && (rawAudio == old(rawAudio) || fresh(rawAudio)) && rawBuffer == old(rawBuffer)
      ensures var r := NextFrame(audFmt, old(input), old(Held()), framesize);
              && ret == r.ret && Held() == r.sound && input == r.rest
              && got == (r.frame != [])
              && (got ==> rawBuffer[..framesize] == r.frame && rawBuffer[framesize..] == old(rawBuffer[framesize..]))
    {
      hide HeadOf;
      hide Sound.Add;
      hide Sound.Switch;
      got := false;
      ghost var r := NextFrame(audFmt, input, Held(), framesize);
      while audFmt
        invariant Valid() && !got && (rawAudio == old(rawAudio) || fresh(rawAudio))
        invariant rawBuffer == old(rawBuffer) && rawBuffer[..] == old(rawBuffer[..])
        invariant NextFrame(audFmt, input, Held(), framesize) == r
        decreases |input|
      {
        ghost var before, held := input, Held();
        var head := ReadHead();
        assert Held() == held;
        match head {
          case Short => return 0, false;
          case Bad => return -1, false;
          case ShortExt =>
            assert BodyOf(input, Held(), framesize) == r;
            break;
          case Video(len) =>
            if len != framesize {
              return -1, false;
            }
            assert BodyOf(input, Held(), framesize) == r;
            break;
          case Audio(pid, len) =>
            var code := ReadAudioBody(pid, len);
            if code != 1 {
              return code, false;
            }
        }
      }
      assert BodyOf(input, Held(), framesize) == r;
      ghost var held := Held();
      var ok, data := Fread(framesize);
      if !ok {
        assert Held() == held;
        return 0, false;
      }
      StoreFrame(data);
      ret, got := 0, true;
    }

    /** Reads audio packets until the buffer holds maxLength bytes, give or take AUDIO_DELTA. */
    method ReadRawAudioFrame(maxLength: int) returns (ret: int)
      requires Valid()
      modifies this, rawAudio
      ensures Valid() && (rawAudio == old(rawAudio) || fresh(rawAudio))
      ensures var r := if audFmt then ParseAudio(old(input), old(Held()), maxLength)
                       else Read(0, [], old(Held()), old(input));
              ret == r.ret && Held() == r.sound && input == r.rest
      ensures rawBuffer == old(rawBuffer) || fresh(rawBuffer)
      ensures rawBuffer.Length == if audFmt then RoomAfter(old(input), old(Held()), maxLength, old(rawBuffer.Length))
                                  else old(rawBuffer.Length)
    {
      hide HeadOf;
      ret := 0;
      while audFmt
        invariant Valid() && ret == 0 && (rawAudio == old(rawAudio) || fresh(rawAudio))
        invariant audFmt ==> ParseAudio(input, Held(), maxLength) == ParseAudio(old(input), old(Held()), maxLength)
        invariant audFmt ==> RoomAfter(input, Held(), maxLength, rawBuffer.Length)
                             == RoomAfter(old(input), old(Held()), maxLength, old(rawBuffer.Length))
        invariant rawBuffer == old(rawBuffer) || fresh(rawBuffer)
        invariant !audFmt ==> input == old(input) && Held() == old(Held()) && rawBuffer == old(rawBuffer)
        decreases |input|
      {
        ghost var held := Held();
        var head := ReadHead();
        assert Held() == held;
        match head {
          case Short => return 0;
          case Bad => return -1;
          case ShortExt => return 0;
          case Video(len) =>
            if len >= 0 {
              rawBuffer := new byte[len](_ => 0);
            }
            if len <= 0 {
              return -1;
            }
            var ok, _ := Fread(len);
            assert Held() == held;
            if !ok {
              return 0;
            }
          case Audio(pid, len) =>
            if pid != productId {
              rawBuffer := new byte[0];
            }
            assert Held() == held;
            var code := ReadAudioBody(pid, len);
            if code != 1 {
              return code;
            }
            if audioSize + AUDIO_DELTA >= maxLength {
              return 0;
            }
        }
      }
    }

    /** The buffer part of read_audio_data: hands out the oldest bytes and shifts the others
        down in place. */
    method TakeBuffered(wanted: nat) returns (buffer: seq<byte>)
      requires Valid()
      modifies `audioSize, rawAudio
      ensures Valid()
      ensures |buffer| == if wanted == 0 || wanted > |old(Held()).bytes| then |old(Held()).bytes| else wanted
      ensures buffer + Held().bytes == old(Held()).bytes
      ensures productId == old(productId)
    {
      var n := if wanted > audioSize || wanted == 0 then audioSize else wanted;
      buffer := rawAudio[..n];
      ghost var was := rawAudio[..audioSize];
      for i := 0 to audioSize - n
        invariant forall k :: 0 <= k < i ==> rawAudio[k] == was[n + k]
        invariant forall k :: i + n <= k < audioSize ==> rawAudio[k] == was[k]
        modifies rawAudio
      {
        rawAudio[i] := rawAudio[n + i];
      }
      audioSize := audioSize - n;
      assert buffer + rawAudio[..audioSize] == was;
    }

    /** read_audio_data on a raw pipe: nothing without an audio format, else enough from the
        buffer, after reading more if it is too short. */
    method ReadAudioData(wanted: nat) returns (ret: int, buffer: seq<byte>)
      requires Valid()
      modifies this, rawAudio
      ensures Valid() && (rawAudio == old(rawAudio) || fresh(rawAudio))
      ensures rawBuffer == old(rawBuffer) || fresh(rawBuffer)
      ensures var r := NextAudio(audFmt, old(input), old(Held()), wanted);
              && ret == r.ret && input == r.rest && productId == r.sound.pid
              && buffer + Held().bytes == r.sound.bytes
              && |buffer| == if ret < 0 || !audFmt then 0
                             else if wanted == 0 || wanted > |r.sound.bytes| then |r.sound.bytes| else wanted
      ensures Audible(ret, buffer, Held(), input) == ReadAudio(audFmt, old(input), old(Held()), wanted)
    {
      buffer := [];
      ret := 0;
      if !audFmt {
        return;
      }
      if audioSize + AUDIO_DELTA < wanted {
        ret := ReadRawAudioFrame(wanted);
        if ret < 0 {
          return;
        }
      }
      buffer := TakeBuffered(wanted);
    }
  }
}
