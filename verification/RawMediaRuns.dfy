/** What the writer frames, the reader gets back: packet by packet, frame by frame. */
module RawMediaRuns {
  import opened Bytes
  import opened RawMedia

  /** An audio packet: a plain one, as Write frames it, or one with a product of its own. */
  datatype Packet = Packet(ext: bool, pid: int32, data: seq<byte>) {
    predicate Valid() {
      1 <= |data| <= MAX_AUDIO && (!ext ==> pid == 0)
    }

    function Bytes(): seq<byte>
      requires Valid()
    {
      if ext then Header(RAWMEDIA_EXT_AUDIO, |data|) + Int32Bytes(pid) + data
      else Framed(data, RAWMEDIA_AUDIO)
    }
  }

  predicate AllValid(pkts: seq<Packet>) {
    forall i :: 0 <= i < |pkts| ==> pkts[i].Valid()
  }

  function Stream(pkts: seq<Packet>): seq<byte>
    requires AllValid(pkts)
  {
    if pkts == [] then [] else pkts[0].Bytes() + Stream(pkts[1..])
  }

  function Absorb(sound: Sound, pkts: seq<Packet>): Sound
    decreases pkts
  {
    if pkts == [] then sound else Absorb(sound.Add(pkts[0].pid, pkts[0].data), pkts[1..])
  }

  function Joined(pkts: seq<Packet>): seq<byte> {
    if pkts == [] then [] else pkts[0].data + Joined(pkts[1..])
  }

  // ---- One packet

  lemma HeaderFields(kind: int32, len: int32, rest: seq<byte>)
    ensures var input := Header(kind, len) + rest;
            && |input| >= HEAD_SIZE && input[HEAD_SIZE..] == rest
            && Int32At(input, 0) == 1 && Int32At(input, 4) == kind && Int32At(input, 8) == len
  {
    var input := Header(kind, len) + rest;
    assert input[0..4] == Int32Bytes(1) && input[4..8] == Int32Bytes(kind) && input[8..12] == Int32Bytes(len);
    Int32RoundTrip(1, input, 0);
    Int32RoundTrip(kind, input, 4);
    Int32RoundTrip(len, input, 8);
  }

  lemma HeadOfPacket(p: Packet, rest: seq<byte>)
    requires p.Valid()
    ensures HeadOf(p.Bytes() + rest) == (Audio(p.pid, |p.data|), p.data + rest)
  {
    hide Header;
    hide Int32At;
    hide Int32Bytes;
    if p.ext {
      var tail := Int32Bytes(p.pid) + (p.data + rest);
      assert p.Bytes() + rest == Header(RAWMEDIA_EXT_AUDIO, |p.data|) + tail;
      HeaderFields(RAWMEDIA_EXT_AUDIO, |p.data|, tail);
      Int32RoundTrip(p.pid, tail, 0);
    } else {
      assert p.Bytes() + rest == Header(RAWMEDIA_AUDIO, |p.data|) + (p.data + rest);
      HeaderFields(RAWMEDIA_AUDIO, |p.data|, p.data + rest);
    }
  }

  lemma HeadOfFrame(frame: seq<byte>, rest: seq<byte>)
    requires |frame| < 0x8000_0000
    ensures HeadOf(Framed(frame, RAWMEDIA_VIDEO) + rest) == (Video(|frame|), frame + rest)
  {
    hide Header;
    hide Int32At;
    assert Framed(frame, RAWMEDIA_VIDEO) + rest == Header(RAWMEDIA_VIDEO, |frame|) + (frame + rest);
    HeaderFields(RAWMEDIA_VIDEO, |frame|, frame + rest);
  }

  // ---- Packets up to a frame

  /** Any audio packets followed by one frame are read back as exactly that frame and the audio
      they carry, and nothing behind the frame is touched. */
  lemma RoundTrip(pkts: seq<Packet>, frame: seq<byte>, sound: Sound, rest: seq<byte>)
    requires AllValid(pkts) && 0 < |frame| < 0x8000_0000
    ensures ParseVideo(Stream(pkts) + (Framed(frame, RAWMEDIA_VIDEO) + rest), sound, |frame|)
            == Read(0, frame, Absorb(sound, pkts), rest)
  {
    hide HeadOf, Packet.Bytes, Framed;
    AfterPackets(pkts, Framed(frame, RAWMEDIA_VIDEO) + rest, sound, |frame|);
    HeadOfFrame(frame, rest);
  }

  /** The buffered audio always belongs to the latest product: it is what arrived since the last
      packet of another product, on top of what was there before if there was no such packet. */
  lemma {:induction false} LatestProduct(sound: Sound, pkts: seq<Packet>, k: nat)
    requires k < |pkts|
    requires forall i :: k <= i < |pkts| ==> pkts[i].pid == pkts[|pkts| - 1].pid
    requires k > 0 ==> pkts[k - 1].pid != pkts[k].pid
    ensures var p := pkts[|pkts| - 1].pid;
            Absorb(sound, pkts) ==
            Sound(p, (if k == 0 && sound.pid == p then sound.bytes else []) + Joined(pkts[k..]))
    decreases pkts
  {
    var p := pkts[|pkts| - 1].pid;
    var next := sound.Add(pkts[0].pid, pkts[0].data);
    if |pkts| == 1 {
      assert pkts[1..] == [] && pkts[k..] == pkts;
      assert Joined(pkts) == pkts[0].data + Joined([]) == pkts[0].data;
    } else if k == 0 {
      LatestProduct(next, pkts[1..], 0);
      assert pkts[0..] == pkts && pkts[1..][0..] == pkts[1..];
      assert next.bytes + Joined(pkts[1..]) == sound.Switch(p).bytes + (pkts[0].data + Joined(pkts[1..]));
    } else {
      LatestProduct(next, pkts[1..], k - 1);
      assert pkts[1..][k - 1..] == pkts[k..];
      assert next.pid == pkts[0].pid;
    }
  }

  // ---- Whole recordings

  datatype Unit = Unit(pkts: seq<Packet>, frame: seq<byte>)

  predicate UnitsValid(units: seq<Unit>, framesize: nat) {
    forall i :: 0 <= i < |units| ==> AllValid(units[i].pkts) && |units[i].frame| == framesize
  }

  function Recording(units: seq<Unit>, framesize: nat): seq<byte>
    requires UnitsValid(units, framesize) && framesize < 0x8000_0000
  {
    if units == [] then []
    else Stream(units[0].pkts) + (Framed(units[0].frame, RAWMEDIA_VIDEO) + Recording(units[1..], framesize))
  }

  /** n times: the next frame, then all the audio buffered by then. */
  function Playback(input: seq<byte>, sound: Sound, framesize: nat, n: nat): seq<(seq<byte>, seq<byte>)>
    decreases n
  {
    if n == 0 then []
    else
      var r := ParseVideo(input, sound, framesize);
      [(r.frame, r.sound.bytes)] + Playback(r.rest, Sound(r.sound.pid, []), framesize, n - 1)
  }

  /** What was written: each frame with the audio of its own packets, of their latest product. */
  function Written(units: seq<Unit>, pid: int): seq<(seq<byte>, seq<byte>)>
    decreases units
  {
    if units == [] then []
    else
      var sound := Absorb(Sound(pid, []), units[0].pkts);
      [(units[0].frame, sound.bytes)] + Written(units[1..], sound.pid)
  }

  /** Playing a recording back gives every frame with exactly the audio written before it. */
  lemma {:induction false} PlaybackIsWhatWasWritten(units: seq<Unit>, framesize: nat, pid: int)
    requires 0 < framesize < 0x8000_0000 && UnitsValid(units, framesize)
    ensures Playback(Recording(units, framesize), Sound(pid, []), framesize, |units|) == Written(units, pid)
    decreases units
  {
    hide ParseVideo;
    hide Framed;
    if units != [] {
      var sound := Absorb(Sound(pid, []), units[0].pkts);
      RoundTrip(units[0].pkts, units[0].frame, Sound(pid, []), Recording(units[1..], framesize));
      PlaybackIsWhatWasWritten(units[1..], framesize, sound.pid);
    }
  }

  // ---- Plain packets

  /** Packets of product 0 just join. */
  lemma {:induction false} PlainAudio(bytes: seq<byte>, pkts: seq<Packet>)
    requires forall i :: 0 <= i < |pkts| ==> pkts[i].pid == 0
    ensures Absorb(Sound(0, bytes), pkts) == Sound(0, bytes + Joined(pkts))
    decreases pkts
  {
    if pkts == [] {
      assert bytes + [] == bytes;
    } else {
      PlainAudio(bytes + pkts[0].data, pkts[1..]);
      assert bytes + pkts[0].data + Joined(pkts[1..]) == bytes + (pkts[0].data + Joined(pkts[1..]));
    }
  }

  /** What Write frames as audio is read back as exactly the concatenated audio, behind what was
      buffered before, and the frame. */
  lemma PlainRoundTrip(pkts: seq<Packet>, frame: seq<byte>, bytes: seq<byte>, rest: seq<byte>)
    requires AllValid(pkts) && (forall i :: 0 <= i < |pkts| ==> !pkts[i].ext) && 0 < |frame| < 0x8000_0000
    ensures ParseVideo(Stream(pkts) + (Framed(frame, RAWMEDIA_VIDEO) + rest), Sound(0, bytes), |frame|)
            == Read(0, frame, Sound(0, bytes + Joined(pkts)), rest)
  {
    hide ParseVideo;
    RoundTrip(pkts, frame, Sound(0, bytes), rest);
    PlainAudio(bytes, pkts);
  }

  // ---- Room for a frame

  /** Audio packets of the product held leave the room for a video frame as it was. */
  lemma {:induction false} OneProductKeepsRoom(pkts: seq<Packet>, sound: Sound, maxLength: int, size: nat)
    requires AllValid(pkts) && forall i :: 0 <= i < |pkts| ==> pkts[i].pid == sound.pid
    ensures RoomAfter(Stream(pkts), sound, maxLength, size) == size
    decreases pkts
  {
    hide HeadOf, Packet.Bytes;
    if pkts == [] {
      EmptyIsShort();
    } else {
      var p, more := pkts[0], Stream(pkts[1..]);
      HeadOfPacket(p, more);
      assert (p.data + more)[..|p.data|] == p.data && (p.data + more)[|p.data|..] == more;
      OneProductKeepsRoom(pkts[1..], sound.Add(p.pid, p.data), maxLength, size);
    }
  }

  lemma EmptyIsShort()
    ensures HeadOf([]) == (Short, [])
  {
  }

  /** One packet of another product takes all of it, and what is discarded after that gives back just
      its own length. */
  lemma SwitchTakesRoom(p: Packet, sound: Sound, maxLength: int, size: nat)
    requires p.Valid() && p.pid != sound.pid
    ensures RoomAfter(p.Bytes(), sound, maxLength, size) == 0
  {
    hide HeadOf, Packet.Bytes;
    HeadOfPacket(p, []);
    EmptyIsShort();
    assert p.Bytes() + [] == p.Bytes() && p.data + [] == p.data;
    assert p.data[..|p.data|] == p.data && p.data[|p.data|..] == [];
  }

  lemma DiscardedFrameSetsRoom(frame: seq<byte>, sound: Sound, maxLength: int, size: nat)
    requires 0 < |frame| < 0x8000_0000
    ensures RoomAfter(Framed(frame, RAWMEDIA_VIDEO), sound, maxLength, size) == |frame|
  {
    hide HeadOf, Framed;
    HeadOfFrame(frame, []);
    EmptyIsShort();
    assert Framed(frame, RAWMEDIA_VIDEO) + [] == Framed(frame, RAWMEDIA_VIDEO) && frame + [] == frame;
    assert frame[|frame|..] == [];
  }

  // ---- The bytes of a packet, and what is not one

  /** Version 1, the kind and the length, each in four bytes, lowest first, and the data behind them. */
  lemma FramedBytes(data: seq<byte>, kind: int32)
    requires |data| < 0x8000_0000 && 0 <= kind <= 3
    ensures kind == 0 ==> Framed(data, kind) == data
    ensures kind != 0 ==> |Framed(data, kind)| == 12 + |data| && Framed(data, kind)[12..] == data
    ensures kind != 0 ==>
              Framed(data, kind)[..12] == [1, 0, 0, 0, kind, 0, 0, 0] +
                [|data| % 0x100, |data| / 0x100 % 0x100, |data| / 0x1_0000 % 0x100, |data| / 0x100_0000]
  {
  }

  /** Reading goes on behind whole audio packets, whatever follows them. */
  lemma {:induction false} AfterPackets(pkts: seq<Packet>, tail: seq<byte>, sound: Sound, framesize: nat)
    requires AllValid(pkts)
    ensures ParseVideo(Stream(pkts) + tail, sound, framesize) == ParseVideo(tail, Absorb(sound, pkts), framesize)
    decreases pkts
  {
    hide HeadOf, Packet.Bytes;
    if pkts == [] {
      assert Stream(pkts) + tail == tail;
    } else {
      var p, more := pkts[0], Stream(pkts[1..]) + tail;
      assert Stream(pkts) + tail == p.Bytes() + more;
      HeadOfPacket(p, more);
      assert (p.data + more)[..|p.data|] == p.data && (p.data + more)[|p.data|..] == more;
      AfterPackets(pkts[1..], tail, sound.Add(p.pid, p.data), framesize);
    }
  }

  /** What is read as a version, a kind and a length, and for kind 3 as a product. */
  predicate Starts(tail: seq<byte>, ver: int, kind: int, len: int, pid: int) {
    && |tail| >= 12 && Int32At(tail, 0) == ver && Int32At(tail, 4) == kind && Int32At(tail, 8) == len
    && if kind == 3 && |tail| >= 16 then Int32At(tail, 12) == pid else pid == 0
  }

  /** Where the data of audio starts. */
  function DataAt(kind: int): nat {
    if kind == 3 then 16 else 12
  }

  lemma ProductAt(tail: seq<byte>)
    requires |tail| >= 16
    ensures Int32At(tail[12..], 0) == Int32At(tail, 12)
  {
    assert tail[12..][0..4] == tail[12..16];
  }

  /** Malformed and cut-off input behind any whole packets: a wrong version, kind or length is an error
      and a missing rest is not, there is no frame, and the audio collected so far stays, unless the
      header names another product. */
  lemma NoFrame(pkts: seq<Packet>, tail: seq<byte>, sound: Sound, framesize: nat, ver: int, kind: int, len: int,
                pid: int)
    requires AllValid(pkts) && (|tail| >= 12 ==> Starts(tail, ver, kind, len, pid))
    ensures var r, held := ParseVideo(Stream(pkts) + tail, sound, framesize), Absorb(sound, pkts);
            && (|tail| < 12 ==> r == Read(0, [], held, []))
            && (|tail| >= 12 && (ver != 1 || kind < 1 || kind > 3) ==> r == Read(-1, [], held, tail[12..]))
            && (|tail| >= 12 && ver == 1 && kind == 1 && len != framesize ==> r == Read(-1, [], held, tail[12..]))
            && (|tail| >= 12 && ver == 1 && kind == 1 && len == framesize > |tail| - 12 ==> r == Read(0, [], held, []))
            && (|tail| >= DataAt(kind) && ver == 1 && 2 <= kind <= 3 && (len <= 0 || len > 1048576) ==>
                  r == Read(-1, [], if pid == held.pid then held else Sound(pid, []), tail[DataAt(kind)..]))
            && (|tail| >= DataAt(kind) && ver == 1 && 2 <= kind <= 3 && |tail| - DataAt(kind) < len <= 1048576 ==>
                  r == Read(0, [], if pid == held.pid then held else Sound(pid, []), []))
  {
    AfterPackets(pkts, tail, sound, framesize);
    if |tail| >= 16 {
      ProductAt(tail);
    }
  }

  /** The same for audio reads. */
  lemma NoAudio(tail: seq<byte>, sound: Sound, wanted: int, ver: int, kind: int, len: int, pid: int)
    requires |tail| >= 12 ==> Starts(tail, ver, kind, len, pid)
    ensures var r := ParseAudio(tail, sound, wanted);
            && (|tail| < 12 ==> r == Read(0, [], sound, []))
            && (|tail| >= 12 && (ver != 1 || kind < 1 || kind > 3) ==> r == Read(-1, [], sound, tail[12..]))
            && (|tail| >= 12 && ver == 1 && kind == 1 && len <= 0 ==> r == Read(-1, [], sound, tail[12..]))
            && (|tail| >= 12 && ver == 1 && kind == 1 && len > |tail| - 12 ==> r == Read(0, [], sound, []))
            && (12 <= |tail| < 16 && ver == 1 && kind == 3 ==> r == Read(0, [], sound, []))
            && (|tail| >= DataAt(kind) && ver == 1 && 2 <= kind <= 3 && (len <= 0 || len > 1048576) ==>
                  r == Read(-1, [], if pid == sound.pid then sound else Sound(pid, []), tail[DataAt(kind)..]))
            && (|tail| >= DataAt(kind) && ver == 1 && 2 <= kind <= 3 && |tail| - DataAt(kind) < len <= 1048576 ==>
                  r == Read(0, [], if pid == sound.pid then sound else Sound(pid, []), []))
  {
    if |tail| >= 16 {
      ProductAt(tail);
    }
  }
}
