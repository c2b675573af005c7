/** What audio reads make of a raw pipe: every byte of audio comes out, in order and once, however the
    reads are spaced and whatever video lies in between; and a read takes no more packets than it
    needs. */
module RawAudioRuns {
  import opened Bytes
  import opened RawMedia
  import opened RawMediaRuns

  // ---- The audio of an input

  /** The data of its complete audio packets, joined. */
  function AudioIn(input: seq<byte>): seq<byte>
    decreases |input|
  {
    var (head, rest) := HeadOf(input);
    match head
    case Audio(_, len) =>
      if len <= 0 || len > 1048576 then AudioIn(rest)
      else if |rest| < len then []
      else rest[..len] + AudioIn(rest[len..])
    case Video(len) =>
      if len <= 0 then AudioIn(rest)
      else if |rest| < len then []
      else AudioIn(rest[len..])
    case Bad => AudioIn(rest)
    case _ => []
  }

  /** Every audio header is of this product. */
  predicate OneProduct(input: seq<byte>, pid: int)
    decreases |input|
  {
    var (head, rest) := HeadOf(input);
    match head
    case Audio(p, len) =>
      && p == pid
      && if len <= 0 || len > 1048576 then OneProduct(rest, pid)
         else |rest| < len || OneProduct(rest[len..], pid)
    case Video(len) =>
      if len <= 0 then OneProduct(rest, pid) else |rest| < len || OneProduct(rest[len..], pid)
    case Bad => OneProduct(rest, pid)
    case _ => true
  }

  /** No header has a wrong version or kind, or a length out of range; the last packet may be cut off. */
  predicate Sane(input: seq<byte>)
    decreases |input|
  {
    var (head, rest) := HeadOf(input);
    match head
    case Audio(_, len) => 0 < len <= 1048576 && (|rest| < len || Sane(rest[len..]))
    case Video(len) => 0 < len && (|rest| < len || Sane(rest[len..]))
    case Bad => false
    case _ => true
  }

  // ---- One read

  lemma Joins(a: seq<byte>, b: seq<byte>, c: seq<byte>)
    ensures a + (b + c) == (a + b) + c
  {
  }

  lemma EmptyInput()
    ensures AudioIn([]) == [] && Sane([]) && forall pid :: OneProduct([], pid)
  {
  }

  /** Reading moves audio from the input to the end of the buffer and loses none. */
  lemma {:induction false} ParseKeepsAudio(input: seq<byte>, sound: Sound, maxLength: int)
    requires OneProduct(input, sound.pid)
    ensures var r := ParseAudio(input, sound, maxLength);
            && r.sound.pid == sound.pid && OneProduct(r.rest, sound.pid)
            && r.sound.bytes + AudioIn(r.rest) == sound.bytes + AudioIn(input)
    decreases |input|
  {
    hide HeadOf;
    var (head, rest) := HeadOf(input);
    EmptyInput();
    match head
    case Video(len) =>
      if 0 < len <= |rest| {
        ParseKeepsAudio(rest[len..], sound, maxLength);
      }
    case Audio(pid, len) =>
      if 0 < len <= |rest| && len <= 1048576 {
        var next := sound.Add(pid, rest[..len]);
        Joins(sound.bytes, rest[..len], AudioIn(rest[len..]));
        assert next.bytes + AudioIn(rest[len..]) == sound.bytes + AudioIn(input);
        if |next.bytes| + AUDIO_DELTA < maxLength {
          ParseKeepsAudio(rest[len..], next, maxLength);
        }
      }
    case Short => ShortLeavesNothing(input);
    case ShortExt => ShortLeavesNothing(input);
    case Bad =>
  }

  lemma ShortLeavesNothing(input: seq<byte>)
    requires HeadOf(input).0.Short? || HeadOf(input).0.ShortExt?
    ensures HeadOf(input).1 == []
  {
  }

  /** A sane input is read with code 0 and stays sane. */
  lemma {:induction false} SaneIsRead(input: seq<byte>, sound: Sound, maxLength: int)
    requires Sane(input)
    ensures var r := ParseAudio(input, sound, maxLength); r.ret == 0 && Sane(r.rest)
    decreases |input|
  {
    hide HeadOf;
    var (head, rest) := HeadOf(input);
    EmptyInput();
    match head
    case Video(len) =>
      if len <= |rest| {
        SaneIsRead(rest[len..], sound, maxLength);
      }
    case Audio(pid, len) =>
      if len <= |rest| {
        SaneIsRead(rest[len..], sound.Add(pid, rest[..len]), maxLength);
      }
    case Short => ShortLeavesNothing(input);
    case ShortExt => ShortLeavesNothing(input);
    case Bad =>
  }

  /** One call of read_audio_data: what it hands out, what it keeps and the audio still to come are
      what was buffered and the audio that was to come. */
  lemma ReadKeepsAudio(input: seq<byte>, sound: Sound, wanted: nat)
    requires OneProduct(input, sound.pid)
    ensures var r := ReadAudio(true, input, sound, wanted);
            && r.sound.pid == sound.pid && OneProduct(r.rest, sound.pid)
            && r.buffer + (r.sound.bytes + AudioIn(r.rest)) == sound.bytes + AudioIn(input)
            && (Sane(input) ==> r.ret == 0 && Sane(r.rest))
  {
    hide ParseAudio, AudioIn, OneProduct, Sane;
    var r, a := NextAudio(true, input, sound, wanted), ReadAudio(true, input, sound, wanted);
    ParseKeepsAudio(input, sound, wanted);
    if Sane(input) {
      SaneIsRead(input, sound, wanted);
    }
    assert a.buffer + a.sound.bytes == r.sound.bytes;
    Joins(a.buffer, a.sound.bytes, AudioIn(a.rest));
  }

  // ---- Any sequence of reads

  function ReadAll(input: seq<byte>, sound: Sound, wants: seq<nat>): Audible {
    if wants == [] then Audible(0, [], sound, input)
    else
      var before := ReadAll(input, sound, wants[..|wants| - 1]);
      var r := ReadAudio(true, before.rest, before.sound, wants[|wants| - 1]);
      r.(buffer := before.buffer + r.buffer)
  }

  /** Over any sequence of reads the bytes handed out, joined, then what stays buffered, then the audio
      of the input left, are what was buffered before and the audio of the input. */
  lemma {:induction false} ReadsKeepAudio(input: seq<byte>, sound: Sound, wants: seq<nat>)
    requires OneProduct(input, sound.pid)
    ensures var r := ReadAll(input, sound, wants);
            && r.sound.pid == sound.pid && OneProduct(r.rest, sound.pid)
            && r.buffer + (r.sound.bytes + AudioIn(r.rest)) == sound.bytes + AudioIn(input)
            && (Sane(input) ==> r.ret == 0 && Sane(r.rest))
    decreases |wants|
  {
    hide ReadAudio, AudioIn, OneProduct, Sane;
    if wants == [] {
      assert [] + (sound.bytes + AudioIn(input)) == sound.bytes + AudioIn(input);
    } else {
      var before := ReadAll(input, sound, wants[..|wants| - 1]);
      ReadsKeepAudio(input, sound, wants[..|wants| - 1]);
      ReadKeepsAudio(before.rest, before.sound, wants[|wants| - 1]);
      var r := ReadAudio(true, before.rest, before.sound, wants[|wants| - 1]);
      Joins(before.buffer, r.buffer, r.sound.bytes + AudioIn(r.rest));
    }
  }

  // ---- Packets and frames

  datatype Item = Sounds(packet: Packet) | Picture(frame: seq<byte>) {
    predicate Valid() {
      match this
      case Sounds(p) => p.Valid()
      case Picture(frame) => 0 < |frame| < 0x8000_0000
    }

    function Bytes(): seq<byte>
      requires Valid()
    {
      match this
      case Sounds(p) => p.Bytes()
      case Picture(frame) => Framed(frame, RAWMEDIA_VIDEO)
    }

    function Audio(): seq<byte> {
      if Sounds? then packet.data else []
    }
  }

  predicate ItemsValid(items: seq<Item>) {
    forall i :: 0 <= i < |items| ==> items[i].Valid()
  }

  function StreamOf(items: seq<Item>): seq<byte>
    requires ItemsValid(items)
  {
    if items == [] then [] else items[0].Bytes() + StreamOf(items[1..])
  }

  function AudioOf(items: seq<Item>): seq<byte> {
    if items == [] then [] else items[0].Audio() + AudioOf(items[1..])
  }

  predicate ItemsOf(items: seq<Item>, pid: int) {
    forall i :: 0 <= i < |items| && items[i].Sounds? ==> items[i].packet.pid == pid
  }

  /** What the reader finds at the front of such a stream. */
  lemma HeadOfItem(item: Item, more: seq<byte>)
    requires item.Valid()
    ensures match item
            case Sounds(p) => HeadOf(item.Bytes() + more) == (Audio(p.pid, |p.data|), p.data + more)
            case Picture(f) => HeadOf(item.Bytes() + more) == (Video(|f|), f + more)
  {
    hide HeadOf, Packet.Bytes, Framed;
    match item
    case Sounds(p) => HeadOfPacket(p, more);
    case Picture(f) => HeadOfFrame(f, more);
  }

  /** One item at the front. */
  lemma AudioInItem(item: Item, more: seq<byte>, pid: int)
    requires item.Valid() && (item.Sounds? ==> item.packet.pid == pid)
    ensures AudioIn(item.Bytes() + more) == item.Audio() + AudioIn(more)
    ensures OneProduct(item.Bytes() + more, pid) == OneProduct(more, pid)
    ensures Sane(item.Bytes() + more) == Sane(more)
  {
    hide HeadOf, Item.Bytes, Packet.Bytes;
    HeadOfItem(item, more);
    match item
    case Sounds(p) => assert (p.data + more)[..|p.data|] == p.data && (p.data + more)[|p.data|..] == more;
    case Picture(f) =>
      assert (f + more)[|f|..] == more;
      assert [] + AudioIn(more) == AudioIn(more);
  }

  /** The audio of a stream is that of its packets, joined; it is sane. */
  lemma {:induction false} StreamAudio(items: seq<Item>, pid: int)
    requires ItemsValid(items) && ItemsOf(items, pid)
    ensures AudioIn(StreamOf(items)) == AudioOf(items)
    ensures OneProduct(StreamOf(items), pid) && Sane(StreamOf(items))
    decreases items
  {
    hide AudioIn, OneProduct, Sane, Item.Bytes, Item.Audio;
    if items == [] {
      EmptyInput();
    } else {
      StreamAudio(items[1..], pid);
      AudioInItem(items[0], StreamOf(items[1..]), pid);
    }
  }

  // ---- How far a read goes

  /** The buffer after an item. */
  function HearOne(sound: Sound, item: Item): Sound {
    match item
    case Sounds(p) => sound.Add(p.pid, p.data)
    case Picture(_) => sound
  }

  function Hear(sound: Sound, items: seq<Item>): Sound
    decreases items
  {
    if items == [] then sound else Hear(HearOne(sound, items[0]), items[1..])
  }

  function PacketsOf(items: seq<Item>): seq<Packet> {
    if items == [] then []
    else (match items[0] case Sounds(p) => [p] case Picture(_) => []) + PacketsOf(items[1..])
  }

  /** What is buffered is what a reader of frames would have of the same packets: it is what
      LatestProduct says. */
  lemma {:induction false} HearIsAbsorb(sound: Sound, items: seq<Item>)
    ensures Hear(sound, items) == Absorb(sound, PacketsOf(items))
    decreases items
  {
    if items != [] {
      HearIsAbsorb(HearOne(sound, items[0]), items[1..]);
      if items[0].Sounds? {
        assert ([items[0].packet] + PacketsOf(items[1..]))[1..] == PacketsOf(items[1..]);
      } else {
        assert [] + PacketsOf(items[1..]) == PacketsOf(items[1..]);
      }
    }
  }

  /** Of one product it is just joined. */
  lemma {:induction false} HearOneProduct(sound: Sound, items: seq<Item>)
    requires ItemsOf(items, sound.pid)
    ensures Hear(sound, items) == Sound(sound.pid, sound.bytes + AudioOf(items))
    decreases items
  {
    if items == [] {
      assert sound.bytes + [] == sound.bytes;
    } else {
      assert sound.bytes + [] == sound.bytes;
      HearOneProduct(HearOne(sound, items[0]), items[1..]);
      Joins(sound.bytes, items[0].Audio(), AudioOf(items[1..]));
    }
  }

  lemma HearMore(sound: Sound, items: seq<Item>, n: nat)
    requires 0 < n <= |items|
    ensures Hear(sound, items[..n]) == Hear(HearOne(sound, items[0]), items[1..][..n - 1])
  {
    assert items[..n][1..] == items[1..][..n - 1];
  }

  /** The first n items make the buffer long enough, give or take 64 bytes. */
  predicate Reaches(sound: Sound, items: seq<Item>, n: nat, wanted: int)
    requires n <= |items|
  {
    |Hear(sound, items[..n]).bytes| + 64 >= wanted
  }

  /** Reading takes an item, and stops behind it if it is audio and the buffer is long enough then. */
  lemma ParsesItem(item: Item, more: seq<byte>, sound: Sound, wanted: int)
    requires item.Valid() && |sound.bytes| + 64 < wanted
    ensures var next := HearOne(sound, item);
            ParseAudio(item.Bytes() + more, sound, wanted)
            == if |next.bytes| + 64 >= wanted then Read(0, [], next, more) else ParseAudio(more, next, wanted)
  {
    hide HeadOf, Item.Bytes, Packet.Bytes;
    HeadOfItem(item, more);
    match item
    case Sounds(p) => assert (p.data + more)[..|p.data|] == p.data && (p.data + more)[|p.data|..] == more;
    case Picture(f) => assert (f + more)[|f|..] == more;
  }

  /** Reading stops at the least number of items, of any products, that reaches the length, or at the
      end. */
  lemma {:induction false} ParsesLeast(items: seq<Item>, sound: Sound, wanted: int) returns (n: nat)
    requires ItemsValid(items) && |sound.bytes| + 64 < wanted
    ensures n <= |items| && (Reaches(sound, items, n, wanted) || n == |items|)
    ensures forall m :: 0 <= m < n ==> !Reaches(sound, items, m, wanted)
    ensures ParseAudio(StreamOf(items), sound, wanted) == Read(0, [], Hear(sound, items[..n]), StreamOf(items[n..]))
    decreases items
  {
    hide ParseAudio, HearOne, Item.Bytes;
    assert items[..0] == [];
    if items == [] {
      n := 0;
      ParseEmpty(sound, wanted);
    } else {
      var next := HearOne(sound, items[0]);
      ParsesItem(items[0], StreamOf(items[1..]), sound, wanted);
      assert items[1..][..0] == [];
      if |next.bytes| + 64 >= wanted {
        n := 1;
        HearMore(sound, items, 1);
      } else {
        var k := ParsesLeast(items[1..], next, wanted);
        n := k + 1;
        HearMore(sound, items, n);
        assert items[n..] == items[1..][k..];
        forall m | 0 < m < n ensures !Reaches(sound, items, m, wanted) {
          HearMore(sound, items, m);
          assert !Reaches(next, items[1..], m - 1, wanted);
        }
      }
    }
  }

  lemma ParseEmpty(sound: Sound, wanted: int)
    ensures ParseAudio([], sound, wanted) == Read(0, [], sound, [])
  {
  }

  /** One call of read_audio_data on such a stream consumes the least number of items, n, that brings
      the buffer within 64 bytes of what is wanted, or all of them, and hands out the oldest bytes, as
      many as wanted; at the end of the input, all the rest. The code is 0. */
  lemma ReadsLeast(items: seq<Item>, sound: Sound, wanted: nat) returns (n: nat)
    requires ItemsValid(items)
    ensures n <= |items| && (Reaches(sound, items, n, wanted) || n == |items|)
    ensures forall m :: 0 <= m < n ==> !Reaches(sound, items, m, wanted)
    ensures var r, held := ReadAudio(true, StreamOf(items), sound, wanted), Hear(sound, items[..n]);
            && r.ret == 0 && r.rest == StreamOf(items[n..]) && r.sound.pid == held.pid
            && r.buffer + r.sound.bytes == held.bytes
            && |r.buffer| == (if wanted == 0 || wanted > |held.bytes| then |held.bytes| else wanted)
            && (|r.buffer| + 64 < wanted ==> r.rest == [] && r.sound.bytes == [] && n == |items|)
    ensures ItemsOf(items, sound.pid) ==>
              Hear(sound, items[..n]) == Sound(sound.pid, sound.bytes + AudioOf(items[..n]))
  {
    hide ParseAudio, StreamOf;
    if |sound.bytes| + 64 >= wanted {
      n := 0;
      assert items[..0] == [] && items[0..] == items;
    } else {
      n := ParsesLeast(items, sound, wanted);
    }
    if n == |items| {
      NothingLeft(items, n);
    }
    if ItemsOf(items, sound.pid) {
      HearOneProduct(sound, items[..n]);
    }
  }

  lemma NothingLeft(items: seq<Item>, n: nat)
    requires n == |items|
    ensures items[n..] == [] && StreamOf([]) == []
  {
  }
}
