/** Bytes and 32-bit words as numbers, and the little-endian bytes of a word. */
module Bytes {

  type byte = x: int | 0 <= x < 0x100
  type word = x: int | 0 <= x < 0x1_0000_0000
  type int32 = x: int | -0x8000_0000 <= x < 0x8000_0000

  function Le32(v: word): (r: seq<byte>)
    ensures |r| == 4
  {
    [v % 0x100, v / 0x100 % 0x100, v / 0x1_0000 % 0x100, v / 0x100_0000]
  }

  function ToWord(b: seq<byte>): word
    requires |b| == 4
  {
    (b[0] as int) + 0x100 * (b[1] as int) + 0x1_0000 * (b[2] as int) + 0x100_0000 * (b[3] as int)
  }

  lemma Le32RoundTrip(v: word)
    ensures ToWord(Le32(v)) == v
  {
    assert v / 0x1_0000 == v / 0x100 / 0x100;
    assert v / 0x100_0000 == v / 0x1_0000 / 0x100;
  }
}
