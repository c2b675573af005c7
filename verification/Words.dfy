/** Machine words as the bytes they are loaded from: what one masked comparison of a 128-bit word
    says of each of its bytes. */
module Words {
  import opened Bytes

  // ---- A word as its two halves

  function Join16(hi: bv8, lo: bv8): bv16 {
    ((hi as bv16) << 8) | (lo as bv16)
  }

  function Join32(hi: bv16, lo: bv16): bv32 {
    ((hi as bv32) << 16) | (lo as bv32)
  }

  function Join64(hi: bv32, lo: bv32): bv64 {
    ((hi as bv64) << 32) | (lo as bv64)
  }

  function Join128(hi: bv64, lo: bv64): bv128 {
    ((hi as bv128) << 64) | (lo as bv128)
  }

  // ---- Conjunction, by name so that proofs about sequences need not look inside words

  function And8(a: bv8, b: bv8): bv8 {
    a & b
  }

  function And16(a: bv16, b: bv16): bv16 {
    a & b
  }

  function And32(a: bv32, b: bv32): bv32 {
    a & b
  }

  function And64(a: bv64, b: bv64): bv64 {
    a & b
  }

  function And128(a: bv128, b: bv128): bv128 {
    a & b
  }

  lemma Halves16(a: bv8, b: bv8, c: bv8, d: bv8)
    ensures Join16(a, b) == Join16(c, d) <==> a == c && b == d
    ensures And16(Join16(a, b), Join16(c, d)) == Join16(And8(a, c), And8(b, d))
  {
  }

  lemma Halves32(a: bv16, b: bv16, c: bv16, d: bv16)
    ensures Join32(a, b) == Join32(c, d) <==> a == c && b == d
    ensures And32(Join32(a, b), Join32(c, d)) == Join32(And16(a, c), And16(b, d))
  {
  }

  lemma Halves64(a: bv32, b: bv32, c: bv32, d: bv32)
    ensures Join64(a, b) == Join64(c, d) <==> a == c && b == d
    ensures And64(Join64(a, b), Join64(c, d)) == Join64(And32(a, c), And32(b, d))
  {
  }

  lemma Halves128(a: bv64, b: bv64, c: bv64, d: bv64)
    ensures Join128(a, b) == Join128(c, d) <==> a == c && b == d
    ensures And128(Join128(a, b), Join128(c, d)) == Join128(And64(a, c), And64(b, d))
  {
  }

  // ---- Little-endian loads

  function Load16(s: seq<bv8>): bv16
    requires |s| == 2
  {
    Join16(s[1], s[0])
  }

  function Load32(s: seq<bv8>): bv32
    requires |s| == 4
  {
    Join32(Load16(s[2..]), Load16(s[..2]))
  }

  function Load64(s: seq<bv8>): bv64
    requires |s| == 8
  {
    Join64(Load32(s[4..]), Load32(s[..4]))
  }

  function Load128(s: seq<bv8>): bv128
    requires |s| == 16
  {
    Join128(Load64(s[8..]), Load64(s[..8]))
  }

  /** The conjunction of two rows of bytes. */
  function Both(s: seq<bv8>, t: seq<bv8>): (r: seq<bv8>)
    requires |s| == |t|
    ensures |r| == |s| && forall i :: 0 <= i < |s| ==> r[i] == And8(s[i], t[i])
  {
    seq(|s|, i requires 0 <= i < |s| => And8(s[i], t[i]))
  }

  lemma Split(s: seq<bv8>, t: seq<bv8>, n: nat)
    requires |s| == |t| && n <= |s|
    ensures s == t <==> s[..n] == t[..n] && s[n..] == t[n..]
    ensures Both(s, t)[..n] == Both(s[..n], t[..n]) && Both(s, t)[n..] == Both(s[n..], t[n..])
  {
    assert s == s[..n] + s[n..] && t == t[..n] + t[n..];
  }

  lemma Pair(s: seq<bv8>, t: seq<bv8>)
    requires |s| == |t| == 2
    ensures Load16(s) == Load16(t) <==> s == t
    ensures And16(Load16(s), Load16(t)) == Load16(Both(s, t))
  {
    hide Join16, And8, And16;
    Halves16(s[1], s[0], t[1], t[0]);
  }

  lemma Quad(s: seq<bv8>, t: seq<bv8>)
    requires |s| == |t| == 4
    ensures Load32(s) == Load32(t) <==> s == t
    ensures And32(Load32(s), Load32(t)) == Load32(Both(s, t))
  {
    hide Join32, And8, And32, And16, Load16;
    Split(s, t, 2);
    Pair(s[..2], t[..2]);
    Pair(s[2..], t[2..]);
    Halves32(Load16(s[2..]), Load16(s[..2]), Load16(t[2..]), Load16(t[..2]));
  }

  lemma Octet(s: seq<bv8>, t: seq<bv8>)
    requires |s| == |t| == 8
    ensures Load64(s) == Load64(t) <==> s == t
    ensures And64(Load64(s), Load64(t)) == Load64(Both(s, t))
  {
    hide Join64, And64, And32, Load32;
    Split(s, t, 4);
    Quad(s[..4], t[..4]);
    Quad(s[4..], t[4..]);
    Halves64(Load32(s[4..]), Load32(s[..4]), Load32(t[4..]), Load32(t[..4]));
  }

  /** A load loses nothing, and the conjunction of two words is that of their bytes. */
  lemma WordIsItsBytes(s: seq<bv8>, t: seq<bv8>)
    requires |s| == |t| == 16
    ensures Load128(s) == Load128(t) <==> s == t
    ensures And128(Load128(s), Load128(t)) == Load128(Both(s, t))
  {
    hide Join128, And8, And128, And64, Load64;
    Split(s, t, 8);
    Octet(s[..8], t[..8]);
    Octet(s[8..], t[8..]);
    Halves128(Load64(s[8..]), Load64(s[..8]), Load64(t[8..]), Load64(t[..8]));
  }

  // ---- Words of equal bytes

  function Fill(b: bv8, n: nat): (r: seq<bv8>)
    ensures |r| == n && forall i :: 0 <= i < n ==> r[i] == b
  {
    seq(n, i requires 0 <= i < n => b)
  }

  /** Joining two words of zeros gives zeros, two words of ones gives ones. */
  lemma Uniform()
    ensures Join16(0, 0) == 0 && Join16(0xff, 0xff) == 0xffff
    ensures Join32(0, 0) == 0 && Join32(0xffff, 0xffff) == 0xffff_ffff
    ensures Join64(0, 0) == 0 && Join64(0xffff_ffff, 0xffff_ffff) == 0xffff_ffff_ffff_ffff
    ensures Join128(0, 0) == 0
    ensures Join128(0xffff_ffff_ffff_ffff, 0xffff_ffff_ffff_ffff) == 0xffff_ffff_ffff_ffff_ffff_ffff_ffff_ffff
  {
  }

  lemma UniformLoad64(b: bv8, s: seq<bv8>)
    requires b == 0 || b == 0xff
    requires |s| == 8 && s == Fill(b, 8)
    ensures Load64(s) == if b == 0 then 0 else 0xffff_ffff_ffff_ffff
  {
    hide Join16, Join32, Join64, Join128;
    Uniform();
  }

  lemma UniformLoad128(b: bv8, s: seq<bv8>)
    requires b == 0 || b == 0xff
    requires |s| == 16 && s == Fill(b, 16)
    ensures Load128(s) == if b == 0 then 0 else 0xffff_ffff_ffff_ffff_ffff_ffff_ffff_ffff
  {
    hide Join16, Join32, Join64, Join128, Load64;
    Uniform();
    assert s[..8] == Fill(b, 8) && s[8..] == Fill(b, 8);
    UniformLoad64(b, s[..8]);
    UniformLoad64(b, s[8..]);
  }

  // ---- The tests of the compositing loops

  const ONES64: bv64 := 0xffff_ffff_ffff_ffff
  const ONES128: bv128 := 0xffff_ffff_ffff_ffff_ffff_ffff_ffff_ffff

  /** The alpha bytes of four pixels. */
  const MASK1: bv128 :=
    ((0xff as bv128) << 120) + ((0xff as bv128) << 88) + ((0xff as bv128) << 56) + ((0xff as bv128) << 24)

  function AlphaBytes(): (r: seq<bv8>)
    ensures |r| == 16 && forall i :: 0 <= i < 16 ==> r[i] == if i % 4 == 3 then 0xff else 0
  {
    seq(16, i requires 0 <= i < 16 => if i % 4 == 3 then 0xff as bv8 else 0)
  }

  lemma JoinAlpha()
    ensures Join16(0xff, 0) == 0xff00 && Join16(0, 0) == 0 && Join32(0xff00, 0) == 0xff00_0000
    ensures Join64(0xff00_0000, 0xff00_0000) == 0xff00_0000_ff00_0000
    ensures Join128(0xff00_0000_ff00_0000, 0xff00_0000_ff00_0000) == MASK1
  {
  }

  lemma AlphaHalf(s: seq<bv8>)
    requires |s| == 8 && forall i :: 0 <= i < 8 ==> s[i] == if i % 4 == 3 then 0xff else 0
    ensures Load64(s) == 0xff00_0000_ff00_0000
  {
    hide Join16, Join32, Join64, Join128, MASK1;
    JoinAlpha();
    assert s == [0, 0, 0, 0xff, 0, 0, 0, 0xff];
  }

  lemma AlphaWord()
    ensures Load128(AlphaBytes()) == MASK1
  {
    hide Join16, Join32, Join64, Join128, MASK1, Load64;
    JoinAlpha();
    AlphaHalf(AlphaBytes()[..8]);
    AlphaHalf(AlphaBytes()[8..]);
  }

  lemma AndByte(a: bv8)
    ensures And8(a, 0xff) == a && And8(a, 0) == 0
  {
  }

  // ---- Bytes as numbers

  function Bits(s: seq<byte>): (r: seq<bv8>)
    ensures |r| == |s| && forall i :: 0 <= i < |s| ==> r[i] == s[i] as bv8
  {
    seq(|s|, i requires 0 <= i < |s| => s[i] as bv8)
  }

  lemma ZeroBits(x: byte)
    ensures x as bv8 == 0 <==> x == 0
  {
  }

  lemma OneBits(x: byte)
    ensures x as bv8 == 0xff <==> x == 255
  {
  }

  function Word128(s: seq<byte>): bv128
    requires |s| == 16
  {
    Load128(Bits(s))
  }

  function Word64(s: seq<byte>): bv64
    requires |s| == 8
  {
    Load64(Bits(s))
  }

  lemma EveryBits(s: seq<byte>)
    ensures forall i :: 0 <= i < |s| ==> (Bits(s)[i] == 0 <==> s[i] == 0)
    ensures forall i :: 0 <= i < |s| ==> (Bits(s)[i] == 0xff <==> s[i] == 255)
  {
    forall i | 0 <= i < |s| ensures (Bits(s)[i] == 0 <==> s[i] == 0) && (Bits(s)[i] == 0xff <==> s[i] == 255) {
      ZeroBits(s[i]);
      OneBits(s[i]);
    }
  }

  ghost predicate AlphaIs(s: seq<byte>, a: byte) {
    forall i :: 0 <= i < |s| && i % 4 == 3 ==> s[i] == a
  }

  ghost predicate AllAre(s: seq<byte>, a: byte) {
    forall i :: 0 <= i < |s| ==> s[i] == a
  }

  lemma AlphaBits(s: seq<bv8>)
    requires |s| == 16
    ensures And128(Load128(s), MASK1) == MASK1 <==> forall i :: 0 <= i < 16 && i % 4 == 3 ==> s[i] == 0xff
    ensures And128(Load128(s), MASK1) == 0 <==> forall i :: 0 <= i < 16 && i % 4 == 3 ==> s[i] == 0
  {
    hide Load128, MASK1, And128, And8;
    var m := Both(s, AlphaBytes());
    AlphaWord();
    WordIsItsBytes(s, AlphaBytes());
    WordIsItsBytes(m, AlphaBytes());
    WordIsItsBytes(m, Fill(0, 16));
    UniformLoad128(0, Fill(0, 16));
    forall i | 0 <= i < 16 ensures m[i] == if i % 4 == 3 then s[i] else 0 {
      AndByte(s[i]);
    }
  }

  lemma MaskBits128(s: seq<bv8>)
    requires |s| == 16
    ensures Load128(s) == ONES128 <==> forall i :: 0 <= i < 16 ==> s[i] == 0xff
    ensures Load128(s) == 0 <==> forall i :: 0 <= i < 16 ==> s[i] == 0
  {
    hide Load128;
    WordIsItsBytes(s, Fill(0xff, 16));
    WordIsItsBytes(s, Fill(0, 16));
    UniformLoad128(0, Fill(0, 16));
    UniformLoad128(0xff, Fill(0xff, 16));
  }

  lemma MaskBits64(s: seq<bv8>)
    requires |s| == 8
    ensures Load64(s) == ONES64 <==> forall i :: 0 <= i < 8 ==> s[i] == 0xff
    ensures Load64(s) == 0 <==> forall i :: 0 <= i < 8 ==> s[i] == 0
  {
    hide Load64;
    Octet(s, Fill(0xff, 8));
    Octet(s, Fill(0, 8));
    UniformLoad64(0, Fill(0, 8));
    UniformLoad64(0xff, Fill(0xff, 8));
  }

  /** Masking the word of four pixels leaves the whole mask exactly when all four are solid, and
      nothing exactly when all four are clear. */
  lemma AlphaTest(s: seq<byte>)
    requires |s| == 16
    ensures And128(Word128(s), MASK1) == MASK1 <==> AlphaIs(s, 255)
    ensures And128(Word128(s), MASK1) == 0 <==> AlphaIs(s, 0)
  {
    hide Load128, MASK1, And128, Bits;
    AlphaBits(Bits(s));
    EveryBits(s);
  }

  /** A word is all ones, or zero, exactly when each of its bytes is. */
  lemma MaskTest128(s: seq<byte>)
    requires |s| == 16
    ensures Word128(s) == ONES128 <==> AllAre(s, 255)
    ensures Word128(s) == 0 <==> AllAre(s, 0)
  {
    hide Load128, Bits;
    MaskBits128(Bits(s));
    EveryBits(s);
  }

  lemma MaskTest64(s: seq<byte>)
    requires |s| == 8
    ensures Word64(s) == ONES64 <==> AllAre(s, 255)
    ensures Word64(s) == 0 <==> AllAre(s, 0)
  {
    hide Load64, Bits;
    MaskBits64(Bits(s));
    EveryBits(s);
  }
}
