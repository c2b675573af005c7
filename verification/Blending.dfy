/** The rule for one channel of one pixel when an image is laid over another. */
module Blending {
  import opened Bytes
  import opened Pacing
  import opened Products

  /** The blend: alpha of the source and the rest of the destination, rounded down. */
  function Blend(d: byte, a: byte, s: byte): byte {
    BlendBounds(d, a, s);
    ((255 - a) * d + a * s) / 255
  }

  /** The rule of a masked image: nearly solid is solid, nearly clear is clear. */
  function Masked(d: byte, a: byte, s: byte): byte {
    if a > 240 then s else if a > 10 then Blend(d, a, s) else d
  }

  lemma BlendBounds(d: byte, a: byte, s: byte)
    ensures 255 * (if d <= s then d else s) <= (255 - a) * d + a * s <= 255 * (if d <= s then s else d)
  {
    assert (255 - a) * d == 255 * d - a * d && (255 - a) * s == 255 * s - a * s;
    if d <= s {
      Scale(d, s, a);
      Scale(d, s, 255 - a);
    } else {
      Scale(s, d, a);
      Scale(s, d, 255 - a);
    }
  }

  /** r is the weighted mean of d and s, rounded down. */
  predicate RoundedDown(d: byte, a: byte, s: byte, r: byte) {
    255 * r <= (255 - a) * d + a * s < 255 * r + 255
  }

  /** What the two rules are, in numbers. */
  lemma BlendIsRoundedDown(d: byte, a: byte, s: byte)
    ensures RoundedDown(d, a, s, Blend(d, a, s))
  {
  }

  lemma MaskedRule(d: byte, a: byte, s: byte)
    ensures a > 240 ==> Masked(d, a, s) == s
    ensures 10 < a <= 240 ==> RoundedDown(d, a, s, Masked(d, a, s))
    ensures a <= 10 ==> Masked(d, a, s) == d
  {
    hide Blend;
    BlendIsRoundedDown(d, a, s);
  }

  /** No other byte is. */
  lemma RoundedDownIsOne(d: byte, a: byte, s: byte, r: byte, r': byte)
    requires RoundedDown(d, a, s, r) && RoundedDown(d, a, s, r')
    ensures r == r'
  {
  }

  /** A channel ends between what it was and what is laid over it: all the one at alpha 0, all the
      other at 255. */
  lemma BlendBetween(d: byte, a: byte, s: byte)
    ensures if d <= s then d <= Blend(d, a, s) <= s else s <= Blend(d, a, s) <= d
    ensures Blend(d, 0, s) == d && Blend(d, 255, s) == s
  {
    BlendBounds(d, a, s);
  }

  /** The thresholds of the masked rule cost at most 14 of 255 in any channel. */
  lemma MaskedIsNear(d: byte, a: byte, s: byte)
    ensures -14 <= Masked(d, a, s) - Blend(d, a, s) <= 14
  {
    assert (255 - a) * d == 255 * d - a * d;
    if a > 240 {
      assert (255 - a) * d + a * s == 255 * s + (255 - a) * (d - s);
      Scale(-255, d - s, 255 - a);
      Scale(d - s, 255, 255 - a);
    } else if a <= 10 {
      assert (255 - a) * d + a * s == 255 * d + a * (s - d);
      Scale(-255, s - d, a);
      Scale(s - d, 255, a);
    }
  }

  /** The more alpha, the nearer to what is laid over. */
  lemma MoreAlphaIsNearer(d: byte, a: byte, b: byte, s: byte)
    requires a <= b
    ensures if d <= s then Blend(d, a, s) <= Blend(d, b, s) else Blend(d, b, s) <= Blend(d, a, s)
  {
    assert (255 - a) * d + a * s == 255 * d + a * (s - d);
    assert (255 - b) * d + b * s == 255 * d + b * (s - d);
    if d <= s {
      Scale(a, b, s - d);
    } else {
      Scale(a, b, d - s);
    }
  }

  /** The code adds two float products. However they are rounded, as long as the sum is off by less
      than 1/255, what is stored is the blend, or one less when the exact value is a whole number. */
  lemma CloseEvaluation(d: byte, a: byte, s: byte, v: real)
    requires var exact := ((255 - a) * d + a * s) as real / 255.0; -1.0 / 255.0 < v - exact < 1.0 / 255.0
    ensures Trunc(v) == Blend(d, a, s) || (Trunc(v) == Blend(d, a, s) - 1 && ((255 - a) * d + a * s) % 255 == 0)
  {
    BlendBounds(d, a, s);
    CloseQuotient((255 - a) * d + a * s, v);
  }

  /** So what is stored lies between destination and source, or one below both, and the thresholds
      of the masked rule cost at most 15. */
  lemma StoredBetween(d: byte, a: byte, s: byte, v: real)
    requires var exact := ((255 - a) * d + a * s) as real / 255.0; -1.0 / 255.0 < v - exact < 1.0 / 255.0
    ensures (if d <= s then d else s) - 1 <= Trunc(v) <= (if d <= s then s else d)
    ensures a > 240 || a <= 10 ==> -15 <= Masked(d, a, s) - Trunc(v) <= 15
  {
    hide Blend, Trunc;
    CloseEvaluation(d, a, s, v);
    BlendBetween(d, a, s);
    MaskedIsNear(d, a, s);
  }

  lemma CloseQuotient(x: nat, v: real)
    requires -1.0 / 255.0 < v - x as real / 255.0 < 1.0 / 255.0
    ensures Trunc(v) == x / 255 || (Trunc(v) == x / 255 - 1 && x % 255 == 0)
  {
    var q, r := x / 255, x % 255;
    assert x as real / 255.0 == q as real + r as real / 255.0;
    if v >= 0.0 {
      FloorBounds(v);
    } else {
      FloorIs(-v, 0);
    }
  }
}
