/** Laying an image with alpha over a base image, in place: clipping, and the loops that take four
    or sixteen pixels at a time. An image is a grid of bytes; a row holds its pixels one after the
    other, each 4 bytes (B, G, R, alpha), 3 bytes (B, G, R) or 1 byte (a mask). */
module Compositing {
  import opened Bytes
  import opened Words
  import opened Blending

  // ---- Clipping

  /** The part of the base that is covered, and where it lies in the image. */
  datatype Overlap =
    | Apart
    | Window(x: nat, y: nat, w: nat, h: nat, imgx: nat, imgy: nat)

  /** Column c and row r of the base lie in the base and under the image placed at (x, y). */
  ghost predicate Covered(c: int, r: int, baseCols: nat, baseRows: nat, cols: nat, rows: nat, x: int, y: int) {
    0 <= c < baseCols && 0 <= r < baseRows && 0 <= c - x < cols && 0 <= r - y < rows
  }

  /** o is exactly what is covered, and the base at (o.x, o.y) shows the image at (imgx, imgy). */
  ghost predicate Clips(o: Overlap, baseCols: nat, baseRows: nat, cols: nat, rows: nat, x: int, y: int) {
    && (o.Apart? <==> forall c, r :: !Covered(c, r, baseCols, baseRows, cols, rows, x, y))
    && (o.Window? ==>
          && o.imgx == o.x - x && o.imgy == o.y - y
          && forall c, r ::
               Covered(c, r, baseCols, baseRows, cols, rows, x, y) <==> o.x <= c < o.x + o.w && o.y <= r < o.y + o.h)
  }

  method GetOverlap(baseCols: nat, baseRows: nat, cols: nat, rows: nat, x: int, y: int) returns (o: Overlap)
    ensures Clips(o, baseCols, baseRows, cols, rows, x, y)
  {
    var newx, newy, neww, newh := x, y, cols as int, rows as int;
    var imgx, imgy := 0, 0;
    if x < 0 {
      newx := 0;
      neww := neww + x;
      imgx := imgx - x;
    }
    if y < 0 {
      newy := 0;
      newh := newh + y;
      imgy := imgy - y;
    }
    if newx + neww > baseCols {
      neww := baseCols - newx;
    }
    if newy + newh > baseRows {
      newh := baseRows - newy;
    }
    if neww > 0 && newh > 0 {
      assert Covered(newx, newy, baseCols, baseRows, cols, rows, x, y);
      return Window(newx, newy, neww, newh, imgx, imgy);
    }
    return Apart;
  }

  /** Byte j of row i of a base with n bytes a pixel is in the window. */
  ghost predicate InWindow(o: Overlap, n: nat, i: int, j: int) {
    o.Window? && o.y <= i < o.y + o.h && n * o.x <= j < n * (o.x + o.w)
  }

  lemma InWindowIff(o: Overlap, n: nat, baseCols: nat, baseRows: nat, cols: nat, rows: nat, x: int, y: int,
                    i: nat, j: nat)
    requires (n == 3 || n == 4) && Clips(o, baseCols, baseRows, cols, rows, x, y)
    requires i < baseRows && j < n * baseCols
    ensures InWindow(o, n, i, j) <==> 0 <= i - y < rows && 0 <= j - n * x < n * cols
  {
    assert Covered(j / n, i, baseCols, baseRows, cols, rows, x, y) <==> 0 <= i - y < rows && 0 <= j / n - x < cols;
    if n == 3 {
      assert 0 <= j / 3 - x < cols <==> 0 <= j - 3 * x < 3 * cols;
    } else {
      assert 0 <= j / 4 - x < cols <==> 0 <= j - 4 * x < 4 * cols;
    }
  }

  /** A window lies inside both images. */
  lemma WindowFits(o: Overlap, baseCols: nat, baseRows: nat, cols: nat, rows: nat, x: int, y: int)
    requires Clips(o, baseCols, baseRows, cols, rows, x, y) && o.Window?
    ensures o.w > 0 && o.h > 0 && o.imgx == o.x - x && o.imgy == o.y - y
    ensures o.x + o.w <= baseCols && o.y + o.h <= baseRows && o.imgx + o.w <= cols && o.imgy + o.h <= rows
  {
    assert Covered(o.x, o.y, baseCols, baseRows, cols, rows, x, y);
    assert Covered(o.x + o.w - 1, o.y + o.h - 1, baseCols, baseRows, cols, rows, x, y);
  }

  // ---- The rule for every byte of the base

  ghost predicate Bgra(image: array2<byte>) {
    image.Length1 % 4 == 0
  }

  /** Byte j of row r of a four-channel image laid over d: its pixel's last byte is the alpha. */
  ghost function OverBgra(d: byte, image: array2<byte>, r: int, j: int): byte
    requires Bgra(image)
    reads image
  {
    if 0 <= r < image.Length0 && 0 <= j < image.Length1
    then Blend(d, image[r, j / 4 * 4 + 3], image[r, j])
    else d
  }

  ghost predicate Bgrm(image: array2<byte>, mask: array2<byte>) {
    image.Length0 == mask.Length0 && image.Length1 == 3 * mask.Length1
  }

  /** Byte j of row r of a three-channel image and its mask laid over d. */
  ghost function OverBgrm(d: byte, image: array2<byte>, mask: array2<byte>, r: int, j: int): byte
    requires Bgrm(image, mask)
    reads image, mask
  {
    if 0 <= r < image.Length0 && 0 <= j < image.Length1
    then Masked(d, mask[r, j / 3], image[r, j])
    else d
  }

  // ---- Steps

  /** Copies n bytes of an image row into a base row. */
  method CopyBytes(base: array2<byte>, br: nat, bj: nat, image: array2<byte>, ir: nat, ij: nat, n: nat)
    requires base != image
    requires br < base.Length0 && bj + n <= base.Length1 && ir < image.Length0 && ij + n <= image.Length1
    modifies base
    ensures forall i, j :: 0 <= i < base.Length0 && 0 <= j < base.Length1 ==>
      base[i, j] == if i == br && bj <= j < bj + n then image[ir, ij + j - bj] else old(base[i, j])
  {
    for k := 0 to n
      invariant forall i, j :: 0 <= i < base.Length0 && 0 <= j < base.Length1 ==>
        base[i, j] == if i == br && bj <= j < bj + k then image[ir, ij + j - bj] else old(base[i, j])
    {
      base[br, bj + k] := image[ir, ij + k];
    }
  }

  /** Blends the n channels of one pixel. */
  method BlendPixel(base: array2<byte>, br: nat, bj: nat, image: array2<byte>, ir: nat, ij: nat, n: nat, a: byte)
    requires base != image
    requires br < base.Length0 && bj + n <= base.Length1 && ir < image.Length0 && ij + n <= image.Length1
    modifies base
    ensures forall i, j :: 0 <= i < base.Length0 && 0 <= j < base.Length1 ==>
      base[i, j] == if i == br && bj <= j < bj + n
                    then Blend(old(base[i, j]), a, image[ir, ij + j - bj])
                    else old(base[i, j])
  {
    hide Blend;
    for k := 0 to n
      invariant forall i, j :: 0 <= i < base.Length0 && 0 <= j < base.Length1 ==>
        base[i, j] == if i == br && bj <= j < bj + k
                      then Blend(old(base[i, j]), a, image[ir, ij + j - bj])
                      else old(base[i, j])
    {
      base[br, bj + k] := Blend(base[br, bj + k], a, image[ir, ij + k]);
    }
  }

  /** The n bytes of a row from column j on, as one load sees them. */
  method LoadRow(image: array2<byte>, r: nat, j: nat, n: nat) returns (s: seq<byte>)
    requires r < image.Length0 && j + n <= image.Length1
    ensures |s| == n && forall k :: 0 <= k < n ==> s[k] == image[r, j + k]
  {
    s := [];
    for k := 0 to n
      invariant |s| == k && forall m :: 0 <= m < k ==> s[m] == image[r, j + m]
    {
      s := s + [image[r, j + k]];
    }
  }

  // ---- Four channels over four channels

  /** One pixel. */
  method PixelBgra(base: array2<byte>, br: nat, bj: nat, image: array2<byte>, ir: nat, ij: nat)
    requires base != image && Bgra(image) && ij % 4 == 0
    requires br < base.Length0 && bj + 4 <= base.Length1 && ir < image.Length0 && ij + 4 <= image.Length1
    modifies base
    ensures forall i, j :: 0 <= i < base.Length0 && 0 <= j < base.Length1 ==>
      base[i, j] == if i == br && bj <= j < bj + 4
                    then OverBgra(old(base[i, j]), image, ir, ij + j - bj)
                    else old(base[i, j])
  {
    hide Blend;
    BlendPixel(base, br, bj, image, ir, ij, 4, image[ir, ij + 3]);
  }

  /** In a word of four solid pixels the rule copies every byte, in a clear one it keeps them. */
  lemma SolidOrClear(image: array2<byte>, r: nat, j: nat, pix: seq<byte>, a: byte, k: nat, d: byte)
    requires Bgra(image) && r < image.Length0 && j + 16 <= image.Length1 && j % 4 == 0
    requires |pix| == 16 && (forall m :: 0 <= m < 16 ==> pix[m] == image[r, j + m])
    requires AlphaIs(pix, a) && (a == 255 || a == 0) && k < 16
    ensures OverBgra(d, image, r, j + k) == if a == 255 then image[r, j + k] else d
  {
    hide Blend;
    assert (j + k) / 4 * 4 + 3 == j + (k / 4 * 4 + 3);
    assert pix[k / 4 * 4 + 3] == a;
    BlendBetween(d, a, image[r, j + k]);
  }

  /** Four pixels at once: a solid word is copied, a clear one skipped, any other blended. */
  method WordBgra(base: array2<byte>, br: nat, bj: nat, image: array2<byte>, ir: nat, ij: nat)
    requires base != image && Bgra(image) && ij % 4 == 0
    requires br < base.Length0 && bj + 16 <= base.Length1 && ir < image.Length0 && ij + 16 <= image.Length1
    modifies base
    ensures forall i, j :: 0 <= i < base.Length0 && 0 <= j < base.Length1 ==>
      base[i, j] == if i == br && bj <= j < bj + 16
                    then OverBgra(old(base[i, j]), image, ir, ij + j - bj)
                    else old(base[i, j])
  {
    hide OverBgra, Word128, And128, MASK1;
    var pix := LoadRow(image, ir, ij, 16);
    var val := And128(Word128(pix), MASK1);
    AlphaTest(pix);
    if val == MASK1 {
      CopyBytes(base, br, bj, image, ir, ij, 16);
      forall j | bj <= j < bj + 16 ensures base[br, j] == OverBgra(old(base[br, j]), image, ir, ij + j - bj) {
        SolidOrClear(image, ir, ij, pix, 255, j - bj, old(base[br, j]));
      }
    } else if val != 0 {
      for c := 0 to 4
        invariant forall i, j :: 0 <= i < base.Length0 && 0 <= j < base.Length1 ==>
          base[i, j] == if i == br && bj <= j < bj + 4 * c
                        then OverBgra(old(base[i, j]), image, ir, ij + j - bj)
                        else old(base[i, j])
      {
        PixelBgra(base, br, bj + 4 * c, image, ir, ij + 4 * c);
      }
    } else {
      forall j | bj <= j < bj + 16 ensures base[br, j] == OverBgra(old(base[br, j]), image, ir, ij + j - bj) {
        SolidOrClear(image, ir, ij, pix, 0, j - bj, base[br, j]);
      }
    }
  }

  /** One row of cols pixels: words of four, then the pixels left. */
  method RowBgra(base: array2<byte>, br: nat, bj: nat, image: array2<byte>, ir: nat, ij: nat, cols: nat)
    requires base != image && Bgra(image) && ij % 4 == 0
    requires br < base.Length0 && bj + 4 * cols <= base.Length1 && ir < image.Length0 && ij + 4 * cols <= image.Length1
    modifies base
    ensures forall i, j :: 0 <= i < base.Length0 && 0 <= j < base.Length1 ==>
      base[i, j] == if i == br && bj <= j < bj + 4 * cols
                    then OverBgra(old(base[i, j]), image, ir, ij + j - bj)
                    else old(base[i, j])
  {
    hide Blend, OverBgra;
    var c := 0;
    while c <= cols - 4
      invariant 0 <= c <= cols
      invariant forall i, j :: 0 <= i < base.Length0 && 0 <= j < base.Length1 ==>
        base[i, j] == if i == br && bj <= j < bj + 4 * c
                      then OverBgra(old(base[i, j]), image, ir, ij + j - bj)
                      else old(base[i, j])
    {
      WordBgra(base, br, bj + 4 * c, image, ir, ij + 4 * c);
      c := c + 4;
    }
    while c < cols
      invariant 0 <= c <= cols
      invariant forall i, j :: 0 <= i < base.Length0 && 0 <= j < base.Length1 ==>
        base[i, j] == if i == br && bj <= j < bj + 4 * c
                      then OverBgra(old(base[i, j]), image, ir, ij + j - bj)
                      else old(base[i, j])
    {
      PixelBgra(base, br, bj + 4 * c, image, ir, ij + 4 * c);
      c := c + 1;
    }
  }

  /** The rule in numbers: each channel, the alpha one included, is weighed by the pixel's alpha and
      rounded down. */
  lemma BgraInNumbers(d: byte, image: array2<byte>, r: int, j: int)
    requires Bgra(image)
    ensures if 0 <= r < image.Length0 && 0 <= j < image.Length1
            then RoundedDown(d, image[r, j - j % 4 + 3], image[r, j], OverBgra(d, image, r, j))
            else OverBgra(d, image, r, j) == d
  {
    hide Blend, RoundedDown;
    if 0 <= r < image.Length0 && 0 <= j < image.Length1 {
      assert j / 4 * 4 == j - j % 4;
      BlendIsRoundedDown(d, image[r, j - j % 4 + 3], image[r, j]);
    }
  }

  /** Outside the window the rule keeps every byte. */
  lemma OutsideBgra(o: Overlap, base: array2<byte>, image: array2<byte>, x: int, y: int, i: nat, j: nat, d: byte)
    requires Bgra(base) && Bgra(image) && i < base.Length0 && j < base.Length1
    requires Clips(o, base.Length1 / 4, base.Length0, image.Length1 / 4, image.Length0, x, y) && !InWindow(o, 4, i, j)
    ensures OverBgra(d, image, i - y, j - 4 * x) == d
  {
    hide Blend;
    InWindowIff(o, 4, base.Length1 / 4, base.Length0, image.Length1 / 4, image.Length0, x, y, i, j);
  }

  /** The whole overlay: every byte of the base under the image follows the rule for its own pixel,
      every other byte keeps its value. */
  method OverlapBgraImageBgra(base: array2<byte>, image: array2<byte>, x: int, y: int)
    requires base != image && Bgra(base) && Bgra(image)
    modifies base
    ensures forall i, j :: 0 <= i < base.Length0 && 0 <= j < base.Length1 ==>
      base[i, j] == OverBgra(old(base[i, j]), image, i - y, j - 4 * x)
    ensures forall i, j :: 0 <= i < base.Length0 && 0 <= j < base.Length1 ==>
      var r, c := i - y, j - 4 * x;
      if 0 <= r < image.Length0 && 0 <= c < image.Length1
      then RoundedDown(old(base[i, j]), image[r, c - c % 4 + 3], image[r, c], base[i, j])
      else base[i, j] == old(base[i, j])
  {
    hide OverBgra, Clips, RoundedDown;
    var o := GetOverlap(base.Length1 / 4, base.Length0, image.Length1 / 4, image.Length0, x, y);
    if o.Window? {
      WindowFits(o, base.Length1 / 4, base.Length0, image.Length1 / 4, image.Length0, x, y);
      for r := 0 to o.h
        invariant forall i, j :: 0 <= i < base.Length0 && 0 <= j < base.Length1 ==>
          base[i, j] == if InWindow(o, 4, i, j) && i < o.y + r
                        then OverBgra(old(base[i, j]), image, i - y, j - 4 * x)
                        else old(base[i, j])
      {
        RowBgra(base, o.y + r, 4 * o.x, image, o.imgy + r, 4 * o.imgx, o.w);
      }
    }
    forall i, j | 0 <= i < base.Length0 && 0 <= j < base.Length1
      ensures base[i, j] == OverBgra(old(base[i, j]), image, i - y, j - 4 * x)
    {
      if !InWindow(o, 4, i, j) {
        OutsideBgra(o, base, image, x, y, i, j, old(base[i, j]));
      }
    }
    forall i, j | 0 <= i < base.Length0 && 0 <= j < base.Length1
      ensures var r, c := i - y, j - 4 * x;
              if 0 <= r < image.Length0 && 0 <= c < image.Length1
              then RoundedDown(old(base[i, j]), image[r, c - c % 4 + 3], image[r, c], base[i, j])
              else base[i, j] == old(base[i, j])
    {
      BgraInNumbers(old(base[i, j]), image, i - y, j - 4 * x);
    }
  }

  // ---- Three channels and a mask over three channels

  /** One pixel: copied when nearly solid, left when nearly clear. */
  method PixelBgrm(base: array2<byte>, br: nat, bj: nat, image: array2<byte>, mask: array2<byte>, ir: nat, ic: nat)
    requires base != image && base != mask && Bgrm(image, mask)
    requires br < base.Length0 && bj + 3 <= base.Length1 && ir < mask.Length0 && ic < mask.Length1
    modifies base
    ensures forall i, j :: 0 <= i < base.Length0 && 0 <= j < base.Length1 ==>
      base[i, j] == if i == br && bj <= j < bj + 3
                    then OverBgrm(old(base[i, j]), image, mask, ir, 3 * ic + j - bj)
                    else old(base[i, j])
  {
    hide Blend;
    var a := mask[ir, ic];
    if a > 240 {
      CopyBytes(base, br, bj, image, ir, 3 * ic, 3);
    } else if a > 10 {
      BlendPixel(base, br, bj, image, ir, 3 * ic, 3, a);
    }
  }

  /** Where the mask is solid the rule copies every byte, where it is clear it keeps them. */
  lemma SolidOrClearMask(image: array2<byte>, mask: array2<byte>, r: nat, c: nat, msk: seq<byte>, a: byte,
                         k: nat, d: byte)
    requires Bgrm(image, mask) && r < mask.Length0 && c + |msk| <= mask.Length1
    requires forall m :: 0 <= m < |msk| ==> msk[m] == mask[r, c + m]
    requires AllAre(msk, a) && (a == 255 || a == 0) && k < 3 * |msk|
    ensures OverBgrm(d, image, mask, r, 3 * c + k) == if a == 255 then image[r, 3 * c + k] else d
  {
    hide Blend;
    assert (3 * c + k) / 3 == c + k / 3;
    assert msk[k / 3] == a;
  }

  /** Eight pixels at once, tested by a 64-bit word of the mask. */
  method HalfBgrm(base: array2<byte>, br: nat, bj: nat, image: array2<byte>, mask: array2<byte>, ir: nat, ic: nat)
    requires base != image && base != mask && Bgrm(image, mask)
    requires br < base.Length0 && bj + 24 <= base.Length1 && ir < mask.Length0 && ic + 8 <= mask.Length1
    modifies base
    ensures forall i, j :: 0 <= i < base.Length0 && 0 <= j < base.Length1 ==>
      base[i, j] == if i == br && bj <= j < bj + 24
                    then OverBgrm(old(base[i, j]), image, mask, ir, 3 * ic + j - bj)
                    else old(base[i, j])
  {
    hide OverBgrm, Word64;
    var msk8 := LoadRow(mask, ir, ic, 8);
    MaskTest64(msk8);
    if Word64(msk8) == ONES64 {
      CopyBytes(base, br, bj, image, ir, 3 * ic, 24);
      forall j | bj <= j < bj + 24 ensures base[br, j] == OverBgrm(old(base[br, j]), image, mask, ir, 3 * ic + j - bj) {
        SolidOrClearMask(image, mask, ir, ic, msk8, 255, j - bj, old(base[br, j]));
      }
    } else if Word64(msk8) != 0 {
      for c := 0 to 8
        invariant forall i, j :: 0 <= i < base.Length0 && 0 <= j < base.Length1 ==>
          base[i, j] == if i == br && bj <= j < bj + 3 * c
                        then OverBgrm(old(base[i, j]), image, mask, ir, 3 * ic + j - bj)
                        else old(base[i, j])
      {
        PixelBgrm(base, br, bj + 3 * c, image, mask, ir, ic + c);
      }
    } else {
      forall j | bj <= j < bj + 24 ensures base[br, j] == OverBgrm(old(base[br, j]), image, mask, ir, 3 * ic + j - bj) {
        SolidOrClearMask(image, mask, ir, ic, msk8, 0, j - bj, base[br, j]);
      }
    }
  }

  /** Sixteen pixels at once, tested by a 128-bit word of the mask, and by halves if it is mixed. */
  method WordBgrm(base: array2<byte>, br: nat, bj: nat, image: array2<byte>, mask: array2<byte>, ir: nat, ic: nat)
    requires base != image && base != mask && Bgrm(image, mask)
    requires br < base.Length0 && bj + 48 <= base.Length1 && ir < mask.Length0 && ic + 16 <= mask.Length1
    modifies base
    ensures forall i, j :: 0 <= i < base.Length0 && 0 <= j < base.Length1 ==>
      base[i, j] == if i == br && bj <= j < bj + 48
                    then OverBgrm(old(base[i, j]), image, mask, ir, 3 * ic + j - bj)
                    else old(base[i, j])
  {
    hide OverBgrm, Word128;
    var msk := LoadRow(mask, ir, ic, 16);
    MaskTest128(msk);
    if Word128(msk) == ONES128 {
      CopyBytes(base, br, bj, image, ir, 3 * ic, 48);
      forall j | bj <= j < bj + 48 ensures base[br, j] == OverBgrm(old(base[br, j]), image, mask, ir, 3 * ic + j - bj) {
        SolidOrClearMask(image, mask, ir, ic, msk, 255, j - bj, old(base[br, j]));
      }
    } else if Word128(msk) != 0 {
      var t := 0;
      while t <= 8
        invariant t == 0 || t == 8 || t == 16
        invariant forall i, j :: 0 <= i < base.Length0 && 0 <= j < base.Length1 ==>
          base[i, j] == if i == br && bj <= j < bj + 3 * t
                        then OverBgrm(old(base[i, j]), image, mask, ir, 3 * ic + j - bj)
                        else old(base[i, j])
      {
        HalfBgrm(base, br, bj + 3 * t, image, mask, ir, ic + t);
        t := t + 8;
      }
    } else {
      forall j | bj <= j < bj + 48 ensures base[br, j] == OverBgrm(old(base[br, j]), image, mask, ir, 3 * ic + j - bj) {
        SolidOrClearMask(image, mask, ir, ic, msk, 0, j - bj, base[br, j]);
      }
    }
  }

  /** One row of cols pixels: words of sixteen, then the pixels left. */
  method RowBgrm(base: array2<byte>, br: nat, bj: nat, image: array2<byte>, mask: array2<byte>, ir: nat, ic: nat,
                 cols: nat)
    requires base != image && base != mask && Bgrm(image, mask)
    requires br < base.Length0 && bj + 3 * cols <= base.Length1 && ir < mask.Length0 && ic + cols <= mask.Length1
    modifies base
    ensures forall i, j :: 0 <= i < base.Length0 && 0 <= j < base.Length1 ==>
      base[i, j] == if i == br && bj <= j < bj + 3 * cols
                    then OverBgrm(old(base[i, j]), image, mask, ir, 3 * ic + j - bj)
                    else old(base[i, j])
  {
    hide OverBgrm;
    var c := 0;
    while c <= cols - 16
      invariant 0 <= c <= cols
      invariant forall i, j :: 0 <= i < base.Length0 && 0 <= j < base.Length1 ==>
        base[i, j] == if i == br && bj <= j < bj + 3 * c
                      then OverBgrm(old(base[i, j]), image, mask, ir, 3 * ic + j - bj)
                      else old(base[i, j])
    {
      WordBgrm(base, br, bj + 3 * c, image, mask, ir, ic + c);
      c := c + 16;
    }
    while c < cols
      invariant 0 <= c <= cols
      invariant forall i, j :: 0 <= i < base.Length0 && 0 <= j < base.Length1 ==>
        base[i, j] == if i == br && bj <= j < bj + 3 * c
                      then OverBgrm(old(base[i, j]), image, mask, ir, 3 * ic + j - bj)
                      else old(base[i, j])
    {
      PixelBgrm(base, br, bj + 3 * c, image, mask, ir, ic + c);
      c := c + 1;
    }
  }

  /** The masked rule in numbers. */
  ghost predicate MaskedInNumbers(d: byte, a: byte, s: byte, r: byte) {
    && (a > 240 ==> r == s)
    && (10 < a <= 240 ==> 255 * r <= (255 - a) * d + a * s < 255 * r + 255)
    && (a <= 10 ==> r == d)
  }

  lemma BgrmInNumbers(d: byte, image: array2<byte>, mask: array2<byte>, r: int, j: int)
    requires Bgrm(image, mask)
    ensures if 0 <= r < mask.Length0 && 0 <= j < 3 * mask.Length1
            then MaskedInNumbers(d, mask[r, j / 3], image[r, j], OverBgrm(d, image, mask, r, j))
            else OverBgrm(d, image, mask, r, j) == d
  {
    hide Blend, Masked;
    if 0 <= r < mask.Length0 && 0 <= j < 3 * mask.Length1 {
      MaskedRule(d, mask[r, j / 3], image[r, j]);
    }
  }

  lemma OutsideBgrm(o: Overlap, base: array2<byte>, image: array2<byte>, mask: array2<byte>, x: int, y: int,
                    i: nat, j: nat, d: byte)
    requires base.Length1 % 3 == 0 && Bgrm(image, mask) && i < base.Length0 && j < base.Length1
    requires Clips(o, base.Length1 / 3, base.Length0, mask.Length1, mask.Length0, x, y) && !InWindow(o, 3, i, j)
    ensures OverBgrm(d, image, mask, i - y, j - 3 * x) == d
  {
    hide Blend;
    InWindowIff(o, 3, base.Length1 / 3, base.Length0, mask.Length1, mask.Length0, x, y, i, j);
  }

  /** The whole masked overlay. */
  method OverlapImageBgrm(base: array2<byte>, image: array2<byte>, mask: array2<byte>, x: int, y: int)
    requires base != image && base != mask && base.Length1 % 3 == 0 && Bgrm(image, mask)
    modifies base
    ensures forall i, j :: 0 <= i < base.Length0 && 0 <= j < base.Length1 ==>
      base[i, j] == OverBgrm(old(base[i, j]), image, mask, i - y, j - 3 * x)
    ensures forall i, j :: 0 <= i < base.Length0 && 0 <= j < base.Length1 ==>
      var r, c := i - y, j - 3 * x;
      if 0 <= r < mask.Length0 && 0 <= c < 3 * mask.Length1
      then MaskedInNumbers(old(base[i, j]), mask[r, c / 3], image[r, c], base[i, j])
      else base[i, j] == old(base[i, j])
  {
    hide OverBgrm, Clips, MaskedInNumbers;
    var o := GetOverlap(base.Length1 / 3, base.Length0, mask.Length1, mask.Length0, x, y);
    if o.Window? {
      WindowFits(o, base.Length1 / 3, base.Length0, mask.Length1, mask.Length0, x, y);
      for r := 0 to o.h
        invariant forall i, j :: 0 <= i < base.Length0 && 0 <= j < base.Length1 ==>
          base[i, j] == if InWindow(o, 3, i, j) && i < o.y + r
                        then OverBgrm(old(base[i, j]), image, mask, i - y, j - 3 * x)
                        else old(base[i, j])
      {
        RowBgrm(base, o.y + r, 3 * o.x, image, mask, o.imgy + r, o.imgx, o.w);
      }
    }
    forall i, j | 0 <= i < base.Length0 && 0 <= j < base.Length1
      ensures base[i, j] == OverBgrm(old(base[i, j]), image, mask, i - y, j - 3 * x)
    {
      if !InWindow(o, 3, i, j) {
        OutsideBgrm(o, base, image, mask, x, y, i, j, old(base[i, j]));
      }
    }
    forall i, j | 0 <= i < base.Length0 && 0 <= j < base.Length1
      ensures var r, c := i - y, j - 3 * x;
              if 0 <= r < mask.Length0 && 0 <= c < 3 * mask.Length1
              then MaskedInNumbers(old(base[i, j]), mask[r, c / 3], image[r, c], base[i, j])
              else base[i, j] == old(base[i, j])
    {
      BgrmInNumbers(old(base[i, j]), image, mask, i - y, j - 3 * x);
    }
  }
}
