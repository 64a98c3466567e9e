/**
  The centre-crop geometry of `create_app_images`: for a source image of
  `width` x `height` pixels and a target size `tw` x `th`, the largest box with
  the target aspect ratio, centred in the image.

  The ratio comparison `width/height > tw/th` is written as the equivalent
  cross-multiplication `width*th > tw*height`, and `int(height * tw/th)`,
  `int(width / (tw/th))` as the floor quotients `(height*tw)/th`,
  `(width*th)/tw`; module PythonSemantics proves these agree with the
  exact rational reading of the source's expressions.
 */
module Crop {
  import opened Geometry
  import opened Division

  /** The source is relatively wider than the target: `width/height > tw/th`. */
  predicate SourceWider(width: int, height: int, tw: int, th: int)
  {
    width * th > tw * height
  }

  /** Width kept when the crop spans the full height: floor of `height * tw/th`. */
  function FullHeightCropWidth(height: int, tw: int, th: int): (cw: int)
    requires height > 0 && tw > 0 && th > 0
    ensures cw >= 0
    ensures cw * th <= height * tw < (cw + 1) * th
  {
    FloorDivBounds(height * tw, th);
    FloorDivNonNegative(height * tw, th);
    (height * tw) / th
  }

  /** Height kept when the crop spans the full width: floor of `width / (tw/th)`. */
  function FullWidthCropHeight(width: int, tw: int, th: int): (ch: int)
    requires width > 0 && tw > 0 && th > 0
    ensures ch >= 0
    ensures ch * tw <= width * th < (ch + 1) * tw
  {
    FloorDivBounds(width * th, tw);
    FloorDivNonNegative(width * th, tw);
    (width * th) / tw
  }

  /**
    The crop box of one loop iteration. A relatively wider source keeps its
    full height and is trimmed equally from both sides; otherwise (equal
    ratios included) it keeps its full width and is trimmed equally from top
    and bottom. The odd pixel of an odd margin goes to the right or bottom.
   */
  function CropRect(width: int, height: int, tw: int, th: int): (r: Rect)
    requires width > 0 && height > 0 && tw > 0 && th > 0
    ensures InBounds(r, width, height)
    ensures SourceWider(width, height, tw, th) ==>
              && r.top == 0 && r.bottom == height
              && r.Width() < width
              && r.Width() * th <= height * tw < (r.Width() + 1) * th
              && 0 <= width - (r.left + r.right) <= 1
    ensures !SourceWider(width, height, tw, th) ==>
              && r.left == 0 && r.right == width
              && r.Height() <= height
              && r.Height() * tw <= width * th < (r.Height() + 1) * tw
              && 0 <= height - (r.top + r.bottom) <= 1
  {
    if SourceWider(width, height, tw, th) then
      var newWidth := FullHeightCropWidth(height, tw, th);
      assert newWidth < width by {
        if newWidth >= width {
          MulMonotone(width, newWidth, th);
          assert false;
        }
      }
      var left := (width - newWidth) / 2;
      Rect(left, 0, left + newWidth, height)
    else
      var newHeight := FullWidthCropHeight(width, tw, th);
      assert newHeight <= height by {
        if newHeight > height {
          MulStrictMonotone(height, newHeight, tw);
          assert false;
        }
      }
      var top := (height - newHeight) / 2;
      Rect(0, top, width, top + newHeight)
  }

  /**
    The crop is the largest box with exactly the target ratio that fits in the
    image: no `w` x `h` box with `w/h == tw/th` inside the image is wider or
    taller than it.
   */
  lemma CropIsLargest(width: int, height: int, tw: int, th: int, w: int, h: int)
    requires width > 0 && height > 0 && tw > 0 && th > 0
    requires 0 <= w <= width && 0 <= h <= height
    requires w * th == h * tw
    ensures w <= CropRect(width, height, tw, th).Width()
    ensures h <= CropRect(width, height, tw, th).Height()
  {
    var r := CropRect(width, height, tw, th);
    if SourceWider(width, height, tw, th) {
      MulMonotone(h, height, tw);
      if w > r.Width() {
        MulMonotone(r.Width() + 1, w, th);
        assert false;
      }
    } else {
      MulMonotone(w, width, th);
      if h > r.Height() {
        MulMonotone(r.Height() + 1, h, tw);
        assert false;
      }
    }
  }

  /** When the image already has the target ratio nothing is cropped. */
  lemma EqualRatioKeepsWholeImage(width: int, height: int, tw: int, th: int)
    requires width > 0 && height > 0 && tw > 0 && th > 0
    requires width * th == tw * height
    ensures !SourceWider(width, height, tw, th)
    ensures CropRect(width, height, tw, th) == Rect(0, 0, width, height)
  {
    var r := CropRect(width, height, tw, th);
    FloorDivUnique(width * th, tw, height);
    assert r.Height() == height;
  }

  /** Targets with the same ratio agree on whether the source is relatively wider. */
  lemma SameRatioSameBranch(width: int, height: int, tw: int, th: int, tw': int, th': int)
    requires width > 0 && height > 0 && tw > 0 && th > 0 && tw' > 0 && th' > 0
    requires tw * th' == tw' * th
    ensures SourceWider(width, height, tw, th) <==> SourceWider(width, height, tw', th')
  {
    // Scaling the first test by th' and the second by th gives the same comparison.
    assert (width * th) * th' == (width * th') * th;
    assert (tw * height) * th' == (tw' * height) * th;
    ScaledCompare(width * th, tw * height, th');
    ScaledCompare(width * th', tw' * height, th);
  }

  /**
    The crop depends only on the target ratio: two target sizes with the same
    ratio give the same box.
   */
  lemma CropDependsOnlyOnRatio(width: int, height: int, tw: int, th: int, tw': int, th': int)
    requires width > 0 && height > 0 && tw > 0 && th > 0 && tw' > 0 && th' > 0
    requires tw * th' == tw' * th
    ensures CropRect(width, height, tw, th) == CropRect(width, height, tw', th')
  {
    SameRatioSameBranch(width, height, tw, th, tw', th');
    ScaleCross(height, tw, th, tw', th');
    FloorDivCrossEqual(height * tw, th, height * tw', th');
    ScaleCross(width, th, tw, th', tw');
    FloorDivCrossEqual(width * th, tw, width * th', tw');
  }

  /**
    The crop keeps at least one pixel exactly when the image is at least one
    target-ratio pixel high (`height*tw >= th`) and wide (`width*th >= tw`);
    a 1-pixel-wide image with a 10:7 target yields an empty box.
   */
  lemma CropNonEmptyIff(width: int, height: int, tw: int, th: int)
    requires width > 0 && height > 0 && tw > 0 && th > 0
    ensures NonEmpty(CropRect(width, height, tw, th)) <==> height * tw >= th && width * th >= tw
  {
    var r := CropRect(width, height, tw, th);
    if SourceWider(width, height, tw, th) {
      // The full height is kept, so only the kept width can be zero.
      assert NonEmpty(r) <==> r.Width() > 0;
      assert r.Width() > 0 <==> height * tw >= th by {
        KeptCountPositiveIff(r.Width(), th, height * tw);
      }
      assert width * th >= tw by {
        MulMonotone(1, height, tw);
      }
    } else {
      // The full width is kept, so only the kept height can be zero.
      assert NonEmpty(r) <==> r.Height() > 0;
      assert r.Height() > 0 <==> width * th >= tw by {
        KeptCountPositiveIff(r.Height(), tw, width * th);
      }
      assert height * tw >= th by {
        MulMonotone(1, width, th);
      }
    }
  }

  /** A 1 x 1 image cropped to 10:7 keeps no rows. */
  lemma TinyImageGivesEmptyCrop()
    ensures CropRect(1, 1, 10, 7) == Rect(0, 0, 1, 0)
  {
    assert !SourceWider(1, 1, 10, 7);
    FloorDivUnique(7, 10, 0);
  }

  /** A 1600 x 900 image cropped to 250 x 175 keeps the middle 1285 columns. */
  lemma WideSourceExample()
    ensures CropRect(1600, 900, 250, 175) == Rect(157, 0, 1442, 900)
  {
    assert SourceWider(1600, 900, 250, 175);
    FloorDivUnique(225000, 175, 1285);
  }

  /** An 800 x 1200 image cropped to 500 x 350 keeps the middle 560 rows. */
  lemma TallSourceExample()
    ensures CropRect(800, 1200, 500, 350) == Rect(0, 320, 800, 880)
  {
    assert !SourceWider(800, 1200, 500, 350);
    FloorDivUnique(280000, 500, 560);
  }
}
