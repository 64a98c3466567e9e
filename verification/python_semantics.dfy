/**
  A second, independent reading of the crop computation: lines 32-50 of
  `create_app_images` transcribed over exact rationals (Dafny's `real`), with
  Python's `int(...)` as truncation toward zero and `//` as the floor of the
  exact quotient. The main lemma shows that the integer cross-multiplication
  model in module Crop computes the same box for every input.
 */
module PythonSemantics {
  import opened Geometry
  import opened Division
  import Crop

  /** Python's `int(x)` on a number: truncation toward zero. */
  function Trunc(x: real): int
  {
    if x >= 0.0 then x.Floor else -((-x).Floor)
  }

  /** Python's `a // b`: the floor of the exact quotient. */
  function FloorDiv(a: int, b: int): int
    requires b != 0
  {
    ((a as real) / (b as real)).Floor
  }

  /** `int(new_height * target_ratio)`: the width kept for a full-height crop. */
  function ScaledWidth(newHeight: int, targetRatio: real): int
  {
    Trunc((newHeight as real) * targetRatio)
  }

  /** `int(new_width / target_ratio)`: the height kept for a full-width crop. */
  function ScaledHeight(newWidth: int, targetRatio: real): int
    requires targetRatio != 0.0
  {
    Trunc((newWidth as real) / targetRatio)
  }

  /** The loop body's crop box, with the ratios read as exact rationals. */
  function ExactCrop(width: int, height: int, tw: int, th: int): Rect
    requires width > 0 && height > 0 && tw > 0 && th > 0
  {
    var targetRatio := (tw as real) / (th as real);
    var originalRatio := (width as real) / (height as real);
    if originalRatio > targetRatio then
      var newHeight := height;
      var newWidth := ScaledWidth(newHeight, targetRatio);
      var left := FloorDiv(width - newWidth, 2);
      Rect(left, 0, left + newWidth, height)
    else
      var newWidth := width;
      var newHeight := ScaledHeight(newWidth, targetRatio);
      var top := FloorDiv(height - newHeight, 2);
      Rect(0, top, width, top + newHeight)
  }

  /** For a positive divisor, the floor of the exact quotient is Dafny's `/`. */
  lemma FloorDivIsIntegerDivision(a: int, b: int)
    requires b > 0
    ensures FloorDiv(a, b) == a / b
  {
    var q, m := a / b, a % b;
    assert a == q * b + m && 0 <= m < b;
    var x := (a as real) / (b as real);
    assert (a as real) == (q as real) * (b as real) + (m as real);
    assert x == (q as real) + (m as real) / (b as real);
    assert 0.0 <= (m as real) / (b as real) < 1.0;
    RealFloorUnique(x, q);
  }

  /** An integer `q` with `q <= x < q + 1` is the floor of `x`. */
  lemma RealFloorUnique(x: real, q: int)
    requires (q as real) <= x < (q as real) + 1.0
    ensures x.Floor == q
  {
  }

  /** The comparison of ratios is the cross-multiplication test. */
  lemma RatioComparison(width: int, height: int, tw: int, th: int)
    requires width > 0 && height > 0 && tw > 0 && th > 0
    ensures (width as real) / (height as real) > (tw as real) / (th as real)
            <==> Crop.SourceWider(width, height, tw, th)
  {
    var w, h, t, u := width as real, height as real, tw as real, th as real;
    assert w / h - t / u == (w * u - t * h) / (h * u);
    assert (width * th - tw * height) as real == w * u - t * h;
    assert h * u > 0.0;
  }

  /** `int(height * (tw/th))` is the floor quotient of `height*tw` by `th`. */
  lemma WiderWidthAgrees(height: int, tw: int, th: int)
    requires height > 0 && tw > 0 && th > 0
    ensures ScaledWidth(height, (tw as real) / (th as real)) == (height * tw) / th
  {
    var x := (height as real) * ((tw as real) / (th as real));
    assert x == ((height * tw) as real) / (th as real);
    assert x >= 0.0;
    FloorDivIsIntegerDivision(height * tw, th);
  }

  /** `int(width / (tw/th))` is the floor quotient of `width*th` by `tw`. */
  lemma TallerHeightAgrees(width: int, tw: int, th: int)
    requires width > 0 && tw > 0 && th > 0
    ensures ScaledHeight(width, (tw as real) / (th as real)) == (width * th) / tw
  {
    var x := (width as real) / ((tw as real) / (th as real));
    assert x == ((width * th) as real) / (tw as real);
    assert x >= 0.0;
    FloorDivIsIntegerDivision(width * th, tw);
  }

  /**
    The exact-rational transcription and the integer model give the same crop
    box for every positive image and target size.
   */
  lemma ExactCropAgrees(width: int, height: int, tw: int, th: int)
    requires width > 0 && height > 0 && tw > 0 && th > 0
    ensures ExactCrop(width, height, tw, th) == Crop.CropRect(width, height, tw, th)
  {
    RatioComparison(width, height, tw, th);
    if Crop.SourceWider(width, height, tw, th) {
      var cw := (height * tw) / th;
      WiderWidthAgrees(height, tw, th);
      FloorDivIsIntegerDivision(width - cw, 2);
      var left := (width - cw) / 2;
      assert ExactCrop(width, height, tw, th) == Rect(left, 0, left + cw, height);
      assert Crop.CropRect(width, height, tw, th) == Rect(left, 0, left + cw, height);
    } else {
      var ch := (width * th) / tw;
      TallerHeightAgrees(width, tw, th);
      FloorDivIsIntegerDivision(height - ch, 2);
      var top := (height - ch) / 2;
      assert ExactCrop(width, height, tw, th) == Rect(0, top, width, top + ch);
      assert Crop.CropRect(width, height, tw, th) == Rect(0, top, width, top + ch);
    }
  }
}
