# Centre-crop geometry of the xComfort app-image script

`create_app_images` in `assets/images/process_app_images.py` takes one
reference image and produces the three Homey store-listing images: 250x175,
500x350 and 1000x700. For each size it picks the largest box that has the
target aspect ratio and is centred in the source. It crops to that box,
resizes the crop to exactly the target size and saves it as a JPEG.

This project models the part with real logic: the crop box computation and
the size table.

- `geometry.dfy`, module `Geometry`: the crop box `(left, top, right, bottom)` as
  the imaging library's `crop` takes it, with "inside the image" and
  "non-empty" predicates.
- `crop.dfy`, module `Crop`: `CropRect(width, height, tw, th)`, the box of one
  loop iteration, in exact integer arithmetic. The ratio test
  `width/height > tw/th` becomes `width*th > tw*height`. The expression
  `int(height * tw/th)` becomes `(height*tw)/th`, and
  `int(width / (tw/th))` becomes `(width*th)/tw`. The module proves bounds,
  centring, the floor approximation of the ratio, maximality, the
  equal-ratio case, ratio invariance, and exactly when the box is empty.
- `python_semantics.dfy`, module `PythonSemantics`: a second reading of lines
  32-50 over exact rationals (`real`). Python's `int()` is truncation toward
  zero and `//` is the floor of the exact quotient. A lemma proves that this
  reading equals `CropRect` for every positive input.
- `app_images.dfy`, module `AppImages`: the size table, its 10:7 invariant,
  and the loop over it. Every entry yields the same crop box. Each output has
  the entry's file name and exact size.
- `division.dfy`, module `Division`: facts about multiplication and floor
  division used by the proofs.

Two facts about the code as written:

- For a 1600x900 source and a 250x175 target, the 10/7 ratio gives crop
  width `floor(9000/7) = 1285` and box (157, 0, 1442, 900). This is proved
  in `Crop.WideSourceExample`.
- The crop box is not always non-empty. A 1x1 source with a 10:7 target
  gives the empty box (0, 0, 1, 0). `Crop.CropNonEmptyIff` states exactly
  when the box keeps at least one pixel.

## Model

| member | source | states |
|---|---|---|
| Crop.CropRect | assets/images/process_app_images.py:35-50 | The box lies inside the image. If the source is relatively wider (`W*th > tw*H`), the box spans the full height. Its width `cw` is the floor of `H*tw/th`, so `cw*th <= H*tw < (cw+1)*th` and `cw < W`. It is centred: `W - (left+right)` is 0 or 1. Otherwise the box spans the full width. Its height `ch` satisfies `ch*tw <= W*th < (ch+1)*tw` and `ch <= H`. It is centred: `H - (top+bottom)` is 0 or 1. |
| Crop.FullHeightCropWidth | assets/images/process_app_images.py:37-38 | The width kept by a full-height crop is non-negative. It is the largest `cw` with `cw*th <= H*tw`. |
| Crop.FullWidthCropHeight | assets/images/process_app_images.py:45-46 | The height kept by a full-width crop is non-negative. It is the largest `ch` with `ch*tw <= W*th`. |
| Crop.CropIsLargest | assets/images/process_app_images.py:35-50 | A `w` x `h` box with exactly the target ratio that fits in the image is never wider or taller than the computed crop. |
| Crop.EqualRatioKeepsWholeImage | assets/images/process_app_images.py:35-50 | When `W*th == tw*H`, the `else` branch is taken and the box is the whole image `(0, 0, W, H)`. |
| Crop.SameRatioSameBranch | assets/images/process_app_images.py:32-35 | Two targets with the same ratio agree on whether the source is relatively wider. |
| Crop.CropDependsOnlyOnRatio | assets/images/process_app_images.py:32-50 | Two targets with the same ratio (`tw*th' == tw'*th`) give the same crop box. |
| Crop.CropNonEmptyIff | assets/images/process_app_images.py:37-50 | The box keeps at least one pixel exactly when `H*tw >= th` and `W*th >= tw`. |
| Crop.TinyImageGivesEmptyCrop | assets/images/process_app_images.py:43-50 | A 1x1 source with a 10:7 target gives the empty box (0, 0, 1, 0). |
| Crop.WideSourceExample | assets/images/process_app_images.py:35-42 | A 1600x900 source with a 250x175 target gives box (157, 0, 1442, 900). |
| Crop.TallSourceExample | assets/images/process_app_images.py:43-50 | An 800x1200 source with a 500x350 target gives box (0, 320, 800, 880). |
| PythonSemantics.RatioComparison | assets/images/process_app_images.py:32-35 | Comparing `W/H > tw/th` as exact rationals is the same as `W*th > tw*H`. |
| PythonSemantics.WiderWidthAgrees | assets/images/process_app_images.py:38 | `int(H * (tw/th))` over exact rationals equals the integer floor quotient `(H*tw)/th`. |
| PythonSemantics.TallerHeightAgrees | assets/images/process_app_images.py:46 | `int(W / (tw/th))` over exact rationals equals the integer floor quotient `(W*th)/tw`. |
| PythonSemantics.FloorDivIsIntegerDivision | assets/images/process_app_images.py:39 | For a positive divisor, Python's `//` (the floor of the exact quotient) equals Dafny's integer `/`. This covers the halving on line 39 and on line 48. |
| PythonSemantics.ExactCropAgrees | assets/images/process_app_images.py:32-50 | The exact-rational transcription of the loop body gives the same box as `CropRect` for every positive source and target size. |
| AppImages.SizesAreTenBySeven | assets/images/process_app_images.py:24-28 | The size table has three entries. Every entry has positive sides with `width*7 == height*10`. The file names are distinct. |
| AppImages.SameCropForEverySize | assets/images/process_app_images.py:24-50 | For any source, every entry of the size table yields the same crop box: the 10:7 crop. |
| AppImages.CreateAppImages | assets/images/process_app_images.py:30-58 | The loop gives one output per table entry, in table order. Each output has the entry's file name and exactly the entry's size. Each shows the same centred 10:7 box, which lies inside the source. |

## Left out

- Reading, cropping, resizing and saving pixels. `Image.open`, `crop`,
  Lanczos `resize` and JPEG `save` at quality 95 are calls into the imaging
  library, whose code is not part of this model. An output image is
  recorded only by its file name, the crop box it shows and its pixel size,
  which is the requested size.
- The missing-file check, the `try`/`except` reporting, the progress
  messages and the file-size listing (lines 12-21, 58-68). These are file
  system I/O and console output.
- Floating-point rounding. Lines 32-33, 38 and 46 compute in IEEE doubles.
  `int()` of a product or quotient that is exactly an integer in rationals
  can then come out one lower. The model uses exact rational semantics.
- Source images with a zero side. A decoded image always has positive width
  and height, so every member requires them. Python would raise
  `ZeroDivisionError` on line 33 for a zero height.
- `assets/images/create_images.py` is not part of this model. It only
  declares the same three sizes, with `.png` names, and prints them.
