/**
  The driver of `create_app_images`: the table of store-listing sizes and the
  loop that, for each size, crops the source image around its centre to the
  size's aspect ratio and resizes the crop to exactly that size.

  Decoding, resampling and encoding belong to the imaging library and are not
  modelled; an output image is described by the file it is saved to, the box
  of the source it shows and its pixel size.
 */
module AppImages {
  import opened Geometry
  import Crop

  /** The decoded reference image; only its pixel size matters here. */
  datatype SourceImage = SourceImage(width: int, height: int)

  /** One entry of the size table: target width, target height, output file name. */
  datatype TargetSpec = TargetSpec(width: int, height: int, filename: string)

  /** One saved image: the crop of the source it shows, resized to `width` x `height`. */
  datatype OutputImage = OutputImage(filename: string, crop: Rect, width: int, height: int)

  /** The three store-listing sizes, in the order the loop visits them. */
  const Sizes: seq<TargetSpec> := [
    TargetSpec(250, 175, "small.jpg"),
    TargetSpec(500, 350, "medium.jpg"),
    TargetSpec(1000, 700, "large.jpg")
  ]

  /** Every table entry has positive dimensions in the ratio 10:7. */
  predicate TenBySeven(t: TargetSpec)
  {
    t.width > 0 && t.height > 0 && t.width * 7 == t.height * 10
  }

  /** The size table is three 10:7 entries with distinct file names. */
  lemma SizesAreTenBySeven()
    ensures |Sizes| == 3
    ensures forall i :: 0 <= i < |Sizes| ==> TenBySeven(Sizes[i])
    ensures forall i, j :: 0 <= i < j < |Sizes| ==> Sizes[i].filename != Sizes[j].filename
  {
  }

  /**
    Because every entry has the ratio 10:7, the crop box does not depend on
    which entry the loop is at: it is the 10:7 crop of the source.
   */
  lemma SameCropForEverySize(img: SourceImage, i: int)
    requires img.width > 0 && img.height > 0
    requires 0 <= i < |Sizes|
    ensures Crop.CropRect(img.width, img.height, Sizes[i].width, Sizes[i].height)
            == Crop.CropRect(img.width, img.height, 10, 7)
  {
    SizesAreTenBySeven();
    Crop.CropDependsOnlyOnRatio(img.width, img.height, Sizes[i].width, Sizes[i].height, 10, 7);
  }

  /**
    The loop over the size table: one output per entry, in table order, each
    saved under the entry's file name at exactly the entry's size, each showing
    the same centred 10:7 box of the source.
   */
  method CreateAppImages(img: SourceImage) returns (outputs: seq<OutputImage>)
    requires img.width > 0 && img.height > 0
    ensures |outputs| == |Sizes|
    ensures forall i :: 0 <= i < |outputs| ==>
              && outputs[i].filename == Sizes[i].filename
              && outputs[i].width == Sizes[i].width
              && outputs[i].height == Sizes[i].height
              && outputs[i].crop == Crop.CropRect(img.width, img.height, 10, 7)
    ensures forall i :: 0 <= i < |outputs| ==> InBounds(outputs[i].crop, img.width, img.height)
  {
    SizesAreTenBySeven();
    outputs := [];
    var k := 0;
    while k < |Sizes|
      invariant 0 <= k <= |Sizes|
      invariant |outputs| == k
      invariant forall i :: 0 <= i < k ==>
                  && outputs[i].filename == Sizes[i].filename
                  && outputs[i].width == Sizes[i].width
                  && outputs[i].height == Sizes[i].height
                  && outputs[i].crop == Crop.CropRect(img.width, img.height, 10, 7)
    {
      var spec := Sizes[k];
      var box := Crop.CropRect(img.width, img.height, spec.width, spec.height);
      SameCropForEverySize(img, k);
      // Resizing the crop yields an image of exactly the entry's size.
      outputs := outputs + [OutputImage(spec.filename, box, spec.width, spec.height)];
      k := k + 1;
    }
  }
}
