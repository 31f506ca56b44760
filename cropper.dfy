/**
 * `ImageCropper`: the top-right region of interest of a frame, and the
 * channel-count decision the analysis thread makes on the cropped array
 * before it goes to OCR. Pixels are not modelled, only sizes and shapes.
 */
module ImageCropping {
  import opened Wrappers

  /** A decoded picture: its size and the number of bands of its pixel mode. */
  datatype Image = Image(width: nat, height: nat, bands: nat)

  /** A PIL crop box `(left, top, right, bottom)`. */
  datatype Rect = Rect(left: int, top: int, right: int, bottom: int)

  /** The cropper; its `crop_ratio` is the rational ratioNum / ratioDen. */
  datatype ImageCropper = ImageCropper(ratioNum: nat, ratioDen: nat)

  /** `int(n * crop_ratio)`: truncation is the floor on these non-negative values. */
  function Scaled(c: ImageCropper, n: nat): (r: nat)
    requires c.ratioDen > 0
    ensures r * c.ratioDen <= n * c.ratioNum < (r + 1) * c.ratioDen
  {
    n * c.ratioNum / c.ratioDen
  }

  /**
   * `get_crop_coordinates(width, height)`: a box flush with the top and right
   * edges whose width and height are the ratio's share of the image's, rounded
   * down.
   */
  function GetCropCoordinates(c: ImageCropper, width: nat, height: nat): (r: Rect)
    requires c.ratioDen > 0
    ensures r.top == 0 && r.right == width
    ensures r.right - r.left >= 0 && r.bottom >= 0
    ensures (r.right - r.left) * c.ratioDen <= width * c.ratioNum < (r.right - r.left + 1) * c.ratioDen
    ensures r.bottom * c.ratioDen <= height * c.ratioNum < (r.bottom + 1) * c.ratioDen
  {
    var cropWidth := Scaled(c, width);
    var cropHeight := Scaled(c, height);
    Rect(width - cropWidth, 0, width, cropHeight)
  }

  /** With a ratio in [0, 1] the box lies inside the image. */
  lemma CropInside(c: ImageCropper, width: nat, height: nat)
    requires 0 < c.ratioDen && c.ratioNum <= c.ratioDen
    ensures var r := GetCropCoordinates(c, width, height);
      0 <= r.left <= r.right == width && 0 == r.top <= r.bottom <= height
  {
    var r := GetCropCoordinates(c, width, height);
    ScaledAtMost(c, width);
    ScaledAtMost(c, height);
  }

  lemma ScaledAtMost(c: ImageCropper, n: nat)
    requires 0 < c.ratioDen && c.ratioNum <= c.ratioDen
    ensures Scaled(c, n) <= n
  {
    var r := Scaled(c, n);
    MulMono(n, c.ratioNum, c.ratioDen);
    MulMono(c.ratioDen, r, n + 1);
  }

  lemma MulMono(a: nat, b: nat, c: nat)
    requires b <= c
    ensures a * b <= a * c
  {
  }

  /**
   * `crop_top_right(image)`: the cropped picture has the size of the box that
   * `GetCropCoordinates` gives for the image, and keeps its pixel mode.
   */
  function CropTopRight(c: ImageCropper, image: Image): (r: Image)
    requires c.ratioDen > 0
    ensures var box := GetCropCoordinates(c, image.width, image.height);
      r.width == box.right - box.left && r.height == box.bottom - box.top
    ensures r.bands == image.bands
  {
    var cropWidth := image.width * c.ratioNum / c.ratioDen;
    var cropHeight := image.height * c.ratioNum / c.ratioDen;
    Image(cropWidth, cropHeight, image.bands)
  }

  /** `np.array(image).shape`: (height, width) for a one-band mode, else (height, width, bands). */
  function ArrayShape(image: Image): (r: seq<nat>)
    ensures |r| == 2 <==> image.bands == 1
    ensures |r| >= 2 && r[0] == image.height && r[1] == image.width
    ensures |r| == 3 ==> r[2] == image.bands
  {
    if image.bands == 1 then [image.height, image.width]
    else [image.height, image.width, image.bands]
  }

  /**
   * The channel normalisation before OCR: a rank-2 array is stacked to three
   * channels, four channels drop the alpha channel, any other channel count
   * but three skips the frame (None); arrays of another rank go on unchanged.
   */
  function NormalizeChannels(shape: seq<nat>): (r: Option<seq<nat>>)
    ensures r.None? <==> |shape| == 3 && shape[2] != 3 && shape[2] != 4
    ensures r.Some? && 2 <= |shape| <= 3 ==>
      |r.value| == 3 && r.value[..2] == shape[..2] && r.value[2] == 3
    ensures !(2 <= |shape| <= 3) ==> r == Some(shape)
  {
    if |shape| == 2 then Some(shape + [3])
    else if |shape| == 3 && shape[2] == 4 then Some(shape[..2] + [3])
    else if |shape| == 3 && shape[2] != 3 then None
    else Some(shape)
  }

  /**
   * A cropped picture reaches OCR as a height x width x 3 array exactly when
   * its mode has one, three or four bands.
   */
  lemma OcrInputShape(image: Image)
    ensures var r := NormalizeChannels(ArrayShape(image));
      (r.Some? <==> image.bands in {1, 3, 4}) &&
      (r.Some? ==> r.value == [image.height, image.width, 3])
  {
    var s := ArrayShape(image);
    if image.bands != 1 {
      assert s[..2] == [image.height, image.width];
    }
  }
}
