/** The integer stages of `ela_analysis`: the per-sample absolute difference
    between the original RGB image and its recompressed copy (`cv2.absdiff`)
    and the binary threshold at 30 (`cv2.threshold` with `THRESH_BINARY`).
    The JPEG re-encode, the RGB-to-gray reduction and the min-max
    normalisation are foreign library code: the recompressed image is an
    input and the two reductions are function parameters. */
module Ela {
  import opened Common

  /** One RGB pixel of 8-bit samples. */
  datatype Rgb = Rgb(r: int, g: int, b: int)

  /** An image as rows of pixels (`np.array` of an RGB image). */
  type Image = seq<seq<Rgb>>

  /** A single-channel image as rows of samples. */
  type Grid = seq<seq<int>>

  /** The threshold of the source and the value it writes above it. */
  const Threshold: int := 30
  const MaskOn: int := 255

  /** Where the mask is written. */
  const ResultPath: string := "ela_result.png"

  predicate IsSample(v: int) { 0 <= v <= 255 }

  predicate ValidPixel(p: Rgb) { IsSample(p.r) && IsSample(p.g) && IsSample(p.b) }

  predicate ValidImage(img: Image)
  {
    forall i, j :: 0 <= i < |img| && 0 <= j < |img[i]| ==> ValidPixel(img[i][j])
  }

  /** Two images or grids have the same number of rows and the same number
      of elements in each row. */
  predicate SameShape<T, U>(a: seq<seq<T>>, b: seq<seq<U>>)
  {
    |a| == |b| && forall i :: 0 <= i < |a| ==> |a[i]| == |b[i]|
  }

  function AbsDiff(x: int, y: int): int
  {
    if x >= y then x - y else y - x
  }

  function PixelDiff(p: Rgb, q: Rgb): Rgb
  {
    Rgb(AbsDiff(p.r, q.r), AbsDiff(p.g, q.g), AbsDiff(p.b, q.b))
  }

  /** `cv2.absdiff` of two same-shaped images, sample by sample. */
  function AbsDiffImage(a: Image, b: Image): (d: Image)
    requires SameShape(a, b)
    ensures SameShape(d, a)
    ensures forall i, j :: 0 <= i < |d| && 0 <= j < |d[i]| ==> d[i][j] == PixelDiff(a[i][j], b[i][j])
  {
    seq(|a|, i requires 0 <= i < |a| => seq(|a[i]|, j requires 0 <= j < |a[i]| => PixelDiff(a[i][j], b[i][j])))
  }

  /** The difference of two 8-bit images is an 8-bit image. */
  lemma AbsDiffInRange(a: Image, b: Image)
    requires SameShape(a, b) && ValidImage(a) && ValidImage(b)
    ensures ValidImage(AbsDiffImage(a, b))
  {
  }

  /** The difference does not depend on the order of the images. */
  lemma AbsDiffSymmetric(a: Image, b: Image)
    requires SameShape(a, b)
    ensures SameShape(b, a)
    ensures AbsDiffImage(a, b) == AbsDiffImage(b, a)
  {
    var d, e := AbsDiffImage(a, b), AbsDiffImage(b, a);
    assert |d| == |e|;
    forall i | 0 <= i < |d| ensures d[i] == e[i] {
      assert |d[i]| == |e[i]|;
    }
  }

  /** A black pixel: all three samples zero. */
  predicate IsZeroPixel(p: Rgb) { p.r == 0 && p.g == 0 && p.b == 0 }

  /** The difference is zero at exactly the pixels where the images agree;
      in particular it is all zero exactly when the images are equal. */
  lemma AbsDiffZeroIffEqual(a: Image, b: Image)
    requires SameShape(a, b)
    ensures forall i, j :: 0 <= i < |a| && 0 <= j < |a[i]| ==>
      (IsZeroPixel(AbsDiffImage(a, b)[i][j]) <==> a[i][j] == b[i][j])
    ensures (forall i, j :: 0 <= i < |a| && 0 <= j < |a[i]| ==> IsZeroPixel(AbsDiffImage(a, b)[i][j]))
      <==> a == b
  {
    var d := AbsDiffImage(a, b);
    if forall i, j :: 0 <= i < |a| && 0 <= j < |a[i]| ==> IsZeroPixel(d[i][j]) {
      forall i | 0 <= i < |a| ensures a[i] == b[i] {
        forall j | 0 <= j < |a[i]| ensures a[i][j] == b[i][j] {
          assert IsZeroPixel(d[i][j]);
        }
      }
    }
  }

  /** `cv2.threshold(g, 30, 255, THRESH_BINARY)`: above the threshold becomes
      255, everything else 0. */
  function ThresholdBinary(g: Grid): (m: Grid)
    ensures SameShape(m, g)
  {
    seq(|g|, i requires 0 <= i < |g| =>
      seq(|g[i]|, j requires 0 <= j < |g[i]| => if g[i][j] > Threshold then MaskOn else 0))
  }

  /** Every value of a binary mask is 0 or 255. */
  predicate IsBinaryMask(m: Grid)
  {
    forall i, j :: 0 <= i < |m| && 0 <= j < |m[i]| ==> m[i][j] == 0 || m[i][j] == MaskOn
  }

  /** The threshold keeps the shape, writes only 0 and 255, and writes 255
      exactly where the input exceeds 30. */
  lemma ThresholdIsMask(g: Grid)
    ensures SameShape(ThresholdBinary(g), g)
    ensures IsBinaryMask(ThresholdBinary(g))
    ensures forall i, j :: 0 <= i < |g| && 0 <= j < |g[i]| ==>
      (ThresholdBinary(g)[i][j] == MaskOn <==> g[i][j] > Threshold)
  {
  }

  /** Thresholding a mask again changes nothing. */
  lemma ThresholdIdempotent(g: Grid)
    ensures ThresholdBinary(ThresholdBinary(g)) == ThresholdBinary(g)
  {
    var m := ThresholdBinary(g);
    var n := ThresholdBinary(m);
    assert |n| == |m|;
    forall i | 0 <= i < |m| ensures n[i] == m[i] {
      assert |n[i]| == |m[i]|;
    }
  }

  /** An input never above the threshold (the all-zero normalisation of an
      image that recompresses without change, for one) gives an empty mask. */
  lemma ThresholdOfQuietGridIsZero(g: Grid)
    requires forall i, j :: 0 <= i < |g| && 0 <= j < |g[i]| ==> g[i][j] <= Threshold
    ensures forall i, j :: 0 <= i < |g| && 0 <= j < |g[i]| ==> ThresholdBinary(g)[i][j] == 0
  {
  }

  /** What `ela_analysis` reports: the mask written to `path`, or the
      `except` branch. */
  datatype ElaOutcome = Saved(path: string, mask: Grid) | Failed

  /** `ela_analysis` given the decoded original and recompressed images and
      the two library reductions: `cv2.absdiff` raises on images of different
      shapes, which the source's `except` turns into an error message. */
  function ElaAnalysis(original: Image, recompressed: Image,
                       toGray: Image -> Grid, normalize: Grid -> Grid): (r: ElaOutcome)
    ensures r.Saved? <==> SameShape(original, recompressed)
    ensures r.Saved? ==> r.path == ResultPath && IsBinaryMask(r.mask)
    ensures r.Saved? ==>
      var n := normalize(toGray(AbsDiffImage(original, recompressed)));
      SameShape(r.mask, n) &&
      forall i, j :: 0 <= i < |n| && 0 <= j < |n[i]| ==> (r.mask[i][j] == MaskOn <==> n[i][j] > Threshold)
  {
    if SameShape(original, recompressed) then
      var diff := AbsDiffImage(original, recompressed);
      Saved(ResultPath, ThresholdBinary(normalize(toGray(diff))))
    else
      Failed
  }

  /** The text `perform_ela` shows: the saved-to text exactly for a saved
      mask, and it names the path. The failure text is the fixed part of the
      source's message only. */
  function ElaMessage(r: ElaOutcome): (msg: string)
    ensures StartsWith(msg, "ELA result saved as ") <==> r.Saved?
    ensures r.Saved? ==> msg[|"ELA result saved as "|..] == r.path
  {
    match r
    case Saved(path, _) => "ELA result saved as " + path
    case Failed =>
      assert "Error performing ELA"[1] != "ELA result saved as "[1];
      "Error performing ELA"
  }

  /** Every pixel of the image is black. */
  predicate AllBlack(img: Image)
  {
    forall i, j :: 0 <= i < |img| && 0 <= j < |img[i]| ==> IsZeroPixel(img[i][j])
  }

  /** Every value of the grid is zero. */
  predicate AllZeroGrid(g: Grid)
  {
    forall i, j :: 0 <= i < |g| && 0 <= j < |g[i]| ==> g[i][j] == 0
  }

  /** The degenerate case: an image that recompresses with no difference is
      saved with an all-zero mask. The two library reductions are only
      assumed to behave as they do on zeros: the grayscale of a black image
      is all zero, and min-max normalisation of a constant (here all-zero)
      grid, where max == min, is all zero. */
  lemma ElaOfUnchangedImage(img: Image, toGray: Image -> Grid, normalize: Grid -> Grid)
    requires forall x :: AllBlack(x) ==> AllZeroGrid(toGray(x))
    requires forall g :: AllZeroGrid(g) ==> AllZeroGrid(normalize(g))
    ensures ElaAnalysis(img, img, toGray, normalize).Saved?
    ensures var m := ElaAnalysis(img, img, toGray, normalize).mask;
      forall i, j :: 0 <= i < |m| && 0 <= j < |m[i]| ==> m[i][j] == 0
  {
    var d := AbsDiffImage(img, img);
    AbsDiffZeroIffEqual(img, img);
    assert AllBlack(d);
    var n := normalize(toGray(d));
    assert AllZeroGrid(n);
    ThresholdOfQuietGridIsZero(n);
  }
}
