/**
 * The per-page differ of `PDFComparisonTool.compare_images`: both pages are
 * resized to the larger of their dimensions, converted to grayscale, their
 * absolute difference is binarised with OpenCV's THRESH_BINARY rule, and a
 * two-colour overlay marks each pixel as changed or unchanged; the overlay is
 * then blended with the first page.
 *
 * The blend is `cv2.addWeighted` on 8-bit images, computed exactly over the
 * reals (rounded to nearest, ties to even, and clamped to 0..255). Bilinear
 * resampling and the RGB-to-gray conversion are library code the model
 * leaves abstract, as the fields of an `ImageLibrary` value.
 */
module Differ {
  import opened Raster

  /** `[0, 255, 0]`, written where the mask is 0. */
  const Unchanged: Rgb := Rgb(0, 255, 0)
  /** `[0, 0, 255]`, written where the mask is not 0 (channel 2 set). */
  const Changed: Rgb := Rgb(0, 0, 255)
  /** The zero pixel `np.zeros_like` starts the overlay with. */
  const Black: Rgb := Rgb(0, 0, 0)
  const White: Rgb := Rgb(255, 255, 255)

  /**
   * The two OpenCV computations the model leaves abstract:
   * `resample(img, h, w, i, j)` is pixel (i, j) of `cv2.resize(img, (w, h))`
   * when the size changes (bilinear interpolation), and `toGray` is the
   * per-pixel `cv2.COLOR_RGB2GRAY` conversion.
   */
  datatype ImageLibrary = ImageLibrary(
    resample: (Grid<Rgb>, nat, nat, nat, nat) -> Rgb,
    toGray: Rgb -> Byte)

  /**
   * `cv2.resize(img, (w, h))`: an image that already has the requested size
   * is copied unchanged, any other is resampled to `h` x `w`.
   */
  function Resize(lib: ImageLibrary, img: Grid<Rgb>, h: nat, w: nat): (r: Grid<Rgb>)
    requires img.WellFormed()
    ensures Fits(r, h, w)
    ensures h == img.height && w == img.width ==> r == img
  {
    if h == img.height && w == img.width then img
    else Grid(h, w, seq(h, i requires 0 <= i < h => seq(w, j requires 0 <= j < w => lib.resample(img, h, w, i, j))))
  }

  // ---------------------------------------------------------------------------
  // cv2.addWeighted on 8-bit images

  /** `cvRound`: the nearest integer, a tie going to the even one. */
  function RoundHalfEven(x: real): (n: int)
    ensures -0.5 <= x - n as real <= 0.5
    ensures (x - n as real == 0.5 || x - n as real == -0.5) ==> n % 2 == 0
  {
    var f := x.Floor;
    var frac := x - f as real;
    if frac < 0.5 then f
    else if frac > 0.5 then f + 1
    else if f % 2 == 0 then f else f + 1
  }

  /** `saturate_cast<uchar>`: rounded, then clamped to 0..255. */
  function SaturateByte(x: real): (b: Byte)
    ensures 0.0 <= x <= 255.0 ==> b == RoundHalfEven(x)
    ensures x < 0.0 ==> b == 0
    ensures x > 255.0 ==> b == 255
  {
    var n := RoundHalfEven(x);
    if n < 0 then 0 else if n > 255 then 255 else n
  }

  /** One channel of `cv2.addWeighted(a, alpha, b, beta, 0)`; weights (1, 0) and (0, 1) pick an operand. */
  function WeighChannel(x: Byte, alpha: real, y: Byte, beta: real): (c: Byte)
    ensures alpha == 1.0 && beta == 0.0 ==> c == x
    ensures alpha == 0.0 && beta == 1.0 ==> c == y
  {
    var v := x as real * alpha + y as real * beta;
    assert alpha == 1.0 && beta == 0.0 ==> v == x as real && v.Floor == x;
    assert alpha == 0.0 && beta == 1.0 ==> v == y as real && v.Floor == y;
    SaturateByte(v)
  }

  function WeighPixel(p: Rgb, alpha: real, q: Rgb, beta: real): Rgb {
    Rgb(WeighChannel(p.c0, alpha, q.c0, beta), WeighChannel(p.c1, alpha, q.c1, beta),
        WeighChannel(p.c2, alpha, q.c2, beta))
  }

  /** `cv2.addWeighted(a, alpha, b, beta, 0)` on two images of one shape, pixel by pixel. */
  function AddWeighted(a: Grid<Rgb>, alpha: real, b: Grid<Rgb>, beta: real): (r: Grid<Rgb>)
    requires a.WellFormed() && Fits(b, a.height, a.width)
    ensures Fits(r, a.height, a.width)
    ensures forall i, j :: 0 <= i < a.height && 0 <= j < a.width ==>
              r.cells[i][j] == WeighPixel(a.cells[i][j], alpha, b.cells[i][j], beta)
  {
    Grid(a.height, a.width,
      seq(a.height, i requires 0 <= i < a.height =>
        seq(a.width, j requires 0 <= j < a.width => WeighPixel(a.cells[i][j], alpha, b.cells[i][j], beta))))
  }

  /** Weights (1, 0) give the first image back, weights (0, 1) the second. */
  lemma AddWeightedSelects(a: Grid<Rgb>, b: Grid<Rgb>)
    requires a.WellFormed() && Fits(b, a.height, a.width)
    ensures AddWeighted(a, 1.0, b, 0.0) == a
    ensures AddWeighted(a, 0.0, b, 1.0) == b
  {
    GridsEqual(AddWeighted(a, 1.0, b, 0.0), a);
    GridsEqual(AddWeighted(a, 0.0, b, 1.0), b);
  }

  /** The absolute difference of two channel values, as `cv2.absdiff` computes it per pixel. */
  function Distance(a: Byte, b: Byte): (d: Byte)
    ensures d == a - b || d == b - a
  {
    if a >= b then a - b else b - a
  }

  /** Grids of the same shape with the same cells are equal. */
  lemma GridsEqual<T>(g1: Grid<T>, g2: Grid<T>)
    requires g1.WellFormed() && Fits(g2, g1.height, g1.width)
    requires forall i, j :: 0 <= i < g1.height && 0 <= j < g1.width ==> g1.cells[i][j] == g2.cells[i][j]
    ensures g1 == g2
  {
    forall i | 0 <= i < g1.height
      ensures g1.cells[i] == g2.cells[i]
    {
      assert forall j :: 0 <= j < g1.width ==> g1.cells[i][j] == g2.cells[i][j];
    }
  }

  // ---------------------------------------------------------------------------
  // The integer pipeline: gray, absdiff, threshold, overlay

  /** One row of `cv2.cvtColor(img, cv2.COLOR_RGB2GRAY)`. */
  function GrayRow(lib: ImageLibrary, row: seq<Rgb>): (r: seq<Byte>)
    ensures |r| == |row| && forall j :: 0 <= j < |row| ==> r[j] == lib.toGray(row[j])
  {
    if row == [] then [] else [lib.toGray(row[0])] + GrayRow(lib, row[1..])
  }

  function Gray(lib: ImageLibrary, img: Grid<Rgb>): (g: Grid<Byte>)
    requires img.WellFormed()
    ensures Fits(g, img.height, img.width)
    ensures forall i, j :: 0 <= i < img.height && 0 <= j < img.width ==>
              g.cells[i][j] == lib.toGray(img.cells[i][j])
  {
    Grid(img.height, img.width,
      seq(img.height, i requires 0 <= i < img.height => GrayRow(lib, img.cells[i])))
  }

  /** `cv2.absdiff` of two grayscale images of one shape. */
  function AbsDiff(g1: Grid<Byte>, g2: Grid<Byte>): (d: Grid<Byte>)
    requires g1.WellFormed() && Fits(g2, g1.height, g1.width)
    ensures Fits(d, g1.height, g1.width)
    ensures forall i, j :: 0 <= i < g1.height && 0 <= j < g1.width ==>
              d.cells[i][j] == Distance(g1.cells[i][j], g2.cells[i][j])
  {
    Grid(g1.height, g1.width,
      seq(g1.height, i requires 0 <= i < g1.height =>
        seq(g1.width, j requires 0 <= j < g1.width => Distance(g1.cells[i][j], g2.cells[i][j]))))
  }

  /**
   * `cv2.threshold(d, t, 255, cv2.THRESH_BINARY)`: 255 where the value is
   * above `t`, 0 elsewhere. On 8-bit input OpenCV compares against the floor
   * of `t`, so the rule holds for every integer threshold.
   */
  function Threshold(d: Grid<Byte>, t: int): (m: Grid<Byte>)
    requires d.WellFormed()
    ensures Fits(m, d.height, d.width)
    ensures forall i, j :: 0 <= i < d.height && 0 <= j < d.width ==>
              m.cells[i][j] == if d.cells[i][j] > t then 255 else 0
  {
    Grid(d.height, d.width,
      seq(d.height, i requires 0 <= i < d.height =>
        seq(d.width, j requires 0 <= j < d.width => if d.cells[i][j] > t then 255 else 0)))
  }

  /** The overlay: unchanged pixels painted green, changed ones painted with channel 2 full. */
  function Overlay(mask: Grid<Byte>): (o: Grid<Rgb>)
    requires mask.WellFormed()
    ensures Fits(o, mask.height, mask.width)
    ensures forall i, j :: 0 <= i < mask.height && 0 <= j < mask.width ==>
              o.cells[i][j] == if mask.cells[i][j] == 0 then Unchanged else Changed
  {
    Grid(mask.height, mask.width,
      seq(mask.height, i requires 0 <= i < mask.height =>
        seq(mask.width, j requires 0 <= j < mask.width =>
          if mask.cells[i][j] == 0 then Unchanged else Changed)))
  }

  // ---------------------------------------------------------------------------
  // compare_images

  /** The grayscale form of `img` resized to `h` x `w`. */
  function ResizedGray(lib: ImageLibrary, img: Grid<Rgb>, h: nat, w: nat): (g: Grid<Byte>)
    requires img.WellFormed()
    ensures Fits(g, h, w)
  {
    Gray(lib, Resize(lib, img, h, w))
  }

  /** The binary change mask `thresh` that `compare_images` computes. */
  function ChangeMask(lib: ImageLibrary, img1: Grid<Rgb>, img2: Grid<Rgb>, threshold: int): (m: Grid<Byte>)
    requires img1.WellFormed() && img2.WellFormed()
    ensures Fits(m, Max(img1.height, img2.height), Max(img1.width, img2.width))
  {
    var h, w := Max(img1.height, img2.height), Max(img1.width, img2.width);
    Threshold(AbsDiff(ResizedGray(lib, img1, h, w), ResizedGray(lib, img2, h, w)), threshold)
  }

  /** `compare_images(img1, img2)` with the tool's current threshold and colour intensity. */
  function CompareImages(lib: ImageLibrary, img1: Grid<Rgb>, img2: Grid<Rgb>,
                         threshold: int, colorIntensity: real): (r: Grid<Rgb>)
    requires img1.WellFormed() && img2.WellFormed()
    ensures Fits(r, Max(img1.height, img2.height), Max(img1.width, img2.width))
  {
    var h, w := Max(img1.height, img2.height), Max(img1.width, img2.width);
    var resized1 := Resize(lib, img1, h, w);
    var overlay := Overlay(ChangeMask(lib, img1, img2, threshold));
    var alpha := 1.0 - colorIntensity;
    AddWeighted(resized1, alpha, overlay, 1.0 - alpha)
  }

  /** The positions the mask marks as changed. */
  function ChangedPixels(mask: Grid<Byte>): set<(int, int)>
    requires mask.WellFormed()
  {
    set i, j | 0 <= i < mask.height && 0 <= j < mask.width && mask.cells[i][j] != 0 :: (i, j)
  }

  /** `np.any(img[:, :, 2] == 255)`: the report's test for a page with differences. */
  predicate AnyChannel2Full(img: Grid<Rgb>)
    requires img.WellFormed()
  {
    exists i, j :: 0 <= i < img.height && 0 <= j < img.width && img.cells[i][j].c2 == 255
  }

  // ---------------------------------------------------------------------------
  // Properties of the mask and the overlay

  /**
   * A pixel of the common canvas is changed exactly when the grayscale values
   * of the two resized pages differ by more than the threshold.
   */
  lemma ChangedIffGrayDifference(lib: ImageLibrary, img1: Grid<Rgb>, img2: Grid<Rgb>, threshold: int)
    requires img1.WellFormed() && img2.WellFormed()
    ensures var h, w := Max(img1.height, img2.height), Max(img1.width, img2.width);
            var g1, g2 := ResizedGray(lib, img1, h, w), ResizedGray(lib, img2, h, w);
            ChangedPixels(ChangeMask(lib, img1, img2, threshold))
              == set i, j | 0 <= i < h && 0 <= j < w && Distance(g1.cells[i][j], g2.cells[i][j]) > threshold :: (i, j)
  {
    var h, w := Max(img1.height, img2.height), Max(img1.width, img2.width);
    var g1, g2 := ResizedGray(lib, img1, h, w), ResizedGray(lib, img2, h, w);
    var mask := ChangeMask(lib, img1, img2, threshold);
    var byGray := set i, j | 0 <= i < h && 0 <= j < w && Distance(g1.cells[i][j], g2.cells[i][j]) > threshold :: (i, j);
    forall p | p in ChangedPixels(mask) ensures p in byGray {
      var (i, j) := p;
      MaskCell(lib, img1, img2, threshold, i, j);
    }
    forall p | p in byGray ensures p in ChangedPixels(mask) {
      var (i, j) := p;
      MaskCell(lib, img1, img2, threshold, i, j);
    }
  }

  /** A mask cell is 255 where the grayscale difference exceeds the threshold and 0 elsewhere. */
  lemma MaskCell(lib: ImageLibrary, img1: Grid<Rgb>, img2: Grid<Rgb>, threshold: int, i: nat, j: nat)
    requires img1.WellFormed() && img2.WellFormed()
    requires i < Max(img1.height, img2.height) && j < Max(img1.width, img2.width)
    ensures var h, w := Max(img1.height, img2.height), Max(img1.width, img2.width);
            var g1, g2 := ResizedGray(lib, img1, h, w), ResizedGray(lib, img2, h, w);
            ChangeMask(lib, img1, img2, threshold).cells[i][j]
              == if Distance(g1.cells[i][j], g2.cells[i][j]) > threshold then 255 else 0
  {
  }

  /** Raising the threshold never adds a changed pixel. */
  lemma RaisingThresholdNeverAddsChanges(lib: ImageLibrary, img1: Grid<Rgb>, img2: Grid<Rgb>, t1: int, t2: int)
    requires img1.WellFormed() && img2.WellFormed()
    requires t1 <= t2
    ensures ChangedPixels(ChangeMask(lib, img1, img2, t2)) <= ChangedPixels(ChangeMask(lib, img1, img2, t1))
  {
    var m1, m2 := ChangeMask(lib, img1, img2, t1), ChangeMask(lib, img1, img2, t2);
    forall p | p in ChangedPixels(m2) ensures p in ChangedPixels(m1) {
      var (i, j) := p;
      assert m2.cells[i][j] != 0;
      assert m1.cells[i][j] != 0;
    }
  }

  /** Two identical pages have no changed pixel for any threshold of at least 0. */
  lemma IdenticalPagesHaveNoChanges(lib: ImageLibrary, img: Grid<Rgb>, threshold: int)
    requires img.WellFormed()
    requires 0 <= threshold
    ensures ChangedPixels(ChangeMask(lib, img, img, threshold)) == {}
  {
    var mask := ChangeMask(lib, img, img, threshold);
    assert forall i, j :: 0 <= i < mask.height && 0 <= j < mask.width ==> mask.cells[i][j] == 0;
  }

  /** `absdiff` is symmetric, so swapping the pages leaves the mask unchanged. */
  lemma ChangeMaskSymmetric(lib: ImageLibrary, img1: Grid<Rgb>, img2: Grid<Rgb>, threshold: int)
    requires img1.WellFormed() && img2.WellFormed()
    ensures ChangeMask(lib, img1, img2, threshold) == ChangeMask(lib, img2, img1, threshold)
  {
    var m, m' := ChangeMask(lib, img1, img2, threshold), ChangeMask(lib, img2, img1, threshold);
    GridsEqual(m, m');
  }

  /**
   * The overlay has the common (maximum) shape, and each of its pixels is
   * `[0, 0, 255]` where the grayscale difference exceeds the threshold and
   * `[0, 255, 0]` elsewhere; no other value occurs.
   */
  lemma OverlayMarksChanges(lib: ImageLibrary, img1: Grid<Rgb>, img2: Grid<Rgb>, threshold: int)
    requires img1.WellFormed() && img2.WellFormed()
    ensures var h, w := Max(img1.height, img2.height), Max(img1.width, img2.width);
            var g1, g2 := ResizedGray(lib, img1, h, w), ResizedGray(lib, img2, h, w);
            var o := Overlay(ChangeMask(lib, img1, img2, threshold));
            && Fits(o, h, w)
            && forall i, j :: 0 <= i < h && 0 <= j < w ==>
                 && (o.cells[i][j] == Changed <==> Distance(g1.cells[i][j], g2.cells[i][j]) > threshold)
                 && (o.cells[i][j] == Unchanged <==> Distance(g1.cells[i][j], g2.cells[i][j]) <= threshold)
  {
  }

  /** At colour intensity 0 the diff image is the first page, resized to the common shape. */
  lemma ZeroIntensityShowsFirstPage(lib: ImageLibrary, img1: Grid<Rgb>, img2: Grid<Rgb>, threshold: int)
    requires img1.WellFormed() && img2.WellFormed()
    ensures CompareImages(lib, img1, img2, threshold, 0.0)
              == Resize(lib, img1, Max(img1.height, img2.height), Max(img1.width, img2.width))
  {
    var h, w := Max(img1.height, img2.height), Max(img1.width, img2.width);
    AddWeightedSelects(Resize(lib, img1, h, w), Overlay(ChangeMask(lib, img1, img2, threshold)));
  }

  /** At colour intensity 1 the diff image is the bare overlay. */
  lemma FullIntensityShowsOverlay(lib: ImageLibrary, img1: Grid<Rgb>, img2: Grid<Rgb>, threshold: int)
    requires img1.WellFormed() && img2.WellFormed()
    ensures CompareImages(lib, img1, img2, threshold, 1.0) == Overlay(ChangeMask(lib, img1, img2, threshold))
  {
    var h, w := Max(img1.height, img2.height), Max(img1.width, img2.width);
    AddWeightedSelects(Resize(lib, img1, h, w), Overlay(ChangeMask(lib, img1, img2, threshold)));
  }

  /**
   * At colour intensity 1 the report's channel-2 test on the diff image finds
   * a page exactly when its mask has a changed pixel.
   */
  lemma FullIntensityChannel2MeansChange(lib: ImageLibrary, img1: Grid<Rgb>, img2: Grid<Rgb>, threshold: int)
    requires img1.WellFormed() && img2.WellFormed()
    ensures (AnyChannel2Full(CompareImages(lib, img1, img2, threshold, 1.0))
             <==> ChangedPixels(ChangeMask(lib, img1, img2, threshold)) != {})
  {
    var mask := ChangeMask(lib, img1, img2, threshold);
    FullIntensityShowsOverlay(lib, img1, img2, threshold);
    OverlayChannel2MeansChange(mask);
  }

  /** In the bare overlay, channel 2 is 255 exactly at the changed pixels. */
  lemma OverlayChannel2MeansChange(mask: Grid<Byte>)
    requires mask.WellFormed()
    ensures AnyChannel2Full(Overlay(mask)) <==> ChangedPixels(mask) != {}
  {
    var o := Overlay(mask);
    if AnyChannel2Full(o) {
      var i, j :| 0 <= i < o.height && 0 <= j < o.width && o.cells[i][j].c2 == 255;
      assert (i, j) in ChangedPixels(mask);
    }
    if ChangedPixels(mask) != {} {
      var p :| p in ChangedPixels(mask);
      var (i, j) := p;
      assert o.cells[i][j].c2 == 255;
    }
  }


  /**
   * As written, at colour intensity 0 the diff image is the first page itself,
   * so a page with any pixel whose channel 2 is 255 (every white pixel) passes
   * the report's test even when it is compared with itself and its mask is
   * empty.
   */
  lemma ZeroIntensityFlagsIdenticalPage(lib: ImageLibrary, img: Grid<Rgb>, threshold: int)
    requires img.WellFormed()
    requires 0 <= threshold && AnyChannel2Full(img)
    ensures AnyChannel2Full(CompareImages(lib, img, img, threshold, 0.0))
    ensures ChangedPixels(ChangeMask(lib, img, img, threshold)) == {}
  {
    ZeroIntensityShowsFirstPage(lib, img, img, threshold);
    IdenticalPagesHaveNoChanges(lib, img, threshold);
  }

  /**
   * At the default colour intensity 0.3 (weights 0.7 for the page and 0.3 for
   * the overlay), channel 2 of a blended pixel is 255 exactly when the overlay
   * marks it changed and the page's channel 2 is 255 already.
   */
  lemma DefaultBlendChannel2(x: Byte, changed: bool)
    ensures (WeighChannel(x, 1.0 - 0.3, if changed then 255 else 0, 1.0 - (1.0 - 0.3)) == 255
             <==> changed && x == 255)
  {
    var y: Byte := if changed then 255 else 0;
    var v := x as real * 0.7 + y as real * 0.3;
    assert WeighChannel(x, 1.0 - 0.3, y, 1.0 - (1.0 - 0.3)) == SaturateByte(v);
    if changed && x == 255 {
      assert v == 255.0 && v.Floor == 255;
    } else {
      assert 0.0 <= v <= 254.3;
    }
  }

  /**
   * At the default colour intensity a pixel of the diff image has channel 2
   * at 255 exactly when the mask marks it changed and the resized first page
   * has channel 2 at 255 there.
   */
  lemma DefaultIntensityChannel2(lib: ImageLibrary, img1: Grid<Rgb>, img2: Grid<Rgb>, threshold: int, i: nat, j: nat)
    requires img1.WellFormed() && img2.WellFormed()
    requires i < Max(img1.height, img2.height) && j < Max(img1.width, img2.width)
    ensures var h, w := Max(img1.height, img2.height), Max(img1.width, img2.width);
            (CompareImages(lib, img1, img2, threshold, 0.3).cells[i][j].c2 == 255
             <==> ChangeMask(lib, img1, img2, threshold).cells[i][j] != 0 && Resize(lib, img1, h, w).cells[i][j].c2 == 255)
  {
    var h, w := Max(img1.height, img2.height), Max(img1.width, img2.width);
    var mask := ChangeMask(lib, img1, img2, threshold);
    var overlay := Overlay(mask);
    var resized1 := Resize(lib, img1, h, w);
    assert CompareImages(lib, img1, img2, threshold, 0.3).cells[i][j]
             == WeighPixel(resized1.cells[i][j], 1.0 - 0.3, overlay.cells[i][j], 1.0 - (1.0 - 0.3));
    assert overlay.cells[i][j].c2 == if mask.cells[i][j] != 0 then 255 else 0;
    DefaultBlendChannel2(resized1.cells[i][j].c2, mask.cells[i][j] != 0);
  }

  /**
   * As written, at the default colour intensity a page whose only change is a
   * pixel that is black on the first page and white on the second escapes
   * the report's channel-2 test: the mask marks the pixel, but no pixel of
   * the diff image has channel 2 at 255.
   */
  lemma DefaultIntensityMissesDarkChange(lib: ImageLibrary, threshold: int)
    requires Distance(lib.toGray(Black), lib.toGray(White)) > threshold
    ensures var page1, page2 := Grid(1, 1, [[Black]]), Grid(1, 1, [[White]]);
            && ChangedPixels(ChangeMask(lib, page1, page2, threshold)) == {(0, 0)}
            && !AnyChannel2Full(CompareImages(lib, page1, page2, threshold, 0.3))
  {
    var page1, page2 := Grid(1, 1, [[Black]]), Grid(1, 1, [[White]]);
    var mask := ChangeMask(lib, page1, page2, threshold);
    assert ResizedGray(lib, page1, 1, 1).cells[0][0] == lib.toGray(Black);
    assert ResizedGray(lib, page2, 1, 1).cells[0][0] == lib.toGray(White);
    MaskCell(lib, page1, page2, threshold, 0, 0);
    assert (0, 0) in ChangedPixels(mask);
    DefaultIntensityChannel2(lib, page1, page2, threshold, 0, 0);
  }

  // ---------------------------------------------------------------------------
  // The overlay as the source writes it: in place, into a zero-filled array

  /**
   * Builds the overlay array the way lines 73-75 do: start from zeros, paint
   * green where the mask is 0, then paint blue-channel where it is not.
   */
  method PaintOverlay(mask: Grid<Byte>) returns (result: array2<Rgb>)
    requires mask.WellFormed()
    ensures fresh(result)
    ensures result.Length0 == mask.height && result.Length1 == mask.width
    ensures forall i, j :: 0 <= i < mask.height && 0 <= j < mask.width ==>
              result[i, j] == Overlay(mask).cells[i][j]
  {
    var h, w := mask.height, mask.width;
    result := new Rgb[h, w]((i, j) => Black);
    // First pass: paint the unchanged pixels.
    var i := 0;
    while i < h
      invariant 0 <= i <= h
      invariant forall r, c :: 0 <= r < h && 0 <= c < w ==>
                  result[r, c] == if r < i && mask.cells[r][c] == 0 then Unchanged else Black
    {
      var j := 0;
      while j < w
        invariant 0 <= j <= w
        invariant forall r, c :: 0 <= r < h && 0 <= c < w ==>
                    result[r, c] == if (r < i || (r == i && c < j)) && mask.cells[r][c] == 0 then Unchanged else Black
      {
        if mask.cells[i][j] == 0 {
          result[i, j] := Unchanged;
        }
        j := j + 1;
      }
      i := i + 1;
    }
    // Second pass: paint the changed pixels.
    i := 0;
    while i < h
      invariant 0 <= i <= h
      invariant forall r, c :: 0 <= r < h && 0 <= c < w ==>
                  result[r, c] == if mask.cells[r][c] == 0 then Unchanged else if r < i then Changed else Black
    {
      var j := 0;
      while j < w
        invariant 0 <= j <= w
        invariant forall r, c :: 0 <= r < h && 0 <= c < w ==>
                    result[r, c] == if mask.cells[r][c] == 0 then Unchanged
                                    else if r < i || (r == i && c < j) then Changed else Black
      {
        if mask.cells[i][j] != 0 {
          result[i, j] := Changed;
        }
        j := j + 1;
      }
      i := i + 1;
    }
  }
}
