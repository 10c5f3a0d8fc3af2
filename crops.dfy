/**
 * The region of interest img[ymin:ymax, xmin:xmax, :] of crop_pascal_voc.py,
 * line 103: half-open, row-major slicing with Python's slice rules.
 */
module Crops {
  import opened Geometry

  /**
   * A decoded image: `rows` holds the pixel rows from top to bottom (y is the
   * row axis) and `width` the number of columns. P is one pixel with all of
   * its channels, which the `:` of the slice keeps whole.
   */
  datatype Image<P> = Image(width: nat, rows: seq<seq<P>>) {
    function Height(): nat { |rows| }

    predicate IsGrid() {
      forall y | 0 <= y < |rows| :: |rows[y]| == width
    }

    /** The image holds no pixel at all. */
    predicate IsEmpty() {
      Height() == 0 || width == 0
    }
  }

  /** An image whose rows all have `width` pixels, as every decoded array does. */
  type Grid<P> = img: Image<P> | img.IsGrid() witness Image(0, [])

  /**
   * Where a slice bound i falls on an axis of n elements: a negative bound
   * counts from the end, and the result is then cut to [0, n].
   */
  function SliceBound(i: int, n: nat): (r: nat)
    ensures r <= n
    ensures 0 <= i <= n ==> r == i
    ensures i > n ==> r == n
    ensures i < 0 && i + n >= 0 ==> r == i + n
    ensures i + n < 0 ==> r == 0
  {
    if i < 0 then (if i + n < 0 then 0 else i + n)
    else if i > n then n
    else i
  }

  /** The number of elements from lo up to hi; none when the range is reversed. */
  function Span(lo: nat, hi: nat): nat {
    if hi > lo then hi - lo else 0
  }

  /** img[b.ymin:b.ymax, b.xmin:b.xmax, :] */
  function Crop<P>(img: Grid<P>, b: Box): (r: Grid<P>)
    ensures r.Height() == Span(SliceBound(b.ymin, img.Height()), SliceBound(b.ymax, img.Height()))
    ensures r.width == Span(SliceBound(b.xmin, img.width), SliceBound(b.xmax, img.width))
    ensures forall y, x | 0 <= y < r.Height() && 0 <= x < r.width ::
      r.rows[y][x] == img.rows[SliceBound(b.ymin, img.Height()) + y][SliceBound(b.xmin, img.width) + x]
  {
    var y0 := SliceBound(b.ymin, img.Height());
    var x0 := SliceBound(b.xmin, img.width);
    var h := Span(y0, SliceBound(b.ymax, img.Height()));
    var w := Span(x0, SliceBound(b.xmax, img.width));
    Image(w, seq(h, y requires 0 <= y < h => img.rows[y0 + y][x0 .. x0 + w]))
  }

  /** A box inside the image gives ymax - ymin rows of xmax - xmin pixels, copied from (ymin + y, xmin + x). */
  lemma CropOfBoxInside<P>(img: Grid<P>, b: Box)
    requires 0 <= b.ymin <= b.ymax <= img.Height()
    requires 0 <= b.xmin <= b.xmax <= img.width
    ensures Crop(img, b).Height() == b.ymax - b.ymin
    ensures Crop(img, b).width == b.xmax - b.xmin
    ensures forall y, x | 0 <= y < b.ymax - b.ymin && 0 <= x < b.xmax - b.xmin ::
      Crop(img, b).rows[y][x] == img.rows[b.ymin + y][b.xmin + x]
  {
  }

  /** With non-negative coordinates, a reversed or degenerate range on either axis gives an empty crop. */
  lemma CropOfReversedRange<P>(img: Grid<P>, b: Box)
    requires 0 <= b.xmin && 0 <= b.ymin && 0 <= b.xmax && 0 <= b.ymax
    requires b.ymax <= b.ymin || b.xmax <= b.xmin
    ensures Crop(img, b).IsEmpty()
  {
  }

  /**
   * When the annotation's width and height are those of the image, the crop
   * of the clamped box has max(0, ymax' - ymin') rows and max(0, xmax' - xmin')
   * columns, and (when the image is not empty) pixel (y, x) of the crop is
   * pixel (ymin' + y, xmin' + x) of the image.
   */
  lemma CropOfClampedBox<P>(img: Grid<P>, b: Box, width: int, height: int)
    requires width == img.width && height == img.Height()
    ensures var c := ClampBox(b, width, height);
      && Crop(img, c).Height() == Max(0, c.ymax - c.ymin)
      && Crop(img, c).width == Max(0, c.xmax - c.xmin)
      && (width >= 1 && height >= 1 ==>
            forall y, x | 0 <= y < Crop(img, c).Height() && 0 <= x < Crop(img, c).width ::
              Crop(img, c).rows[y][x] == img.rows[c.ymin + y][c.xmin + x])
  {
  }

  /**
   * When the annotation's size is the image's, the crop of the clamped box
   * is empty exactly when the clamped box is reversed or degenerate on an
   * axis: those are the boxes whose crop cv2.imwrite refuses.
   */
  lemma ClampedCropIsEmpty<P>(img: Grid<P>, b: Box, width: int, height: int)
    requires width == img.width && height == img.Height()
    ensures var c := ClampBox(b, width, height);
      Crop(img, c).IsEmpty() <==> (c.ymax <= c.ymin || c.xmax <= c.xmin)
  {
    CropOfClampedBox(img, b, width, height);
  }

  /**
   * Because the exclusive end of each range is clamped to the last pixel,
   * the rows and columns a crop copies (from ymin' and xmin' on, by the
   * lemma above) stop before the last row and the last column of the image.
   */
  lemma CropMissesLastRowAndColumn<P>(img: Grid<P>, b: Box, width: int, height: int)
    requires width == img.width && height == img.Height() && width >= 1 && height >= 1
    ensures var c := ClampBox(b, width, height);
      && c.ymin + Crop(img, c).Height() <= height - 1
      && c.xmin + Crop(img, c).width <= width - 1
  {
    CropOfClampedBox(img, b, width, height);
  }

  /** The box (-5, 10, 120, 70) on a 100 x 80 image gives a crop of 60 rows of 99 pixels. */
  lemma CropExample<P>(img: Grid<P>)
    requires img.width == 100 && img.Height() == 80
    ensures Crop(img, ClampBox(Box(-5, 10, 120, 70), 100, 80)).Height() == 60
    ensures Crop(img, ClampBox(Box(-5, 10, 120, 70), 100, 80)).width == 99
  {
    CropOfClampedBox(img, Box(-5, 10, 120, 70), 100, 80);
  }
}
