/** Grid calibration: the empty reference pixel next to the first work block, and the
    width of one hour cell with the colour of the grid lines. */
module Calibration {
  import opened Imaging

  /** Starts one pixel left of the first block's top-left corner and walks down while the
      colour stays the colour of that starting pixel; stops on the first pixel that differs. */
  method FindReferencePoint(img: Image, first: Box) returns (kx: int, ky: int)
    requires img.Valid()
    ensures kx == first.x0 - 1 && ky > first.y0
    ensures forall j :: first.y0 < j < ky ==>
      ColorsEqual(ColorAt(img, kx, first.y0), ColorAt(img, kx, j))
    ensures !ColorsEqual(ColorAt(img, kx, first.y0), ColorAt(img, kx, ky))
  {
    kx := first.x0 - 1;
    ky := first.y0;
    var start := ColorAt(img, kx, ky);
    ky := ky + 1;
    while ColorsEqual(start, ColorAt(img, kx, ky))
      invariant ky > first.y0
      invariant forall j :: first.y0 < j < ky ==> ColorsEqual(start, ColorAt(img, kx, j))
      decreases |img.data| - 4 * PixelIndex(img, kx, ky)
    {
      DefinedColorWidth(img, kx, ky);
      PixelIndexNextRow(img, kx, ky);
      ky := ky + 1;
    }
  }

  /** Columns x0 < kx < x1 of row ky enclose the cell of reference pixel (kx, ky): every
      pixel strictly between them has the reference colour, the two ends do not. Columns
      outside the row name pixels of the neighbouring rows (the walks have no bounds check). */
  ghost predicate HourCellSpan(img: Image, kx: int, ky: int, x0: int, x1: int)
  {
    var empty := ColorAt(img, kx, ky);
    && x0 < kx < x1
    && (forall i :: x0 < i < x1 && i != kx ==> ColorsEqual(empty, ColorAt(img, i, ky)))
    && !ColorsEqual(empty, ColorAt(img, x0, ky))
    && !ColorsEqual(empty, ColorAt(img, x1, ky))
  }

  /** Walks left and right from the reference pixel while the colour matches it; the cell
      width is the distance between the two non-matching pixels and the border colour is
      the colour of the left one. */
  method GetHourCellWidthAndBorderColor(img: Image, kx: int, ky: int)
    returns (width: int, borderColor: Option<Color>, ghost x0: int, ghost x1: int)
    requires img.Valid()
    ensures HourCellSpan(img, kx, ky, x0, x1)
    ensures width == x1 - x0 && width >= 2
    ensures borderColor == ColorAt(img, x0, ky)
    ensures !ColorsEqual(ColorAt(img, kx, ky), borderColor)
  {
    var empty := ColorAt(img, kx, ky);
    var left := kx - 1;
    while ColorsEqual(empty, ColorAt(img, left, ky))
      invariant left < kx
      invariant forall i :: left < i < kx ==> ColorsEqual(empty, ColorAt(img, i, ky))
      decreases PixelIndex(img, left, ky)
    {
      left := left - 1;
    }
    borderColor := ColorAt(img, left, ky);
    var right := kx + 1;
    while ColorsEqual(empty, ColorAt(img, right, ky))
      invariant right > kx
      invariant forall i :: kx < i < right ==> ColorsEqual(empty, ColorAt(img, i, ky))
      decreases |img.data| - 4 * PixelIndex(img, right, ky)
    {
      right := right + 1;
    }
    width := right - left;
    x0, x1 := left, right;
  }

  /** On a row where the cell around the reference pixel is bounded by borders at p and
      p + w with only the reference colour between them, calibration yields exactly width
      w and the colour at p. */
  lemma UniformGridCalibration(img: Image, kx: int, ky: int, x0: int, x1: int, p: int, w: int)
    requires HourCellSpan(img, kx, ky, x0, x1)
    requires p < kx < p + w
    requires !ColorsEqual(ColorAt(img, kx, ky), ColorAt(img, p, ky))
    requires !ColorsEqual(ColorAt(img, kx, ky), ColorAt(img, p + w, ky))
    requires forall i :: p < i < p + w && i != kx ==> ColorsEqual(ColorAt(img, kx, ky), ColorAt(img, i, ky))
    ensures x0 == p && x1 == p + w
    ensures x1 - x0 == w && ColorAt(img, x0, ky) == ColorAt(img, p, ky)
  {
  }

  /** A row that has a non-matching pixel on each side of the reference pixel keeps the
      calibration walks inside that row (no wrap-around into a neighbouring row). */
  lemma CalibrationStaysInRow(img: Image, kx: int, ky: int, x0: int, x1: int, l: int, r: int)
    requires HourCellSpan(img, kx, ky, x0, x1)
    requires 0 <= l < kx < r < img.width
    requires !ColorsEqual(ColorAt(img, kx, ky), ColorAt(img, l, ky))
    requires !ColorsEqual(ColorAt(img, kx, ky), ColorAt(img, r, ky))
    ensures 0 <= l <= x0 < kx < x1 <= r < img.width
  {
  }

  /** The span around the reference pixel is unique: both ends are the first
      non-matching pixels on their side. */
  lemma HourCellSpanUnique(img: Image, kx: int, ky: int, x0: int, x1: int, x0': int, x1': int)
    requires HourCellSpan(img, kx, ky, x0, x1) && HourCellSpan(img, kx, ky, x0', x1')
    ensures x0 == x0' && x1 == x1'
  {
  }

  /** The same, for spans given by their left end and their width. */
  lemma HourCellSpanWidthUnique(img: Image, kx: int, ky: int, x0: int, w: int, x0': int, w': int)
    requires HourCellSpan(img, kx, ky, x0, x0 + w) && HourCellSpan(img, kx, ky, x0', x0' + w')
    ensures x0 == x0' && w == w'
  {
    HourCellSpanUnique(img, kx, ky, x0, x0 + w, x0', x0' + w');
  }
}
