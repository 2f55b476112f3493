/** Locating the first date-header cell by its doubled border lines, and cropping it out
    for text recognition. */
module DateCell {
  import opened Imaging

  /** Pixel (x, y) has the grid's border colour. */
  ghost predicate IsBorder(img: Image, border: Option<Color>, x: int, y: int)
  {
    ColorsEqual(border, ColorAt(img, x, y))
  }

  /** `b` is what the four border-bounded walks from (sx, sy) give: the top and bottom
      edges are found on column sx, the left edge on row b.y0 and the right edge on row
      b.y1 (not on row sy). Each edge is the last non-border pixel before a border pixel or
      the image edge; a start beyond the image edge leaves that edge one step past the start. */
  ghost predicate CellBox(img: Image, border: Option<Color>, sx: int, sy: int, b: Box)
  {
    && (if sy < 0 then b.y0 == sy + 1
        else
          && 0 <= b.y0 <= sy + 1
          && (forall j :: b.y0 <= j <= sy ==> !IsBorder(img, border, sx, j))
          && (b.y0 > 0 ==> IsBorder(img, border, sx, b.y0 - 1)))
    && (if sy >= img.height then b.y1 == sy - 1
        else
          && sy - 1 <= b.y1 < img.height
          && (forall j :: sy <= j <= b.y1 ==> !IsBorder(img, border, sx, j))
          && (b.y1 + 1 < img.height ==> IsBorder(img, border, sx, b.y1 + 1)))
    && (if sx < 0 then b.x0 == sx + 1
        else
          && 0 <= b.x0 <= sx + 1
          && (forall i :: b.x0 <= i <= sx ==> !IsBorder(img, border, i, b.y0))
          && (b.x0 > 0 ==> IsBorder(img, border, b.x0 - 1, b.y0)))
    && (if sx >= img.width then b.x1 == sx - 1
        else
          && sx - 1 <= b.x1 < img.width
          && (forall i :: sx <= i <= b.x1 ==> !IsBorder(img, border, i, b.y1))
          && (b.x1 + 1 < img.width ==> IsBorder(img, border, b.x1 + 1, b.y1)))
  }

  /** Walks up, left, down and right from (sx, sy) until a border pixel or the image edge. */
  method FindCellBoundingBox(img: Image, border: Option<Color>, sx: int, sy: int) returns (b: Box)
    ensures CellBox(img, border, sx, sy, b)
  {
    var y0 := sy;
    while y0 >= 0 && !ColorsEqual(border, ColorAt(img, sx, y0))
      invariant y0 <= sy
      invariant sy >= 0 ==> y0 >= -1
      invariant sy < 0 ==> y0 == sy
      invariant forall j :: y0 < j <= sy ==> !IsBorder(img, border, sx, j)
    {
      y0 := y0 - 1;
    }
    y0 := y0 + 1;
    var x0 := sx;
    while x0 >= 0 && !ColorsEqual(border, ColorAt(img, x0, y0))
      invariant x0 <= sx
      invariant sx >= 0 ==> x0 >= -1
      invariant sx < 0 ==> x0 == sx
      invariant forall i :: x0 < i <= sx ==> !IsBorder(img, border, i, y0)
    {
      x0 := x0 - 1;
    }
    x0 := x0 + 1;
    var y1 := sy;
    while y1 < img.height && !ColorsEqual(border, ColorAt(img, sx, y1))
      invariant y1 >= sy
      invariant sy < img.height ==> y1 <= img.height
      invariant sy >= img.height ==> y1 == sy
      invariant forall j :: sy <= j < y1 ==> !IsBorder(img, border, sx, j)
      decreases img.height - y1
    {
      y1 := y1 + 1;
    }
    y1 := y1 - 1;
    var x1 := sx;
    while x1 < img.width && !ColorsEqual(border, ColorAt(img, x1, y1))
      invariant x1 >= sx
      invariant sx < img.width ==> x1 <= img.width
      invariant sx >= img.width ==> x1 == sx
      invariant forall i :: sx <= i < x1 ==> !IsBorder(img, border, i, y1)
      decreases img.width - x1
    {
      x1 := x1 + 1;
    }
    x1 := x1 - 1;
    b := Box(x0, x1, y0, y1);
  }

  /** Columns q and q + 1 of row y are both border pixels. */
  ghost predicate DoubleInRow(img: Image, border: Option<Color>, q: int, y: int)
  {
    IsBorder(img, border, q, y) && IsBorder(img, border, q + 1, y)
  }

  /** Rows q and q + 1 of column x are both border pixels. */
  ghost predicate DoubleInColumn(img: Image, border: Option<Color>, x: int, q: int)
  {
    IsBorder(img, border, x, q) && IsBorder(img, border, x, q + 1)
  }

  /** Where the leftward scan from column rx of row ky stops: one pixel left of the
      rightmost double border pair (q, q + 1) with q + 1 < rx; at column 0 when the row has
      no such pair; at rx itself when rx <= 0 (the scan does not start). */
  ghost predicate LeftStop(img: Image, border: Option<Color>, rx: int, ky: int, zx: int)
  {
    if rx <= 0 then zx == rx
    else if exists q :: 0 <= q <= rx - 2 && DoubleInRow(img, border, q, ky) then
      && 0 <= zx + 1 <= rx - 2
      && DoubleInRow(img, border, zx + 1, ky)
      && forall q :: zx + 1 < q <= rx - 2 ==> !DoubleInRow(img, border, q, ky)
    else zx == 0
  }

  /** Where the upward scan from row ky of column zx stops: three pixels below the upper
      pixel of the lowest double border pair (q, q + 1) with q + 1 < ky; at row 0 when the
      column has no such pair; at ky itself when ky <= 0. */
  ghost predicate UpStop(img: Image, border: Option<Color>, zx: int, ky: int, zy: int)
  {
    if ky <= 0 then zy == ky
    else if exists q :: 0 <= q <= ky - 2 && DoubleInColumn(img, border, zx, q) then
      && 0 <= zy - 3 <= ky - 2
      && DoubleInColumn(img, border, zx, zy - 3)
      && forall q :: zy - 3 < q <= ky - 2 ==> !DoubleInColumn(img, border, zx, q)
    else zy == 0
  }

  /** The leftward phase of the double-line detector. */
  method ScanLeftForDoubleBorder(img: Image, border: Option<Color>, rx: int, ky: int) returns (zx: int)
    ensures LeftStop(img, border, rx, ky, zx)
  {
    zx := rx;
    var lastLineMatch := false;
    while zx > 0
      invariant rx <= 0 ==> zx == rx
      invariant rx > 0 ==> 0 <= zx <= rx
      invariant lastLineMatch <==> zx < rx && IsBorder(img, border, zx, ky)
      invariant forall q :: zx <= q <= rx - 2 ==> !DoubleInRow(img, border, q, ky)
    {
      zx := zx - 1;
      var cellColor := ColorAt(img, zx, ky);
      if ColorsEqual(border, cellColor) {
        if lastLineMatch {
          zx := zx - 1;
          assert DoubleInRow(img, border, zx + 1, ky);
          break;
        }
        lastLineMatch := true;
      } else {
        lastLineMatch := false;
      }
    }
  }

  /** The upward phase of the double-line detector, on column zx. */
  method ScanUpForDoubleBorder(img: Image, border: Option<Color>, zx: int, ky: int) returns (zy: int)
    ensures UpStop(img, border, zx, ky, zy)
  {
    zy := ky;
    var lastLineMatch := false;
    while zy > 0
      invariant ky <= 0 ==> zy == ky
      invariant ky > 0 ==> 0 <= zy <= ky
      invariant lastLineMatch <==> zy < ky && IsBorder(img, border, zx, zy)
      invariant forall q :: zy <= q <= ky - 2 ==> !DoubleInColumn(img, border, zx, q)
    {
      zy := zy - 1;
      var cellColor := ColorAt(img, zx, zy);
      if ColorsEqual(border, cellColor) {
        if lastLineMatch {
          zy := zy + 3;
          assert DoubleInColumn(img, border, zx, zy - 3);
          break;
        }
        lastLineMatch := true;
      } else {
        lastLineMatch := false;
      }
    }
  }

  /** Finds the double vertical line left of the reference pixel, then the double
      horizontal line above that point, steps back into the header cell and takes the
      border-bounded box around it. */
  method FindFirstDateCellBoundingBox(img: Image, border: Option<Color>, rx: int, ky: int)
    returns (cell: Box, ghost zx: int, ghost zy: int)
    ensures LeftStop(img, border, rx, ky, zx)
    ensures UpStop(img, border, zx, ky, zy)
    ensures CellBox(img, border, zx, zy, cell)
  {
    var zeroBorderX := ScanLeftForDoubleBorder(img, border, rx, ky);
    var zeroBorderY := ScanUpForDoubleBorder(img, border, zeroBorderX, ky);
    cell := FindCellBoundingBox(img, border, zeroBorderX, zeroBorderY);
    zx, zy := zeroBorderX, zeroBorderY;
  }

  /** The stopping column of the leftward scan is determined by its contract. */
  lemma LeftStopUnique(img: Image, border: Option<Color>, rx: int, ky: int, zx: int, zx': int)
    requires LeftStop(img, border, rx, ky, zx) && LeftStop(img, border, rx, ky, zx')
    ensures zx == zx'
  {
  }

  /** The stopping row of the upward scan is determined by its contract. */
  lemma UpStopUnique(img: Image, border: Option<Color>, zx: int, ky: int, zy: int, zy': int)
    requires UpStop(img, border, zx, ky, zy) && UpStop(img, border, zx, ky, zy')
    ensures zy == zy'
  {
  }

  /** The cell box is determined by its contract. */
  lemma CellBoxUnique(img: Image, border: Option<Color>, sx: int, sy: int, b: Box, b': Box)
    requires CellBox(img, border, sx, sy, b) && CellBox(img, border, sx, sy, b')
    ensures b == b'
  {
  }

  /** A start pixel in the image yields a box that lies in the image. */
  lemma CellBoxInImage(img: Image, border: Option<Color>, sx: int, sy: int, b: Box)
    requires CellBox(img, border, sx, sy, b)
    requires img.InImage(sx, sy)
    ensures 0 <= b.y0 && b.y1 < img.height && 0 <= b.x0 && b.x1 < img.width
  {
  }
}
