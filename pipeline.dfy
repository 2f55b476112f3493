/** The geometric part of `parseImageFile`: from the decoded screenshot to the merged work
    boxes, the grid calibration, the first date cell (and its pixels, the input of the
    text recognition step) and one work block per merged box. */
module Pipeline {
  import opened Imaging
  import opened RegionScan
  import opened RowMerge
  import opened Calibration
  import opened DateCell
  import opened CellCrop
  import opened TimeMapping

  /** Where the pipeline stops with an exception: no work box, so `bigBoundingBoxes[0]`
      is undefined; or a date cell without area, which the image constructor refuses. */
  datatype PipelineError = NoEventsFound | EmptyDateCell

  datatype Result<+T, +E> = Success(value: T) | Failure(error: E)

  /** Everything the pipeline derives from the screenshot before the calendar dates are
      attached. */
  datatype Parsed = Parsed(
    merged: seq<Box>,
    referenceX: int,
    referenceY: int,
    hourCellWidth: int,
    borderColor: Option<Color>,
    dateCell: Box,
    dateCellImage: Image,
    blocks: seq<WorkBlock>)

  /** No pixel of the image has the work-block colour. */
  ghost predicate NoWorkPixel(img: Image)
  {
    forall x, y :: img.InImage(x, y) ==> ColorAt(img, x, y) != Some(WorkEventBlue)
  }

  /** (kx, ky) is the reference pixel of the first merged box: one column left of its
      top-left corner, on the first row below it whose colour differs there. */
  ghost predicate ReferencePoint(img: Image, first: Box, kx: int, ky: int)
  {
    && kx == first.x0 - 1 && ky > first.y0
    && (forall j :: first.y0 < j < ky ==> ColorsEqual(ColorAt(img, kx, first.y0), ColorAt(img, kx, j)))
    && !ColorsEqual(ColorAt(img, kx, first.y0), ColorAt(img, kx, ky))
  }

  /** The hour cell around (kx, ky) spans `width` columns and its left border has colour
      `borderColor`. */
  ghost predicate Calibrated(img: Image, kx: int, ky: int, width: int, borderColor: Option<Color>)
  {
    && width >= 2
    && exists x0 :: HourCellSpan(img, kx, ky, x0, x0 + width) && borderColor == ColorAt(img, x0, ky)
  }

  /** `cell` is the box the double-line detector finds from (kx, ky). */
  ghost predicate DateCellFrom(img: Image, borderColor: Option<Color>, kx: int, ky: int, cell: Box)
  {
    exists zx, zy ::
      && LeftStop(img, borderColor, kx, ky, zx)
      && UpStop(img, borderColor, zx, ky, zy)
      && CellBox(img, borderColor, zx, zy, cell)
  }

  /** The stages before the crop, from the scanner's boxes to the date cell, give these
      values. */
  ghost predicate StagesReach(img: Image, boxes: seq<Box>, merged: seq<Box>, kx: int, ky: int,
                              width: int, borderColor: Option<Color>, cell: Box)
  {
    && MergedFrom(merged, boxes) && |merged| > 0
    && ReferencePoint(img, merged[0], kx, ky)
    && Calibrated(img, kx, ky, width, borderColor)
    && DateCellFrom(img, borderColor, kx, ky, cell)
  }

  /** The reference pixel is the first differing pixel below the box's top row, so it is
      unique. */
  lemma ReferencePointUnique(img: Image, first: Box, kx: int, ky: int, kx': int, ky': int)
    requires ReferencePoint(img, first, kx, ky) && ReferencePoint(img, first, kx', ky')
    ensures kx == kx' && ky == ky'
  {
  }

  /** Calibration determines the width and the border colour. */
  lemma CalibratedUnique(img: Image, kx: int, ky: int, w: int, bc: Option<Color>, w': int, bc': Option<Color>)
    requires Calibrated(img, kx, ky, w, bc) && Calibrated(img, kx, ky, w', bc')
    ensures w == w' && bc == bc'
  {
    var x0 :| HourCellSpan(img, kx, ky, x0, x0 + w) && bc == ColorAt(img, x0, ky);
    var x0' :| HourCellSpan(img, kx, ky, x0', x0' + w') && bc' == ColorAt(img, x0', ky);
    HourCellSpanWidthUnique(img, kx, ky, x0, w, x0', w');
  }

  /** The double-line detector determines the date cell. */
  lemma DateCellFromUnique(img: Image, bc: Option<Color>, kx: int, ky: int, cell: Box, cell': Box)
    requires DateCellFrom(img, bc, kx, ky, cell) && DateCellFrom(img, bc, kx, ky, cell')
    ensures cell == cell'
  {
    var zx, zy :| LeftStop(img, bc, kx, ky, zx) && UpStop(img, bc, zx, ky, zy) && CellBox(img, bc, zx, zy, cell);
    var zx', zy' :| LeftStop(img, bc, kx, ky, zx') && UpStop(img, bc, zx', ky, zy') && CellBox(img, bc, zx', zy', cell');
    LeftStopUnique(img, bc, kx, ky, zx, zx');
    UpStopUnique(img, bc, zx, ky, zy, zy');
    CellBoxUnique(img, bc, zx, zy, cell, cell');
  }

  /** The stages before the crop have exactly one outcome for given boxes. */
  lemma StagesUnique(img: Image, boxes: seq<Box>,
                     merged: seq<Box>, kx: int, ky: int, w: int, bc: Option<Color>, cell: Box,
                     merged': seq<Box>, kx': int, ky': int, w': int, bc': Option<Color>, cell': Box)
    requires StagesReach(img, boxes, merged, kx, ky, w, bc, cell)
    requires StagesReach(img, boxes, merged', kx', ky', w', bc', cell')
    ensures merged == merged' && kx == kx' && ky == ky' && w == w' && bc == bc' && cell == cell'
  {
    MergedFromUnique(merged, merged', boxes);
    ReferencePointUnique(img, merged[0], kx, ky, kx', ky');
    CalibratedUnique(img, kx, ky, w, bc, w', bc');
    DateCellFromUnique(img, bc, kx, ky, cell, cell');
  }

  /** `crop` holds exactly the pixels of `cell` (without its right column and bottom row). */
  ghost predicate CroppedFrom(img: Image, cell: Box, crop: Image)
  {
    && crop.width == cell.x1 - cell.x0 > 0
    && crop.height == cell.y1 - cell.y0 > 0
    && crop.Valid()
    && forall cx, cy, c :: 0 <= cx < crop.width && 0 <= cy < crop.height && 0 <= c < 4 ==>
         ByteAt(crop, cx, cy, c) == ByteAt(img, cell.x0 + cx, cell.y0 + cy, c)
  }

  /** The whole result of a successful run on `img`. */
  ghost predicate ParsedFrom(img: Image, boxes: seq<Box>, seeds: seq<(int, int)>, p: Parsed)
  {
    && ScanResult(img, WorkEventBlue, boxes, seeds)
    && MergedFrom(p.merged, boxes) && |p.merged| > 0
    && (forall i, j :: 0 <= i < j < |p.merged| ==> p.merged[i].y0 != p.merged[j].y0)
    && ReferencePoint(img, p.merged[0], p.referenceX, p.referenceY)
    && Calibrated(img, p.referenceX, p.referenceY, p.hourCellWidth, p.borderColor)
    && DateCellFrom(img, p.borderColor, p.referenceX, p.referenceY, p.dateCell)
    && CroppedFrom(img, p.dateCell, p.dateCellImage)
    && DateCellHeight(p.dateCell) >= 2
    && |p.blocks| == |p.merged|
    && forall k :: 0 <= k < |p.merged| ==> p.blocks[k] == ToWorkBlock(p.merged[k], p.dateCell, p.hourCellWidth)
  }

  /** Runs the stages in the order of the source. `boxes` and `seeds` are the scanner's
      boxes before merging and the pixels they grew from. The run fails with
      `NoEventsFound` exactly when no pixel has the work-block colour. */
  method ParseImageFile(img: Image) returns (r: Result<Parsed, PipelineError>, ghost boxes: seq<Box>, ghost seeds: seq<(int, int)>)
    requires img.Valid()
    ensures ScanResult(img, WorkEventBlue, boxes, seeds)
    ensures r == Failure(NoEventsFound) <==> NoWorkPixel(img)
    ensures r == Failure(EmptyDateCell) <==>
      exists merged, kx, ky, w, bc, cell ::
        StagesReach(img, boxes, merged, kx, ky, w, bc, cell) && (cell.x1 - cell.x0 <= 0 || cell.y1 - cell.y0 <= 0)
    ensures r.Success? ==> ParsedFrom(img, boxes, seeds, r.value)
  {
    var found;
    found, seeds := FindPixelOfColorBoundingBoxes(WorkEventBlue, img);
    boxes := found;
    assert ScanResult(img, WorkEventBlue, boxes, seeds);
    var merged := MergeRows(found);
    MergedTopsDistinct(merged, found);
    if |merged| == 0 {
      forall x, y | img.InImage(x, y)
        ensures ColorAt(img, x, y) != Some(WorkEventBlue)
      {
        ColorsEqualIsExact(Some(WorkEventBlue), ColorAt(img, x, y));
      }
      forall m | MergedFrom(m, boxes)
        ensures m == merged
      {
        MergedFromUnique(m, merged, boxes);
      }
      return Failure(NoEventsFound), boxes, seeds;
    }
    assert !NoWorkPixel(img) by {
      assert SeededBy(img, WorkEventBlue, found, seeds, 0);
      var (sx, sy) := seeds[0];
      ColorsEqualIsExact(Some(WorkEventBlue), ColorAt(img, sx, sy));
    }
    var kx, ky := FindReferencePoint(img, merged[0]);
    assert ReferencePoint(img, merged[0], kx, ky);
    var width, borderColor, x0, x1 := GetHourCellWidthAndBorderColor(img, kx, ky);
    assert Calibrated(img, kx, ky, width, borderColor);
    var cell, zx, zy := FindFirstDateCellBoundingBox(img, borderColor, kx, ky);
    assert DateCellFrom(img, borderColor, kx, ky, cell);
    var crop := CropCell(img, cell);
    assert StagesReach(img, boxes, merged, kx, ky, width, borderColor, cell);
    if crop.None? {
      return Failure(EmptyDateCell), boxes, seeds;
    }
    forall m, a, b, w, bc, c | StagesReach(img, boxes, m, a, b, w, bc, c)
      ensures c == cell
    {
      StagesUnique(img, boxes, merged, kx, ky, width, borderColor, cell, m, a, b, w, bc, c);
    }
    assert CroppedFrom(img, cell, crop.value);
    var blocks := WorkBlocks(merged, cell, width);
    r := Success(Parsed(merged, kx, ky, width, borderColor, cell, crop.value, blocks));
  }
}
