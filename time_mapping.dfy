/** Turning a merged work box into a day offset and start and end times measured in hour
    cells. The first date cell fixes the origin: rows of date cells are days, and hour
    columns start just right of the cell's right edge. */
module TimeMapping {
  import opened Imaging

  /** Where a work box sits on the schedule: the day, counted from the first date cell,
      and the start and end times in hours (fractional). */
  datatype WorkBlock = WorkBlock(dayOffset: int, startsAt: real, endsAt: real)

  /** The height of one date cell: its interior rows, no border row included. */
  function DateCellHeight(cell: Box): int
  {
    cell.y1 - cell.y0 + 1
  }

  /** Day offset, start time and end time of box `bb`. The day offset is the floor of the
      quotient of the two row distances; the times are exact quotients, one hour being
      `hourCellWidth` pixels. A zero divisor (a non-finite JavaScript number) is excluded. */
  function ToWorkBlock(bb: Box, cell: Box, hourCellWidth: int): (r: WorkBlock)
    requires DateCellHeight(cell) != 0 && hourCellWidth != 0
    ensures var q := (bb.y0 - cell.y0) as real / DateCellHeight(cell) as real;
      r.dayOffset as real <= q < r.dayOffset as real + 1.0
    ensures r.startsAt * hourCellWidth as real == (bb.x0 - cell.x1 - 3) as real
    ensures r.endsAt * hourCellWidth as real == (bb.x1 - cell.x1 - 1) as real
  {
    var h := DateCellHeight(cell) as real;
    var w := hourCellWidth as real;
    WorkBlock(((bb.y0 - cell.y0) as real / h).Floor,
              (bb.x0 - cell.x1 - 3) as real / w,
              (bb.x1 - cell.x1 - 1) as real / w)
  }

  /** For a positive cell height the day offset is the integer (floor) quotient. */
  lemma DayOffsetIsFloorDivision(bb: Box, cell: Box, hourCellWidth: int)
    requires DateCellHeight(cell) > 0 && hourCellWidth != 0
    ensures ToWorkBlock(bb, cell, hourCellWidth).dayOffset == (bb.y0 - cell.y0) / DateCellHeight(cell)
  {
    var d, h := bb.y0 - cell.y0, DateCellHeight(cell);
    var k := ToWorkBlock(bb, cell, hourCellWidth).dayOffset;
    RealQuotientBand(d, h, k);
    FloorDivisionUnique(d, h, k);
  }

  /** The real quotient d / h lies in [k, k + 1) exactly when k h <= d < (k + 1) h. */
  lemma RealQuotientBand(d: int, h: int, k: int)
    requires h > 0
    requires k as real <= d as real / h as real < k as real + 1.0
    ensures k * h <= d < (k + 1) * h
  {
    var hr, kr, mr := h as real, k as real, (k + 1) as real;
    assert mr == kr + 1.0;
    ScaledBand(d as real / hr, hr, kr, mr, d as real);
    assert (k * h) as real == kr * hr;
    assert ((k + 1) * h) as real == mr * hr;
    RealOrderIsIntOrder(k * h, d);
    RealOrderIsIntOrder(d, (k + 1) * h);
  }

  /** Scaling the band k <= q < m by a positive h. */
  lemma ScaledBand(q: real, h: real, k: real, m: real, d: real)
    requires h > 0.0 && k <= q < m && q * h == d
    ensures k * h <= d < m * h
  {
    RealScale(k, q, h);
    RealScale(q, m, h);
  }

  lemma RealOrderIsIntOrder(a: int, b: int)
    ensures a as real <= b as real <==> a <= b
    ensures a as real < b as real <==> a < b
  {
  }

  lemma RealScale(a: real, b: real, c: real)
    requires a <= b && c > 0.0
    ensures a * c <= b * c
    ensures a < b ==> a * c < b * c
  {
  }

  /** Euclidean division by a positive divisor is the unique k with k h <= d < (k+1) h. */
  lemma FloorDivisionUnique(d: int, h: int, k: int)
    requires h > 0 && k * h <= d < (k + 1) * h
    ensures d / h == k
  {
    var q, m := d / h, d % h;
    assert d == q * h + m && 0 <= m < h;
    if q < k {
      MulLe(q + 1, k, h);
    } else if q > k {
      MulLe(k + 1, q, h);
    }
  }

  lemma MulLe(a: int, b: int, c: int)
    requires a <= b && c >= 0
    ensures a * c <= b * c
  {
    assert b * c - a * c == (b - a) * c;
  }

  /** Every box whose top row lies in the k-th band of date-cell heights below the first
      cell gets day offset k. */
  lemma DayOffsetBand(bb: Box, cell: Box, hourCellWidth: int, k: int)
    requires DateCellHeight(cell) > 0 && hourCellWidth != 0
    requires cell.y0 + k * DateCellHeight(cell) <= bb.y0 < cell.y0 + (k + 1) * DateCellHeight(cell)
    ensures ToWorkBlock(bb, cell, hourCellWidth).dayOffset == k
  {
    DayOffsetIsFloorDivision(bb, cell, hourCellWidth);
    FloorDivisionUnique(bb.y0 - cell.y0, DateCellHeight(cell), k);
  }

  /** A box that starts `k` whole hour cells right of the first hour column (three pixels
      right of the date cell) starts at hour k; in particular at 0 for k = 0. */
  lemma StartsAtWholeHour(bb: Box, cell: Box, hourCellWidth: int, k: int)
    requires DateCellHeight(cell) != 0 && hourCellWidth != 0
    requires bb.x0 == cell.x1 + 3 + k * hourCellWidth
    ensures ToWorkBlock(bb, cell, hourCellWidth).startsAt == k as real
  {
    var r := ToWorkBlock(bb, cell, hourCellWidth);
    assert (bb.x0 - cell.x1 - 3) as real == k as real * hourCellWidth as real;
    RealCancel(r.startsAt, k as real, hourCellWidth as real);
  }

  /** A box whose right edge is one pixel left of the border `k` hour cells right of the
      date cell ends at hour k. */
  lemma EndsAtWholeHour(bb: Box, cell: Box, hourCellWidth: int, k: int)
    requires DateCellHeight(cell) != 0 && hourCellWidth != 0
    requires bb.x1 == cell.x1 + 1 + k * hourCellWidth
    ensures ToWorkBlock(bb, cell, hourCellWidth).endsAt == k as real
  {
    var r := ToWorkBlock(bb, cell, hourCellWidth);
    assert (bb.x1 - cell.x1 - 1) as real == k as real * hourCellWidth as real;
    RealCancel(r.endsAt, k as real, hourCellWidth as real);
  }

  lemma RealCancel(a: real, b: real, c: real)
    requires c != 0.0 && a * c == b * c
    ensures a == b
  {
    assert (a - b) * c == 0.0;
  }

  /** The length of a block in hours is its pixel width plus the two pixels of the
      adjustments, over the hour-cell width; a box covering more pixels lasts longer. */
  lemma BlockDuration(bb: Box, cell: Box, hourCellWidth: int)
    requires DateCellHeight(cell) != 0 && hourCellWidth > 0
    ensures var r := ToWorkBlock(bb, cell, hourCellWidth);
      (r.endsAt - r.startsAt) * hourCellWidth as real == (bb.x1 - bb.x0 + 2) as real
    ensures bb.x0 <= bb.x1 ==> ToWorkBlock(bb, cell, hourCellWidth).startsAt < ToWorkBlock(bb, cell, hourCellWidth).endsAt
  {
    var r := ToWorkBlock(bb, cell, hourCellWidth);
    var w := hourCellWidth as real;
    assert (r.endsAt - r.startsAt) * w == r.endsAt * w - r.startsAt * w;
    if bb.x0 <= bb.x1 && r.startsAt >= r.endsAt {
      RealScale(r.endsAt, r.startsAt, w);
      assert false;
    }
  }

  /** The blocks of all merged boxes, in order. */
  function WorkBlocks(boxes: seq<Box>, cell: Box, hourCellWidth: int): (r: seq<WorkBlock>)
    requires DateCellHeight(cell) != 0 && hourCellWidth != 0
    ensures |r| == |boxes|
    ensures forall k :: 0 <= k < |boxes| ==> r[k] == ToWorkBlock(boxes[k], cell, hourCellWidth)
    decreases |boxes|
  {
    if boxes == [] then []
    else [ToWorkBlock(boxes[0], cell, hourCellWidth)] + WorkBlocks(boxes[1..], cell, hourCellWidth)
  }

  /** Boxes on distinct rows of date-cell bands land on distinct days. */
  lemma DistinctBandsDistinctDays(a: Box, b: Box, cell: Box, hourCellWidth: int, i: int, j: int)
    requires DateCellHeight(cell) > 0 && hourCellWidth != 0 && i != j
    requires cell.y0 + i * DateCellHeight(cell) <= a.y0 < cell.y0 + (i + 1) * DateCellHeight(cell)
    requires cell.y0 + j * DateCellHeight(cell) <= b.y0 < cell.y0 + (j + 1) * DateCellHeight(cell)
    ensures ToWorkBlock(a, cell, hourCellWidth).dayOffset != ToWorkBlock(b, cell, hourCellWidth).dayOffset
  {
    DayOffsetBand(a, cell, hourCellWidth, i);
    DayOffsetBand(b, cell, hourCellWidth, j);
  }
}
