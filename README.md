# snaphor schedule parser, modelled in Dafny

snaphor turns a pasted screenshot of a work schedule into Google Calendar "create event"
links. Work shifts are drawn as blocks of one known blue on a grid. Hours run across the
grid. Each day is a row of date-header cells down the left side. The core is
`parseImageFile`. It works on the decoded RGBA buffer in these steps:

1. It scans the image row by row for pixels of the work-block blue. Each pixel not yet
   covered seeds a *cross box*: four independent walks from the seed while the colour stays
   the seed's colour. This is not a flood fill.
2. It merges the boxes that start on the same top row.
3. It calibrates the grid:
   - the reference pixel is the first pixel below the first block's left neighbour whose
     colour changes;
   - the hour-cell width and the border colour come from the two walks left and right of
     that pixel.
4. It locates the first date cell by its doubled border lines (leftwards, then upwards),
   then takes the border-bounded box around it.
5. It copies that cell into an image of its own, the input of text recognition.
6. It maps every merged box to a day offset and to start and end times in hours.
7. It builds one event per block, with a link carrying the title `Work`, the two
   timestamps with their separators stripped, and a fixed description.

Files:

- `imaging.dfy` (module `Imaging`) has the image, colour and box values, the pixel read
  and the colour comparison. A read is total over the flat index `x + y * width`, as in
  JavaScript:
  - a column outside the row names a pixel of the neighbouring row;
  - a read outside the buffer gives `None`, because JavaScript gives an `undefined`
    channel and NaN compares false;
  - `None` therefore equals nothing, not even itself.
- `region_scan.dfy` (`RegionScan`) has the cross-box walks, the covered-or-append step and
  the row-major scan. They are methods proved against declarative predicates:
  - `IsCrossBox`: the runs are uniform, stay in the image and are maximal;
  - `SeededBy` and `CoveredInOrder`: every target pixel is covered, and every box was
    seeded by an uncovered target pixel, in order.
- `row_merge.dfy` (`RowMerge`) has the merge fold. It is proved against two ghost
  specification functions:
  - `Tops`: the distinct top rows in first-seen order;
  - `GroupBox`: the min/max box of one row's group.
- `calibration.dfy` (`Calibration`) has the reference-point walk and the hour-cell walks.
- `date_cell.dfy` (`DateCell`) has the two double-line scans and the four border walks,
  proved against `LeftStop`, `UpStop` and `CellBox`. Each of these determines its result
  uniquely.
- `crop.dfy` (`CellCrop`) has the copy loop into a fresh byte array. It is proved against
  the row-by-row byte sequence `CropRows`, and from that, pixel for pixel.
- `time_mapping.dfy` (`TimeMapping`) has the day offset (floor of a real quotient) and the
  start and end times (exact real quotients).
- `calendar_url.dfy` (`CalendarUrl`) has the separator stripping, the `dates` parameter,
  the link and the per-block event. The timestamps are taken as ISO-8601 strings.
- `pipeline.dfy` (`Pipeline`) runs the stages in order. It reports the two places where
  the source throws as errors:
  - `NoEventsFound`, where `bigBoundingBoxes[0]` is undefined;
  - `EmptyDateCell`, where `new ImageData` refuses a size of zero.

The model follows the code in these places:

- The reference walk (src/helpers/parseImageFile.ts:190) and the two calibration walks
  (:103, :107) have no bounds check. They wrap across rows through the flat index and stop
  at the first undefined read. There is no separate "bounds exceeded" error.
- The double-line scans stop at column 0 and row 0 (:131, :146). The cell walks test
  `>= 0`, `< height` and `< width` (:113-122). The scans can still hand on a start
  outside the image: after a pair at columns 0 and 1 the leftward scan's extra step gives
  column -1, which the flat index wraps into the previous row, and the upward scan's `+ 3`
  can give row `height`, whose reads are undefined.
- The crop is `(x1 - x0) x (y1 - y0)` pixels. It leaves out the interior's right column
  `x1` and bottom row `y1`. The cell height used for day offsets (`y1 - y0 + 1`) counts the
  cell's interior rows, those that are not border on the start column; it includes no
  border row.
- With no blue pixel, the source fails by reading a property of `undefined`. The model
  names that failure `NoEventsFound`.

## Model

| member | source | states |
|---|---|---|
| `Imaging.ColorAt` | src/helpers/parseImageFile.ts:29-36 | the colour is defined exactly when the four bytes of flat pixel `x + y * width` lie in the buffer, so every pixel of a well-formed image has one; a defined colour is the four bytes at offsets `(x + y * width) * 4` to `+ 3`, as red, green, blue and alpha |
| `Imaging.ColorsEqual` | src/helpers/parseImageFile.ts:38-41 | an undefined read equals nothing; two reads that compare equal are defined and identical |
| `Imaging.ColorsEqualIsExact` | src/helpers/parseImageFile.ts:38-41 | with threshold 1 on integer channels, two reads compare equal exactly when both are defined and identical |
| `Imaging.ColorsEqualReflexiveSymmetric` | src/helpers/parseImageFile.ts:38-41 | the comparison is symmetric, and reflexive exactly on defined colours |
| `Imaging.ColorsEqualTransitive` | src/helpers/parseImageFile.ts:38-41 | the comparison is transitive |
| `RegionScan.FindBoundingBoxForSameColor` | src/helpers/parseImageFile.ts:43-69 | the box lies in the image and contains the seed; the seed's column and row have the seed colour over the box; each of the four runs is maximal inside the image |
| `RegionScan.CrossBoxUnique` | src/helpers/parseImageFile.ts:43-69 | the cross box of a seed is uniquely determined by that characterisation |
| `RegionScan.UpdateBoundingBoxes` | src/helpers/parseImageFile.ts:71-83 | returns the last box containing the pixel and leaves the list unchanged; if no box contains it, appends the pixel's cross box and keeps every earlier box |
| `RegionScan.FindPixelOfColorBoundingBoxes` | src/helpers/parseImageFile.ts:85-97 | box k was seeded by a target pixel that no earlier box covers, with seeds in row-major order; every target pixel lies in a box whose seed is not after it |
| `RegionScan.RectangleIsCrossBox` | src/helpers/parseImageFile.ts:43-69 | the cross box of the top-left pixel of a solid target-coloured rectangle is that rectangle |
| `RegionScan.SolidRectangleScan` | src/helpers/parseImageFile.ts:85-97 | when the target pixels form exactly one solid rectangle, the scan yields exactly that one box |
| `RowMerge.Tops` | src/helpers/parseImageFile.ts:173-184 | the listed rows are exactly the top rows of the input boxes, each listed once |
| `RowMerge.GroupBox` | src/helpers/parseImageFile.ts:175-179 | the group box of row t has top t and the least left edge, the greatest right edge and the greatest bottom edge of the boxes starting on t, each attained by one of them |
| `RowMerge.TopsInFirstSeenOrder` | src/helpers/parseImageFile.ts:180-182 | rows are listed in order of their first occurrence in the input |
| `RowMerge.FindIndexByTop` | src/helpers/parseImageFile.ts:174 | finds the first accumulator index whose box starts on the row, or reports that none does |
| `RowMerge.MergeRows` | src/helpers/parseImageFile.ts:173-184 | the fold yields one box per distinct top row, in first-seen order, each the group box of its row |
| `RowMerge.MergedFromUnique` | src/helpers/parseImageFile.ts:173-184 | the merge of a given box list has exactly one correct result |
| `RowMerge.MergedTopsDistinct` | src/helpers/parseImageFile.ts:173-184 | merged boxes have pairwise distinct top rows; a row has a merged box exactly when an input box starts on it; the result is empty exactly when the input is |
| `RowMerge.MergeExample` | src/helpers/parseImageFile.ts:173-184 | boxes (5..20, 10..15) and (18..30, 10..12) on row 10 merge into (5..30, 10..15) |
| `Calibration.FindReferencePoint` | src/helpers/parseImageFile.ts:186-190 | the reference pixel is one column left of the first box, and the first pixel below the box's top row whose colour differs from that top-row pixel |
| `Calibration.GetHourCellWidthAndBorderColor` | src/helpers/parseImageFile.ts:99-109 | the two non-matching pixels enclose the reference pixel with only reference-coloured pixels between them; the width is their distance, at least 2; the border colour is the left one's colour and differs from the reference colour |
| `Calibration.HourCellSpanUnique` | src/helpers/parseImageFile.ts:99-109 | the two non-matching pixels around the reference pixel are uniquely determined |
| `Calibration.HourCellSpanWidthUnique` | src/helpers/parseImageFile.ts:99-109 | so are the left end and the width of the span |
| `Calibration.UniformGridCalibration` | src/helpers/parseImageFile.ts:99-109 | on a row whose cell is bounded at p and p + w by non-matching pixels, calibration yields exactly width w and the colour at p |
| `Calibration.CalibrationStaysInRow` | src/helpers/parseImageFile.ts:102-107 | when a non-matching pixel lies on each side of the reference pixel within the row, neither walk wraps into another row |
| `DateCell.FindCellBoundingBox` | src/helpers/parseImageFile.ts:111-125 | each edge is the last non-border pixel before a border pixel or the image edge; top and bottom come from the start column, left from row y0 and right from row y1 |
| `DateCell.CellBoxUnique` | src/helpers/parseImageFile.ts:111-125 | the cell box is determined by that characterisation |
| `DateCell.CellBoxInImage` | src/helpers/parseImageFile.ts:111-125 | from a start pixel in the image, the cell box lies in the image |
| `DateCell.ScanLeftForDoubleBorder` | src/helpers/parseImageFile.ts:129-143 | stops one pixel left of the rightmost pair of adjacent border pixels left of the start; stops at column 0 if the row has no such pair |
| `DateCell.LeftStopUnique` | src/helpers/parseImageFile.ts:129-143 | the leftward stop is uniquely determined |
| `DateCell.ScanUpForDoubleBorder` | src/helpers/parseImageFile.ts:144-158 | stops three pixels below the upper pixel of the lowest pair of adjacent border pixels above the start; stops at row 0 if the column has no such pair |
| `DateCell.UpStopUnique` | src/helpers/parseImageFile.ts:144-158 | the upward stop is uniquely determined |
| `DateCell.FindFirstDateCellBoundingBox` | src/helpers/parseImageFile.ts:127-161 | the result is the cell box around the point the two double-line scans reach |
| `CellCrop.CropContents` | src/helpers/parseImageFile.ts:200-209 | a buffer holding the row-by-row bytes of the rectangle is a well-formed image equal to that rectangle, channel for channel |
| `CellCrop.CopyCellRow` | src/helpers/parseImageFile.ts:201-208 | the inner loop appends the bytes of one row of the cell to those already copied |
| `CellCrop.CropCell` | src/helpers/parseImageFile.ts:198-209 | fails exactly for a zero or negative size; otherwise yields a well-formed `(x1 - x0) x (y1 - y0)` image whose every channel equals that of the source pixel at the same offset from the cell's corner |
| `TimeMapping.ToWorkBlock` | src/helpers/parseImageFile.ts:215-226 | the day offset is the integer k with k <= (y0 - cell.y0) / height < k + 1; the start and end times times the hour width give the pixel distances with the -3 and -1 adjustments |
| `TimeMapping.DayOffsetIsFloorDivision` | src/helpers/parseImageFile.ts:215-218 | for a positive cell height the day offset is the integer floor quotient |
| `TimeMapping.DayOffsetBand` | src/helpers/parseImageFile.ts:215-218 | a box whose top lies in the k-th band of cell heights below the first cell gets day k |
| `TimeMapping.DistinctBandsDistinctDays` | src/helpers/parseImageFile.ts:215-218 | boxes in different bands get different days |
| `TimeMapping.StartsAtWholeHour` | src/helpers/parseImageFile.ts:219 | a box starting k hour widths after three pixels right of the cell starts at hour k (hour 0 for k = 0) |
| `TimeMapping.EndsAtWholeHour` | src/helpers/parseImageFile.ts:220 | a box ending k hour widths after one pixel right of the cell ends at hour k |
| `TimeMapping.BlockDuration` | src/helpers/parseImageFile.ts:219-220 | a block lasts its pixel width plus two over the hour width, so a non-empty box ends after it starts |
| `TimeMapping.WorkBlocks` | src/helpers/parseImageFile.ts:217-226 | one block per merged box, in order |
| `CalendarUrl.Strip` | src/helpers/parseImageFile.ts:273 | the result contains no dash, colon or full stop and is no longer than the input |
| `CalendarUrl.StripConcat` | src/helpers/parseImageFile.ts:273 | stripping distributes over concatenation |
| `CalendarUrl.StripIdentity` | src/helpers/parseImageFile.ts:273 | stripping leaves a string unchanged exactly when it has no separator |
| `CalendarUrl.StripIdempotent` | src/helpers/parseImageFile.ts:273 | stripping twice is stripping once |
| `CalendarUrl.StripCounts` | src/helpers/parseImageFile.ts:273 | every separator is removed, and every other character is kept as often as it occurs |
| `CalendarUrl.StripIsoTimestamp` | src/helpers/parseImageFile.ts:272-274 | an extended ISO timestamp becomes its fields in order, with only `T` and `Z` between them |
| `CalendarUrl.DatesToUrlParam` | src/helpers/parseImageFile.ts:271-276 | the parameter is the stripped start, a slash, then the stripped end |
| `CalendarUrl.DatesRoundTrip` | src/helpers/parseImageFile.ts:271-276 | splitting the parameter at its first slash gives back both stripped timestamps |
| `CalendarUrl.DatesExample` | src/helpers/parseImageFile.ts:271-276 | 2023-01-02 09:00 to 10:30 gives `20230102T090000000Z/20230102T103000000Z` |
| `CalendarUrl.OptionalParam` | src/helpers/parseImageFile.ts:279-281 | an optional parameter is absent exactly when the value is missing or empty, and otherwise is `&name=value` |
| `CalendarUrl.GenerateGoogleCalUrl` | src/helpers/parseImageFile.ts:278-282 | every link starts with the event-editor endpoint |
| `CalendarUrl.UrlLayout` | src/helpers/parseImageFile.ts:278-282 | the link starts with the endpoint, then `text=`, the title and `&dates=`; with no details and no location it ends there |
| `CalendarUrl.EmptyParamIsAbsent` | src/helpers/parseImageFile.ts:279-281 | an empty details or location string gives the same link as a missing one |
| `CalendarUrl.UrlWithDetails` | src/helpers/parseImageFile.ts:278-282 | with non-empty details and no location, the link is the head followed by `&details=` and the details |
| `CalendarUrl.BuildEvent` | src/helpers/parseImageFile.ts:243-256 | the event has the title `Work`, the fixed description, the block's two timestamps, and a link on the event-editor endpoint |
| `CalendarUrl.EventUrl` | src/helpers/parseImageFile.ts:243-256 | every event has the title `Work` and the fixed description, and its link is the endpoint, the title, both stripped timestamps and the description as details |
| `Pipeline.ReferencePointUnique` | src/helpers/parseImageFile.ts:186-190 | the reference pixel is uniquely determined by the first box |
| `Pipeline.CalibratedUnique` | src/helpers/parseImageFile.ts:192-194 | the calibration determines the hour-cell width and the border colour |
| `Pipeline.DateCellFromUnique` | src/helpers/parseImageFile.ts:196 | the double-line detector determines the date cell |
| `Pipeline.StagesUnique` | src/helpers/parseImageFile.ts:173-196 | the merge, the reference pixel, the calibration and the date cell have exactly one outcome for given boxes |
| `Pipeline.ParseImageFile` | src/helpers/parseImageFile.ts:170-261 | the boxes satisfy the scanner's contract; the run fails with no events exactly when no pixel is work-block blue; it fails with an empty date cell exactly when the stages before the crop all succeed and reach a cell of zero or negative width or height; on success each stage's result meets its own contract, starting from the previous stage's output, and there is one block per merged box |

## Left out

- Text recognition (`ocrImage`, src/helpers/parseImageFile.ts:163-168) is a foreign,
  asynchronous call into Tesseract and the PNG encoder. The pipeline stops at the
  date-cell image that would be handed to it.
- Date handling is library code and depends on the time zone. This covers parsing the
  recognised text (`new Date`, :213), the day, hour and minute arithmetic with `% 1`
  (:228-241) and `toISOString` (:273). The link builder therefore takes the ISO strings as
  inputs, and `Pipeline.ParseImageFile` returns the work blocks, not the events.
- Progress notifications (`toast`) are user-interface side effects.
- Floating point: hours are exact rationals, where JavaScript rounds doubles.
- `TimeMapping.ToWorkBlock`: requires non-zero divisors. JavaScript would produce an
  infinity or NaN instead; the pipeline proves both divisors are at least 2.
- `CellCrop.CropCell`: treats a negative size like a zero size, as a refused image. In
  JavaScript a negative width converts to a huge unsigned size, which also throws.
- `RowMerge.MergeRows`: builds new box values. The source widens the box objects in place,
  and those objects are shared with the scanner's list. That list is not read afterwards,
  so the results agree.
- `Pipeline.ParseImageFile`: requires a buffer of exactly width × height × 4 channel
  values. The PNG decoder keeps the file's own channel count, but both callers first build
  `new ImageData(new Uint8ClampedArray(png.data), png.width, png.height)`
  (src/hooks/clipboard.tsx:29, src/hooks/clipboardContext.tsx:53), which throws for any
  other length. Termination of the unbounded walks relies on the length.
- 16-bit PNGs: a 16-bit RGBA file passes that length check and reaches the parser with
  channel values up to 65535. `Imaging.byte` holds only 0 to 255, so those images are not
  modelled.
- Query values are inserted without URL encoding, as in the source.
- Clipboard handling, React components and the theme are user-interface plumbing.
