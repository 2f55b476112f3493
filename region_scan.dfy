/** Finding the boxes of pixels of one colour: the cross bounding box of a seed pixel, and
    the row-major scan that appends one box per pixel not yet covered. */
module RegionScan {
  import opened Imaging

  /** `b` is the cross box of seed (x, y): the seed's column is uniform over b.y0 .. b.y1,
      its row over b.x0 .. b.x1, both runs stay in the image, and neither run can be
      extended by one pixel inside the image. */
  ghost predicate IsCrossBox(img: Image, b: Box, x: int, y: int)
  {
    var seed := ColorAt(img, x, y);
    && 0 <= b.y0 <= y <= b.y1 < img.height
    && 0 <= b.x0 <= x <= b.x1 < img.width
    && (forall j :: b.y0 <= j <= b.y1 ==> ColorsEqual(seed, ColorAt(img, x, j)))
    && (forall i :: b.x0 <= i <= b.x1 ==> ColorsEqual(seed, ColorAt(img, i, y)))
    && (b.y0 > 0 ==> !ColorsEqual(seed, ColorAt(img, x, b.y0 - 1)))
    && (b.y1 + 1 < img.height ==> !ColorsEqual(seed, ColorAt(img, x, b.y1 + 1)))
    && (b.x0 > 0 ==> !ColorsEqual(seed, ColorAt(img, b.x0 - 1, y)))
    && (b.x1 + 1 < img.width ==> !ColorsEqual(seed, ColorAt(img, b.x1 + 1, y)))
  }

  /** Four independent walks from the seed (up, down, left, right) while the colour stays
      the seed's own colour. Not a flood fill: only the seed's row and column are read. */
  method FindBoundingBoxForSameColor(img: Image, x: int, y: int) returns (b: Box)
    requires img.Valid() && img.InImage(x, y)
    ensures IsCrossBox(img, b, x, y)
  {
    var original := ColorAt(img, x, y);
    var y0 := y - 1;
    while y0 >= 0 && ColorsEqual(original, ColorAt(img, x, y0))
      invariant -1 <= y0 < y
      invariant forall j :: y0 < j <= y ==> ColorsEqual(original, ColorAt(img, x, j))
    {
      y0 := y0 - 1;
    }
    y0 := y0 + 1;

    var y1 := y + 1;
    while y1 < img.height && ColorsEqual(original, ColorAt(img, x, y1))
      invariant y < y1 <= img.height
      invariant forall j :: y <= j < y1 ==> ColorsEqual(original, ColorAt(img, x, j))
    {
      y1 := y1 + 1;
    }
    y1 := y1 - 1;

    var x0 := x - 1;
    while x0 >= 0 && ColorsEqual(original, ColorAt(img, x0, y))
      invariant -1 <= x0 < x
      invariant forall i :: x0 < i <= x ==> ColorsEqual(original, ColorAt(img, i, y))
    {
      x0 := x0 - 1;
    }
    x0 := x0 + 1;

    var x1 := x + 1;
    while x1 < img.width && ColorsEqual(original, ColorAt(img, x1, y))
      invariant x < x1 <= img.width
      invariant forall i :: x <= i < x1 ==> ColorsEqual(original, ColorAt(img, i, y))
    {
      x1 := x1 + 1;
    }
    x1 := x1 - 1;
    b := Box(x0, x1, y0, y1);
  }

  /** Some box of `boxes` contains (x, y). */
  ghost predicate Covered(boxes: seq<Box>, x: int, y: int)
  {
    exists k :: 0 <= k < |boxes| && boxes[k].Contains(x, y)
  }

  /** Returns the last box containing (x, y), if any; otherwise appends the cross box of
      (x, y) to the list. */
  method UpdateBoundingBoxes(img: Image, x: int, y: int, boxes: seq<Box>)
    returns (found: Option<Box>, boxes': seq<Box>)
    requires img.Valid() && img.InImage(x, y)
    ensures found.None? <==> !Covered(boxes, x, y)
    ensures found.Some? ==>
      exists k :: 0 <= k < |boxes| && boxes[k] == found.value && boxes[k].Contains(x, y)
        && forall j :: k < j < |boxes| ==> !boxes[j].Contains(x, y)
    ensures found.Some? ==> boxes' == boxes
    ensures found.None? ==>
      |boxes'| == |boxes| + 1 && boxes'[..|boxes|] == boxes && IsCrossBox(img, boxes'[|boxes|], x, y)
  {
    found := None;
    ghost var at := -1;
    for i := 0 to |boxes|
      invariant found.None? ==> forall j :: 0 <= j < i ==> !boxes[j].Contains(x, y)
      invariant found.Some? ==>
        0 <= at < i && boxes[at] == found.value && boxes[at].Contains(x, y)
          && forall j :: at < j < i ==> !boxes[j].Contains(x, y)
    {
      var bb := boxes[i];
      if x >= bb.x0 && x <= bb.x1 && y >= bb.y0 && y <= bb.y1 {
        found := Some(bb);
        at := i;
      }
    }
    if found.Some? {
      boxes' := boxes;
      return;
    }
    var bb := FindBoundingBoxForSameColor(img, x, y);
    boxes' := boxes + [bb];
  }

  /** Row-major order: (x, y) comes strictly before (x', y'). */
  predicate Before(x: int, y: int, x': int, y': int)
  {
    y < y' || (y == y' && x < x')
  }

  /** Box k was created by seed k: the seed has the target colour, the box is its cross
      box, no earlier box covers it, and seeds are in row-major order. */
  ghost predicate SeededBy(img: Image, target: Color, boxes: seq<Box>, seeds: seq<(int, int)>, k: int)
    requires 0 <= k < |boxes| == |seeds|
  {
    var (sx, sy) := seeds[k];
    && img.InImage(sx, sy)
    && ColorsEqual(Some(target), ColorAt(img, sx, sy))
    && IsCrossBox(img, boxes[k], sx, sy)
    && (forall j :: 0 <= j < k ==> !boxes[j].Contains(sx, sy) && Before(seeds[j].0, seeds[j].1, sx, sy))
  }

  /** Every pixel of the target colour is covered by a box whose seed is not after it. */
  ghost predicate CoveredInOrder(boxes: seq<Box>, seeds: seq<(int, int)>, x: int, y: int)
    requires |boxes| == |seeds|
  {
    exists k :: 0 <= k < |boxes| && !Before(x, y, seeds[k].0, seeds[k].1) && boxes[k].Contains(x, y)
  }

  /** Every pixel of the target colour before (x, y) in row-major order is covered. */
  ghost predicate CoveredBefore(img: Image, target: Color, boxes: seq<Box>, seeds: seq<(int, int)>, x: int, y: int)
    requires |boxes| == |seeds|
  {
    forall px, py :: img.InImage(px, py) && Before(px, py, x, y) && ColorsEqual(Some(target), ColorAt(img, px, py)) ==>
      CoveredInOrder(boxes, seeds, px, py)
  }

  /** The scan has handled every pixel before (x, y) in row-major order. */
  ghost predicate ScanInvariant(img: Image, target: Color, boxes: seq<Box>, seeds: seq<(int, int)>, x: int, y: int)
  {
    && |seeds| == |boxes|
    && (forall k :: 0 <= k < |boxes| ==>
          SeededBy(img, target, boxes, seeds, k) && Before(seeds[k].0, seeds[k].1, x, y))
    && CoveredBefore(img, target, boxes, seeds, x, y)
  }

  lemma ScanSkip(img: Image, target: Color, boxes: seq<Box>, seeds: seq<(int, int)>, x: int, y: int)
    requires ScanInvariant(img, target, boxes, seeds, x, y)
    requires !ColorsEqual(Some(target), ColorAt(img, x, y)) || Covered(boxes, x, y)
    ensures ScanInvariant(img, target, boxes, seeds, x + 1, y)
  {
    forall k | 0 <= k < |boxes|
      ensures SeededBy(img, target, boxes, seeds, k) && Before(seeds[k].0, seeds[k].1, x + 1, y)
    {
    }
    forall px, py | img.InImage(px, py) && Before(px, py, x + 1, y) && ColorsEqual(Some(target), ColorAt(img, px, py))
      ensures CoveredInOrder(boxes, seeds, px, py)
    {
      if px == x && py == y {
        var k :| 0 <= k < |boxes| && boxes[k].Contains(x, y);
        assert Before(seeds[k].0, seeds[k].1, x, y);
      } else {
        assert Before(px, py, x, y);
      }
    }
  }

  lemma SeededByExtend(img: Image, target: Color, boxes: seq<Box>, seeds: seq<(int, int)>, b: Box, s: (int, int), k: int)
    requires 0 <= k < |boxes| == |seeds|
    requires SeededBy(img, target, boxes, seeds, k)
    ensures SeededBy(img, target, boxes + [b], seeds + [s], k)
  {
    var boxes', seeds' := boxes + [b], seeds + [s];
    assert boxes'[k] == boxes[k] && seeds'[k] == seeds[k];
    assert forall j :: 0 <= j < k ==> boxes'[j] == boxes[j] && seeds'[j] == seeds[j];
  }

  lemma ScanAppend(img: Image, target: Color, boxes: seq<Box>, seeds: seq<(int, int)>, x: int, y: int, b: Box)
    requires ScanInvariant(img, target, boxes, seeds, x, y)
    requires img.InImage(x, y) && ColorsEqual(Some(target), ColorAt(img, x, y))
    requires !Covered(boxes, x, y) && IsCrossBox(img, b, x, y)
    ensures ScanInvariant(img, target, boxes + [b], seeds + [(x, y)], x + 1, y)
  {
    var boxes', seeds' := boxes + [b], seeds + [(x, y)];
    forall k | 0 <= k < |boxes'|
      ensures SeededBy(img, target, boxes', seeds', k) && Before(seeds'[k].0, seeds'[k].1, x + 1, y)
    {
      if k < |boxes| {
        SeededByExtend(img, target, boxes, seeds, b, (x, y), k);
      } else {
        assert forall j :: 0 <= j < k ==> boxes'[j] == boxes[j] && seeds'[j] == seeds[j];
      }
    }
    ScanAppendCovers(img, target, boxes, seeds, x, y, b);
  }

  lemma ScanAppendCovers(img: Image, target: Color, boxes: seq<Box>, seeds: seq<(int, int)>, x: int, y: int, b: Box)
    requires |boxes| == |seeds| && CoveredBefore(img, target, boxes, seeds, x, y)
    requires b.Contains(x, y)
    ensures CoveredBefore(img, target, boxes + [b], seeds + [(x, y)], x + 1, y)
  {
    var boxes', seeds' := boxes + [b], seeds + [(x, y)];
    forall px, py | img.InImage(px, py) && Before(px, py, x + 1, y) && ColorsEqual(Some(target), ColorAt(img, px, py))
      ensures CoveredInOrder(boxes', seeds', px, py)
    {
      if px == x && py == y {
        assert boxes'[|boxes|].Contains(px, py);
      } else {
        assert CoveredInOrder(boxes, seeds, px, py);
        var k :| 0 <= k < |boxes| && !Before(px, py, seeds[k].0, seeds[k].1) && boxes[k].Contains(px, py);
        assert boxes'[k] == boxes[k] && seeds'[k] == seeds[k];
      }
    }
  }

  lemma ScanNextRow(img: Image, target: Color, boxes: seq<Box>, seeds: seq<(int, int)>, y: int)
    requires ScanInvariant(img, target, boxes, seeds, img.width, y)
    ensures ScanInvariant(img, target, boxes, seeds, 0, y + 1)
  {
    forall px, py | img.InImage(px, py) && Before(px, py, 0, y + 1) && ColorsEqual(Some(target), ColorAt(img, px, py))
      ensures CoveredInOrder(boxes, seeds, px, py)
    {
      assert Before(px, py, img.width, y);
    }
  }

  /** What the scan promises about `boxes`: each was seeded by a target pixel no earlier
      box covered, in row-major order, and every target pixel is covered by a box whose
      seed is not after it. */
  ghost predicate ScanResult(img: Image, target: Color, boxes: seq<Box>, seeds: seq<(int, int)>)
  {
    && |seeds| == |boxes|
    && (forall k :: 0 <= k < |boxes| ==> SeededBy(img, target, boxes, seeds, k))
    && forall x, y :: img.InImage(x, y) && ColorsEqual(Some(target), ColorAt(img, x, y)) ==>
         CoveredInOrder(boxes, seeds, x, y)
  }

  /** Scans the image in row-major order; each pixel of the target colour that no box yet
      covers seeds a new cross box. */
  method FindPixelOfColorBoundingBoxes(target: Color, img: Image)
    returns (boxes: seq<Box>, ghost seeds: seq<(int, int)>)
    requires img.Valid()
    ensures |seeds| == |boxes|
    ensures forall k :: 0 <= k < |boxes| ==> SeededBy(img, target, boxes, seeds, k)
    ensures forall x, y :: img.InImage(x, y) && ColorsEqual(Some(target), ColorAt(img, x, y)) ==>
      CoveredInOrder(boxes, seeds, x, y)
  {
    boxes, seeds := [], [];
    var y := 0;
    while y < img.height
      invariant 0 <= y <= img.height
      invariant ScanInvariant(img, target, boxes, seeds, 0, y)
    {
      var x := 0;
      while x < img.width
        invariant 0 <= x <= img.width
        invariant ScanInvariant(img, target, boxes, seeds, x, y)
      {
        var color := ColorAt(img, x, y);
        if ColorsEqual(Some(target), color) {
          var found;
          ghost var before := boxes;
          found, boxes := UpdateBoundingBoxes(img, x, y, boxes);
          if found.None? {
            assert boxes == before + [boxes[|before|]];
            ScanAppend(img, target, before, seeds, x, y, boxes[|before|]);
            seeds := seeds + [(x, y)];
          } else {
            ScanSkip(img, target, boxes, seeds, x, y);
          }
        } else {
          ScanSkip(img, target, boxes, seeds, x, y);
        }
        x := x + 1;
      }
      ScanNextRow(img, target, boxes, seeds, y);
      y := y + 1;
    }
  }

  /** The cross box of a seed is determined by its contract. */
  lemma CrossBoxUnique(img: Image, b: Box, b': Box, x: int, y: int)
    requires IsCrossBox(img, b, x, y) && IsCrossBox(img, b', x, y)
    ensures b == b'
  {
  }

  /** The target-coloured pixels of `img` are exactly those of the rectangle `r`, which
      lies in the image. */
  ghost predicate SolidRectangle(img: Image, target: Color, r: Box)
  {
    && 0 <= r.x0 <= r.x1 < img.width && 0 <= r.y0 <= r.y1 < img.height
    && forall x, y :: img.InImage(x, y) ==>
         (ColorsEqual(Some(target), ColorAt(img, x, y)) <==> r.Contains(x, y))
  }

  /** The cross box of the top-left corner of a solid rectangle is the rectangle. */
  lemma RectangleIsCrossBox(img: Image, target: Color, r: Box)
    requires SolidRectangle(img, target, r)
    ensures IsCrossBox(img, r, r.x0, r.y0)
  {
    var seed := ColorAt(img, r.x0, r.y0);
    ColorsEqualIsExact(Some(target), seed);
    forall x, y | img.InImage(x, y)
      ensures ColorsEqual(seed, ColorAt(img, x, y)) <==> r.Contains(x, y)
    {
      ColorsEqualIsExact(Some(target), ColorAt(img, x, y));
      ColorsEqualIsExact(seed, ColorAt(img, x, y));
    }
  }

  /** An image whose target-coloured pixels form exactly one solid rectangle `r` yields
      exactly one box, `r` itself. */
  lemma SolidRectangleScan(img: Image, target: Color, boxes: seq<Box>, seeds: seq<(int, int)>, r: Box)
    requires ScanResult(img, target, boxes, seeds)
    requires SolidRectangle(img, target, r)
    ensures boxes == [r]
  {
    assert img.InImage(r.x0, r.y0) && r.Contains(r.x0, r.y0);
    assert CoveredInOrder(boxes, seeds, r.x0, r.y0);
    var k :| 0 <= k < |boxes| && !Before(r.x0, r.y0, seeds[k].0, seeds[k].1) && boxes[k].Contains(r.x0, r.y0);
    assert SeededBy(img, target, boxes, seeds, k);
    assert r.Contains(seeds[k].0, seeds[k].1);
    assert seeds[k] == (r.x0, r.y0);
    RectangleIsCrossBox(img, target, r);
    CrossBoxUnique(img, boxes[k], r, r.x0, r.y0);
    forall j | 0 <= j < |boxes|
      ensures j == k && boxes[j] == r
    {
      assert SeededBy(img, target, boxes, seeds, j);
      assert r.Contains(seeds[j].0, seeds[j].1);
    }
    assert boxes[0] == r && boxes[|boxes| - 1] == r;
    assert boxes == [boxes[0]];
  }
}
