/** Copying the date cell out of the screenshot into an image of its own (the input of
    the text recognition step). */
module CellCrop {
  import opened Imaging

  /** The four bytes of the pixel whose first channel sits at buffer offset `off`. */
  function PixelBytes(img: Image, off: int): (r: seq<int>)
    ensures |r| == 4
  {
    [ByteAtOffset(img, off), ByteAtOffset(img, off + 1), ByteAtOffset(img, off + 2), ByteAtOffset(img, off + 3)]
  }

  /** The bytes of `n` consecutive pixels starting at buffer offset `off`. */
  function RowBytes(img: Image, off: int, n: nat): seq<int>
  {
    if n == 0 then [] else RowBytes(img, off, n - 1) + PixelBytes(img, off + 4 * (n - 1))
  }

  /** The bytes of `h` rows of `w` pixels, the first starting at offset `base` and each
      next one `stride` bytes further. */
  function CropBytes(img: Image, base: int, stride: int, w: nat, h: nat): seq<int>
  {
    if h == 0 then [] else CropBytes(img, base, stride, w, h - 1) + RowBytes(img, base + (h - 1) * stride, w)
  }

  lemma {:induction false} RowBytesLength(img: Image, off: int, n: nat)
    ensures |RowBytes(img, off, n)| == 4 * n
  {
    if n > 0 {
      RowBytesLength(img, off, n - 1);
    }
  }

  lemma {:induction false} RowBytesAt(img: Image, off: int, n: nat, k: int)
    requires 0 <= k < 4 * n
    ensures |RowBytes(img, off, n)| == 4 * n
    ensures RowBytes(img, off, n)[k] == ByteAtOffset(img, off + k)
  {
    RowBytesLength(img, off, n);
    RowBytesLength(img, off, n - 1);
    if k < 4 * (n - 1) {
      RowBytesAt(img, off, n - 1, k);
    }
  }

  lemma {:induction false} CropBytesLength(img: Image, base: int, stride: int, w: nat, h: nat)
    ensures |CropBytes(img, base, stride, w, h)| == 4 * w * h
  {
    if h > 0 {
      CropBytesLength(img, base, stride, w, h - 1);
      RowBytesLength(img, base + (h - 1) * stride, w);
      MulPred(4 * w, h);
    }
  }

  lemma {:induction false} CropBytesAt(img: Image, base: int, stride: int, w: nat, h: nat, j: int, k: int)
    requires 0 <= j < h && 0 <= k < 4 * w
    ensures 4 * w * j + k < |CropBytes(img, base, stride, w, h)|
    ensures CropBytes(img, base, stride, w, h)[4 * w * j + k] == ByteAtOffset(img, base + j * stride + k)
  {
    CropBytesLength(img, base, stride, w, h);
    CropBytesLength(img, base, stride, w, h - 1);
    MulMonotone(j + 1, h, 4 * w);
    assert 4 * w * (j + 1) == 4 * w * j + 4 * w;
    if j < h - 1 {
      CropBytesAt(img, base, stride, w, h - 1, j, k);
    } else {
      RowBytesAt(img, base + (h - 1) * stride, w, k);
    }
  }

  lemma MulPred(a: int, h: int)
    ensures a * (h - 1) + a == a * h
  {
  }

  /** Channel c of pixel (cx, cy) of a buffer of row width w, counted row by row. */
  lemma CropIndex(w: int, cx: int, cy: int, c: int)
    requires 0 <= w && 0 <= cx && 0 <= cy && 0 <= c
    ensures 0 <= (cx + cy * w) * 4 + c == 4 * w * cy + (4 * cx + c)
  {
    MulMonotone(0, cy, w);
    assert cy * w * 4 == 4 * w * cy;
  }

  /** Row `cy` of a `cw x ch` rectangle ends inside it. */
  lemma RowBound(cw: int, ch: int, cy: int)
    requires 0 < cw && 0 <= cy < ch
    ensures 0 <= cw * cy && cw * cy + cw <= cw * ch && cw * (cy + 1) == cw * cy + cw
  {
    MulMonotone(cy + 1, ch, cw);
  }

  /** Offset arithmetic of the copy loop. */
  lemma CropOffset(W: int, x0: int, y0: int, i: int, j: int, c: int)
    ensures (x0 + i + (y0 + j) * W) * 4 + c == (x0 + y0 * W) * 4 + j * (4 * W) + (4 * i + c)
  {
    assert (y0 + j) * W == y0 * W + j * W;
    assert j * (4 * W) == 4 * (j * W);
  }

  /** Pixel (cx, cy) of a buffer holding the crop bytes of the rectangle at (x0, y0) is
      pixel (x0 + cx, y0 + cy) of the image. */
  lemma CropPixel(img: Image, x0: int, y0: int, crop: Image, cx: int, cy: int, c: int)
    requires crop.data == CropBytes(img, (x0 + y0 * img.width) * 4, 4 * img.width, crop.width, crop.height)
    requires 0 <= cx < crop.width && 0 <= cy < crop.height && 0 <= c < 4
    ensures ByteAt(crop, cx, cy, c) == ByteAt(img, x0 + cx, y0 + cy, c)
  {
    var base, stride, w := (x0 + y0 * img.width) * 4, 4 * img.width, crop.width;
    var k := 4 * w * cy + (4 * cx + c);
    CropBytesAt(img, base, stride, w, crop.height, cy, 4 * cx + c);
    CropIndex(w, cx, cy, c);
    assert ByteAt(crop, cx, cy, c) == crop.data[k];
    CropOffset(img.width, x0, y0, cx, cy, c);
  }

  /** A buffer holding the crop bytes of the rectangle at (x0, y0) is that rectangle, pixel
      for pixel and channel for channel. */
  lemma CropContents(img: Image, x0: int, y0: int, crop: Image)
    requires crop.data == CropRows(img, x0, y0, crop.width, crop.height)
    ensures crop.Valid()
    ensures forall cx, cy, c :: 0 <= cx < crop.width && 0 <= cy < crop.height && 0 <= c < 4 ==>
      ByteAt(crop, cx, cy, c) == ByteAt(img, x0 + cx, y0 + cy, c)
  {
    CropBytesLength(img, (x0 + y0 * img.width) * 4, 4 * img.width, crop.width, crop.height);
    assert 4 * crop.width * crop.height == crop.width * crop.height * 4;
    forall cx, cy, c | 0 <= cx < crop.width && 0 <= cy < crop.height && 0 <= c < 4
      ensures ByteAt(crop, cx, cy, c) == ByteAt(img, x0 + cx, y0 + cy, c)
    {
      CropPixel(img, x0, y0, crop, cx, cy, c);
    }
  }

  /** The four channel copies of one pixel: source offset `from`, target offset `to`. */
  method CopyPixel(img: Image, data: array<byte>, to: int, from: int)
    requires 0 <= to && to + 4 <= data.Length
    modifies data
    ensures data[..to + 4] == old(data[..to]) + PixelBytes(img, from)
  {
    data[to] := ByteAtOffset(img, from);
    data[to + 1] := ByteAtOffset(img, from + 1);
    data[to + 2] := ByteAtOffset(img, from + 2);
    data[to + 3] := ByteAtOffset(img, from + 3);
  }

  /** The crop bytes of the first `h` rows of the `w`-pixel-wide rectangle at (x0, y0). */
  function CropRows(img: Image, x0: int, y0: int, w: nat, h: nat): seq<int>
  {
    CropBytes(img, (x0 + y0 * img.width) * 4, 4 * img.width, w, h)
  }

  /** One more row of the rectangle appends the bytes of row y0 + h. */
  lemma CropRowsNext(img: Image, x0: int, y0: int, w: nat, h: nat)
    ensures CropRows(img, x0, y0, w, h + 1)
      == CropRows(img, x0, y0, w, h) + RowBytes(img, (x0 + (y0 + h) * img.width) * 4, w)
  {
    CropOffset(img.width, x0, y0, 0, h, 0);
  }

  /** The inner loop of the copy: row `cy` of the `cw x ch` rectangle at (x0, y0), pixel
      by pixel, appended to what the buffer already holds. */
  method CopyCellRow(img: Image, x0: int, y0: int, cw: int, ch: int, data: array<byte>, cy: int,
                     ghost prefix: seq<int>)
    requires 0 < cw && 0 <= cy < ch && data.Length == cw * ch * 4
    requires 0 <= cw * cy <= cw * ch && data[..(cw * cy) * 4] == prefix
    modifies data
    ensures cw * cy + cw <= cw * ch && data[..(cw * cy + cw) * 4] == prefix + RowBytes(img, (x0 + (y0 + cy) * img.width) * 4, cw)
  {
    ghost var rowStart, rowBase := (x0 + (y0 + cy) * img.width) * 4, cw * cy;
    RowBound(cw, ch, cy);
    for cx := 0 to cw
      invariant data[..(rowBase + cx) * 4] == prefix + RowBytes(img, rowStart, cx)
    {
      var idx := (cw * cy + cx) * 4;
      var origOffset := (x0 + cx + (y0 + cy) * img.width) * 4;
      assert origOffset == rowStart + 4 * cx;
      CopyPixel(img, data, idx, origOffset);
      assert RowBytes(img, rowStart, cx + 1) == RowBytes(img, rowStart, cx) + PixelBytes(img, origOffset);
    }
  }

  /** Copies the pixels of the date cell, `(x1 - x0) x (y1 - y0)` of them starting at its
      top-left corner, into a fresh buffer; a zero or negative size is refused (the image
      constructor throws). */
  method CropCell(img: Image, cell: Box) returns (crop: Option<Image>)
    ensures crop.None? <==> cell.x1 - cell.x0 <= 0 || cell.y1 - cell.y0 <= 0
    ensures crop.Some? ==>
      && crop.value.width == cell.x1 - cell.x0
      && crop.value.height == cell.y1 - cell.y0
      && crop.value.Valid()
    ensures crop.Some? ==> forall cx, cy, c ::
      0 <= cx < crop.value.width && 0 <= cy < crop.value.height && 0 <= c < 4 ==>
        ByteAt(crop.value, cx, cy, c) == ByteAt(img, cell.x0 + cx, cell.y0 + cy, c)
  {
    var cw, ch := cell.x1 - cell.x0, cell.y1 - cell.y0;
    if cw <= 0 || ch <= 0 {
      return None;
    }
    assert 0 <= cw * ch by {
      MulMonotone(0, cw, ch);
    }
    var data := new byte[cw * ch * 4];
    for cy := 0 to ch
      invariant 0 <= cw * cy <= cw * ch
      invariant data[..(cw * cy) * 4] == CropRows(img, cell.x0, cell.y0, cw, cy)
    {
      CopyCellRow(img, cell.x0, cell.y0, cw, ch, data, cy, CropRows(img, cell.x0, cell.y0, cw, cy));
      assert cw * (cy + 1) == cw * cy + cw && 0 <= cw * (cy + 1) <= cw * ch by {
        RowBound(cw, ch, cy);
      }
      assert data[..(cw * (cy + 1)) * 4] == CropRows(img, cell.x0, cell.y0, cw, cy + 1) by {
        CropRowsNext(img, cell.x0, cell.y0, cw, cy);
      }
    }
    assert data[..] == data[..(cw * ch) * 4];
    var result := Image(cw, ch, data[..]);
    CropContents(img, cell.x0, cell.y0, result);
    crop := Some(result);
  }
}
