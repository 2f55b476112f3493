/** Pixels, colours and bounding boxes of a decoded RGBA screenshot. */
module Imaging {

  datatype Option<+T> = None | Some(value: T)

  /** One channel of the decoded 8-bit buffer. */
  type byte = x: int | 0 <= x < 256

  datatype Color = Color(r: byte, g: byte, b: byte, a: byte)

  /** The colour of the work blocks the scanner looks for. */
  const WorkEventBlue: Color := Color(0, 51, 187, 255)

  /** A decoded image: `data` is row-major, four bytes (R, G, B, A) per pixel, no row padding. */
  datatype Image = Image(width: nat, height: nat, data: seq<byte>) {
    /** The buffer holds exactly `width * height` pixels. */
    predicate Valid() { |data| == width * height * 4 }

    predicate InImage(x: int, y: int) { 0 <= x < width && 0 <= y < height }
  }

  /** Inclusive pixel rectangle. */
  datatype Box = Box(x0: int, x1: int, y0: int, y1: int) {
    predicate Contains(x: int, y: int) { x0 <= x <= x1 && y0 <= y <= y1 }
  }

  /** Index of pixel (x, y) in the flat pixel sequence; no bounds check, so a column
      outside 0 .. width-1 names a pixel of a neighbouring row. */
  function PixelIndex(img: Image, x: int, y: int): int { x + y * img.width }

  lemma RowMajorBound(w: int, h: int, x: int, y: int)
    requires 0 <= x < w && 0 <= y < h
    ensures 0 <= x + y * w < w * h
  {
    MulMonotone(y + 1, h, w);
    assert (y + 1) * w == y * w + w;
  }

  lemma MulMonotone(a: int, b: int, c: int)
    requires 0 <= a <= b && 0 <= c
    ensures 0 <= a * c <= b * c
  {
  }

  /** The colour stored at (x, y), or None when the four bytes lie outside the buffer
      (JavaScript yields `undefined` channels there). */
  function ColorAt(img: Image, x: int, y: int): (c: Option<Color>)
    ensures c.Some? <==> 0 <= PixelIndex(img, x, y) && 4 * PixelIndex(img, x, y) + 3 < |img.data|
    ensures img.Valid() && img.InImage(x, y) ==> c.Some?
    ensures c.Some? ==>
      c.value == Color(ByteAt(img, x, y, 0), ByteAt(img, x, y, 1), ByteAt(img, x, y, 2), ByteAt(img, x, y, 3))
  {
    var i := PixelIndex(img, x, y);
    assert img.Valid() && img.InImage(x, y) ==> 0 <= i < img.width * img.height by {
      if img.Valid() && img.InImage(x, y) {
        RowMajorBound(img.width, img.height, x, y);
      }
    }
    if 0 <= i && 4 * i + 3 < |img.data| then
      Some(Color(img.data[4 * i], img.data[4 * i + 1], img.data[4 * i + 2], img.data[4 * i + 3]))
    else
      None
  }

  /** A defined colour in a valid image implies the image has columns. */
  lemma DefinedColorWidth(img: Image, x: int, y: int)
    requires img.Valid() && ColorAt(img, x, y).Some?
    ensures img.width > 0
  {
  }

  lemma PixelIndexNextRow(img: Image, x: int, y: int)
    ensures PixelIndex(img, x, y + 1) == PixelIndex(img, x, y) + img.width
  {
  }

  /** The byte at offset `off` of the buffer, reading 0 outside it (an `undefined`
      stored into a clamped byte array becomes 0). */
  function ByteAtOffset(img: Image, off: int): byte
  {
    if 0 <= off < |img.data| then img.data[off] else 0
  }

  /** Channel `c` (0 = R .. 3 = A) of pixel (x, y). */
  function ByteAt(img: Image, x: int, y: int, c: int): byte
  {
    ByteAtOffset(img, (x + y * img.width) * 4 + c)
  }

  function Abs(n: int): nat { if n < 0 then -n else n }

  /** The tolerance of the colour comparison. */
  const Threshold: int := 1

  /** Channel-wise comparison within `Threshold`; an undefined read compares unequal to
      everything, itself included (its channels are NaN). */
  predicate ColorsEqual(c1: Option<Color>, c2: Option<Color>)
    ensures ColorsEqual(c1, c2) ==> c1.Some? && c2.Some? && c1 == c2
  {
    && c1.Some? && c2.Some?
    && Abs(c1.value.r - c2.value.r) < Threshold
    && Abs(c1.value.g - c2.value.g) < Threshold
    && Abs(c1.value.b - c2.value.b) < Threshold
    && Abs(c1.value.a - c2.value.a) < Threshold
  }

  /** On integer channels the tolerance admits no difference: equality is exact. */
  lemma ColorsEqualIsExact(c1: Option<Color>, c2: Option<Color>)
    ensures ColorsEqual(c1, c2) <==> c1.Some? && c1 == c2
  {
  }

  /** Reflexive on defined colours, never on an undefined read, and symmetric. */
  lemma ColorsEqualReflexiveSymmetric(c1: Option<Color>, c2: Option<Color>)
    ensures ColorsEqual(c1, c1) <==> c1.Some?
    ensures ColorsEqual(c1, c2) == ColorsEqual(c2, c1)
  {
  }

  lemma ColorsEqualTransitive(c1: Option<Color>, c2: Option<Color>, c3: Option<Color>)
    requires ColorsEqual(c1, c2) && ColorsEqual(c2, c3)
    ensures ColorsEqual(c1, c3)
  {
  }
}
