/** The pixel buffer the pixelation pass works on: an 8-bit RGBA image laid out
    row by row, as Go's *image.RGBA stores it, and its value-level view. */
module Pixels {
  import opened Arith

  newtype byte = x: int | 0 <= x < 256

  /** One stored pixel, 8 bits per channel (color.RGBA). */
  datatype Color = Color(r: byte, g: byte, b: byte, a: byte)

  /** The colour RGBA.At reports outside the image bounds. */
  const Transparent := Color(0, 0, 0, 0)

  /** The three channels the averager accumulates; alpha is not averaged. */
  datatype Channel = Red | Green | Blue

  function Value(c: Color, ch: Channel): byte
  {
    match ch
    case Red => c.r
    case Green => c.g
    case Blue => c.b
  }

  /** Every 8-bit value v reads back through RGBA() as the 16-bit value v*0x101. */
  const Widen := 0x101

  /** A snapshot of an image of w columns and h rows; pixel (x, y) sits at index y*w + x. */
  datatype Grid = Grid(w: nat, h: nat, pix: seq<Color>)
  {
    ghost predicate Valid()
    {
      |pix| == w * h
    }

    predicate InBounds(x: int, y: int)
    {
      0 <= x < w && 0 <= y < h
    }

    /** The pixel at (x, y); the zero colour outside the image. */
    function At(x: int, y: int): Color
    {
      if InBounds(x, y) && y * w + x < |pix| then pix[y * w + x] else Transparent
    }
  }

  /** Inside a valid grid the flat index of (x, y) is in range and names that pixel. */
  lemma IndexOf(g: Grid, x: int, y: int)
    requires g.Valid() && g.InBounds(x, y)
    ensures 0 <= y * g.w + x < |g.pix|
    ensures g.At(x, y) == g.pix[y * g.w + x]
    ensures (y * g.w + x) % g.w == x && (y * g.w + x) / g.w == y
  {
    Coords(x, y, g.w);
    MulMono(y + 1, g.h, g.w);
  }

  /** Every flat index of a valid grid names an in-bounds pixel. */
  lemma PointOf(g: Grid, i: int)
    requires g.Valid() && 0 <= i < |g.pix|
    ensures g.w > 0 && g.InBounds(i % g.w, i / g.w)
    ensures i == (i / g.w) * g.w + i % g.w
    ensures g.At(i % g.w, i / g.w) == g.pix[i]
  {
    assert g.w > 0;
    var x, y := i % g.w, i / g.w;
    assert i == y * g.w + x;
    assert y * g.w <= i < g.h * g.w;
    MulCancelLess(y, g.h, g.w);
  }

  /** Two valid grids of the same size are equal as soon as they agree on every in-bounds pixel. */
  lemma GridExt(g1: Grid, g2: Grid)
    requires g1.Valid() && g2.Valid() && g1.w == g2.w && g1.h == g2.h
    requires forall x, y :: g1.InBounds(x, y) ==> g1.At(x, y) == g2.At(x, y)
    ensures g1 == g2
  {
    forall i | 0 <= i < |g1.pix|
      ensures g1.pix[i] == g2.pix[i]
    {
      PointOf(g1, i);
      PointOf(g2, i);
    }
  }

  /** The rectangle [x0, x1) x [y0, y1). */
  predicate InRect(x: int, y: int, x0: int, y0: int, x1: int, y1: int)
  {
    x0 <= x < x1 && y0 <= y < y1
  }

  /** The image buffer that the pass updates in place (Go's *image.RGBA with bounds (0,0)-(width,height)). */
  class Image {
    const width: nat
    const height: nat
    const pix: array<Color>

    ghost predicate Valid()
      reads this
    {
      pix.Length == width * height
    }

    /** The current contents as a value. */
    ghost function Value(): (g: Grid)
      reads this, pix
      ensures g.w == width && g.h == height && g.pix == pix[..]
    {
      Grid(width, height, pix[..])
    }

    constructor (w: nat, h: nat, contents: seq<Color>)
      requires |contents| == w * h
      ensures Valid() && Value() == Grid(w, h, contents) && fresh(pix)
    {
      width, height := w, h;
      pix := new Color[|contents|](i requires 0 <= i < |contents| => contents[i]);
    }

    /** The pixel at (x, y), the zero colour outside the bounds. */
    function At(x: int, y: int): (c: Color)
      reads this, pix
      requires Valid()
      ensures c == Value().At(x, y)
    {
      if 0 <= x < width && 0 <= y < height && y * width + x < pix.Length then pix[y * width + x] else Transparent
    }

    /** draw.Draw(res, rect, &image.Uniform{c}, _, draw.Src) with c fully opaque: every pixel of
        the rectangle that lies inside the image becomes c; the rest of the image, and
        everything outside it, is left alone. */
    method Fill(x0: int, y0: int, x1: int, y1: int, c: Color)
      requires Valid() && c.a == 255
      modifies pix
      ensures Valid()
      ensures forall i :: 0 <= i < pix.Length ==>
                pix[i] == if InRect(i % width, i / width, x0, y0, x1, y1) then c else old(pix[i])
    {
      forall i | 0 <= i < pix.Length && InRect(i % width, i / width, x0, y0, x1, y1) {
        pix[i] := c;
      }
    }
  }
}
