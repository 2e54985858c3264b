/** processImage: one pass over the squares of a grid, each square averaged and then painted
    over in place with its average colour. */
module Tiler {
  import opened Arith
  import opened Pixels
  import opened Averager

  /** The arguments of one processImage call: x runs from startX by step, y from startY by
      size, while below sizeX and sizeY; each step handles the square [x, x+size) x [y, y+size). */
  datatype Pass = Pass(startX: int, startY: int, sizeX: int, sizeY: int, size: int, step: int)
  {
    /** Positive square size and an x-step of at least one square, as every caller passes. */
    predicate Stepping()
    {
      0 < size <= step
    }

    /** x-start of the kx-th column of squares. */
    function X(kx: int): int
    {
      startX + kx * step
    }

    /** y-start of the ky-th row of squares. */
    function Y(ky: int): int
    {
      startY + ky * size
    }

    /** The square (kx, ky) is one the loops reach. */
    predicate Reached(kx: int, ky: int)
    {
      0 <= kx && 0 <= ky && X(kx) < sizeX && Y(ky) < sizeY
    }

    /** Pixel (x, y) lies in square (kx, ky). */
    predicate InSquare(kx: int, ky: int, x: int, y: int)
    {
      InRect(x, y, X(kx), Y(ky), X(kx) + size, Y(ky) + size)
    }
  }

  /** Along one axis, which of the intervals [start + k*step, start + k*step + size) with
      start + k*step < limit contains p; -1 when none does. */
  function CoverIndex(p: int, start: int, limit: int, step: int, size: int): int
    requires 0 < size <= step
  {
    if p < start then -1
    else
      var k := (p - start) / step;
      if (p - start) % step < size && start + k * step < limit then k else -1
  }

  /** CoverIndex names exactly the one interval that contains p, so the intervals of one pass
      never overlap. */
  lemma CoverIndexSpec(p: int, start: int, limit: int, step: int, size: int, k: int)
    requires 0 < size <= step && 0 <= k
    ensures -1 <= CoverIndex(p, start, limit, step, size)
    ensures CoverIndex(p, start, limit, step, size) == k
            <==> start + k * step <= p < start + k * step + size && start + k * step < limit
  {
    if start + k * step <= p < start + k * step + size {
      DivModUnique(p - start, step, k, p - start - k * step);
    }
    if p >= start {
      assert 0 <= (p - start) / step by {
        DivMono(0, p - start, step);
      }
    }
  }

  function CoverX(P: Pass, x: int): int
    requires P.Stepping()
  {
    CoverIndex(x, P.startX, P.sizeX, P.step, P.size)
  }

  function CoverY(P: Pass, y: int): int
    requires P.Stepping()
  {
    CoverIndex(y, P.startY, P.sizeY, P.size, P.size)
  }

  /** Pixel (x, y) lies in a square the pass reaches. */
  ghost predicate Covered(P: Pass, x: int, y: int)
  {
    exists kx, ky :: P.Reached(kx, ky) && P.InSquare(kx, ky, x, y)
  }

  /** A pixel lies in a reached square iff both axes have a covering interval, and then that
      square is the one CoverX and CoverY name. */
  lemma CoveredIff(P: Pass, x: int, y: int)
    requires P.Stepping()
    ensures Covered(P, x, y) <==> CoverX(P, x) >= 0 && CoverY(P, y) >= 0
    ensures Covered(P, x, y) ==> P.Reached(CoverX(P, x), CoverY(P, y))
                                 && P.InSquare(CoverX(P, x), CoverY(P, y), x, y)
  {
    var cx, cy := CoverX(P, x), CoverY(P, y);
    if cx >= 0 && cy >= 0 {
      CoverIndexSpec(x, P.startX, P.sizeX, P.step, P.size, cx);
      CoverIndexSpec(y, P.startY, P.sizeY, P.size, P.size, cy);
      assert P.Reached(cx, cy) && P.InSquare(cx, cy, x, y);
    }
    if Covered(P, x, y) {
      var kx, ky :| P.Reached(kx, ky) && P.InSquare(kx, ky, x, y);
      CoverIndexSpec(x, P.startX, P.sizeX, P.step, P.size, kx);
      CoverIndexSpec(y, P.startY, P.sizeY, P.size, P.size, ky);
    }
  }

  /** Two reached squares of one pass that share a pixel are the same square. */
  lemma SquaresDisjoint(P: Pass, kx: int, ky: int, kx': int, ky': int, x: int, y: int)
    requires P.Stepping() && P.Reached(kx, ky) && P.Reached(kx', ky')
    requires P.InSquare(kx, ky, x, y) && P.InSquare(kx', ky', x, y)
    ensures kx == kx' && ky == ky'
  {
    CoverIndexSpec(x, P.startX, P.sizeX, P.step, P.size, kx);
    CoverIndexSpec(x, P.startX, P.sizeX, P.step, P.size, kx');
    CoverIndexSpec(y, P.startY, P.sizeY, P.size, P.size, ky);
    CoverIndexSpec(y, P.startY, P.sizeY, P.size, P.size, ky');
  }

  /** The pass is well defined for bucket kind b: the squares step forward and the
      divisor of every square, size*size (truncated for uint32), is non-zero. */
  predicate Runnable(b: Buckets, P: Pass)
  {
    P.Stepping() && Divisor(b, 0, 0, P.size, P.size) > 0
  }

  lemma SquareDivisor(b: Buckets, P: Pass, kx: int, ky: int)
    requires Runnable(b, P)
    ensures Divisor(b, P.X(kx), P.Y(ky), P.X(kx) + P.size, P.Y(ky) + P.size) > 0
  {
    assert Area(P.X(kx), P.Y(ky), P.X(kx) + P.size, P.Y(ky) + P.size) == Area(0, 0, P.size, P.size);
  }

  /** The average of square (kx, ky) taken in grid g. */
  function SquareAverage(g: Grid, b: Buckets, P: Pass, kx: int, ky: int): Color
    requires Runnable(b, P)
  {
    SquareDivisor(b, P, kx, ky);
    AverageOf(g, b, P.X(kx), P.Y(ky), P.X(kx) + P.size, P.Y(ky) + P.size)
  }

  /** Square (cx, cy) comes before the loops' position (kx, ky): x-columns in order, rows in
      order within a column. */
  predicate Before(cx: int, cy: int, kx: int, ky: int)
  {
    cx < kx || (cx == kx && cy < ky)
  }

  /** Pixel (x, y) once the loops have reached square (kx, ky) of a pass started on g0. */
  function ProgressPixel(g0: Grid, b: Buckets, P: Pass, x: int, y: int, kx: int, ky: int): Color
    requires Runnable(b, P)
  {
    var cx, cy := CoverX(P, x), CoverY(P, y);
    if cx >= 0 && cy >= 0 && Before(cx, cy, kx, ky) then SquareAverage(g0, b, P, cx, cy) else g0.At(x, y)
  }

  /** Pixel (x, y) once the whole pass has run on g0: the average its square had in g0 if a
      reached square covers it, its own colour in g0 otherwise. */
  function ProcessedPixel(g0: Grid, b: Buckets, P: Pass, x: int, y: int): Color
    requires Runnable(b, P)
  {
    var cx, cy := CoverX(P, x), CoverY(P, y);
    if cx >= 0 && cy >= 0 then SquareAverage(g0, b, P, cx, cy) else g0.At(x, y)
  }

  /** The grid the whole pass leaves behind. */
  function Processed(g0: Grid, b: Buckets, P: Pass): (g: Grid)
    requires Runnable(b, P)
    ensures g.w == g0.w && g.h == g0.h && |g.pix| == |g0.pix|
  {
    if g0.w == 0 then g0
    else Grid(g0.w, g0.h, seq(|g0.pix|, i requires 0 <= i < |g0.pix| => ProcessedPixel(g0, b, P, i % g0.w, i / g0.w)))
  }

  /** What the pass promises for every pixel: one in a reached square holds the average that
      square had before the pass, which is why reading the buffer being written is harmless. */
  lemma VisitedSquareHoldsAverage(g0: Grid, b: Buckets, P: Pass, kx: int, ky: int, x: int, y: int)
    requires g0.Valid() && Runnable(b, P) && g0.InBounds(x, y)
    requires P.Reached(kx, ky) && P.InSquare(kx, ky, x, y)
    ensures Processed(g0, b, P).At(x, y) == SquareAverage(g0, b, P, kx, ky)
  {
    CoverIndexSpec(x, P.startX, P.sizeX, P.step, P.size, kx);
    CoverIndexSpec(y, P.startY, P.sizeY, P.size, P.size, ky);
    ProcessedAt(g0, b, P, x, y);
  }

  /** ... and every pixel outside the reached squares keeps its colour. */
  lemma UncoveredPixelUnchanged(g0: Grid, b: Buckets, P: Pass, x: int, y: int)
    requires g0.Valid() && Runnable(b, P) && g0.InBounds(x, y) && !Covered(P, x, y)
    ensures Processed(g0, b, P).At(x, y) == g0.At(x, y)
  {
    CoveredIff(P, x, y);
    ProcessedAt(g0, b, P, x, y);
  }

  lemma ProcessedAt(g0: Grid, b: Buckets, P: Pass, x: int, y: int)
    requires g0.Valid() && Runnable(b, P) && g0.InBounds(x, y)
    ensures Processed(g0, b, P).Valid()
    ensures Processed(g0, b, P).At(x, y) == ProcessedPixel(g0, b, P, x, y)
  {
    IndexOf(g0, x, y);
    IndexOf(Processed(g0, b, P), x, y);
  }

  /** With 1 x 1 squares a pass over the whole of an opaque image gives the image back. */
  lemma UnitSquaresIdentity(g0: Grid, b: Buckets)
    requires g0.Valid() && forall i :: 0 <= i < |g0.pix| ==> g0.pix[i].a == 255
    ensures Runnable(b, Pass(0, 0, g0.w, g0.h, 1, 1))
    ensures Processed(g0, b, Pass(0, 0, g0.w, g0.h, 1, 1)) == g0
  {
    var P := Pass(0, 0, g0.w, g0.h, 1, 1);
    assert Runnable(b, P);
    forall x, y | g0.InBounds(x, y)
      ensures Processed(g0, b, P).At(x, y) == g0.At(x, y)
    {
      UnitSquarePixel(g0, b, x, y);
    }
    if g0.InBounds(0, 0) {
      ProcessedAt(g0, b, P, 0, 0);
      GridExt(Processed(g0, b, P), g0);
    }
  }

  lemma UnitSquarePixel(g0: Grid, b: Buckets, x: int, y: int)
    requires g0.Valid() && forall i :: 0 <= i < |g0.pix| ==> g0.pix[i].a == 255
    requires g0.InBounds(x, y)
    ensures Runnable(b, Pass(0, 0, g0.w, g0.h, 1, 1))
    ensures Processed(g0, b, Pass(0, 0, g0.w, g0.h, 1, 1)).At(x, y) == g0.At(x, y)
  {
    var P := Pass(0, 0, g0.w, g0.h, 1, 1);
    assert Runnable(b, P);
    ProcessedAt(g0, b, P, x, y);
    IndexOf(g0, x, y);
    var c := g0.At(x, y);
    CoverIndexSpec(x, 0, g0.w, 1, 1, x);
    CoverIndexSpec(y, 0, g0.h, 1, 1, y);
    assert Uniform(g0, x, y, x + 1, y + 1, c);
    UniformAverage(g0, b, x, y, x + 1, y + 1, c);
  }

  // ---------------------------------------------------------------------------------
  // Steps of the loops

  /** A square the loops have not yet reached still holds, in the buffer, its pixels of g0. */
  lemma UnreachedSquareUnchanged(g0: Grid, cur: Grid, b: Buckets, P: Pass, kx: int, ky: int)
    requires g0.Valid() && cur.Valid() && cur.w == g0.w && cur.h == g0.h && Runnable(b, P)
    requires P.Reached(kx, ky)
    requires forall i :: 0 <= i < |cur.pix| ==> cur.pix[i] == ProgressPixel(g0, b, P, i % cur.w, i / cur.w, kx, ky)
    ensures forall x, y :: InRect(x, y, P.X(kx), P.Y(ky), P.X(kx) + P.size, P.Y(ky) + P.size)
              ==> cur.At(x, y) == g0.At(x, y)
  {
    forall x, y | InRect(x, y, P.X(kx), P.Y(ky), P.X(kx) + P.size, P.Y(ky) + P.size)
      ensures cur.At(x, y) == g0.At(x, y)
    {
      if cur.InBounds(x, y) {
        IndexOf(cur, x, y);
        CoverIndexSpec(x, P.startX, P.sizeX, P.step, P.size, kx);
        CoverIndexSpec(y, P.startY, P.sizeY, P.size, P.size, ky);
      }
    }
  }

  /** So the average the loops take of square (kx, ky) in the buffer is the one it had in g0. */
  lemma UnreachedSquareAverage(g0: Grid, cur: Grid, b: Buckets, P: Pass, kx: int, ky: int)
    requires g0.Valid() && cur.Valid() && cur.w == g0.w && cur.h == g0.h && Runnable(b, P)
    requires P.Reached(kx, ky)
    requires forall i :: 0 <= i < |cur.pix| ==> cur.pix[i] == ProgressPixel(g0, b, P, i % cur.w, i / cur.w, kx, ky)
    ensures Divisor(b, P.X(kx), P.Y(ky), P.X(kx) + P.size, P.Y(ky) + P.size) > 0
    ensures AverageOf(cur, b, P.X(kx), P.Y(ky), P.X(kx) + P.size, P.Y(ky) + P.size) == SquareAverage(g0, b, P, kx, ky)
  {
    SquareDivisor(b, P, kx, ky);
    UnreachedSquareUnchanged(g0, cur, b, P, kx, ky);
    AverageFrame(cur, g0, b, P.X(kx), P.Y(ky), P.X(kx) + P.size, P.Y(ky) + P.size);
  }

  lemma NextSquare(P: Pass, kx: int, ky: int)
    ensures P.X(kx + 1) == P.X(kx) + P.step && P.Y(ky + 1) == P.Y(ky) + P.size
  {
  }

  /** Painting square (kx, ky) with its g0 average moves the loops' position one row on. */
  lemma FillStep(g0: Grid, b: Buckets, P: Pass, kx: int, ky: int, x: int, y: int)
    requires Runnable(b, P) && P.Reached(kx, ky)
    ensures ProgressPixel(g0, b, P, x, y, kx, ky + 1)
            == if P.InSquare(kx, ky, x, y) then SquareAverage(g0, b, P, kx, ky)
               else ProgressPixel(g0, b, P, x, y, kx, ky)
  {
    CoverIndexSpec(x, P.startX, P.sizeX, P.step, P.size, kx);
    CoverIndexSpec(y, P.startY, P.sizeY, P.size, P.size, ky);
  }

  /** The same, for the whole buffer: painting square (kx, ky) over a buffer at position
      (kx, ky) leaves it at position (kx, ky + 1). */
  lemma FillAdvances(g0: Grid, b: Buckets, P: Pass, kx: int, ky: int, w: int,
                     before: seq<Color>, after: seq<Color>, c: Color)
    requires Runnable(b, P) && P.Reached(kx, ky) && (|before| > 0 ==> w > 0) && |after| == |before|
    requires c == SquareAverage(g0, b, P, kx, ky)
    requires forall i :: 0 <= i < |before| ==> before[i] == ProgressPixel(g0, b, P, i % w, i / w, kx, ky)
    requires forall i :: 0 <= i < |after| ==>
               after[i] == if InRect(i % w, i / w, P.X(kx), P.Y(ky), P.X(kx) + P.size, P.Y(ky) + P.size)
                           then c else before[i]
    ensures forall i :: 0 <= i < |after| ==> after[i] == ProgressPixel(g0, b, P, i % w, i / w, kx, ky + 1)
  {
    forall i | 0 <= i < |after|
      ensures after[i] == ProgressPixel(g0, b, P, i % w, i / w, kx, ky + 1)
    {
      FillStep(g0, b, P, kx, ky, i % w, i / w);
    }
  }

  /** Once y has run past sizeY the column kx is complete. */
  lemma ColumnDone(g0: Grid, b: Buckets, P: Pass, kx: int, ky: int, x: int, y: int)
    requires Runnable(b, P) && 0 <= ky && P.Y(ky) >= P.sizeY
    ensures ProgressPixel(g0, b, P, x, y, kx, ky) == ProgressPixel(g0, b, P, x, y, kx + 1, 0)
  {
    var cy := CoverY(P, y);
    if cy >= 0 {
      CoverIndexSpec(y, P.startY, P.sizeY, P.size, P.size, cy);
      assert cy * P.size < ky * P.size;
      MulCancelLess(cy, ky, P.size);
    }
  }

  /** Once x has run past sizeX the pass is complete. */
  lemma PassDone(g0: Grid, b: Buckets, P: Pass, kx: int, x: int, y: int)
    requires Runnable(b, P) && 0 <= kx && P.X(kx) >= P.sizeX
    ensures ProgressPixel(g0, b, P, x, y, kx, 0) == ProcessedPixel(g0, b, P, x, y)
  {
    var cx := CoverX(P, x);
    if cx >= 0 {
      CoverIndexSpec(x, P.startX, P.sizeX, P.step, P.size, cx);
      assert cx * P.step < kx * P.step;
      MulCancelLess(cx, kx, P.step);
    }
  }

  /** processImage(startX, startY, sizeX, sizeY, squareSize, goroutineIncrement, res): for every
      reached square, average it in res and paint it over with that colour. The averages use
      uint32 buckets, as written. The post-state is the closed form Processed, whose meaning
      VisitedSquareHoldsAverage and UncoveredPixelUnchanged spell out. */
  method ProcessImage(startX: int, startY: int, sizeX: int, sizeY: int, squareSize: int,
                      goroutineIncrement: int, res: Image)
    requires res.Valid()
    requires Runnable(Uint32, Pass(startX, startY, sizeX, sizeY, squareSize, goroutineIncrement))
    modifies res.pix
    ensures res.Valid()
    ensures res.Value() == Processed(old(res.Value()), Uint32,
                                     Pass(startX, startY, sizeX, sizeY, squareSize, goroutineIncrement))
  {
    ghost var g0 := res.Value();
    ghost var P := Pass(startX, startY, sizeX, sizeY, squareSize, goroutineIncrement);
    assert res.pix.Length == 0 || res.width > 0;
    forall i | 0 <= i < res.pix.Length
      ensures res.pix[i] == ProgressPixel(g0, Uint32, P, i % res.width, i / res.width, 0, 0)
    {
      PointOf(g0, i);
    }
    var x := startX;
    ghost var kx := 0;
    while x < sizeX
      invariant 0 <= kx && x == P.X(kx)
      invariant res.Valid() && res.Value().w == g0.w && res.Value().h == g0.h
      invariant res.pix.Length == 0 || res.width > 0
      invariant forall i :: 0 <= i < res.pix.Length ==>
                  res.pix[i] == ProgressPixel(g0, Uint32, P, i % res.width, i / res.width, kx, 0)
      decreases sizeX - x
    {
      var y := startY;
      ghost var ky := 0;
      while y < sizeY
        invariant 0 <= ky && y == P.Y(ky)
        invariant res.pix.Length == 0 || res.width > 0
        invariant forall i :: 0 <= i < res.pix.Length ==>
                    res.pix[i] == ProgressPixel(g0, Uint32, P, i % res.width, i / res.width, kx, ky)
        decreases sizeY - y
      {
        // temp := image.NewRGBA(image.Rect(x, y, x+squareSize, y+squareSize)) only supplies the
        // rectangle that draw.Draw fills.
        SquareDivisor(Uint32, P, kx, ky);
        UnreachedSquareAverage(g0, res.Value(), Uint32, P, kx, ky);
        var color := AverageColor(x, y, x + squareSize, y + squareSize, res);
        ghost var before := res.pix[..];
        res.Fill(x, y, x + squareSize, y + squareSize, color);
        FillAdvances(g0, Uint32, P, kx, ky, res.width, before, res.pix[..], color);
        NextSquare(P, kx, ky);
        y := y + squareSize;
        ky := ky + 1;
      }
      forall i | 0 <= i < res.pix.Length
        ensures res.pix[i] == ProgressPixel(g0, Uint32, P, i % res.width, i / res.width, kx + 1, 0)
      {
        ColumnDone(g0, Uint32, P, kx, ky, i % res.width, i / res.width);
      }
      NextSquare(P, kx, ky);
      x := x + goroutineIncrement;
      kx := kx + 1;
    }
    forall i | 0 <= i < res.pix.Length
      ensures res.pix[i] == ProcessedPixel(g0, Uint32, P, i % res.width, i / res.width)
    {
      PassDone(g0, Uint32, P, kx, i % res.width, i / res.width);
    }
    assert res.pix[..] == Processed(g0, Uint32, P).pix;
  }
}
