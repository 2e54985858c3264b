/** averageColor: the mean colour of a rectangle of the image, computed the way main.go
    computes it, with 32-bit unsigned buckets, and a wide-bucket variant of it. */
module Averager {
  import opened Arith
  import opened Pixels

  /** 2^32: uint32 arithmetic is arithmetic modulo this. */
  const Uint32Range := 0x1_0000_0000

  /** How the per-channel buckets accumulate: as written (uint32, wrapping, with the area
      truncated by uint32(...)), or without a width limit. */
  datatype Buckets = Uint32 | Wide

  /** The 16-bit value RGBA() reports for one channel of pixel (x, y). */
  function Read16(g: Grid, x: int, y: int, ch: Channel): nat
  {
    Value(g.At(x, y), ch) as int * Widen
  }

  /** Sum of the 16-bit channel values of column x over rows [y0, y1). */
  function ColumnSum(g: Grid, x: int, y0: int, y1: int, ch: Channel): nat
    decreases y1 - y0
  {
    if y1 <= y0 then 0 else ColumnSum(g, x, y0, y1 - 1, ch) + Read16(g, x, y1 - 1, ch)
  }

  /** Sum of the 16-bit channel values over [x0, x1) x [y0, y1), empty when either range is. */
  function RegionSum(g: Grid, x0: int, y0: int, x1: int, y1: int, ch: Channel): nat
    decreases x1 - x0
  {
    if x1 <= x0 then 0 else RegionSum(g, x0, y0, x1 - 1, y1, ch) + ColumnSum(g, x1 - 1, y0, y1, ch)
  }

  /** Reference: the sum of the stored 8-bit values of column x over rows [y0, y1). */
  function ColumnTotal(g: Grid, x: int, y0: int, y1: int, ch: Channel): nat
    decreases y1 - y0
  {
    if y1 <= y0 then 0 else ColumnTotal(g, x, y0, y1 - 1, ch) + Value(g.At(x, y1 - 1), ch) as int
  }

  /** Reference: the sum of the stored 8-bit values over [x0, x1) x [y0, y1). */
  function RegionTotal(g: Grid, x0: int, y0: int, x1: int, y1: int, ch: Channel): nat
    decreases x1 - x0
  {
    if x1 <= x0 then 0 else RegionTotal(g, x0, y0, x1 - 1, y1, ch) + ColumnTotal(g, x1 - 1, y0, y1, ch)
  }

  function Area(x0: int, y0: int, x1: int, y1: int): int
  {
    (x1 - x0) * (y1 - y0)
  }

  /** The divisor: uint32((sizeX - startX) * (sizeY - startY)) as written, the true area otherwise. */
  function Divisor(b: Buckets, x0: int, y0: int, x1: int, y1: int): int
  {
    if b == Uint32 then Area(x0, y0, x1, y1) % Uint32Range else Area(x0, y0, x1, y1)
  }

  /** What a bucket holds after all additions. */
  function Bucket(b: Buckets, s: int): int
  {
    if b == Uint32 then s % Uint32Range else s
  }

  /** One output channel: bucket / area, then / 0x101, then the uint8(...) conversion. */
  function ChannelAverage(g: Grid, b: Buckets, x0: int, y0: int, x1: int, y1: int, ch: Channel): byte
    requires Divisor(b, x0, y0, x1, y1) > 0
  {
    ((Bucket(b, RegionSum(g, x0, y0, x1, y1, ch)) / Divisor(b, x0, y0, x1, y1) / Widen) % 256) as byte
  }

  /** The colour averageColor returns: the three channel averages, fully opaque. */
  function AverageOf(g: Grid, b: Buckets, x0: int, y0: int, x1: int, y1: int): (c: Color)
    requires Divisor(b, x0, y0, x1, y1) > 0
    ensures c.a == 255
  {
    Color(ChannelAverage(g, b, x0, y0, x1, y1, Red),
          ChannelAverage(g, b, x0, y0, x1, y1, Green),
          ChannelAverage(g, b, x0, y0, x1, y1, Blue),
          255)
  }

  /** averageColor(startX, startY, sizeX, sizeY, img) as written: nested loops add each pixel's
      16-bit channels into wrapping uint32 buckets, which are then divided by the truncated
      area and by 0x101. Go panics on a zero divisor, hence the precondition. */
  method AverageColor(startX: int, startY: int, sizeX: int, sizeY: int, img: Image) returns (c: Color)
    requires img.Valid()
    requires Divisor(Uint32, startX, startY, sizeX, sizeY) > 0
    ensures c == AverageOf(img.Value(), Uint32, startX, startY, sizeX, sizeY)
  {
    ghost var g := img.Value();
    var redBucket, greenBucket, blueBucket := 0, 0, 0;
    var area := ((sizeX - startX) * (sizeY - startY)) % Uint32Range;
    var x := startX;
    while x < sizeX
      invariant startX <= x && (x <= sizeX || x == startX)
      invariant redBucket == RegionSum(g, startX, startY, x, sizeY, Red) % Uint32Range
      invariant greenBucket == RegionSum(g, startX, startY, x, sizeY, Green) % Uint32Range
      invariant blueBucket == RegionSum(g, startX, startY, x, sizeY, Blue) % Uint32Range
      decreases sizeX - x
    {
      WrappedRegionStep(g, startX, startY, x, sizeY, Red);
      WrappedRegionStep(g, startX, startY, x, sizeY, Green);
      WrappedRegionStep(g, startX, startY, x, sizeY, Blue);
      redBucket, greenBucket, blueBucket := AddColumn(x, startY, sizeY, img, redBucket, greenBucket, blueBucket);
      x := x + 1;
    }
    redBucket := redBucket / area;
    greenBucket := greenBucket / area;
    blueBucket := blueBucket / area;
    c := Color(((redBucket / Widen) % 256) as byte, ((greenBucket / Widen) % 256) as byte,
               ((blueBucket / Widen) % 256) as byte, 255);
  }

  /** Adding column x to a wrapped region sum gives the wrapped sum of the region one column wider. */
  lemma WrappedRegionStep(g: Grid, x0: int, y0: int, x: int, y1: int, ch: Channel)
    requires x0 <= x
    ensures (RegionSum(g, x0, y0, x, y1, ch) % Uint32Range + ColumnSum(g, x, y0, y1, ch)) % Uint32Range
            == RegionSum(g, x0, y0, x + 1, y1, ch) % Uint32Range
  {
    ModAdd(RegionSum(g, x0, y0, x, y1, ch), ColumnSum(g, x, y0, y1, ch), Uint32Range);
  }

  /** Adding pixel (x, y) to a wrapped column sum gives the wrapped sum of the column one row longer. */
  lemma WrappedColumnStep(g: Grid, x: int, y0: int, y: int, ch: Channel, base: int)
    requires y0 <= y
    ensures ((base + ColumnSum(g, x, y0, y, ch)) % Uint32Range + Read16(g, x, y, ch)) % Uint32Range
            == (base + ColumnSum(g, x, y0, y + 1, ch)) % Uint32Range
  {
    ModAdd(base + ColumnSum(g, x, y0, y, ch), Read16(g, x, y, ch), Uint32Range);
  }

  /** The inner loop of averageColor, over one column x: adds the column's 16-bit channel values
      into the three wrapping buckets. */
  method AddColumn(x: int, startY: int, sizeY: int, img: Image, red0: int, green0: int, blue0: int)
    returns (redBucket: int, greenBucket: int, blueBucket: int)
    requires img.Valid()
    ensures redBucket == (red0 + ColumnSum(img.Value(), x, startY, sizeY, Red)) % Uint32Range
    ensures greenBucket == (green0 + ColumnSum(img.Value(), x, startY, sizeY, Green)) % Uint32Range
    ensures blueBucket == (blue0 + ColumnSum(img.Value(), x, startY, sizeY, Blue)) % Uint32Range
  {
    ghost var g := img.Value();
    redBucket, greenBucket, blueBucket := red0 % Uint32Range, green0 % Uint32Range, blue0 % Uint32Range;
    var y := startY;
    while y < sizeY
      invariant startY <= y && (y <= sizeY || y == startY)
      invariant redBucket == (red0 + ColumnSum(g, x, startY, y, Red)) % Uint32Range
      invariant greenBucket == (green0 + ColumnSum(g, x, startY, y, Green)) % Uint32Range
      invariant blueBucket == (blue0 + ColumnSum(g, x, startY, y, Blue)) % Uint32Range
      decreases sizeY - y
    {
      // only red, green and blue are read; alpha plays no part
      var p := img.At(x, y);
      var red, green, blue := p.r as int * Widen, p.g as int * Widen, p.b as int * Widen;
      WrappedColumnStep(g, x, startY, y, Red, red0);
      WrappedColumnStep(g, x, startY, y, Green, green0);
      WrappedColumnStep(g, x, startY, y, Blue, blue0);
      redBucket := (redBucket + red) % Uint32Range;
      greenBucket := (greenBucket + green) % Uint32Range;
      blueBucket := (blueBucket + blue) % Uint32Range;
      y := y + 1;
    }
  }

  // ---------------------------------------------------------------------------------
  // What the average means

  lemma {:induction false} ColumnWidened(g: Grid, x: int, y0: int, y1: int, ch: Channel)
    ensures ColumnSum(g, x, y0, y1, ch) == Widen * ColumnTotal(g, x, y0, y1, ch)
    decreases y1 - y0
  {
    if y1 > y0 {
      ColumnWidened(g, x, y0, y1 - 1, ch);
    }
  }

  /** The 16-bit sum is exactly 0x101 times the sum of the stored 8-bit values. */
  lemma {:induction false} RegionWidened(g: Grid, x0: int, y0: int, x1: int, y1: int, ch: Channel)
    ensures RegionSum(g, x0, y0, x1, y1, ch) == Widen * RegionTotal(g, x0, y0, x1, y1, ch)
    decreases x1 - x0
  {
    if x1 > x0 {
      RegionWidened(g, x0, y0, x1 - 1, y1, ch);
      ColumnWidened(g, x1 - 1, y0, y1, ch);
    }
  }

  lemma {:induction false} ColumnTotalBound(g: Grid, x: int, y0: int, y1: int, ch: Channel)
    requires y0 <= y1
    ensures ColumnTotal(g, x, y0, y1, ch) <= 255 * (y1 - y0)
    decreases y1 - y0
  {
    if y1 > y0 {
      ColumnTotalBound(g, x, y0, y1 - 1, ch);
    }
  }

  /** No sum of 8-bit values exceeds 255 per pixel. */
  lemma {:induction false} RegionTotalBound(g: Grid, x0: int, y0: int, x1: int, y1: int, ch: Channel)
    requires x0 <= x1 && y0 <= y1
    ensures RegionTotal(g, x0, y0, x1, y1, ch) <= 255 * Area(x0, y0, x1, y1)
    decreases x1 - x0
  {
    if x1 > x0 {
      RegionTotalBound(g, x0, y0, x1 - 1, y1, ch);
      ColumnTotalBound(g, x1 - 1, y0, y1, ch);
      assert Area(x0, y0, x1, y1) == Area(x0, y0, x1 - 1, y1) + (y1 - y0);
    }
  }

  /** The buckets cannot wrap: either they are wide, or every pixel at full 0xffff still fits in uint32. */
  predicate NoWrap(b: Buckets, x0: int, y0: int, x1: int, y1: int)
  {
    b == Wide || Area(x0, y0, x1, y1) * 0xffff < Uint32Range
  }

  /** A non-empty rectangle given as start <= end on both axes. */
  predicate Proper(x0: int, y0: int, x1: int, y1: int)
  {
    x0 < x1 && y0 < y1
  }

  /** The arithmetic behind the collapse: with t <= 255*a, floor(floor(0x101*t / a) / 0x101)
      is floor(t / a), which is at most 255. */
  lemma MeanOfTotal(t: int, a: int)
    requires 0 <= t <= 255 * a && 0 < a
    ensures (Widen * t / a / Widen) % 256 == t / a <= 255
  {
    NestedDiv(t, a, Widen);
    DivModUnique(255 * a, a, 255, 0);
    DivMono(t, 255 * a, a);
  }

  /** Without wrap-around the bucket holds the full sum and the divisor is the true area. */
  lemma NoWrapExact(g: Grid, b: Buckets, x0: int, y0: int, x1: int, y1: int, ch: Channel)
    requires Proper(x0, y0, x1, y1) && NoWrap(b, x0, y0, x1, y1)
    ensures Divisor(b, x0, y0, x1, y1) == Area(x0, y0, x1, y1) > 0
    ensures Bucket(b, RegionSum(g, x0, y0, x1, y1, ch)) == Widen * RegionTotal(g, x0, y0, x1, y1, ch)
    ensures RegionTotal(g, x0, y0, x1, y1, ch) <= 255 * Area(x0, y0, x1, y1)
  {
    var a := Area(x0, y0, x1, y1);
    var t := RegionTotal(g, x0, y0, x1, y1, ch);
    var s := RegionSum(g, x0, y0, x1, y1, ch);
    assert a > 0 by {
      MulMono(1, x1 - x0, y1 - y0);
    }
    RegionWidened(g, x0, y0, x1, y1, ch);
    RegionTotalBound(g, x0, y0, x1, y1, ch);
    if b == Uint32 {
      assert s <= 0xffff * a by {
        MulMono(t, 255 * a, Widen);
      }
      assert a < Uint32Range by {
        MulMono(1, 0xffff, a);
      }
    }
  }

  /** Without wrap-around the 16-bit detour collapses: each channel is the floor of the mean
      of the stored 8-bit values, and it fits in a byte. */
  lemma ChannelIsMean(g: Grid, b: Buckets, x0: int, y0: int, x1: int, y1: int, ch: Channel)
    requires Proper(x0, y0, x1, y1) && NoWrap(b, x0, y0, x1, y1)
    ensures Divisor(b, x0, y0, x1, y1) == Area(x0, y0, x1, y1) > 0
    ensures ChannelAverage(g, b, x0, y0, x1, y1, ch) as int
            == RegionTotal(g, x0, y0, x1, y1, ch) / Area(x0, y0, x1, y1) <= 255
  {
    NoWrapExact(g, b, x0, y0, x1, y1, ch);
    MeanOfTotal(RegionTotal(g, x0, y0, x1, y1, ch), Area(x0, y0, x1, y1));
  }

  /** Without wrap-around the uint32 averager and the wide one return the same colour. */
  lemma SameWithoutWrap(g: Grid, x0: int, y0: int, x1: int, y1: int)
    requires Proper(x0, y0, x1, y1) && NoWrap(Uint32, x0, y0, x1, y1)
    ensures Divisor(Uint32, x0, y0, x1, y1) > 0 && Divisor(Wide, x0, y0, x1, y1) > 0
    ensures AverageOf(g, Uint32, x0, y0, x1, y1) == AverageOf(g, Wide, x0, y0, x1, y1)
  {
    ChannelIsMean(g, Uint32, x0, y0, x1, y1, Red);
    ChannelIsMean(g, Uint32, x0, y0, x1, y1, Green);
    ChannelIsMean(g, Uint32, x0, y0, x1, y1, Blue);
    ChannelIsMean(g, Wide, x0, y0, x1, y1, Red);
    ChannelIsMean(g, Wide, x0, y0, x1, y1, Green);
    ChannelIsMean(g, Wide, x0, y0, x1, y1, Blue);
  }

  /** Every pixel of the rectangle has colour c. */
  ghost predicate Uniform(g: Grid, x0: int, y0: int, x1: int, y1: int, c: Color)
  {
    forall x, y :: InRect(x, y, x0, y0, x1, y1) ==> g.At(x, y) == c
  }

  lemma {:induction false} UniformColumn(g: Grid, x: int, y0: int, y1: int, c: Color, ch: Channel)
    requires y0 <= y1 && forall y :: y0 <= y < y1 ==> g.At(x, y) == c
    ensures ColumnTotal(g, x, y0, y1, ch) == (y1 - y0) * Value(c, ch) as int
    decreases y1 - y0
  {
    if y1 > y0 {
      UniformColumn(g, x, y0, y1 - 1, c, ch);
      var v := Value(c, ch) as int;
      assert (y1 - y0) * v == (y1 - 1 - y0) * v + v;
    }
  }

  /** Over a one-colour rectangle the 8-bit total is area times the colour's value. */
  lemma {:induction false} UniformTotal(g: Grid, x0: int, y0: int, x1: int, y1: int, c: Color, ch: Channel)
    requires x0 <= x1 && y0 <= y1 && Uniform(g, x0, y0, x1, y1, c)
    ensures RegionTotal(g, x0, y0, x1, y1, ch) == Area(x0, y0, x1, y1) * Value(c, ch) as int
    decreases x1 - x0
  {
    if x1 > x0 {
      assert Uniform(g, x0, y0, x1 - 1, y1, c);
      var x := x1 - 1;
      forall y | y0 <= y < y1 ensures g.At(x, y) == c {
        assert InRect(x, y, x0, y0, x1, y1);
      }
      UniformTotal(g, x0, y0, x1 - 1, y1, c, ch);
      UniformColumn(g, x, y0, y1, c, ch);
      RowStep(x1 - x0, y1 - y0, Value(c, ch) as int);
    }
  }

  lemma RowStep(n: int, h: int, v: int)
    ensures (n * h) * v == ((n - 1) * h) * v + h * v
  {
  }

  /** Averaging a one-colour rectangle gives back that colour, made opaque, as long as the
      buckets do not wrap. */
  lemma UniformAverage(g: Grid, b: Buckets, x0: int, y0: int, x1: int, y1: int, c: Color)
    requires Proper(x0, y0, x1, y1) && NoWrap(b, x0, y0, x1, y1) && Uniform(g, x0, y0, x1, y1, c)
    ensures Divisor(b, x0, y0, x1, y1) > 0
    ensures AverageOf(g, b, x0, y0, x1, y1) == Color(c.r, c.g, c.b, 255)
  {
    var a := Area(x0, y0, x1, y1);
    ChannelIsMean(g, b, x0, y0, x1, y1, Red);
    ChannelIsMean(g, b, x0, y0, x1, y1, Green);
    ChannelIsMean(g, b, x0, y0, x1, y1, Blue);
    UniformTotal(g, x0, y0, x1, y1, c, Red);
    UniformTotal(g, x0, y0, x1, y1, c, Green);
    UniformTotal(g, x0, y0, x1, y1, c, Blue);
    DivModUnique(a * c.r as int, a, c.r as int, 0);
    DivModUnique(a * c.g as int, a, c.g as int, 0);
    DivModUnique(a * c.b as int, a, c.b as int, 0);
  }

  const White := Color(255, 255, 255, 255)

  /** The uint32 buckets wrap once a square reaches 257 x 257: an all-white square of that size
      averages to red value 1, where the wide buckets give 255. */
  lemma WhiteSquareWraps(g: Grid, x0: int, y0: int)
    requires Uniform(g, x0, y0, x0 + 257, y0 + 257, White)
    ensures Divisor(Uint32, x0, y0, x0 + 257, y0 + 257) > 0
    ensures ChannelAverage(g, Uint32, x0, y0, x0 + 257, y0 + 257, Red) == 1
    ensures ChannelAverage(g, Wide, x0, y0, x0 + 257, y0 + 257, Red) == 255
  {
    var x1, y1 := x0 + 257, y0 + 257;
    UniformTotal(g, x0, y0, x1, y1, White, Red);
    RegionWidened(g, x0, y0, x1, y1, Red);
    var s := RegionSum(g, x0, y0, x1, y1, Red);
    assert Area(x0, y0, x1, y1) == 66049;
    assert s == 4328521215;
    assert Bucket(Uint32, s) == 33553919;
    assert Divisor(Uint32, x0, y0, x1, y1) == 66049;
    assert 33553919 / 66049 == 508;
    assert Divisor(Wide, x0, y0, x1, y1) == 66049;
    assert 4328521215 / 66049 == 65535;
  }

  lemma {:induction false} ColumnFrame(g1: Grid, g2: Grid, x: int, y0: int, y1: int, ch: Channel)
    requires forall y :: y0 <= y < y1 ==> g1.At(x, y) == g2.At(x, y)
    ensures ColumnSum(g1, x, y0, y1, ch) == ColumnSum(g2, x, y0, y1, ch)
    decreases y1 - y0
  {
    if y1 > y0 {
      ColumnFrame(g1, g2, x, y0, y1 - 1, ch);
    }
  }

  lemma {:induction false} RegionFrame(g1: Grid, g2: Grid, x0: int, y0: int, x1: int, y1: int, ch: Channel)
    requires forall x, y :: InRect(x, y, x0, y0, x1, y1) ==> g1.At(x, y) == g2.At(x, y)
    ensures RegionSum(g1, x0, y0, x1, y1, ch) == RegionSum(g2, x0, y0, x1, y1, ch)
    decreases x1 - x0
  {
    if x1 > x0 {
      var x := x1 - 1;
      forall y | y0 <= y < y1 ensures g1.At(x, y) == g2.At(x, y) {
        assert InRect(x, y, x0, y0, x1, y1);
      }
      RegionFrame(g1, g2, x0, y0, x1 - 1, y1, ch);
      ColumnFrame(g1, g2, x1 - 1, y0, y1, ch);
    }
  }

  /** The average depends only on the pixels of its own rectangle, which is what makes it
      safe for a square to read the buffer other squares are being written into. */
  lemma AverageFrame(g1: Grid, g2: Grid, b: Buckets, x0: int, y0: int, x1: int, y1: int)
    requires Divisor(b, x0, y0, x1, y1) > 0
    requires forall x, y :: InRect(x, y, x0, y0, x1, y1) ==> g1.At(x, y) == g2.At(x, y)
    ensures AverageOf(g1, b, x0, y0, x1, y1) == AverageOf(g2, b, x0, y0, x1, y1)
  {
    RegionFrame(g1, g2, x0, y0, x1, y1, Red);
    RegionFrame(g1, g2, x0, y0, x1, y1, Green);
    RegionFrame(g1, g2, x0, y0, x1, y1, Blue);
  }
}
