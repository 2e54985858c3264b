/** The part of main that decides what happens to the picture: the argument checks, the number
    of workers, and the strip of squares each worker processes. The workers are run one after
    another; WorkersInAnyOrder shows that the order they run in does not change the result. */
module Schedule {
  import opened Arith
  import opened Pixels
  import opened Averager
  import opened Tiler

  /** "S": one worker; "M": one worker per column of squares. */
  datatype Mode = Single | Multi

  /** Why the program stops without a result: the two log.Fatalln exits of the argument check,
      and the integer division by zero that a square of area 2^32 (truncated to 0) causes. */
  datatype Failure = BadSquareSize | BadMode | DivideByZero

  datatype Result<T> = Ok(value: T) | Err(error: Failure)

  /** commandLineErrorCheck(sizeX, sizeY, squareSize, processingMode), with the mode it accepts:
      the square must be positive and fit in the image, which is checked first; then the mode
      must be "M" or "S". */
  function CheckConfig(sizeX: int, sizeY: int, squareSize: int, processingMode: string): (r: Result<Mode>)
    ensures r.Ok? <==> 0 < squareSize <= sizeX && squareSize <= sizeY && processingMode in {"M", "S"}
    ensures r.Err? ==> r.error == if 0 < squareSize <= sizeX && squareSize <= sizeY then BadMode else BadSquareSize
    ensures r.Ok? ==> (r.value == Multi <==> processingMode == "M")
  {
    if squareSize > sizeX || squareSize > sizeY || squareSize <= 0 then Err(BadSquareSize)
    else if processingMode != "M" && processingMode != "S" then Err(BadMode)
    else if processingMode == "M" then Ok(Multi)
    else Ok(Single)
  }

  /** goroutineCount: ceil(sizeX / squareSize) in multi mode, 1 otherwise. */
  function WorkerCount(sizeX: int, squareSize: int, mode: Mode): int
    requires 0 < squareSize
  {
    if mode == Multi then (sizeX + squareSize - 1) / squareSize else 1
  }

  /** There is always a worker, and in multi mode the workers' columns of squares just reach
      across the image: count - 1 of them fall short of sizeX, count of them do not. */
  lemma WorkerCountBounds(sizeX: int, squareSize: int, mode: Mode)
    requires 0 < squareSize <= sizeX
    ensures 1 <= WorkerCount(sizeX, squareSize, mode)
    ensures mode == Single ==> WorkerCount(sizeX, squareSize, mode) == 1
    ensures mode == Multi ==> (WorkerCount(sizeX, squareSize, mode) - 1) * squareSize < sizeX
                              <= WorkerCount(sizeX, squareSize, mode) * squareSize
  {
    if mode == Multi {
      var n := sizeX + squareSize - 1;
      var c, r := n / squareSize, n % squareSize;
      assert n == c * squareSize + r;
      assert (c - 1) * squareSize == c * squareSize - squareSize;
      if c <= 0 {
        MulMono(c, 0, squareSize);
      }
    }
  }

  /** The pass goroutine i runs: x from i*squareSize in steps of
      goroutineIncrement = count*squareSize, y from 0 in steps of squareSize. */
  function WorkerPass(sizeX: int, sizeY: int, squareSize: int, count: int, i: int): Pass
  {
    Pass(i * squareSize, 0, sizeX, sizeY, squareSize, count * squareSize)
  }

  /** A single pass over every square of the image, row after row of squares. */
  function Reference(sizeX: int, sizeY: int, squareSize: int): Pass
  {
    Pass(0, 0, sizeX, sizeY, squareSize, squareSize)
  }

  /** What the workers need: a positive square, at least one worker, and a non-zero divisor. */
  predicate Schedulable(b: Buckets, squareSize: int, count: int)
  {
    0 < squareSize && 1 <= count && Divisor(b, 0, 0, squareSize, squareSize) > 0
  }

  lemma WorkerRunnable(b: Buckets, sizeX: int, sizeY: int, squareSize: int, count: int, i: int)
    requires Schedulable(b, squareSize, count)
    ensures Runnable(b, WorkerPass(sizeX, sizeY, squareSize, count, i))
    ensures Runnable(b, Reference(sizeX, sizeY, squareSize))
  {
    MulMono(1, count, squareSize);
  }

  // ---------------------------------------------------------------------------------
  // The strips of the workers partition the squares

  /** The worker whose strip holds column x. */
  function Owner(x: int, S: int, count: int): int
    requires 0 < S && 1 <= count
  {
    (x / S) % count
  }

  /** Square column q is the (q / count)-th step of worker q % count. */
  lemma StripStart(q: int, S: int, count: int)
    requires 0 < S && 1 <= count && 0 <= q
    ensures 0 <= q / count
    ensures (q % count) * S + (q / count) * (count * S) == q * S
  {
    var k, j := q / count, q % count;
    assert q == k * count + j;
    DivMono(0, q, count);
    assert q * S == (k * count) * S + j * S;
  }

  /** A step of worker i that holds x sits at square column x / S. */
  lemma StripBack(x: int, S: int, count: int, i: int, k: int)
    requires 0 < S && 1 <= count && 0 <= i < count && 0 <= k
    requires i * S + k * (count * S) <= x < i * S + k * (count * S) + S
    ensures (x / S) % count == i && (x / S) / count == k
  {
    var m := i + k * count;
    assert m * S == i * S + k * (count * S);
    InBlock(x, m, S);
    DivModUnique(x / S, count, k, i);
  }

  /** The x-starts of worker i, i*S + k*count*S, are exactly the multiples of S whose square
      index is i modulo count, the k-th one having square index i + k*count. So every multiple
      of S is the start of exactly one step of exactly one worker. */
  lemma WorkerStarts(sizeX: int, sizeY: int, S: int, count: int, i: int, k: int, xs: int)
    requires 0 < S && 1 <= count && 0 <= i < count && 0 <= k && 0 <= xs
    ensures WorkerPass(sizeX, sizeY, S, count, i).X(k) == xs
            <==> xs % S == 0 && Owner(xs, S, count) == i && (xs / S) / count == k
  {
    if WorkerPass(sizeX, sizeY, S, count, i).X(k) == xs {
      assert xs % S == 0 && Owner(xs, S, count) == i && (xs / S) / count == k by {
        StripBack(xs, S, count, i, k);
        InBlock(xs, xs / S, S);
      }
    }
    if xs % S == 0 && Owner(xs, S, count) == i && (xs / S) / count == k {
      assert i * S + k * (count * S) == xs by {
        assert xs == (xs / S) * S + xs % S;
        StripStart(xs / S, S, count);
      }
    }
  }

  /** Along x, worker i covers exactly the columns whose square index x / S is i modulo count,
      provided that square starts inside the image; it reaches that square as its
      ((x / S) / count)-th step, which starts at (x / S) * S. */
  lemma WorkerCover(x: int, sizeX: int, S: int, count: int, i: int)
    requires 0 < S && 1 <= count && 0 <= i < count && 0 <= x
    ensures 0 < S <= count * S
    ensures CoverIndex(x, i * S, sizeX, count * S, S) >= 0 <==> (x / S) % count == i && (x / S) * S < sizeX
    ensures CoverIndex(x, i * S, sizeX, count * S, S) >= 0 ==> CoverIndex(x, i * S, sizeX, count * S, S) == (x / S) / count
    ensures (x / S) % count == i ==> i * S + ((x / S) / count) * (count * S) == (x / S) * S
  {
    MulMono(1, count, S);
    var q := x / S;
    DivMono(0, x, S);
    StripStart(q, S, count);
    if q % count == i {
      assert q * S <= x < q * S + S by {
        assert x == q * S + x % S;
      }
      CoverIndexSpec(x, i * S, sizeX, count * S, S, q / count);
    }
    var ci := CoverIndex(x, i * S, sizeX, count * S, S);
    if ci >= 0 {
      CoverIndexSpec(x, i * S, sizeX, count * S, S, ci);
      StripBack(x, S, count, i, ci);
    }
  }

  /** Inside the image, the reference pass covers column x with its square x / S, and worker i
      covers pixel (x, y) exactly when it owns column x and the reference pass covers row y. */
  lemma WorkerCoverPixel(b: Buckets, sizeX: int, sizeY: int, S: int, count: int, i: int, x: int, y: int)
    requires Schedulable(b, S, count) && 0 <= i < count && 0 <= x < sizeX
    ensures Runnable(b, WorkerPass(sizeX, sizeY, S, count, i)) && Runnable(b, Reference(sizeX, sizeY, S))
    ensures CoverX(Reference(sizeX, sizeY, S), x) == x / S
    ensures CoverY(WorkerPass(sizeX, sizeY, S, count, i), y) == CoverY(Reference(sizeX, sizeY, S), y)
    ensures CoverX(WorkerPass(sizeX, sizeY, S, count, i), x) >= 0 <==> Owner(x, S, count) == i
    ensures Owner(x, S, count) == i ==>
              WorkerPass(sizeX, sizeY, S, count, i).X(CoverX(WorkerPass(sizeX, sizeY, S, count, i), x))
              == Reference(sizeX, sizeY, S).X(x / S)
  {
    WorkerRunnable(b, sizeX, sizeY, S, count, i);
    assert (x / S) * S <= x by {
      assert x == (x / S) * S + x % S;
    }
    WorkerCover(x, sizeX, S, count, i);
    WorkerCover(x, sizeX, S, 1, 0);
  }

  /** No two workers paint the same pixel, so the concurrent writes never collide. */
  lemma WorkersDisjoint(b: Buckets, sizeX: int, sizeY: int, S: int, count: int, i: int, j: int, x: int)
    requires Schedulable(b, S, count) && 0 <= i < count && 0 <= j < count && 0 <= x < sizeX
    requires Runnable(b, WorkerPass(sizeX, sizeY, S, count, i)) && Runnable(b, WorkerPass(sizeX, sizeY, S, count, j))
    requires CoverX(WorkerPass(sizeX, sizeY, S, count, i), x) >= 0
    requires CoverX(WorkerPass(sizeX, sizeY, S, count, j), x) >= 0
    ensures i == j
  {
    WorkerCoverPixel(b, sizeX, sizeY, S, count, i, x, 0);
    WorkerCoverPixel(b, sizeX, sizeY, S, count, j, x, 0);
  }

  /** The single pass leaves no gap: every pixel of the image lies in one of its squares,
      the square (x / S, y / S). */
  lemma ReferenceCoversAll(sizeX: int, sizeY: int, S: int, x: int, y: int)
    requires 0 < S && 0 <= x < sizeX && 0 <= y < sizeY
    ensures CoverX(Reference(sizeX, sizeY, S), x) == x / S
    ensures CoverY(Reference(sizeX, sizeY, S), y) == y / S
    ensures Covered(Reference(sizeX, sizeY, S), x, y)
  {
    var R := Reference(sizeX, sizeY, S);
    DivMono(0, x, S);
    DivMono(0, y, S);
    assert (x / S) * S <= x && (y / S) * S <= y by {
      assert x == (x / S) * S + x % S;
      assert y == (y / S) * S + y % S;
    }
    CoverIndexSpec(x, 0, sizeX, S, S, x / S);
    CoverIndexSpec(y, 0, sizeY, S, S, y / S);
    CoveredIff(R, x, y);
  }

  /** So the picture the workers leave has, at every pixel, the average its square
      (x / S, y / S) had in the original image. */
  lemma EveryPixelAveraged(g0: Grid, b: Buckets, S: int, x: int, y: int)
    requires g0.Valid() && Runnable(b, Reference(g0.w, g0.h, S)) && g0.InBounds(x, y)
    ensures Processed(g0, b, Reference(g0.w, g0.h, S)).At(x, y)
            == SquareAverage(g0, b, Reference(g0.w, g0.h, S), x / S, y / S)
  {
    var R := Reference(g0.w, g0.h, S);
    ReferenceCoversAll(g0.w, g0.h, S, x, y);
    CoveredIff(R, x, y);
    VisitedSquareHoldsAverage(g0, b, R, CoverX(R, x), CoverY(R, y), x, y);
  }

  /** Every square of the reference pass lies in the strip of worker Owner(x, S, count). */
  lemma WorkersCoverAll(b: Buckets, sizeX: int, sizeY: int, S: int, count: int, x: int, y: int)
    requires Schedulable(b, S, count) && 0 <= x < sizeX
    requires Runnable(b, Reference(sizeX, sizeY, S))
    requires CoverY(Reference(sizeX, sizeY, S), y) >= 0
    ensures 0 <= Owner(x, S, count) < count
    ensures Runnable(b, WorkerPass(sizeX, sizeY, S, count, Owner(x, S, count)))
    ensures CoverX(WorkerPass(sizeX, sizeY, S, count, Owner(x, S, count)), x) >= 0
    ensures CoverY(WorkerPass(sizeX, sizeY, S, count, Owner(x, S, count)), y) >= 0
  {
    WorkerCoverPixel(b, sizeX, sizeY, S, count, Owner(x, S, count), x, y);
  }

  /** In multi mode every worker has squares to do, and all of them lie in its first column
      of squares: the goroutine's x loop runs once. */
  lemma MultiWorkerOneStrip(sizeX: int, sizeY: int, S: int, i: int, kx: int, ky: int)
    requires 0 < S <= sizeX && S <= sizeY && 0 <= i < WorkerCount(sizeX, S, Multi)
    ensures WorkerPass(sizeX, sizeY, S, WorkerCount(sizeX, S, Multi), i).Reached(0, 0)
    ensures WorkerPass(sizeX, sizeY, S, WorkerCount(sizeX, S, Multi), i).Reached(kx, ky) ==> kx == 0
  {
    var c := WorkerCount(sizeX, S, Multi);
    WorkerCountBounds(sizeX, S, Multi);
    MulMono(i, c - 1, S);
    if kx >= 1 {
      MulMono(1, kx, c * S);
    }
  }

  // ---------------------------------------------------------------------------------
  // Running the workers one after another

  /** Pixel (x, y) once the workers in done have run: the reference pass's result on the
      columns they own, the original elsewhere. */
  function PartialPixel(g0: Grid, b: Buckets, S: int, count: int, done: set<int>, x: int, y: int): Color
    requires Schedulable(b, S, count)
  {
    WorkerRunnable(b, g0.w, g0.h, S, count, 0);
    if Owner(x, S, count) in done then ProcessedPixel(g0, b, Reference(g0.w, g0.h, S), x, y) else g0.At(x, y)
  }

  /** The buffer once the workers in done have run on g0. */
  function PartialRun(g0: Grid, b: Buckets, S: int, count: int, done: set<int>): (g: Grid)
    requires Schedulable(b, S, count)
    ensures g.w == g0.w && g.h == g0.h && |g.pix| == |g0.pix|
  {
    if g0.w == 0 then g0
    else Grid(g0.w, g0.h, seq(|g0.pix|, i requires 0 <= i < |g0.pix| => PartialPixel(g0, b, S, count, done, i % g0.w, i / g0.w)))
  }

  lemma PartialAt(g0: Grid, b: Buckets, S: int, count: int, done: set<int>, x: int, y: int)
    requires g0.Valid() && Schedulable(b, S, count) && g0.InBounds(x, y)
    ensures PartialRun(g0, b, S, count, done).Valid()
    ensures PartialRun(g0, b, S, count, done).At(x, y) == PartialPixel(g0, b, S, count, done, x, y)
  {
    IndexOf(g0, x, y);
    IndexOf(PartialRun(g0, b, S, count, done), x, y);
  }

  /** A square in the strip of a worker that has not run yet still holds its original pixels. */
  lemma StripUntouched(g0: Grid, b: Buckets, S: int, count: int, done: set<int>, q: int, y0: int)
    requires g0.Valid() && Schedulable(b, S, count) && 0 <= q && q % count !in done
    ensures forall x, y :: InRect(x, y, q * S, y0, q * S + S, y0 + S) ==>
              PartialRun(g0, b, S, count, done).At(x, y) == g0.At(x, y)
  {
    forall x, y | InRect(x, y, q * S, y0, q * S + S, y0 + S)
      ensures PartialRun(g0, b, S, count, done).At(x, y) == g0.At(x, y)
    {
      if g0.InBounds(x, y) {
        PartialAt(g0, b, S, count, done, x, y);
        InBlock(x, q, S);
      }
    }
  }

  /** The square worker i averages for pixel (x, y) of its strip is the reference pass's square
      for that pixel, and it still holds its original pixels when worker i reaches it. */
  lemma OwnedSquare(g0: Grid, b: Buckets, S: int, count: int, done: set<int>, i: int, x: int, y: int)
    requires g0.Valid() && Schedulable(b, S, count) && 0 <= i < count && i !in done && g0.InBounds(x, y)
    requires Owner(x, S, count) == i && CoverY(Reference(g0.w, g0.h, S), y) >= 0
    ensures Runnable(b, WorkerPass(g0.w, g0.h, S, count, i)) && Runnable(b, Reference(g0.w, g0.h, S))
    ensures CoverX(WorkerPass(g0.w, g0.h, S, count, i), x) >= 0
    ensures SquareAverage(PartialRun(g0, b, S, count, done), b, WorkerPass(g0.w, g0.h, S, count, i),
                          CoverX(WorkerPass(g0.w, g0.h, S, count, i), x), CoverY(WorkerPass(g0.w, g0.h, S, count, i), y))
            == SquareAverage(g0, b, Reference(g0.w, g0.h, S), x / S, CoverY(Reference(g0.w, g0.h, S), y))
  {
    var R := Reference(g0.w, g0.h, S);
    WorkerCoverPixel(b, g0.w, g0.h, S, count, i, x, y);
    var q, cy := x / S, CoverY(R, y);
    DivMono(0, x, S);
    SquareDivisor(b, R, q, cy);
    StripUntouched(g0, b, S, count, done, q, R.Y(cy));
    AverageFrame(PartialRun(g0, b, S, count, done), g0, b, R.X(q), R.Y(cy), R.X(q) + S, R.Y(cy) + S);
  }

  /** Running worker i on the buffer left by the workers in done gives, at (x, y), the
      buffer left by done + {i}. */
  lemma WorkerStepPixel(g0: Grid, b: Buckets, S: int, count: int, done: set<int>, i: int, x: int, y: int)
    requires g0.Valid() && Schedulable(b, S, count) && 0 <= i < count && i !in done && g0.InBounds(x, y)
    ensures Runnable(b, WorkerPass(g0.w, g0.h, S, count, i))
    ensures ProcessedPixel(PartialRun(g0, b, S, count, done), b, WorkerPass(g0.w, g0.h, S, count, i), x, y)
            == PartialPixel(g0, b, S, count, done + {i}, x, y)
  {
    WorkerCoverPixel(b, g0.w, g0.h, S, count, i, x, y);
    PartialAt(g0, b, S, count, done, x, y);
    if Owner(x, S, count) == i && CoverY(Reference(g0.w, g0.h, S), y) >= 0 {
      OwnedSquare(g0, b, S, count, done, i, x, y);
    }
  }

  /** Running worker i on the buffer left by the workers in done leaves the buffer of done + {i}. */
  lemma WorkerStep(g0: Grid, b: Buckets, S: int, count: int, done: set<int>, i: int)
    requires g0.Valid() && Schedulable(b, S, count) && 0 <= i < count && i !in done
    ensures Runnable(b, WorkerPass(g0.w, g0.h, S, count, i))
    ensures Processed(PartialRun(g0, b, S, count, done), b, WorkerPass(g0.w, g0.h, S, count, i))
            == PartialRun(g0, b, S, count, done + {i})
  {
    var G := PartialRun(g0, b, S, count, done);
    var Pi := WorkerPass(g0.w, g0.h, S, count, i);
    WorkerRunnable(b, g0.w, g0.h, S, count, i);
    forall x, y | G.InBounds(x, y)
      ensures Processed(G, b, Pi).At(x, y) == PartialRun(g0, b, S, count, done + {i}).At(x, y)
    {
      PartialAt(g0, b, S, count, done, x, y);
      PartialAt(g0, b, S, count, done + {i}, x, y);
      ProcessedAt(G, b, Pi, x, y);
      WorkerStepPixel(g0, b, S, count, done, i, x, y);
    }
    if g0.InBounds(0, 0) {
      PartialAt(g0, b, S, count, done, 0, 0);
      ProcessedAt(G, b, Pi, 0, 0);
      PartialAt(g0, b, S, count, done + {i}, 0, 0);
      GridExt(Processed(G, b, Pi), PartialRun(g0, b, S, count, done + {i}));
    }
  }

  /** Before any worker has run the buffer is the original. */
  lemma NoneDone(g0: Grid, b: Buckets, S: int, count: int)
    requires g0.Valid() && Schedulable(b, S, count)
    ensures PartialRun(g0, b, S, count, {}) == g0
  {
    forall x, y | g0.InBounds(x, y)
      ensures PartialRun(g0, b, S, count, {}).At(x, y) == g0.At(x, y)
    {
      PartialAt(g0, b, S, count, {}, x, y);
    }
    if g0.InBounds(0, 0) {
      PartialAt(g0, b, S, count, {}, 0, 0);
      GridExt(PartialRun(g0, b, S, count, {}), g0);
    }
  }

  /** Once every worker has run the buffer is that of the single reference pass. */
  lemma AllDone(g0: Grid, b: Buckets, S: int, count: int, done: set<int>)
    requires g0.Valid() && Schedulable(b, S, count)
    requires forall i :: 0 <= i < count ==> i in done
    ensures Runnable(b, Reference(g0.w, g0.h, S))
    ensures PartialRun(g0, b, S, count, done) == Processed(g0, b, Reference(g0.w, g0.h, S))
  {
    var R := Reference(g0.w, g0.h, S);
    WorkerRunnable(b, g0.w, g0.h, S, count, 0);
    forall x, y | g0.InBounds(x, y)
      ensures PartialRun(g0, b, S, count, done).At(x, y) == Processed(g0, b, R).At(x, y)
    {
      PartialAt(g0, b, S, count, done, x, y);
      ProcessedAt(g0, b, R, x, y);
      assert Owner(x, S, count) in done;
    }
    if g0.InBounds(0, 0) {
      PartialAt(g0, b, S, count, done, 0, 0);
      ProcessedAt(g0, b, R, 0, 0);
      GridExt(PartialRun(g0, b, S, count, done), Processed(g0, b, R));
    }
  }

  /** The workers of order run one after another on g, each over the whole grid. */
  function RunWorkers(g: Grid, b: Buckets, S: int, count: int, order: seq<int>): (r: Grid)
    requires Schedulable(b, S, count)
    ensures r.w == g.w && r.h == g.h && |r.pix| == |g.pix|
    decreases |order|
  {
    if order == [] then g
    else
      WorkerRunnable(b, g.w, g.h, S, count, order[0]);
      RunWorkers(Processed(g, b, WorkerPass(g.w, g.h, S, count, order[0])), b, S, count, order[1..])
  }

  function Elems(order: seq<int>): set<int>
  {
    set j | j in order
  }

  /** The workers 0 .. i-1. */
  function Below(i: int): (s: set<int>)
    ensures forall j :: j in s <==> 0 <= j < i
  {
    if i <= 0 then {} else Below(i - 1) + {i - 1}
  }

  /** Distinct workers, none counted twice. */
  predicate Distinct(order: seq<int>)
  {
    forall m, n :: 0 <= m < n < |order| ==> order[m] != order[n]
  }

  lemma {:induction false} RunFromPartial(g0: Grid, b: Buckets, S: int, count: int, done: set<int>, order: seq<int>)
    requires g0.Valid() && Schedulable(b, S, count) && Distinct(order)
    requires forall j :: j in order ==> 0 <= j < count && j !in done
    ensures RunWorkers(PartialRun(g0, b, S, count, done), b, S, count, order)
            == PartialRun(g0, b, S, count, done + Elems(order))
    decreases |order|
  {
    if order == [] {
      assert done + Elems(order) == done;
    } else {
      var i := order[0];
      assert i in order;
      WorkerStep(g0, b, S, count, done, i);
      assert forall j :: j in order[1..] ==> j in order && j != i by {
        forall j | j in order[1..] ensures j in order && j != i {
          var n :| 0 <= n < |order[1..]| && order[1..][n] == j;
          assert order[n + 1] == j;
        }
      }
      RunFromPartial(g0, b, S, count, done + {i}, order[1..]);
      assert done + {i} + Elems(order[1..]) == done + Elems(order) by {
        assert order == [i] + order[1..];
      }
    }
  }

  /** The goroutines may run in any order: every order of the workers 0..count-1 leaves the
      same picture, the one a single pass over all squares leaves. In particular the two
      modes give the same result. */
  lemma WorkersInAnyOrder(g0: Grid, b: Buckets, S: int, count: int, order: seq<int>)
    requires g0.Valid() && Schedulable(b, S, count) && Distinct(order)
    requires forall j :: j in order <==> 0 <= j < count
    ensures Runnable(b, Reference(g0.w, g0.h, S))
    ensures RunWorkers(g0, b, S, count, order) == Processed(g0, b, Reference(g0.w, g0.h, S))
  {
    NoneDone(g0, b, S, count);
    RunFromPartial(g0, b, S, count, {}, order);
    AllDone(g0, b, S, count, {} + Elems(order));
  }

  // ---------------------------------------------------------------------------------
  // main

  /** The outcome main reaches with these arguments. */
  function Outcome(sizeX: int, sizeY: int, squareSize: int, processingMode: string): (r: Result<Mode>)
    ensures r.Ok? <==> CheckConfig(sizeX, sizeY, squareSize, processingMode).Ok?
                       && (squareSize * squareSize) % Uint32Range != 0
    ensures r.Ok? ==> r == CheckConfig(sizeX, sizeY, squareSize, processingMode)
    ensures r.Err? && CheckConfig(sizeX, sizeY, squareSize, processingMode).Ok? ==> r.error == DivideByZero
  {
    var checked := CheckConfig(sizeX, sizeY, squareSize, processingMode);
    if checked.Ok? && Divisor(Uint32, 0, 0, squareSize, squareSize) == 0 then Err(DivideByZero) else checked
  }

  /** main once the image is decoded into res: check the arguments, choose the number of
      workers and the increment, and run the workers' processImage passes on res (here one
      after another). On success res holds the single-pass result; on failure nothing is
      painted. */
  method Pixelate(res: Image, squareSize: int, processingMode: string) returns (r: Result<Mode>)
    requires res.Valid()
    modifies res.pix
    ensures res.Valid()
    ensures r == Outcome(res.width, res.height, squareSize, processingMode)
    ensures r.Ok? ==> Runnable(Uint32, Reference(res.width, res.height, squareSize))
                      && res.Value() == Processed(old(res.Value()), Uint32, Reference(res.width, res.height, squareSize))
    ensures r.Err? ==> res.pix[..] == old(res.pix[..])
  {
    ghost var g0 := res.Value();
    r := CheckConfig(res.width, res.height, squareSize, processingMode);
    if r.Err? {
      return;
    }
    if Divisor(Uint32, 0, 0, squareSize, squareSize) == 0 {
      r := Err(DivideByZero);
      return;
    }
    var goroutineCount := WorkerCount(res.width, squareSize, r.value);
    WorkerCountBounds(res.width, squareSize, r.value);
    var goroutineIncrement := goroutineCount * squareSize;
    NoneDone(g0, Uint32, squareSize, goroutineCount);
    var i := 0;
    while i < goroutineCount
      invariant 0 <= i <= goroutineCount
      invariant res.Valid()
      invariant res.Value() == PartialRun(g0, Uint32, squareSize, goroutineCount, Below(i))
    {
      WorkerStep(g0, Uint32, squareSize, goroutineCount, Below(i), i);
      ProcessImage(i * squareSize, 0, res.width, res.height, squareSize, goroutineIncrement, res);
      assert Below(i) + {i} == Below(i + 1);
      i := i + 1;
    }
    AllDone(g0, Uint32, squareSize, goroutineCount, Below(i));
  }
}
