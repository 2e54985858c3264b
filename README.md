# Pixelation pass of conimg, modelled in Dafny

conimg (`main.go`) pixelates an image. It cuts the picture into `squareSize` x `squareSize`
squares and paints every square with the average colour of its pixels. One worker ("S" mode)
or `ceil(width / squareSize)` workers ("M" mode) do the painting on a shared `*image.RGBA`
buffer. Worker `i` starts at column `i*squareSize` and steps by `count*squareSize`.

The model has four modules:

- `Pixels` (pixels.dfy) — the buffer.
  - `Image` is a class over a flat, row-major `array<Color>` of 8-bit RGBA pixels, as `*image.RGBA` stores them.
  - `Grid` is its value view.
  - Reading a pixel outside the bounds gives the zero colour, as `RGBA.At` does.
  - `Image.Fill` is the clipped `draw.Draw` of an opaque colour.
- `Averager` (averager.dfy) — `averageColor`.
  - The method `AverageColor` keeps the source's nested loops and its three wrapping `uint32` buckets.
  - It is proved equal to the function `AverageOf`.
  - Lemmas show what `AverageOf` means: the floor of the mean of the 8-bit values, exact colours on uniform squares, and dependence only on its own rectangle.
  - `Buckets` chooses between the code as written (`Uint32`) and the corrected wide buckets (`Wide`). See Findings.
- `Tiler` (tiler.dfy) — `processImage`.
  - The method `ProcessImage` keeps the two stepping loops.
  - It averages each square in the buffer it is writing, then fills the square in place.
  - Its result is proved to be the closed form `Processed`: every reached square holds the average it had before the pass, and every other pixel is unchanged.
- `Schedule` (schedule.dfy) — `commandLineErrorCheck` and the worker set-up in `main`.
  - This covers the worker count, the increment and the start columns.
  - The workers' strips partition the image.
  - Running the workers in any order gives the result of one single-worker pass, so "S" and "M" modes agree.
  - `Pixelate` is `main` without its I/O, with the workers run one after another.

`Arith` (arith.dfy) holds facts about Euclidean division that the proofs use.

Integer widths are written out:
- the buckets wrap modulo 2^32;
- `uint32((sizeX-startX)*(sizeY-startY))` is reduced modulo 2^32;
- `uint8(...)` is reduced modulo 256;
- a pixel read through `RGBA()` gives `v * 0x101` for a stored 8-bit value `v`.

Squares at the right or bottom edge run past the image. As in the code, they are not clamped. Their pixels outside the image read as zero, the divisor stays `squareSize*squareSize`, and writes outside the image are dropped.

Two facts about the code's worker scheme and squares:
- The stride `count*squareSize` splits the square columns into disjoint strips that together cover every column, for every worker count ≥ 1: worker `i` takes the columns `q` with `q % count == i` (`Schedule.WorkerStarts`, `Schedule.WorkerCover`, `Schedule.WorkersDisjoint`, `Schedule.WorkersCoverAll`, `Schedule.ReferenceCoversAll`).
- Edge squares are not clamped to the image.

## Model

| member | source | states |
|---|---|---|
| Pixels.Image.At | main.go:64 | Reading the buffer gives the stored pixel at row-major index `y*width+x` inside the bounds and the zero colour outside them, matching the value view `Grid.At`. |
| Pixels.Image.Fill | main.go:89 | The square's pixels that lie inside the image become the opaque colour. Every other pixel keeps its old value, and the buffer keeps its size. |
| Averager.Read16 | main.go:64 | No contract: the 16-bit value `RGBA()` reports for a channel, the stored 8-bit value times 0x101. Its sums are related to the 8-bit sums by `Averager.ColumnWidened` and `Averager.RegionWidened`. |
| Averager.Divisor | main.go:58 | No contract: `uint32((sizeX-startX)*(sizeY-startY))` as written, the true area for wide buckets. `Averager.NoWrapExact` and `Tiler.SquareDivisor` state its properties. |
| Averager.ChannelAverage | main.go:72-76 | No contract: bucket / divisor / 0x101, then the `uint8` conversion as a reduction modulo 256. Its meaning is `Averager.ChannelIsMean`. |
| Averager.AverageOf | main.go:72-76 | The colour returned is always fully opaque: alpha is 255. |
| Averager.AverageColor | main.go:56-77 | The nested loops with wrapping `uint32` buckets return exactly `AverageOf(img, Uint32, …)`, given the non-zero divisor that Go's division needs. |
| Averager.AddColumn | main.go:62-68 | The inner loop over one column leaves each bucket equal to the start value plus the column's 16-bit channel sum, modulo 2^32. |
| Averager.WrappedRegionStep | main.go:61-67 | Adding a column to a wrapped region sum gives the wrapped sum of the region one column wider. This is the outer loop's invariant step. |
| Averager.WrappedColumnStep | main.go:62-67 | Adding one pixel's 16-bit value to a wrapped column sum gives the wrapped sum of the column one row longer. |
| Averager.ColumnWidened | main.go:64-67 | A column's sum of `RGBA()` values is 0x101 times the sum of its 8-bit values. |
| Averager.RegionWidened | main.go:61-69 | A rectangle's sum of `RGBA()` values is 0x101 times the sum of its 8-bit values. |
| Averager.RegionTotalBound | main.go:61-69 | The 8-bit total of a rectangle is at most 255 times its area. |
| Averager.MeanOfTotal | main.go:72-76 | Dividing by the area and then by 0x101 gives floor(total/area), which is at most 255. |
| Averager.NoWrapExact | main.go:57-58 | When `area*0xffff < 2^32` (or the buckets are wide), the bucket holds the true sum and the divisor is the true area. |
| Averager.ChannelIsMean | main.go:56-77 | Without wrap-around, each output channel equals floor(sum of the 8-bit values / area), which is ≤ 255. |
| Averager.SameWithoutWrap | main.go:57-58 | Without wrap-around, the `uint32` averager and the wide averager return the same colour. |
| Averager.UniformAverage | main.go:56-77 | A rectangle of one colour `c` averages to `c` made opaque, whenever the buckets cannot wrap. |
| Averager.WhiteSquareWraps | main.go:57-58 | On an all-white 257x257 square the `uint32` buckets give a red value of 1. The wide buckets give 255. |
| Averager.ColumnFrame | main.go:62-67 | A column sum depends only on that column's pixels. |
| Averager.RegionFrame | main.go:61-69 | A rectangle's sum depends only on that rectangle's pixels. |
| Averager.AverageFrame | main.go:56-77 | The average depends only on the pixels of its own rectangle. |
| Averager.UniformColumn | main.go:61-69 | A column of one colour sums to its length times the channel value. |
| Averager.UniformTotal | main.go:61-69 | A rectangle of one colour sums to its area times the channel value. |
| Tiler.CoverIndexSpec | main.go:82-83 | Along one axis there is at most one loop interval for any point, and `CoverIndex` names exactly the interval that contains it. |
| Tiler.CoveredIff | main.go:82-83 | A pixel lies in a reached square iff both axes have a covering interval, and then that square is the one `CoverX` and `CoverY` name. |
| Tiler.SquaresDisjoint | main.go:82-83 | Two reached squares of one pass that share a pixel are the same square, because the x-step is at least `squareSize`. |
| Tiler.SquareDivisor | main.go:58 | Every square has the divisor of `squareSize*squareSize`, so one non-zero check covers all squares. |
| Tiler.Processed | main.go:81-92 | The pass's post-state has the same dimensions as the pre-state. |
| Tiler.ProcessedAt | main.go:81-92 | The post-state at an in-bounds pixel is the per-pixel result `ProcessedPixel`. |
| Tiler.VisitedSquareHoldsAverage | main.go:82-89 | After the pass, each pixel of a reached square holds the average that square had before the pass. |
| Tiler.UncoveredPixelUnchanged | main.go:82-89 | After the pass, each pixel outside the reached squares is unchanged. |
| Tiler.UnitSquaresIdentity | main.go:81-92 | With 1x1 squares, a pass over an opaque image gives the image back. |
| Tiler.UnitSquarePixel | main.go:81-92 | With 1x1 squares, each pixel of an opaque image is kept. |
| Tiler.UnreachedSquareUnchanged | main.go:83-89 | When the loops reach a square, it still holds its original pixels. |
| Tiler.UnreachedSquareAverage | main.go:87 | So the average read from the partly written buffer is the square's original average. |
| Tiler.FillStep | main.go:89 | Painting the current square advances the loops' position by one square, pixel by pixel. |
| Tiler.FillAdvances | main.go:87-89 | The same advance, for the whole buffer. |
| Tiler.ColumnDone | main.go:83 | When `y` passes `sizeY`, the column of squares is finished. |
| Tiler.PassDone | main.go:82 | When `x` passes `sizeX`, the pass is finished. |
| Tiler.ProcessImage | main.go:81-92 | The in-place loops leave the buffer equal to `Processed(old buffer, Uint32, pass)`. |
| Schedule.CheckConfig | main.go:113-120 | Accepts iff `0 < squareSize ≤ sizeX`, `squareSize ≤ sizeY`, and the mode is "M" or "S". A bad size is reported in preference to a bad mode. "M" selects `Multi`. |
| Schedule.WorkerCount | main.go:146-148 | No contract: `goroutineCount`, the integer ceiling of `sizeX / squareSize` in "M" mode and 1 otherwise. Its bounds are `Schedule.WorkerCountBounds`. |
| Schedule.WorkerPass | main.go:156-163 | No contract: the arguments of worker `i`'s `processImage` call, start `i*squareSize`, step `goroutineIncrement = count*squareSize`. Its coverage is `Schedule.WorkerStarts` and `Schedule.WorkerCover`. |
| Schedule.WorkerCountBounds | main.go:146-148 | There is at least one worker. The count is 1 in "S" mode. In "M" mode, `(count-1)*squareSize < sizeX ≤ count*squareSize`. |
| Schedule.WorkerRunnable | main.go:156-163 | Every worker's pass steps forward by at least one square. |
| Schedule.StripStart | main.go:156-163 | Square column `q` is step `q / count` of worker `q % count`. |
| Schedule.StripBack | main.go:156-163 | A pixel inside step `k` of worker `i` has square column `i + k*count`. |
| Schedule.WorkerStarts | main.go:156-163 | The x-starts of worker `i` are exactly the multiples of `squareSize` whose square index is `i` modulo `count`. Both directions are proved, so each multiple belongs to exactly one step of exactly one worker. |
| Schedule.WorkerCover | main.go:156-163 | Along x, worker `i` covers a point iff its square index is `i` modulo `count` and that square starts inside the image. |
| Schedule.WorkerCoverPixel | main.go:156-163 | Inside the image, worker `i` covers pixel `(x, y)` exactly where it owns column `x` and the single pass covers row `y`. It then uses the same square as the single pass. |
| Schedule.WorkersDisjoint | main.go:159-163 | No two workers cover the same pixel. |
| Schedule.WorkersCoverAll | main.go:159-163 | Every square of the single pass is covered by some worker. |
| Schedule.ReferenceCoversAll | main.go:82-83 | The single pass leaves no gap: every in-bounds pixel `(x, y)` lies in the reached square `(x / S, y / S)`. |
| Schedule.EveryPixelAveraged | main.go:81-92 | After the single pass, which is what `Pixelate` leaves, every in-bounds pixel holds the original average of its square `(x / S, y / S)`. |
| Schedule.MultiWorkerOneStrip | main.go:146-163 | In "M" mode every worker reaches its first square `(0, 0)`, so it has squares to do, and all the squares it reaches are in its first column of squares. |
| Schedule.Below | main.go:159 | The set of workers started so far, `{0, …, i-1}`. |
| Schedule.PartialRun | main.go:159-163 | The buffer after a set of workers has run keeps the image's dimensions. |
| Schedule.PartialAt | main.go:159-163 | At each in-bounds pixel, that buffer holds the single pass's result on the finished workers' columns and the original pixel elsewhere. |
| Schedule.StripUntouched | main.go:159-163 | The squares of a worker that has not run yet still hold their original pixels. |
| Schedule.OwnedSquare | main.go:159-163 | The square a worker averages is the single pass's square, and it still holds its original pixels. |
| Schedule.WorkerStepPixel | main.go:163 | Running worker `i` after the workers in `done` gives, pixel by pixel, the buffer of `done + {i}`. |
| Schedule.WorkerStep | main.go:163 | Running worker `i` after the workers in `done` gives the buffer of `done + {i}`. |
| Schedule.NoneDone | main.go:143 | Before any worker runs, the buffer is the original image. |
| Schedule.AllDone | main.go:159-167 | Once all workers have run, the buffer equals a single pass with step `squareSize`. |
| Schedule.RunWorkers | main.go:159-167 | The workers of a sequence run one after another, each a whole `processImage` pass. The grid keeps its dimensions. |
| Schedule.RunFromPartial | main.go:159-167 | Any sequence of distinct, not yet run workers leads from `PartialRun(done)` to `PartialRun(done + workers)`. |
| Schedule.WorkersInAnyOrder | main.go:146-167 | Every order of the workers `0 … count-1` leaves the single-pass picture. So "S" and "M" modes give the same result. |
| Schedule.Outcome | main.go:139-167 | The exit paths of `main`: success exactly when `CheckConfig` accepts and `uint32(squareSize*squareSize)` is non-zero. Otherwise it is the `CheckConfig` error, or `DivideByZero` when the arguments were accepted. |
| Schedule.Pixelate | main.go:139-167 | On bad arguments it returns the `CheckConfig` error. On a square whose truncated area is 0 it returns `DivideByZero`. In both error cases nothing is painted. Otherwise the buffer ends as the single-pass result. |

## Left out

- File I/O: reading the command line (`readCommandLine`), decoding, encoding and saving the image, and `check`/`log.Panicln`. These are OS and library calls. `Pixelate` takes the decoded buffer, the square size and the mode as parameters.
- The initial `draw.Draw` copy of the decoded image into `res`, and Go's colour-model conversion. The model starts from the 8-bit RGBA buffer. `Tiler.UnitSquaresIdentity` assumes that buffer is opaque, as the copy of a decoded JPEG is.
- Goroutines, `sync.WaitGroup`, the timing logs and the printed messages. `Pixelate` runs the workers one after another. `Schedule.WorkersDisjoint` and `Schedule.WorkersInAnyOrder` stand in for the concurrency argument: each worker reads and writes only its own strip, and every order gives the same picture.
- `math.Ceil(float64(sizeX) / float64(squareSize))` is replaced by the integer ceiling `(sizeX + squareSize - 1) / squareSize`. The floating-point rounding is not modelled.
- `log.Fatalln` ends the process. The model returns `Err(BadSquareSize)` or `Err(BadMode)` and leaves the buffer untouched.
- Schedule.Pixelate: in Go a zero `uint32` area makes the first `averageColor` call that runs panic, and the process ends there without saving anything. Every square has the same divisor `uint32(squareSize*squareSize)`, and each worker averages its first square before it paints anything, so no square is painted before the crash. The model checks the divisor before any worker runs and returns `Err(DivideByZero)` with the buffer untouched. It does not model the panic message.
- Tiler.ProcessImage: requires `0 < squareSize <= goroutineIncrement` and a non-zero truncated square area. `processImage` itself accepts any arguments. Every call in `main` meets the first condition, and the Go program panics without the second.
- Averager.AverageColor: requires a non-zero truncated area, because a zero area is a division by zero in Go.
- Overflow of Go's `int` in `x + goroutineIncrement`, `i*squareSize` and `goroutineCount * squareSize` is not modelled. `x + goroutineIncrement` stays below `3*sizeX`, so this needs an image at least about 2^63/3 (roughly 3×10^18) pixels wide.

## Findings

| source | as written | input that shows it | evidently intended | confidence | as-written member | corrected member |
|---|---|---|---|---|---|---|
| main.go:57-67 | The channel buckets are `uint32` and wrap when the 16-bit values of a square add up to 2^32 or more. | Any all-white square of 257x257 pixels (`squareSize` = 257): the red sum 4328521215 wraps to 33553919, so the channel comes out as 33553919/66049/257 = 1 instead of 255. | The average colour of the square: each channel is floor(sum of its 8-bit values / area), and a uniform square keeps its colour for every square size. | not executed | Averager.WhiteSquareWraps | Averager.UniformAverage |

The corrected averager is `AverageOf` with `Wide` buckets. `Averager.ChannelIsMean` and `Averager.UniformAverage` prove the intended meaning for it at every square size. `Averager.SameWithoutWrap` shows the two averagers agree whenever `area*0xffff < 2^32`, which holds for every `squareSize` up to 256.

The `Tiler` and `Schedule` functions and lemmas are stated for both bucket kinds, so the partition and order-independence results hold for the corrected averager too. The methods `AverageColor`, `ProcessImage` and `Pixelate` keep the `uint32` arithmetic as written.
