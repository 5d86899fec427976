# Averaging image compositor

A Dafny model of `Processor.CreateCompositeBitmap` from the ImagesComposition
program. The operation takes an ordered collection of 32-bit bitmaps and
averages them into one new bitmap. Its size is the least input width by the
least input height, each dimension chosen separately. Each of the four channel
bytes of a result pixel is the mean of that channel over all inputs at the same
position, truncated to a byte.

The model has three modules:

- `Pixels` (pixels.dfy): a locked 32-bit buffer (`Image`: width, height,
  stride, bytes). Pixel (i, j) sits at byte offset `j * stride + 4 * i`. The
  module proves the index arithmetic: reads stay in bounds, slots of distinct
  pixels are disjoint, and every byte of an unpadded buffer is some pixel's
  channel.
- `Compositor` (compositor.dfy): the target rectangle (`TargetRect`, built on
  `FirstMinIndex`, which models `OrderBy(...).First()`), the specification of
  the result (`SumChannel`, `MeanChannel`, `CompositeImage`), and the
  imperative code. `Composite` picks the rectangle and allocates a zeroed
  result array. It then runs a column loop; `ComputeColumn` is the column
  loop's body, with a row loop. For each pixel, `AccumulatePixel` runs the
  loop over the inputs with its defensive coverage check. `AveragePixel`
  divides by the count. `WritePixel` stores the four bytes in place.
  `Composite` is proved to return exactly `CompositeImage`.
- `CompositeProperties` (properties.dfy): a single input comes back
  unchanged, permuting the inputs does not change the result, and the
  two-input white/black case gives 127.

Modelling decisions:

- Inputs are immutable values (`seq<byte>` buffers). Nothing in the model can
  write them. The result buffer is a fresh `array<byte>` filled in place.
  `Composite` then returns its contents as an `Image` value.
- The result's stride is `4 * width`, the stride of a 32 bpp bitmap.
- The `float` accumulators are modelled as exact integer sums. The truncating
  `(byte)` cast of `sum / count` is modelled as integer division. Two facts
  make this exact. First, a sum of n bytes is at most 255·n, and single
  precision holds every integer below 2^24 exactly, so the sums are exact up
  to 65,793 inputs. Second, `a /= count` rounds the quotient s/n to the
  nearest float. If s/n is not an integer, it lies at least 1/n away from
  the next integer. Half an ulp of a float below 256 is at most 2^-17. So
  when n < 2^17 the rounded quotient stays below the next integer, and
  truncating it gives the integer quotient. 65,793 inputs meet that bound
  too. Beyond that many inputs the float arithmetic could round differently.
- The row offsets `j * bitmapData.Stride` and `j * resultBitmapData.Stride`
  (src/ImagesComposition/Processor.cs:90, :108) are 32-bit `int` arithmetic
  in the source and unbounded integers in the model. They cannot overflow,
  because every offset lies inside a locked buffer, and GDI+ buffers are
  smaller than 2 GiB.
- An empty input throws in the source (`First()` on an empty sequence). The
  model returns `Err(InvalidInput)` instead.
- The channel accumulators keep the source's labels `a, r, g, b`, by
  position. In memory a `Format32bppArgb` pixel is stored B, G, R, A, so the
  labels do not match the channels they hold. The code averages position by
  position, so the result does not depend on the labels.
- The source's comments at src/ImagesComposition/Processor.cs:39 and :55
  speak of the "maximum"/"greatest" dimensions. The code takes the minimum,
  and the model follows the code.

## Model

| member | source | states |
|---|---|---|
| Pixels.Valid | src/ImagesComposition/Processor.cs:60-70 | a locked 32 bpp buffer: each row holds `width` four-byte pixels within `stride` bytes, and the buffer holds `height` rows |
| Pixels.Covers | src/ImagesComposition/Processor.cs:88 | the bounds check: column i and row j lie inside the image's own extent |
| Pixels.Offset | src/ImagesComposition/Processor.cs:90-91 | pixel (i, j) starts at `j*stride + 4*i`; if its four bytes fit in a row, they lie wholly inside row j |
| Pixels.Channel | src/ImagesComposition/Processor.cs:92-95 | the byte read for channel k of pixel (i, j) of an input, taken from inside the buffer |
| Pixels.SlotInBounds | src/ImagesComposition/Processor.cs:88-95 | a read of channel k (0..3) of a pixel that the image covers, at `j*stride + 4*i + k`, lies inside the buffer, given `stride >= 4*width` and `|data| >= stride*height` |
| Pixels.SlotCoordinates | src/ImagesComposition/Processor.cs:109-114 | the byte written for channel k of pixel (i, j) belongs to exactly row j, column i, channel k of the buffer |
| Pixels.IndexDecomposes | src/ImagesComposition/Processor.cs:56-57 | every byte of a buffer of `height` rows is the channel slot of some pixel in an existing row, so with stride `4*width` the pixel writes reach every byte of the result |
| Pixels.SlotsDisjoint | src/ImagesComposition/Processor.cs:72-117 | writes for distinct (column, row, channel) triples never hit the same byte, so distinct pixels of the result never share a byte |
| Compositor.FirstMinIndex | src/ImagesComposition/Processor.cs:42-43 | `OrderBy(key).First()` picks an entry with the least key, and the first such entry (stable sort) |
| Compositor.TargetRect | src/ImagesComposition/Processor.cs:42-53 | empty input fails with InvalidInput; otherwise the width is some input's width and no greater than any input's width, and the height likewise, chosen independently |
| Compositor.CoverCount | src/ImagesComposition/Processor.cs:80-98 | the coverage counter never exceeds the number of inputs |
| Compositor.CoveredSum | src/ImagesComposition/Processor.cs:83-99 | a per-channel accumulator over the covering inputs is at most 255 times the coverage count |
| Compositor.SumChannel | src/ImagesComposition/Processor.cs:83-99 | the channel sum over all inputs is at most 255 times the number of inputs |
| Compositor.MeanChannel | src/ImagesComposition/Processor.cs:103-114 | the result byte m is the truncated mean: `m*n <= sum < (m+1)*n` for n inputs, and it fits in a byte |
| Compositor.TruncatedMean | src/ImagesComposition/Processor.cs:103-114 | a sum of n bytes divided by n is below 256 and is the truncated quotient, so the `(byte)` casts never wrap |
| Compositor.TargetByte | src/ImagesComposition/Processor.cs:103-114 | byte idx of the result is the truncated mean of the channel, column and row that the byte belongs to in a buffer of stride `4*w` |
| Compositor.TargetBytes | src/ImagesComposition/Processor.cs:56-57 | the result buffer holds 4 bytes per pixel of the target rectangle |
| Compositor.CompositeImage | src/ImagesComposition/Processor.cs:35-129 | fails exactly on empty input; otherwise a valid 32 bpp image, stride 4*width, whose width and height are the least input width and least input height |
| Compositor.CoverageInTarget | src/ImagesComposition/Processor.cs:86-98 | every input covers every pixel of the target rectangle, so the bounds check always passes and the count equals the number of inputs, which is positive (no division by zero) |
| Compositor.CoverageFull | src/ImagesComposition/Processor.cs:80-98 | the coverage count equals the number of inputs if and only if every input covers the pixel |
| Compositor.CoveredSumIsSum | src/ImagesComposition/Processor.cs:86-99 | when every input covers the pixel, the filtered accumulator equals the sum over all inputs |
| Compositor.AccumulatePixel | src/ImagesComposition/Processor.cs:80-99 | the loop over the inputs leaves in a, r, g, b the sums of channels 0..3 over the covering inputs and in count the number of covering inputs |
| Compositor.AccumulateStep | src/ImagesComposition/Processor.cs:86-98 | one iteration over an input adds its four channel bytes and one to the count exactly when it covers the pixel |
| Compositor.FillPixel | src/ImagesComposition/Processor.cs:109-114 | storing pixel (i, j)'s four expected bytes extends the written rows of column i by row j and touches nothing else |
| Compositor.ColumnDone | src/ImagesComposition/Processor.cs:77-116 | after the row loop has done every row, the buffer is the column task's effect: column i holds its expected bytes and every other byte is as before the task |
| Compositor.ColumnTasksCommute | src/ImagesComposition/Processor.cs:72-117 | the effects of the tasks of two columns commute, so the order in which `Parallel.For` runs the column tasks cannot change the result |
| Compositor.ColumnAdded | src/ImagesComposition/Processor.cs:72-117 | running column i's task after those of columns 0..i-1 leaves columns 0..i written and the rest still zero |
| Compositor.FillDone | src/ImagesComposition/Processor.cs:72-117 | once every column is written, the whole result buffer equals the specified composite |
| Compositor.AveragePixel | src/ImagesComposition/Processor.cs:80-106 | inside the target rectangle the four quotients are the channel means over all inputs |
| Compositor.Divide | src/ImagesComposition/Processor.cs:103-106 | dividing an accumulator by the coverage count gives the channel mean over all inputs |
| Compositor.CompositePixel | src/ImagesComposition/Processor.cs:109-114 | channel k of result pixel (i, j), at `j*stride + 4*i + k`, is the truncated mean of channel k of pixel (i, j) over all inputs, channel order preserved |
| Compositor.WritePixel | src/ImagesComposition/Processor.cs:109-114 | writes the four bytes of pixel (i, j) to its four slots, in order, and changes no other byte |
| Compositor.ComputePixel | src/ImagesComposition/Processor.cs:80-114 | one row iteration: the four bytes of result pixel (i, j) become their channel means and no other byte changes |
| Compositor.ComputeColumn | src/ImagesComposition/Processor.cs:75-117 | the column task, from any starting buffer: every byte of column i becomes its channel mean and every byte outside column i keeps its value |
| Compositor.Composite | src/ImagesComposition/Processor.cs:35-129 | returns InvalidInput on empty input, otherwise exactly the composite image: least-width by least-height, every byte the truncated channel mean |
| CompositeProperties.CompositeSingle | src/ImagesComposition/Processor.cs:86-106 | with one input, the result has that input's size and every pixel equal to the input's pixel |
| CompositeProperties.SumWithout | src/ImagesComposition/Processor.cs:86-99 | removing one input from the accumulation removes exactly its byte from the sum |
| CompositeProperties.SumPermutation | src/ImagesComposition/Processor.cs:86-99 | the channel sum depends only on the multiset of inputs |
| CompositeProperties.TargetPermutation | src/ImagesComposition/Processor.cs:42-53 | the target rectangle depends only on the multiset of inputs |
| CompositeProperties.CompositePermutation | src/ImagesComposition/Processor.cs:35-129 | permuting the inputs leaves the composite unchanged |
| CompositeProperties.TargetBytePermutation | src/ImagesComposition/Processor.cs:103-114 | each result byte is the same for any permutation of the inputs |
| CompositeProperties.CompositeOfTwo | src/ImagesComposition/Processor.cs:83-114 | with two inputs each channel is the floor of the half-sum; a 255 and a 0 byte average to 127 |

## Left out

- `SetImageOpacity` (src/ImagesComposition/Processor.cs:11-33): the alpha scaling happens inside GDI+ (`ColorMatrix`, `DrawImage`). Its arithmetic and rounding cannot be seen, and its parameter is a float.
- `Program.Main` (src/ImagesComposition/Program.cs:7-13): file decoding, argument slicing and saving are I/O.
- `LockBits`/`UnlockBits` and the implicit conversion of every input to `Format32bppArgb` are foreign library calls. Inputs are taken as already-converted 4-bytes-per-pixel buffers. So a format conversion failure (FormatError) has no counterpart in the model.
- The `Bitmap` constructor for the result is a library call. Its failures are not modelled: out of memory, and GDI+'s refusal of a zero width or height. Inputs loaded by GDI+ always have positive dimensions, so the target is never zero-sized in practice. The model then returns an empty image.
- `Parallel.For` is modelled as a sequential column loop. `ComputeColumn` needs nothing of the other columns and changes only its own, and `ColumnTasksCommute` shows that the tasks' effects commute, so any order of completion gives the same buffer. Interleaving within a task and thread scheduling themselves are not modelled.
- The `CancellationTokenSource` is never cancelled, so no partial result can occur. The model has no cancellation path.
- Float accumulation is modelled as exact integer sums, as described above. IEEE rounding is not modelled; it would only matter beyond 65,793 inputs.
- `bitmaps.OrderBy` re-enumerates the original `IEnumerable` rather than the array built at line 36. The model assumes both give the same sequence.
- Ownership and aliasing of the returned bitmap are not modelled: `Composite` returns the filled buffer's contents as a value.
