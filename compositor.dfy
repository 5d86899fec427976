/** The averaging compositor: every pixel of the common top-left rectangle of the
    inputs becomes the channel-wise truncated mean of the inputs' pixels there. */
module Compositor {
  import opened Pixels

  datatype Error = InvalidInput
  datatype Result<T> = Ok(value: T) | Err(error: Error)

  /** A rectangle anchored at the origin of every buffer. */
  datatype Rect = Rect(width: nat, height: nat)

  predicate AllValid(images: seq<Image>) {
    forall img <- images :: Valid(img)
  }

  /** Every input's own extent contains column i, row j. */
  predicate AllCover(images: seq<Image>, i: nat, j: nat) {
    forall img <- images :: Covers(img, i, j)
  }

  /** The position `OrderBy(key).First()` picks: OrderBy is a stable sort, so
      this is the first of the entries with the least key. */
  function FirstMinIndex(keys: seq<nat>): (m: nat)
    requires |keys| > 0
    ensures m < |keys|
    ensures forall n :: 0 <= n < |keys| ==> keys[m] <= keys[n]
    ensures forall n :: 0 <= n < m ==> keys[m] < keys[n]
  {
    if |keys| == 1 then 0
    else
      var m' := FirstMinIndex(keys[1..]) + 1;
      if keys[0] <= keys[m'] then 0 else m'
  }

  function Widths(images: seq<Image>): seq<nat> {
    seq(|images|, n requires 0 <= n < |images| => images[n].width)
  }

  function Heights(images: seq<Image>): seq<nat> {
    seq(|images|, n requires 0 <= n < |images| => images[n].height)
  }

  /** The target rectangle: the least width and, chosen separately, the least
      height over all inputs. With no input there is nothing to pick from and
      the operation fails. */
  function TargetRect(images: seq<Image>): (r: Result<Rect>)
    ensures r.Err? <==> |images| == 0
    ensures r.Err? ==> r.error == InvalidInput
    ensures r.Ok? ==> (exists img <- images :: img.width == r.value.width)
    ensures r.Ok? ==> (forall img <- images :: r.value.width <= img.width)
    ensures r.Ok? ==> (exists img <- images :: img.height == r.value.height)
    ensures r.Ok? ==> (forall img <- images :: r.value.height <= img.height)
  {
    if |images| == 0 then Err(InvalidInput)
    else
      var narrowest := images[FirstMinIndex(Widths(images))];
      var lowest := images[FirstMinIndex(Heights(images))];
      assert forall img <- images :: narrowest.width <= img.width by {
        forall img <- images ensures narrowest.width <= img.width {
          var n :| 0 <= n < |images| && images[n] == img;
          assert Widths(images)[n] == img.width;
        }
      }
      assert forall img <- images :: lowest.height <= img.height by {
        forall img <- images ensures lowest.height <= img.height {
          var n :| 0 <= n < |images| && images[n] == img;
          assert Heights(images)[n] == img.height;
        }
      }
      Ok(Rect(narrowest.width, lowest.height))
  }

  /** Number of inputs whose extent contains (i, j): the source's `count`. */
  function CoverCount(images: seq<Image>, i: nat, j: nat): (n: nat)
    ensures n <= |images|
  {
    if |images| == 0 then 0
    else
      CoverCount(images[..|images| - 1], i, j)
        + (if Covers(images[|images| - 1], i, j) then 1 else 0)
  }

  /** Sum of channel k at (i, j) over the inputs that contain (i, j): what one of
      the source's accumulators holds after the loop over the inputs. */
  function CoveredSum(images: seq<Image>, i: nat, j: nat, k: nat): (s: nat)
    requires AllValid(images) && k < 4
    ensures s <= 255 * CoverCount(images, i, j)
  {
    if |images| == 0 then 0
    else
      var last := images[|images| - 1];
      CoveredSum(images[..|images| - 1], i, j, k)
        + (if Covers(last, i, j) then Channel(last, i, j, k) as nat else 0)
  }

  /** Sum of channel k at (i, j) over all inputs. */
  function SumChannel(images: seq<Image>, i: nat, j: nat, k: nat): (s: nat)
    requires AllValid(images) && AllCover(images, i, j) && k < 4
    ensures s <= 255 * |images|
  {
    if |images| == 0 then 0
    else SumChannel(images[..|images| - 1], i, j, k) + Channel(images[|images| - 1], i, j, k) as nat
  }

  /** The truncated mean of channel k at (i, j) over all inputs. */
  function MeanChannel(images: seq<Image>, i: nat, j: nat, k: nat): (m: byte)
    requires |images| > 0 && AllValid(images) && AllCover(images, i, j) && k < 4
    ensures m as int * |images| <= SumChannel(images, i, j, k) < (m as int + 1) * |images|
  {
    var s, n := SumChannel(images, i, j, k), |images|;
    TruncatedMean(s, n);
    (s / n) as byte
  }

  lemma {:induction false} TruncatedMean(s: nat, n: nat)
    requires n > 0 && s <= 255 * n
    ensures s / n < 256
    ensures (s / n) * n <= s < (s / n + 1) * n
  {
    var q := s / n;
    assert s == q * n + s % n;
    if 256 <= q {
      MulMonotone(256, q, n);
    }
  }

  /** Byte idx of the composite of size w by h: the mean of the channel, column
      and row that byte belongs to in a buffer of stride 4 * w. */
  function TargetByte(images: seq<Image>, w: nat, h: nat, idx: nat): byte
    requires |images| > 0 && AllValid(images)
    requires forall img <- images :: w <= img.width && h <= img.height
    requires idx < 4 * w * h
  {
    var stride := 4 * w;
    IndexDecomposes(stride, h, idx);
    MeanChannel(images, ColumnOf(stride, idx), RowOf(stride, idx), ChannelOf(stride, idx))
  }

  /** The composite the source returns: a fresh 32-bit bitmap of the target size
      whose pixels are the per-channel truncated means of the inputs. */
  function CompositeImage(images: seq<Image>): (r: Result<Image>)
    requires AllValid(images)
    ensures r.Err? <==> |images| == 0
    ensures r.Ok? ==> Valid(r.value) && r.value.stride == 4 * r.value.width
    ensures r.Ok? ==> |r.value.data| == r.value.stride * r.value.height
    ensures r.Ok? ==> (exists img <- images :: img.width == r.value.width)
    ensures r.Ok? ==> (forall img <- images :: r.value.width <= img.width)
    ensures r.Ok? ==> (exists img <- images :: img.height == r.value.height)
    ensures r.Ok? ==> (forall img <- images :: r.value.height <= img.height)
  {
    match TargetRect(images)
    case Err(e) => Err(e)
    case Ok(rect) =>
      var w, h := rect.width, rect.height;
      Ok(Image(w, h, 4 * w, TargetBytes(images, w, h)))
  }

  /** The whole result buffer of size w by h, byte by byte. */
  function TargetBytes(images: seq<Image>, w: nat, h: nat): (data: seq<byte>)
    requires |images| > 0 && AllValid(images)
    requires forall img <- images :: w <= img.width && h <= img.height
    ensures |data| == 4 * w * h
  {
    MulMonotone(0, h, 4 * w);
    seq(4 * w * h, idx requires 0 <= idx < 4 * w * h => TargetByte(images, w, h, idx))
  }

  /** Every input covers every pixel of the target rectangle, so the defensive
      bounds check always passes and the coverage count is the number of inputs,
      which is positive. */
  lemma {:induction false} CoverageInTarget(images: seq<Image>, i: nat, j: nat)
    requires TargetRect(images).Ok?
    requires i < TargetRect(images).value.width && j < TargetRect(images).value.height
    ensures AllCover(images, i, j)
    ensures CoverCount(images, i, j) == |images| > 0
  {
    CoverageFull(images, i, j);
  }

  /** The coverage count equals the number of inputs exactly when every input
      covers the pixel. */
  lemma {:induction false} CoverageFull(images: seq<Image>, i: nat, j: nat)
    ensures CoverCount(images, i, j) == |images| <==> AllCover(images, i, j)
  {
    if |images| > 0 {
      var init, last := images[..|images| - 1], images[|images| - 1];
      CoverageFull(init, i, j);
      assert images == init + [last];
    }
  }

  /** When every input covers the pixel, the filtered sum is the plain sum. */
  lemma {:induction false} CoveredSumIsSum(images: seq<Image>, i: nat, j: nat, k: nat)
    requires AllValid(images) && AllCover(images, i, j) && k < 4
    ensures CoveredSum(images, i, j, k) == SumChannel(images, i, j, k)
  {
    if |images| > 0 {
      CoveredSumIsSum(images[..|images| - 1], i, j, k);
    }
  }

  /** The loop over the inputs for one pixel: each input that contains (i, j)
      adds its four channel bytes to the four accumulators and is counted. */
  method AccumulatePixel(images: seq<Image>, i: nat, j: nat) returns (a: nat, r: nat, g: nat, b: nat, count: nat)
    requires AllValid(images)
    ensures count == CoverCount(images, i, j)
    ensures a == CoveredSum(images, i, j, 0) && r == CoveredSum(images, i, j, 1)
    ensures g == CoveredSum(images, i, j, 2) && b == CoveredSum(images, i, j, 3)
  {
    a, r, g, b, count := 0, 0, 0, 0, 0;
    for n := 0 to |images|
      invariant count == CoverCount(images[..n], i, j)
      invariant a == CoveredSum(images[..n], i, j, 0) && r == CoveredSum(images[..n], i, j, 1)
      invariant g == CoveredSum(images[..n], i, j, 2) && b == CoveredSum(images[..n], i, j, 3)
    {
      var img := images[n];
      AccumulateStep(images, n, i, j);
      if img.width > i && img.height > j {
        var p := Offset(img.stride, i, j);
        SlotInBounds(img, i, j, 3);
        a := a + img.data[p] as nat;
        r := r + img.data[p + 1] as nat;
        g := g + img.data[p + 2] as nat;
        b := b + img.data[p + 3] as nat;
        count := count + 1;
      }
    }
    assert images[..|images|] == images;
  }

  /** Extending the inputs seen so far by one adds that input's bytes and one
      to the count when it covers (i, j), and nothing otherwise. */
  lemma {:induction false} AccumulateStep(images: seq<Image>, n: nat, i: nat, j: nat)
    requires AllValid(images) && n < |images|
    ensures var img := images[n];
      CoverCount(images[..n + 1], i, j) == CoverCount(images[..n], i, j) + (if Covers(img, i, j) then 1 else 0) &&
      forall k | 0 <= k < 4 ::
        CoveredSum(images[..n + 1], i, j, k)
          == CoveredSum(images[..n], i, j, k) + (if Covers(img, i, j) then Channel(img, i, j, k) as nat else 0)
  {
    assert images[..n + 1][..n] == images[..n];
  }

  /** The result buffer after the sequential column loop has run the tasks of
      the columns before i: those bytes hold their expected values and every
      other byte still holds its initial zero. */
  ghost predicate PartlyFilled(buf: seq<byte>, expected: seq<byte>, stride: nat, i: nat)
    requires stride > 0
  {
    |buf| == |expected| &&
    forall idx :: 0 <= idx < |buf| ==> buf[idx] == if ColumnOf(stride, idx) < i then expected[idx] else 0
  }

  /** The effect of the task for column i: that column's bytes take their
      expected values and every other byte keeps its value. */
  ghost function WithColumn(buf: seq<byte>, expected: seq<byte>, stride: nat, i: nat): (r: seq<byte>)
    requires stride > 0 && |buf| == |expected|
    ensures |r| == |buf|
  {
    seq(|buf|, idx requires 0 <= idx < |buf| => if ColumnOf(stride, idx) == i then expected[idx] else buf[idx])
  }

  /** Column tasks commute: running the tasks of two columns in either order
      leaves the same buffer, so the order in which a parallel loop completes
      its columns cannot change the result. */
  lemma {:induction false} ColumnTasksCommute(buf: seq<byte>, expected: seq<byte>, stride: nat, i1: nat, i2: nat)
    requires stride > 0 && |buf| == |expected|
    ensures WithColumn(WithColumn(buf, expected, stride, i1), expected, stride, i2)
         == WithColumn(WithColumn(buf, expected, stride, i2), expected, stride, i1)
  {
    var x := WithColumn(WithColumn(buf, expected, stride, i1), expected, stride, i2);
    var y := WithColumn(WithColumn(buf, expected, stride, i2), expected, stride, i1);
    forall idx | 0 <= idx < |x|
      ensures x[idx] == y[idx]
    {
    }
  }

  /** Running the task of column i after those of the columns before it
      extends the written part by column i. */
  lemma {:induction false} ColumnAdded(buf: seq<byte>, expected: seq<byte>, stride: nat, i: nat)
    requires stride > 0
    requires PartlyFilled(buf, expected, stride, i)
    ensures PartlyFilled(WithColumn(buf, expected, stride, i), expected, stride, i + 1)
  {
  }

  /** Inside the task of column i: the rows before j of column i hold their
      expected bytes and every other byte has the value it had when the task
      started. */
  ghost predicate RowsFilled(buf: seq<byte>, before: seq<byte>, expected: seq<byte>, stride: nat, i: nat, j: nat)
    requires stride > 0
  {
    |buf| == |before| == |expected| &&
    forall idx :: 0 <= idx < |buf| ==>
      buf[idx] == if ColumnOf(stride, idx) == i && RowOf(stride, idx) < j then expected[idx] else before[idx]
  }

  /** Writing the four expected bytes of pixel (i, j) extends the written part
      of column i by row j and touches nothing else. */
  lemma {:induction false} FillPixel(buf: seq<byte>, after: seq<byte>, before: seq<byte>, expected: seq<byte>,
                                     stride: nat, h: nat, i: nat, j: nat)
    requires 4 * i + 4 <= stride && j < h && |buf| == stride * h
    requires RowsFilled(buf, before, expected, stride, i, j)
    requires var p := Offset(stride, i, j);
      p + 4 <= |buf| &&
      after == buf[p := expected[p]][p + 1 := expected[p + 1]][p + 2 := expected[p + 2]][p + 3 := expected[p + 3]]
    ensures RowsFilled(after, before, expected, stride, i, j + 1)
  {
    var p := Offset(stride, i, j);
    forall idx | 0 <= idx < |after|
      ensures after[idx] == if ColumnOf(stride, idx) == i && RowOf(stride, idx) < j + 1 then expected[idx] else before[idx]
    {
      IndexDecomposes(stride, h, idx);
      if p <= idx < p + 4 {
        SlotCoordinates(stride, i, j, idx - p);
      }
    }
  }

  /** Once every row of column i is written, the buffer is the task's effect
      on the buffer it started from. */
  lemma {:induction false} ColumnDone(buf: seq<byte>, before: seq<byte>, expected: seq<byte>, stride: nat, h: nat, i: nat)
    requires stride > 0 && |buf| == stride * h
    requires RowsFilled(buf, before, expected, stride, i, h)
    ensures buf == WithColumn(before, expected, stride, i)
  {
    var done := WithColumn(before, expected, stride, i);
    forall idx | 0 <= idx < |buf|
      ensures buf[idx] == done[idx]
    {
      IndexDecomposes(stride, h, idx);
    }
  }

  /** Once every column of a buffer with no row padding is written, the buffer
      is the expected one. */
  lemma {:induction false} FillDone(buf: seq<byte>, expected: seq<byte>, w: nat, h: nat)
    requires w > 0 && |buf| == 4 * w * h
    requires PartlyFilled(buf, expected, 4 * w, w)
    ensures buf == expected
  {
    forall idx | 0 <= idx < |buf|
      ensures buf[idx] == expected[idx]
    {
      IndexDecomposes(4 * w, h, idx);
    }
  }

  /** One pixel of the result: the accumulated channel sums divided by the
      coverage count, which inside the target rectangle is the number of inputs,
      so the quotients are the channel means and fit in a byte. */
  method AveragePixel(images: seq<Image>, i: nat, j: nat) returns (a: byte, r: byte, g: byte, b: byte)
    requires AllValid(images) && TargetRect(images).Ok?
    requires i < TargetRect(images).value.width && j < TargetRect(images).value.height
    ensures AllCover(images, i, j) && |images| > 0
    ensures a == MeanChannel(images, i, j, 0) && r == MeanChannel(images, i, j, 1)
    ensures g == MeanChannel(images, i, j, 2) && b == MeanChannel(images, i, j, 3)
  {
    var sa, sr, sg, sb, count := AccumulatePixel(images, i, j);
    CoverageInTarget(images, i, j);
    a := Divide(images, i, j, 0, sa, count);
    r := Divide(images, i, j, 1, sr, count);
    g := Divide(images, i, j, 2, sg, count);
    b := Divide(images, i, j, 3, sb, count);
  }

  /** Dividing one accumulator by the coverage count: the channel mean. */
  function Divide(images: seq<Image>, i: nat, j: nat, k: nat, sum: nat, count: nat): (m: byte)
    requires |images| > 0 && AllValid(images) && AllCover(images, i, j) && k < 4
    requires sum == CoveredSum(images, i, j, k) && count == CoverCount(images, i, j)
    ensures m == MeanChannel(images, i, j, k)
  {
    CoverageFull(images, i, j);
    CoveredSumIsSum(images, i, j, k);
    assert sum / count == MeanChannel(images, i, j, k) as int;
    (sum / count) as byte
  }

  /** Channel k of pixel (i, j) of the composite, read at the pixel's offset in
      the result buffer, is the truncated mean of channel k of pixel (i, j) over
      all inputs. */
  lemma {:induction false} CompositePixel(images: seq<Image>, i: nat, j: nat, k: nat)
    requires AllValid(images) && |images| > 0 && k < 4
    requires i < TargetRect(images).value.width && j < TargetRect(images).value.height
    ensures var r := CompositeImage(images).value;
      Offset(r.stride, i, j) + k < |r.data| &&
      r.data[Offset(r.stride, i, j) + k] == MeanChannel(images, i, j, k)
  {
    var rect := TargetRect(images).value;
    var w, h := rect.width, rect.height;
    var r := CompositeImage(images).value;
    assert r == Image(w, h, 4 * w, TargetBytes(images, w, h));
    SlotInBounds(r, i, j, k);
    SlotCoordinates(4 * w, i, j, k);
  }

  /** Stores the four channel bytes of pixel (i, j) at its offset in the result,
      in the order they were computed; no other byte changes. */
  method WritePixel(result: array<byte>, stride: nat, h: nat, i: nat, j: nat, a: byte, r: byte, g: byte, b: byte)
    requires 4 * i + 4 <= stride && j < h && result.Length == stride * h
    modifies result
    ensures Offset(stride, i, j) + 4 <= result.Length
    ensures var p := Offset(stride, i, j);
      result[..] == old(result[..])[p := a][p + 1 := r][p + 2 := g][p + 3 := b]
  {
    var p := Offset(stride, i, j);
    MulMonotone(j + 1, h, stride);
    result[p] := a;
    result[p + 1] := r;
    result[p + 2] := g;
    result[p + 3] := b;
  }

  /** One iteration of the row loop: pixel (i, j) of the result gets the four
      channel means of the inputs' pixel (i, j), and no other byte changes. */
  method ComputePixel(images: seq<Image>, result: array<byte>, i: nat, j: nat, ghost expected: seq<byte>)
    requires AllValid(images) && TargetRect(images).Ok?
    requires i < TargetRect(images).value.width && j < TargetRect(images).value.height
    requires result.Length == 4 * TargetRect(images).value.width * TargetRect(images).value.height
    requires expected == CompositeImage(images).value.data
    modifies result
    ensures var p := Offset(4 * TargetRect(images).value.width, i, j);
      p + 4 <= result.Length == |expected| &&
      result[..] == old(result[..])[p := expected[p]][p + 1 := expected[p + 1]][p + 2 := expected[p + 2]][p + 3 := expected[p + 3]]
  {
    var w, h := TargetRect(images).value.width, TargetRect(images).value.height;
    var a, r, g, b := AveragePixel(images, i, j);
    CompositePixel(images, i, j, 0);
    CompositePixel(images, i, j, 1);
    CompositePixel(images, i, j, 2);
    CompositePixel(images, i, j, 3);
    WritePixel(result, 4 * w, h, i, j, a, r, g, b);
  }

  /** The body of the parallel column loop: every row of column i gets the
      channel means of its pixel, and every byte outside column i keeps the
      value it had. Nothing is assumed about the other columns, so the tasks
      may run in any order (see ColumnTasksCommute). */
  method ComputeColumn(images: seq<Image>, result: array<byte>, i: nat, ghost expected: seq<byte>)
    requires AllValid(images) && TargetRect(images).Ok?
    requires i < TargetRect(images).value.width
    requires result.Length == 4 * TargetRect(images).value.width * TargetRect(images).value.height
    requires expected == CompositeImage(images).value.data
    modifies result
    ensures result[..] == WithColumn(old(result[..]), expected, 4 * TargetRect(images).value.width, i)
  {
    var w, h := TargetRect(images).value.width, TargetRect(images).value.height;
    var stride := 4 * w;
    ghost var before := result[..];
    for j := 0 to h
      invariant RowsFilled(result[..], before, expected, stride, i, j)
    {
      ghost var current := result[..];
      ComputePixel(images, result, i, j, expected);
      FillPixel(current, result[..], before, expected, stride, h, i, j);
    }
    ColumnDone(result[..], before, expected, stride, h, i);
  }

  /** CreateCompositeBitmap: pick the target rectangle, allocate a zeroed
      4-bytes-per-pixel result, and fill it column by column with the truncated
      channel means of the inputs. */
  method Composite(images: seq<Image>) returns (res: Result<Image>)
    requires AllValid(images)
    ensures res == CompositeImage(images)
  {
    var target := TargetRect(images);
    if target.Err? {
      return Err(InvalidInput);
    }
    var w, h := target.value.width, target.value.height;
    var stride := 4 * w;
    ghost var expected := CompositeImage(images).value.data;
    MulMonotone(0, h, stride);
    var result := new byte[stride * h](_ => 0);
    if w == 0 {
      assert result[..] == expected;
      return Ok(Image(w, h, stride, result[..]));
    }
    for i := 0 to w
      invariant PartlyFilled(result[..], expected, stride, i)
    {
      ghost var before := result[..];
      ComputeColumn(images, result, i, expected);
      ColumnAdded(before, expected, stride, i);
    }
    FillDone(result[..], expected, w, h);
    res := Ok(Image(w, h, stride, result[..]));
  }
}
