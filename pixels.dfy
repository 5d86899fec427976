/** Locked 32-bit-per-pixel buffers: four bytes per pixel, rows `stride` bytes apart. */
module Pixels {

  newtype byte = x: int | 0 <= x < 256

  /** A bitmap as seen through its locked pixel data: the pixel (i, j) (column i,
      row j) occupies the four bytes starting at j * stride + 4 * i of `data`. */
  datatype Image = Image(width: nat, height: nat, stride: nat, data: seq<byte>)

  /** Each row holds `width` four-byte pixels (plus padding) and the buffer holds
      every row. */
  predicate Valid(img: Image) {
    4 * img.width <= img.stride && img.stride * img.height <= |img.data|
  }

  /** The image's own extent contains column i, row j. */
  predicate Covers(img: Image, i: nat, j: nat) {
    i < img.width && j < img.height
  }

  /** Byte offset of pixel (i, j): row start plus four bytes per column. A pixel
      whose four bytes fit in the row lies wholly inside row j. */
  function Offset(stride: nat, i: nat, j: nat): (o: nat)
    ensures 4 * i + 4 <= stride ==> j * stride <= o && o + 4 <= (j + 1) * stride
  {
    j * stride + 4 * i
  }

  /** Column, row and channel that byte `idx` of a buffer belongs to. */
  function RowOf(stride: nat, idx: nat): nat
    requires stride > 0
  {
    idx / stride
  }

  function ColumnOf(stride: nat, idx: nat): nat
    requires stride > 0
  {
    (idx % stride) / 4
  }

  function ChannelOf(stride: nat, idx: nat): nat
    requires stride > 0
  {
    (idx % stride) % 4
  }

  /** Channel k of a pixel inside the image is a byte of the buffer. */
  lemma {:induction false} SlotInBounds(img: Image, i: nat, j: nat, k: nat)
    requires Valid(img) && Covers(img, i, j) && k < 4
    ensures Offset(img.stride, i, j) + k < |img.data|
  {
    var s := img.stride;
    assert 4 * i + k < s;
    MulMonotone(j + 1, img.height, s);
    assert (j + 1) * s == j * s + s;
  }

  /** Channel k of pixel (i, j) of a valid image. */
  function Channel(img: Image, i: nat, j: nat, k: nat): byte
    requires Valid(img) && Covers(img, i, j) && k < 4
  {
    SlotInBounds(img, i, j, k);
    img.data[Offset(img.stride, i, j) + k]
  }

  /** A byte written for channel k of pixel (i, j) is read back as exactly that
      column, row and channel, as long as the pixel lies inside the row. */
  lemma {:induction false} SlotCoordinates(stride: nat, i: nat, j: nat, k: nat)
    requires k < 4 && 4 * i + k < stride
    ensures RowOf(stride, Offset(stride, i, j) + k) == j
    ensures ColumnOf(stride, Offset(stride, i, j) + k) == i
    ensures ChannelOf(stride, Offset(stride, i, j) + k) == k
  {
    DivModUnique(j, 4 * i + k, stride);
  }

  /** Every byte of a buffer of `height` rows lies in some slot: it is channel
      ChannelOf of pixel (ColumnOf, RowOf), and that row exists. */
  lemma {:induction false} IndexDecomposes(stride: nat, height: nat, idx: nat)
    requires stride > 0 && idx < stride * height
    ensures idx == Offset(stride, ColumnOf(stride, idx), RowOf(stride, idx)) + ChannelOf(stride, idx)
    ensures ChannelOf(stride, idx) < 4
    ensures 4 * ColumnOf(stride, idx) + ChannelOf(stride, idx) < stride
    ensures RowOf(stride, idx) < height
  {
    var q, r := idx / stride, idx % stride;
    assert idx == q * stride + r;
    if height <= q {
      MulMonotone(height, q, stride);
    }
  }

  /** Writes of two different pixels, or two channels of one pixel, never touch
      the same byte: the slots of distinct (column, row, channel) triples are
      disjoint. */
  lemma {:induction false} SlotsDisjoint(stride: nat, width: nat, i: nat, j: nat, k: nat, i': nat, j': nat, k': nat)
    requires 4 * width <= stride
    requires i < width && k < 4 && i' < width && k' < 4
    requires Offset(stride, i, j) + k == Offset(stride, i', j') + k'
    ensures i == i' && j == j' && k == k'
  {
    SlotCoordinates(stride, i, j, k);
    SlotCoordinates(stride, i', j', k');
  }

  lemma {:induction false} MulMonotone(a: nat, b: nat, c: nat)
    requires a <= b
    ensures a * c <= b * c
  {
    assert b * c == a * c + (b - a) * c;
  }

  lemma {:induction false} DivModUnique(q: nat, r: nat, s: nat)
    requires r < s
    ensures (q * s + r) / s == q && (q * s + r) % s == r
  {
    var n := q * s + r;
    var q', r' := n / s, n % s;
    assert n == q' * s + r';
    if q' < q {
      MulMonotone(q' + 1, q, s);
    } else if q < q' {
      MulMonotone(q + 1, q', s);
    }
  }
}
