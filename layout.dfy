/** Layout arithmetic of an uncompressed 24-bit Windows BMP file: a 14-byte
    BITMAPFILEHEADER, a 40-byte BITMAPINFOHEADER, then bottom-to-top rows of
    three bytes per pixel, each row padded with zero bytes to a multiple of
    four. */
module Layout {
  import opened Bytes
  import opened Ranges
  import opened Arith

  const FILE_HEADER_SIZE: nat := 14
  const INFO_HEADER_SIZE: nat := 40
  /** Offset of the first pixel byte, as the file header records it. */
  const PIXEL_DATA_OFFSET: nat := 54
  /** `sizeof(Pixel)`: one byte each of blue, green and red. */
  const BYTES_PER_PIXEL: nat := 3

  /** A row of `width` pixels followed by `pad` bytes ends on a multiple of four. */
  predicate Aligned(width: nat, pad: nat) {
    (BYTES_PER_PIXEL * width + pad) % 4 == 0
  }

  /** Zero bytes written after each row: the least amount that brings the
      row's `3 * width` bytes to a multiple of four. */
  function RowPadding(width: nat): (pad: nat)
    ensures pad < 4 && Aligned(width, pad)
    ensures forall p :: 0 <= p < pad ==> !Aligned(width, p)
  {
    (4 - (width * 3) % 4) % 4
  }

  /** Bytes a row takes in the file, padding included. */
  function Stride(width: nat): (n: nat)
    ensures n % 4 == 0
    ensures BYTES_PER_PIXEL * width <= n < BYTES_PER_PIXEL * width + 4
  {
    BYTES_PER_PIXEL * width + RowPadding(width)
  }

  /** The file size the generator stores in the file header: the two
      headers followed by `height` padded rows. */
  function FileSize(width: nat, height: nat): (size: nat)
    ensures size == FILE_HEADER_SIZE + INFO_HEADER_SIZE + height * Stride(width)
    ensures FILE_HEADER_SIZE + INFO_HEADER_SIZE == PIXEL_DATA_OFFSET
  {
    MulDistributes(height, 3 * width, RowPadding(width));
    54 + 3 * width * height + height * RowPadding(width)
  }

  /** Dimensions for which every `int` the processing path computes
      (`width * 3`, `width * height`) is free of signed overflow. */
  predicate ProcessableDims(width: int, height: int) {
    0 <= width && 0 <= height && 3 * width <= MAX_INT32 && width * height <= MAX_INT32
  }

  /** Dimensions the generator handles without signed overflow: they are
      processable, the gradient's products `x * 255` and `y * 255` fit in an
      `int`, and so does the file size. */
  predicate GeneratableDims(width: int, height: int) {
    && ProcessableDims(width, height)
    && 255 * width <= MAX_INT32 && 255 * height <= MAX_INT32
    && FileSize(width, height) <= MAX_INT32
  }

  /** Row y of a `width`-wide image occupies the flat indices
      `[y * width, y * width + width)` of the pixel buffer. */
  function RowRange(y: nat, width: nat): (r: Range)
    ensures Length(r) == width
  {
    Range(y * width, y * width + width)
  }

  function RowRanges(width: nat, height: nat): (rs: seq<Range>)
    ensures |rs| == height
  {
    seq(height, y requires 0 <= y < height => RowRange(y, width))
  }

  /** The rows, in order, tile the buffer of `width * height` pixels: they are
      contiguous, disjoint and cover `[0, width * height)`. */
  lemma RowsTile(width: nat, height: nat)
    ensures Tiles(RowRanges(width, height), 0, width * height)
  {
    var rs := RowRanges(width, height);
    forall y | 0 <= y < height - 1
      ensures rs[y].end == rs[y + 1].start
    {
      MulDistributes(width, y, 1);
    }
    if height > 0 {
      MulDistributes(width, height - 1, 1);
    }
  }

  /** Every index of the buffer is pixel x of some row y below `height`. */
  lemma CellOfIndex(width: nat, height: nat, i: nat) returns (x: nat, y: nat)
    requires i < width * height
    ensures x < width && y < height && i == y * width + x
  {
    y, x := i / width, i % width;
    if y >= height {
      MulMonotone(height, y, width);
    }
  }

  /** Each index of the buffer lies in exactly one row, and that row is below `height`. */
  lemma RowOfIndex(width: nat, height: nat, i: int)
    requires 0 <= i < width * height
    ensures width > 0 && i / width < height && Contains(RowRange(i / width, width), i)
    ensures forall y :: 0 <= y < height && Contains(RowRange(y, width), i) ==> y == i / width
  {
    assert width > 0;
    var y := i / width;
    assert y * width <= i < y * width + width;
    if y >= height {
      MulMonotone(height, y, width);
    }
    forall y' | 0 <= y' < height && Contains(RowRange(y', width), i)
      ensures y' == i / width
    {
      DivModByRow(i, width, y');
    }
  }
}
