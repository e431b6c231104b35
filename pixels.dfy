/** The pixel buffer and its bytes in the file: `width * height` pixels,
    row y at flat indices `[y * width, y * width + width)`, written row by
    row with each row followed by its zero padding, and read back the same
    way. */
module Pixels {
  import opened Bytes
  import opened Ranges
  import opened Layout
  import opened Arith

  /** One pixel, in the order its bytes sit in memory and in the file:
      blue, green, red. */
  datatype Pixel = Pixel(b: Byte, g: Byte, r: Byte)

  /** Byte k of a pixel's three bytes in memory. */
  function Channel(p: Pixel, k: nat): Byte
    requires k < BYTES_PER_PIXEL
  {
    if k == 0 then p.b else if k == 1 then p.g else p.r
  }

  /** The bytes of a run of pixels in the vector, `sizeof(Pixel)` per pixel:
      pixel i takes bytes `3 * i`, `3 * i + 1`, `3 * i + 2`, blue first. */
  function PixelBytes(ps: seq<Pixel>): (s: seq<Byte>)
    ensures |s| == BYTES_PER_PIXEL * |ps|
    ensures forall i :: 0 <= i < |ps| ==> s[3 * i..3 * i + 3] == [ps[i].b, ps[i].g, ps[i].r]
  {
    var s := seq(3 * |ps|, i requires 0 <= i < 3 * |ps| => Channel(ps[i / 3], i % 3));
    assert forall i :: 0 <= i < |ps| ==> s[3 * i..3 * i + 3] == [ps[i].b, ps[i].g, ps[i].r] by {
      forall i | 0 <= i < |ps|
        ensures s[3 * i..3 * i + 3] == [ps[i].b, ps[i].g, ps[i].r]
      {
        assert (3 * i) / 3 == i && (3 * i + 1) / 3 == i && (3 * i + 2) / 3 == i;
      }
    }
    s
  }

  function Zeros(n: nat): (s: seq<Byte>)
    ensures |s| == n
  {
    seq(n, _ => 0)
  }

  /** Byte p of the pixel data that follows the headers; a read past the end
      of the file stores nothing, so the zero the pixel vector was created
      with stays. */
  function ByteAt(data: seq<Byte>, p: nat): Byte {
    if p < |data| then data[p] else 0
  }

  /** The pixel whose three bytes start at offset `off` of the pixel data:
      three bytes inside the data are read as the pixel they encode; a read
      wholly past the end leaves the zeroed pixel. */
  function ReadPixel(data: seq<Byte>, off: nat): (p: Pixel)
    ensures off + BYTES_PER_PIXEL <= |data| ==> PixelBytes([p]) == data[off..off + BYTES_PER_PIXEL]
    ensures off >= |data| ==> p == Pixel(0, 0, 0)
  {
    var p := Pixel(ByteAt(data, off), ByteAt(data, off + 1), ByteAt(data, off + 2));
    assert PixelBytes([p])[0..3] == [p.b, p.g, p.r];
    p
  }

  /** A `width * height` buffer filled row by row, pixel x of row y being
      `f(x, y)`. */
  function Image(width: nat, height: nat, f: (nat, nat) --> Pixel): (img: seq<Pixel>)
    requires forall x: nat, y: nat :: x < width && y < height ==> f.requires(x, y)
    ensures |img| == width * height
    decreases height
  {
    if height == 0 then
      []
    else
      MulSucc(width, height - 1);
      Image(width, height - 1, f) + seq(width, x requires 0 <= x < width => f(x, height - 1))
  }

  /** The pixel bytes of the file: each row of the buffer followed by its
      padding, rows in buffer order. */
  function EncodeRows(pixels: seq<Pixel>, width: nat, height: nat): (s: seq<Byte>)
    requires |pixels| == width * height
    ensures |s| == height * Stride(width)
    decreases height
  {
    if height == 0 then
      []
    else
      MulSucc(width, height - 1);
      MulSucc(Stride(width), height - 1);
      EncodeRows(pixels[..(height - 1) * width], width, height - 1)
        + PixelBytes(pixels[(height - 1) * width..]) + Zeros(RowPadding(width))
  }

  /** Where the processor finds pixel x of row y: row y is read from offset
      `y * Stride(width)` and the padding after it is skipped. */
  function RowReader(data: seq<Byte>, width: nat): (nat, nat) -> Pixel {
    (x: nat, y: nat) => ReadPixel(data, y * Stride(width) + BYTES_PER_PIXEL * x)
  }

  /** The buffer the processor fills from the pixel data, row by row. */
  function DecodeRows(data: seq<Byte>, width: nat, height: nat): (img: seq<Pixel>)
    ensures |img| == width * height
  {
    Image(width, height, RowReader(data, width))
  }

  /** The generator's pixel at column x of row y: red grows with x, green
      with y, blue is 128. Both quotients are below 255, so the cast to
      `unsigned char` keeps them whole. */
  function GradientPixel(x: nat, y: nat, width: nat, height: nat): (p: Pixel)
    requires x < width && y < height
    ensures p.b == 128
    ensures p.r < 255 && p.r * width <= 255 * x < (p.r + 1) * width
    ensures p.g < 255 && p.g * height <= 255 * y < (p.g + 1) * height
  {
    ScaledBelow(x, width);
    ScaledBelow(y, height);
    Pixel(128, ToByte(y * 255 / height), ToByte(x * 255 / width))
  }

  function GradientAtCell(width: nat, height: nat): (nat, nat) --> Pixel {
    (x: nat, y: nat) requires x < width && y < height => GradientPixel(x, y, width, height)
  }

  /** The gradient image the generator writes. */
  function Gradient(width: nat, height: nat): (img: seq<Pixel>)
    ensures |img| == width * height
  {
    Image(width, height, GradientAtCell(width, height))
  }

  /** Pixel x of row y of an image built row by row sits at flat index `y * width + x`. */
  lemma {:induction false} ImageAt(width: nat, height: nat, f: (nat, nat) --> Pixel, x: nat, y: nat)
    requires forall x: nat, y: nat :: x < width && y < height ==> f.requires(x, y)
    requires x < width && y < height
    ensures y * width + x < width * height
    ensures Image(width, height, f)[y * width + x] == f(x, y)
    decreases height
  {
    MulSucc(width, height - 1);
    MulSucc(width, y);
    if y < height - 1 {
      MulMonotone(y + 1, height - 1, width);
      ImageAt(width, height - 1, f, x, y);
    }
  }

  /** The slice of row y, `[y * width, y * width + width)`, of a buffer
      filled row by row holds row y's pixels in column order. */
  lemma ImageRow(width: nat, height: nat, f: (nat, nat) --> Pixel, y: nat)
    requires forall x: nat, y: nat :: x < width && y < height ==> f.requires(x, y)
    requires y < height
    ensures RowRange(y, width).end <= width * height
    ensures Image(width, height, f)[RowRange(y, width).start..RowRange(y, width).end]
            == seq(width, x requires 0 <= x < width => f(x, y))
  {
    var img := Image(width, height, f);
    MulSucc(width, y);
    MulMonotone(y + 1, height, width);
    forall x | 0 <= x < width
      ensures img[y * width + x] == f(x, y)
    {
      ImageAt(width, height, f, x, y);
    }
  }

  /** The encoding of `height` rows extends the encoding of the first `height - 1`. */
  lemma EncodeRowsPrefix(pixels: seq<Pixel>, width: nat, height: nat, j: nat)
    requires |pixels| == width * height && height > 0
    requires j < (height - 1) * Stride(width)
    ensures (height - 1) * width <= |pixels|
    ensures EncodeRows(pixels, width, height)[j] == EncodeRows(pixels[..(height - 1) * width], width, height - 1)[j]
  {
    MulSucc(width, height - 1);
  }

  /** The last row's pixel bytes follow the encoding of the rows before it. */
  lemma EncodeRowsLastRow(pixels: seq<Pixel>, width: nat, height: nat, x: nat, k: nat, index: nat, offset: nat)
    requires |pixels| == width * height && height > 0
    requires x < width && k < BYTES_PER_PIXEL
    requires index == (height - 1) * width + x
    requires offset == (height - 1) * Stride(width) + BYTES_PER_PIXEL * x + k
    ensures index < |pixels| && offset < height * Stride(width)
    ensures EncodeRows(pixels, width, height)[offset] == Channel(pixels[index], k)
  {
    var rowStart, rowOffset := (height - 1) * width, (height - 1) * Stride(width);
    MulSucc(width, height - 1);
    MulSucc(Stride(width), height - 1);
    var rest := EncodeRows(pixels[..rowStart], width, height - 1);
    var last := pixels[rowStart..];
    var row := PixelBytes(last);
    var i := BYTES_PER_PIXEL * x + k;
    PixelBytesAt(last, x, k);
    assert last[x] == pixels[index];
    assert |rest| == rowOffset && offset == rowOffset + i;
    assert EncodeRows(pixels, width, height) == rest + row + Zeros(RowPadding(width));
  }

  /** Byte k of pixel x of a run of pixels is at offset `3 * x + k` of its bytes. */
  lemma PixelBytesAt(ps: seq<Pixel>, x: nat, k: nat)
    requires x < |ps| && k < BYTES_PER_PIXEL
    ensures BYTES_PER_PIXEL * x + k < |PixelBytes(ps)|
    ensures PixelBytes(ps)[BYTES_PER_PIXEL * x + k] == Channel(ps[x], k)
  {
    var s := PixelBytes(ps);
    assert s[3 * x..3 * x + 3] == [ps[x].b, ps[x].g, ps[x].r];
    assert s[3 * x + k] == s[3 * x..3 * x + 3][k];
  }

  /** Byte k of pixel x of row y, the pixel at flat index `y * width + x`, is
      at offset `y * Stride(width) + 3 * x + k` of the encoded rows. */
  lemma {:induction false} EncodeRowsAt(pixels: seq<Pixel>, width: nat, height: nat, x: nat, y: nat, k: nat,
                                        index: nat, offset: nat)
    requires |pixels| == width * height
    requires x < width && y < height && k < BYTES_PER_PIXEL
    requires index == y * width + x
    requires offset == y * Stride(width) + BYTES_PER_PIXEL * x + k
    ensures index < |pixels| && offset < height * Stride(width)
    ensures EncodeRows(pixels, width, height)[offset] == Channel(pixels[index], k)
    decreases height
  {
    if y < height - 1 {
      MulSucc(width, height - 1);
      MulSucc(Stride(width), height - 1);
      var prefix := pixels[..(height - 1) * width];
      EncodeRowsAt(prefix, width, height - 1, x, y, k, index, offset);
      EncodeRowsPrefix(pixels, width, height, offset);
      assert prefix[index] == pixels[index];
    } else {
      EncodeRowsLastRow(pixels, width, height, x, k, index, offset);
    }
  }

  /** The bytes after each row's pixels are zero. */
  lemma {:induction false} EncodeRowsPadding(pixels: seq<Pixel>, width: nat, height: nat, y: nat, j: nat)
    requires |pixels| == width * height
    requires y < height && j < RowPadding(width)
    ensures y * Stride(width) + BYTES_PER_PIXEL * width + j < height * Stride(width)
    ensures EncodeRows(pixels, width, height)[y * Stride(width) + BYTES_PER_PIXEL * width + j] == 0
    decreases height
  {
    var s := Stride(width);
    MulSucc(width, height - 1);
    MulSucc(s, height - 1);
    MulSucc(s, y);
    if y < height - 1 {
      MulMonotone(y + 1, height - 1, s);
      EncodeRowsPadding(pixels[..(height - 1) * width], width, height - 1, y, j);
    }
  }

  /** Round trip: reading back the rows that were written gives the buffer
      that was written. */
  lemma DecodeEncodeRows(pixels: seq<Pixel>, width: nat, height: nat)
    requires |pixels| == width * height
    ensures DecodeRows(EncodeRows(pixels, width, height), width, height) == pixels
  {
    var img := DecodeRows(EncodeRows(pixels, width, height), width, height);
    forall i | 0 <= i < |pixels|
      ensures img[i] == pixels[i]
    {
      DecodeEncodeIndex(pixels, width, height, i);
    }
  }

  lemma DecodeEncodeIndex(pixels: seq<Pixel>, width: nat, height: nat, i: nat)
    requires |pixels| == width * height && i < |pixels|
    ensures DecodeRows(EncodeRows(pixels, width, height), width, height)[i] == pixels[i]
  {
    var x, y := CellOfIndex(width, height, i);
    var offset := y * Stride(width) + BYTES_PER_PIXEL * x;
    var data := EncodeRows(pixels, width, height);
    DecodeRowsAt(data, width, height, x, y, i, offset);
    ReadEncodedPixel(pixels, width, height, x, y, i, offset);
  }

  /** The processor reads pixel x of row y from offset `y * Stride(width) + 3 * x`. */
  lemma DecodeRowsAt(data: seq<Byte>, width: nat, height: nat, x: nat, y: nat, index: nat, offset: nat)
    requires x < width && y < height
    requires index == y * width + x && offset == y * Stride(width) + BYTES_PER_PIXEL * x
    ensures index < width * height
    ensures DecodeRows(data, width, height)[index] == ReadPixel(data, offset)
  {
    ImageAt(width, height, RowReader(data, width), x, y);
  }

  /** The three bytes at a pixel's offset in the encoded rows are that pixel. */
  lemma ReadEncodedPixel(pixels: seq<Pixel>, width: nat, height: nat, x: nat, y: nat, index: nat, offset: nat)
    requires |pixels| == width * height && x < width && y < height
    requires index == y * width + x && offset == y * Stride(width) + BYTES_PER_PIXEL * x
    ensures index < |pixels|
    ensures ReadPixel(EncodeRows(pixels, width, height), offset) == pixels[index]
  {
    var data := EncodeRows(pixels, width, height);
    EncodeRowsAt(pixels, width, height, x, y, 0, index, offset);
    EncodeRowsAt(pixels, width, height, x, y, 1, index, offset + 1);
    EncodeRowsAt(pixels, width, height, x, y, 2, index, offset + 2);
    var p := pixels[index];
    assert ByteAt(data, offset) == p.b && ByteAt(data, offset + 1) == p.g && ByteAt(data, offset + 2) == p.r;
  }

  /** Every pixel of the gradient is the generator's value for its column and row. */
  lemma GradientAt(width: nat, height: nat, x: nat, y: nat)
    requires x < width && y < height
    ensures y * width + x < width * height
    ensures Gradient(width, height)[y * width + x] == GradientPixel(x, y, width, height)
  {
    ImageAt(width, height, GradientAtCell(width, height), x, y);
  }

  /** `255 * v / n` is below 255 when v is below n. */
  lemma ScaledBelow(v: nat, n: nat)
    requires v < n
    ensures v * 255 / n < 255
    ensures (v * 255 / n) * n <= 255 * v < (v * 255 / n + 1) * n
  {
    var q := v * 255 / n;
    assert v * 255 == n * q + v * 255 % n;
    assert v * 255 < n * 255;
    MulMonotoneIf(255, q, n);
  }
}
