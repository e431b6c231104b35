/** The two operations of the program, on bytes rather than files: the
    generator's output for a gradient image, and the processor's output for
    the bytes it reads. */
module Bmp {
  import opened Bytes
  import opened Layout
  import opened Header
  import opened Pixels
  import opened Grayscale
  import opened Threads

  /** Every byte the generator writes for a `width` by `height` gradient:
      the file header, the info header, then the padded rows. */
  function GeneratedFile(width: nat, height: nat): (file: seq<Byte>)
    requires GeneratableDims(width, height)
    ensures |file| == FileSize(width, height)
  {
    FileHeader(FileSize(width, height)) + InfoHeader(width, height)
      + EncodeRows(Gradient(width, height), width, height)
  }

  /** The size the generator stores in the file header is the length of the
      file it writes, and the stored dimensions read back as given. */
  lemma GeneratedFileHeader(width: nat, height: nat)
    requires GeneratableDims(width, height)
    ensures |GeneratedFile(width, height)| >= PIXEL_DATA_OFFSET
    ensures DecodeU32(GeneratedFile(width, height)[2..6]) == |GeneratedFile(width, height)|
    ensures ParseHeader(GeneratedFile(width, height)[..FILE_HEADER_SIZE],
                        GeneratedFile(width, height)[FILE_HEADER_SIZE..PIXEL_DATA_OFFSET])
            == Ok(Dims(width, height))
  {
    var file := GeneratedFile(width, height);
    var size := FileSize(width, height);
    assert file[..FILE_HEADER_SIZE] == FileHeader(size);
    assert file[FILE_HEADER_SIZE..PIXEL_DATA_OFFSET] == InfoHeader(width, height);
    assert file[2..6] == FileHeader(size)[2..6];
    ParseGeneratedHeader(size, width, height);
  }

  /** After its 54 header bytes, the generator writes the gradient row by
      row, each row followed by its zero padding: the bytes are the padded
      rows of `Gradient`, and they read back as that gradient. */
  lemma GeneratedFileRows(width: nat, height: nat)
    requires GeneratableDims(width, height)
    ensures |GeneratedFile(width, height)| >= PIXEL_DATA_OFFSET
    ensures GeneratedFile(width, height)[PIXEL_DATA_OFFSET..] == EncodeRows(Gradient(width, height), width, height)
    ensures DecodeRows(GeneratedFile(width, height)[PIXEL_DATA_OFFSET..], width, height) == Gradient(width, height)
  {
    var file := GeneratedFile(width, height);
    assert |FileHeader(FileSize(width, height)) + InfoHeader(width, height)| == PIXEL_DATA_OFFSET;
    assert file[PIXEL_DATA_OFFSET..] == EncodeRows(Gradient(width, height), width, height);
    DecodeEncodeRows(Gradient(width, height), width, height);
  }

  /** Header and pixel bytes the processor can work on without overflow. */
  predicate Processable(fileHeader: seq<Byte>, infoHeader: seq<Byte>)
    requires |fileHeader| == FILE_HEADER_SIZE && |infoHeader| == INFO_HEADER_SIZE
  {
    var parsed := ParseHeader(fileHeader, infoHeader);
    parsed.Ok? ==> ProcessableDims(parsed.value.width, parsed.value.height)
  }

  /** What the processor writes for the headers and pixel data it read: the
      two headers unchanged, then the rows of the buffer with every pixel
      turned gray. A file without the "BM" signature is refused. */
  function ProcessedFile(fileHeader: seq<Byte>, infoHeader: seq<Byte>, data: seq<Byte>, luma: Luma)
    : (r: Result<seq<Byte>>)
    requires |fileHeader| == FILE_HEADER_SIZE && |infoHeader| == INFO_HEADER_SIZE
    requires Processable(fileHeader, infoHeader)
    ensures r.Ok? <==> SignatureOk(fileHeader)
    ensures r.Ok? ==> |r.value| >= PIXEL_DATA_OFFSET && r.value[..PIXEL_DATA_OFFSET] == fileHeader + infoHeader
  {
    match ParseHeader(fileHeader, infoHeader)
    case Err(e) => Err(e)
    case Ok(dims) =>
      var pixels := DecodeRows(data, dims.width, dims.height);
      Ok(fileHeader + infoHeader
         + EncodeRows(GrayscaleRange(pixels, 0, |pixels|, luma), dims.width, dims.height))
  }

  /** What the processor writes after the headers is `height` rows of the
      gray buffer, each followed by zero padding (`EncodeRowsAt` and
      `EncodeRowsPadding` place every byte), and those rows read back as the
      input's pixels turned gray. */
  lemma ProcessedFileContents(fileHeader: seq<Byte>, infoHeader: seq<Byte>, data: seq<Byte>, luma: Luma)
    requires |fileHeader| == FILE_HEADER_SIZE && |infoHeader| == INFO_HEADER_SIZE
    requires Processable(fileHeader, infoHeader)
    ensures SignatureOk(fileHeader) ==>
      var dims := ParseHeader(fileHeader, infoHeader).value;
      var out := ProcessedFile(fileHeader, infoHeader, data, luma).value;
      var input := DecodeRows(data, dims.width, dims.height);
      && |out| == PIXEL_DATA_OFFSET + dims.height * Stride(dims.width)
      && out[PIXEL_DATA_OFFSET..] == EncodeRows(GrayscaleRange(input, 0, |input|, luma), dims.width, dims.height)
      && DecodeRows(out[PIXEL_DATA_OFFSET..], dims.width, dims.height) == GrayscaleRange(input, 0, |input|, luma)
      && forall i :: 0 <= i < |input| ==>
           IsGray(DecodeRows(out[PIXEL_DATA_OFFSET..], dims.width, dims.height)[i])
  {
    if SignatureOk(fileHeader) {
      var dims := ParseHeader(fileHeader, infoHeader).value;
      var input := DecodeRows(data, dims.width, dims.height);
      var gray := GrayscaleRange(input, 0, |input|, luma);
      var out := ProcessedFile(fileHeader, infoHeader, data, luma).value;
      assert out[PIXEL_DATA_OFFSET..] == EncodeRows(gray, dims.width, dims.height);
      DecodeEncodeRows(gray, dims.width, dims.height);
    }
  }

  /** Processing a generated file refuses nothing, keeps the file's size, and
      turns every gradient pixel gray. */
  lemma ProcessGeneratedFile(width: nat, height: nat, luma: Luma)
    requires GeneratableDims(width, height)
    ensures |GeneratedFile(width, height)| >= PIXEL_DATA_OFFSET
    ensures var file := GeneratedFile(width, height);
      Processable(file[..FILE_HEADER_SIZE], file[FILE_HEADER_SIZE..PIXEL_DATA_OFFSET])
      && ProcessedFile(file[..FILE_HEADER_SIZE], file[FILE_HEADER_SIZE..PIXEL_DATA_OFFSET],
                       file[PIXEL_DATA_OFFSET..], luma)
         == Ok(file[..PIXEL_DATA_OFFSET]
               + EncodeRows(GrayscaleRange(Gradient(width, height), 0, width * height, luma), width, height))
  {
    var file := GeneratedFile(width, height);
    GeneratedFileHeader(width, height);
    var fileHeader, infoHeader := file[..FILE_HEADER_SIZE], file[FILE_HEADER_SIZE..PIXEL_DATA_OFFSET];
    var data := file[PIXEL_DATA_OFFSET..];
    assert ParseHeader(fileHeader, infoHeader) == Ok(Dims(width, height));
    var gradient := Gradient(width, height);
    assert data == EncodeRows(gradient, width, height);
    DecodeEncodeRows(gradient, width, height);
    assert DecodeRows(data, width, height) == gradient;
    assert fileHeader + infoHeader == file[..PIXEL_DATA_OFFSET];
  }

  /** The processor on the bytes it read: parse the headers, fill the pixel
      buffer row by row, run the threaded grayscale pass, and produce the
      bytes it writes. */
  method ProcessBmp(fileHeader: seq<Byte>, infoHeader: seq<Byte>, data: seq<Byte>,
                    hardwareConcurrency: nat, luma: Luma)
    returns (r: Result<seq<Byte>>)
    requires |fileHeader| == FILE_HEADER_SIZE && |infoHeader| == INFO_HEADER_SIZE
    requires Processable(fileHeader, infoHeader)
    ensures r == ProcessedFile(fileHeader, infoHeader, data, luma)
  {
    var parsed := ParseHeader(fileHeader, infoHeader);
    if parsed.Err? {
      return Err(parsed.error);
    }
    var width: nat, height: nat := parsed.value.width, parsed.value.height;
    var decoded := DecodeRows(data, width, height);
    var pixels := new Pixel[|decoded|](i requires 0 <= i < |decoded| => decoded[i]);
    assert pixels[..] == decoded;
    GrayscaleThreads(pixels, hardwareConcurrency, luma);
    assert pixels[..] == GrayscaleRange(decoded, 0, |decoded|, luma);
    r := Ok(fileHeader + infoHeader + EncodeRows(pixels[..], width, height));
  }
}
