/** The two BMP headers as the generator fills them and as the processor
    reads them back: a 14-byte file header (signature "BM", file size, four
    reserved bytes, pixel data offset) and a 40-byte info header (its own
    size, width, height, one plane, 24 bits per pixel, no compression, the
    rest zero). */
module Header {
  import opened Bytes
  import opened Layout

  const CHAR_B: Byte := 66
  const CHAR_M: Byte := 77
  /** The two bytes every BMP file starts with: 'B', 'M'. */
  const SIGNATURE: seq<Byte> := [CHAR_B, CHAR_M]

  datatype BmpError = NotBmp

  datatype Result<T> = Ok(value: T) | Err(error: BmpError)

  /** Width and height as the info header stores them: C++ `int`s. */
  datatype Dims = Dims(width: int, height: int)

  /** The file header: the signature, `fileSize` copied into bytes 2..6,
      four zero reserved bytes and the pixel data offset 54, each field as a
      little-endian reader decodes it. */
  function FileHeader(fileSize: int): (s: seq<Byte>)
    requires IsUint32(fileSize)
    ensures |s| == FILE_HEADER_SIZE
    ensures s[..2] == SIGNATURE
    ensures DecodeU32(s[2..6]) == fileSize
    ensures DecodeU32(s[6..10]) == 0
    ensures DecodeU32(s[10..14]) == PIXEL_DATA_OFFSET
  {
    var s := SIGNATURE + EncodeU32(fileSize) + [0, 0, 0, 0] + [PIXEL_DATA_OFFSET, 0, 0, 0];
    assert s[2..6] == EncodeU32(fileSize);
    DecodeEncodeU32(fileSize);
    s
  }

  /** The info header: its own size 40, `width` and `height` copied into
      bytes 4..8 and 8..12, one plane, 24 bits per pixel, no compression, and
      zeros for the rest. */
  function InfoHeader(width: int, height: int): (s: seq<Byte>)
    requires IsInt32(width) && IsInt32(height)
    ensures |s| == INFO_HEADER_SIZE
    ensures DecodeU32(s[..4]) == INFO_HEADER_SIZE
    ensures DecodeI32(s[4..8]) == width
    ensures DecodeI32(s[8..12]) == height
    ensures s[12..16] == [1, 0, 24, 0]
    ensures DecodeU32(s[16..20]) == 0
    ensures forall i :: 20 <= i < INFO_HEADER_SIZE ==> s[i] == 0
  {
    var s := [INFO_HEADER_SIZE, 0, 0, 0] + EncodeI32(width) + EncodeI32(height)
      + [1, 0] + [24, 0] + seq(24, _ => 0);
    assert s[4..8] == EncodeI32(width);
    assert s[8..12] == EncodeI32(height);
    assert s[16..20] == [0, 0, 0, 0];
    DecodeEncodeI32(width);
    DecodeEncodeI32(height);
    s
  }

  /** The file starts with 'B', 'M'. */
  predicate SignatureOk(fileHeader: seq<Byte>)
    requires |fileHeader| == FILE_HEADER_SIZE
  {
    fileHeader[0] == CHAR_B && fileHeader[1] == CHAR_M
  }

  /** What the processor takes from the headers it read: a file whose first
      two bytes are not "BM" is refused; otherwise width and height are the
      `int`s in bytes 4..8 and 8..12 of the info header. No other field is
      looked at. */
  function ParseHeader(fileHeader: seq<Byte>, infoHeader: seq<Byte>): (r: Result<Dims>)
    requires |fileHeader| == FILE_HEADER_SIZE && |infoHeader| == INFO_HEADER_SIZE
    ensures r.Ok? <==> fileHeader[..2] == SIGNATURE
    ensures r.Ok? ==> IsInt32(r.value.width) && IsInt32(r.value.height)
    ensures r.Ok? ==> EncodeI32(r.value.width) == infoHeader[4..8]
    ensures r.Ok? ==> EncodeI32(r.value.height) == infoHeader[8..12]
  {
    if !SignatureOk(fileHeader) then
      Err(NotBmp)
    else
      EncodeDecodeI32(infoHeader[4..8]);
      EncodeDecodeI32(infoHeader[8..12]);
      Ok(Dims(DecodeI32(infoHeader[4..8]), DecodeI32(infoHeader[8..12])))
  }

  /** Round trip: the processor reads back exactly the dimensions the
      generator wrote, whatever file size was stored. */
  lemma ParseGeneratedHeader(fileSize: int, width: int, height: int)
    requires IsUint32(fileSize) && IsInt32(width) && IsInt32(height)
    ensures ParseHeader(FileHeader(fileSize), InfoHeader(width, height)) == Ok(Dims(width, height))
  {
  }

  /** A file whose first or second byte differs from 'B' or 'M' is refused. */
  lemma ParseRejectsBadSignature(fileHeader: seq<Byte>, infoHeader: seq<Byte>)
    requires |fileHeader| == FILE_HEADER_SIZE && |infoHeader| == INFO_HEADER_SIZE
    requires fileHeader[0] != CHAR_B || fileHeader[1] != CHAR_M
    ensures ParseHeader(fileHeader, infoHeader) == Err(NotBmp)
  {
  }
}
