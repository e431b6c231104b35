# Ultra-Fast-Image-Processor: a Dafny model of the BMP generator and threaded grayscale pass

The program (`a.cpp`) has two parts:

- It writes a gradient image as an uncompressed 24-bit Windows BMP. The file is a 14-byte BITMAPFILEHEADER, then a 40-byte BITMAPINFOHEADER, then rows of blue-green-red pixels, each row padded with zeros to a multiple of four bytes.
- It reads such a file back into a `width * height` pixel vector and checks the "BM" signature. It splits the vector into one range per hardware thread, turns each range gray in its own thread, joins the threads, and writes the headers and rows back out.

This project models the logic between the file operations, on byte sequences and on an array of pixels:

- `Bytes` (bytes.dfy): `unsigned char`, 32-bit `int` and `unsigned int`, and the little-endian 4-byte layout that `memcpy` produces for them. Encoding and decoding are proved inverse in both directions.
- `Ranges` (ranges.dfy): half-open index ranges and the `Tiles` predicate. A sequence of ranges tiles `[lo, hi)` when the ranges are contiguous and ordered. A tiling covers `[lo, hi)` exactly, its ranges are pairwise disjoint, and their lengths add up to `hi - lo`.
- `Layout` (layout.dfy): row padding, row stride, the stored file size, and the row slices of the flat pixel buffer.
- `Header` (header.dfy): the two headers the generator fills, and the processor's parse of them. The parse checks the signature and reads the width and height.
- `Pixels` (pixels.dfy):
  - the `Pixel` record, with bytes in memory order b, g, r;
  - writing the buffer as padded rows, and reading it back;
  - the gradient the generator computes.
- `Grayscale` (grayscale.dfy): the in-place `ApplyGrayscale` loop over a range of the pixel array. It also covers what running several ranges one after another does.
- `Threads` (threads.dfy): the thread count with its fallback of 4, the split of the buffer into per-thread ranges, and the threaded pass as a loop over those ranges.
- `Bmp` (bmp.dfy): the generator's whole output, the processor's whole output, and the two composed.
- `Arith` (arith.dfy): multiplication and division facts used by the proofs.

The threads run on disjoint ranges and are all joined before the buffer is read again. So running their ranges one after another gives exactly the threaded result. `ApplyDisjointRanges` and `ApplyRangesOrderIrrelevant` prove that the result does not depend on the order. `ThreadCountIrrelevant` proves that it does not depend on the number of threads.

The gray level (`0.3 * r + 0.59 * g + 0.11 * b` in double precision, truncated to a byte) is a parameter `luma: (Byte, Byte, Byte) -> Byte`. Every property proved holds for any such function.

## Model

| member | source | states |
|---|---|---|
| Bytes.ToByte | a.cpp:60-61 | `static_cast<unsigned char>` keeps the value modulo 256, and keeps any value below 256 unchanged |
| Bytes.EncodeU32 | a.cpp:30 | the four bytes of an `unsigned int`, least significant first: their base-256 positional value is the value copied |
| Bytes.DecodeU32 | a.cpp:30 | four bytes read as an `unsigned int` give a value in `[0, 2^32)` |
| Bytes.ToUnsigned | a.cpp:46-47 | an `int` reinterpreted as `unsigned int` lies in `[0, 2^32)` and is congruent to it modulo 2^32 |
| Bytes.ToSigned | a.cpp:98-99 | an `unsigned int` bit pattern reinterpreted as `int` lies in the `int` range and is congruent to it modulo 2^32 |
| Bytes.EncodeI32 | a.cpp:46-47 | the four bytes `memcpy` copies out of an `int`; the top bit of the last byte is set exactly when the value is negative |
| Bytes.DecodeI32 | a.cpp:98-99 | the `int` `memcpy` assembles from four bytes lies in the `int` range and is negative exactly when the top bit of the last byte is set |
| Bytes.DecodeEncodeU32 | a.cpp:30 | reading back the four little-endian bytes of an `unsigned int` gives the value that was written |
| Bytes.EncodeDecodeU32 | a.cpp:30 | every four bytes are the encoding of the value they decode to, so encoding and decoding are a bijection |
| Bytes.DecodeEncodeI32 | a.cpp:46-47 | an `int` copied into four bytes and copied back out is unchanged, negative values included |
| Bytes.EncodeDecodeI32 | a.cpp:97-99 | the `int` assembled from any four bytes re-encodes to exactly those bytes |
| Bytes.EncodeI32NonNegative | a.cpp:46-47 | a non-negative `int` has the same bytes as the `unsigned int` of that value |
| Ranges.TilesOrdered | a.cpp:115-119 | in a tiling of `[lo, hi)`, a later range starts no earlier than an earlier one ends, and all ranges lie within `[lo, hi]` |
| Ranges.TilesCover | a.cpp:115-119 | an index lies in some range of a tiling exactly when it lies in `[lo, hi)` |
| Ranges.TilesDisjoint | a.cpp:115-119 | no index lies in two ranges of a tiling |
| Ranges.TilesTotalLength | a.cpp:115-119 | the lengths of a tiling's ranges add up to `hi - lo`: no index is lost and none is counted twice |
| Layout.RowPadding | a.cpp:55 | the padding is below 4, brings `3 * width` bytes to a multiple of four, and is the least amount that does |
| Layout.Stride | a.cpp:65 | a padded row is a multiple of four bytes long, and at most 3 bytes longer than its pixels |
| Layout.FileSize | a.cpp:23 | the stored file size is the 14 + 40 = 54 header bytes plus `height` padded rows of `Stride(width)` bytes |
| Layout.RowsTile | a.cpp:103-105 | the row slices `[y * width, y * width + width)` for `y < height` tile `[0, width * height)` |
| Layout.RowOfIndex | a.cpp:104-105 | every buffer index lies in row `index / width`, which is below `height`, and in no other row |
| Header.ParseHeader | a.cpp:92-99 | the processor accepts the headers exactly when the first two bytes are "BM"; the width and height it returns re-encode to bytes 4..8 and 8..12 of the info header |
| Header.FileHeader | a.cpp:24-30 | the 14-byte file header starts with "BM"; bytes 2..6 decode to the given file size, the reserved bytes to 0 and bytes 10..14 to the pixel data offset 54 |
| Header.InfoHeader | a.cpp:33-47 | the 40-byte info header decodes to its size 40, the given width and height (negative ones included), 1 plane, 24 bits per pixel and compression 0, and bytes 20..40 (image size, resolutions, colour counts) are zero |
| Header.ParseGeneratedHeader | a.cpp:97-99 | parsing the generator's headers gives back the width and height that were written |
| Header.ParseRejectsBadSignature | a.cpp:92-95 | headers whose first byte is not 'B' or whose second is not 'M' are refused |
| Pixels.PixelBytes | a.cpp:63 | a run of pixels takes 3 bytes per pixel, pixel i at bytes `3i`, `3i + 1`, `3i + 2` in the order b, g, r |
| Pixels.PixelBytesAt | a.cpp:63 | byte k of pixel x of a run is at offset `3 * x + k`, in b, g, r order |
| Pixels.ReadPixel | a.cpp:103-107 | three bytes inside the data are read as the pixel whose bytes they are; a pixel read wholly past the end of the data stays zero |
| Pixels.Image | a.cpp:103-105 | a buffer filled row by row holds `width * height` pixels |
| Pixels.ImageRow | a.cpp:103-105 | the slice `[y * width, y * width + width)` of a buffer filled row by row is row y, in column order |
| Pixels.DecodeRows | a.cpp:103-107 | the processor's buffer holds `width * height` pixels whatever the length of the data it read |
| Pixels.EncodeRows | a.cpp:136-139 | the rows written take exactly `height * Stride(width)` bytes |
| Pixels.ImageAt | a.cpp:104-105 | in a buffer filled row by row, pixel x of row y sits at flat index `y * width + x`, inside the buffer |
| Pixels.EncodeRowsAt | a.cpp:136-139 | byte k of pixel x of row y, buffer index `y * width + x`, is written at offset `y * stride + 3 * x + k`, in b, g, r order |
| Pixels.DecodeRowsAt | a.cpp:103-107 | the processor fills pixel x of row y from the three bytes at offset `y * stride + 3 * x` of the pixel data |
| Pixels.ReadEncodedPixel | a.cpp:136-139 | the three bytes written for a pixel read back as that pixel |
| Pixels.EncodeRowsPadding | a.cpp:136-139 | the padding bytes after each row are zero |
| Pixels.DecodeEncodeRows | a.cpp:103-107 | reading back the padded rows that were written gives the pixel buffer that was written |
| Pixels.GradientPixel | a.cpp:57-62 | blue is 128, red is the floor of `255 * x / width` and green the floor of `255 * y / height`, each below 255, so the byte cast loses nothing |
| Pixels.Gradient | a.cpp:57-64 | the generated image has `width * height` pixels |
| Pixels.GradientAt | a.cpp:57-64 | pixel x of row y of the generated image is the gradient value for (x, y) |
| Grayscale.ToGray | a.cpp:74-75 | the transformed pixel has r = g = b, equal to the gray level of the original pixel's (r, g, b) |
| Grayscale.GrayscaleRange | a.cpp:72-76 | after a pass over `[start, end)`, each pixel there is gray with the gray level of its own (r, g, b), and every other pixel is unchanged |
| Grayscale.ApplyGrayscale | a.cpp:72-77 | afterwards the array is the original with `[start, end)` turned gray. Each pixel there has r = g = b, computed from that pixel alone. Every other pixel is unchanged |
| Grayscale.ApplyRanges | a.cpp:117-125 | running the thread ranges one after another keeps the buffer's length |
| Grayscale.ApplyDisjointRanges | a.cpp:117-125 | processing disjoint ranges one after another turns gray exactly the pixels some range contains, each from its own original value |
| Grayscale.ApplyRangesOrderIrrelevant | a.cpp:123-125 | two disjoint lists of the same ranges, in any order, leave the same buffer |
| Grayscale.ApplyTiling | a.cpp:117-125 | processing ranges that tile the buffer, one after another, equals one pass over the whole buffer |
| Grayscale.GrayscaleAdjacent | a.cpp:72-76 | processing `[start, mid)` and then `[mid, end)` equals processing `[start, end)` |
| Threads.ThreadCount | a.cpp:111-112 | the thread count is the reported concurrency, or 4 when 0 is reported, and so is always at least 1 |
| Threads.Partition | a.cpp:115-119 | the partition has one range per thread |
| Threads.PartitionTiles | a.cpp:115-119 | the thread ranges tile `[0, total)`: range 0 starts at 0, the last ends at `total`, and each ends where the next starts. Each range but the last holds `total / n` pixels, the last `total / n + total % n` |
| Threads.MoreThreadsThanPixels | a.cpp:115-119 | with more threads than pixels, all ranges but the last are empty and the last is `[0, total)` |
| Threads.PartitionOwner | a.cpp:117-120 | every pixel index below `total` belongs to some thread's range, and to no two |
| Threads.PartitionTotalLength | a.cpp:115-119 | the thread ranges hold `total` pixels in all |
| Threads.ThreadCountIrrelevant | a.cpp:111-125 | any two thread counts give the same buffer, namely the whole buffer turned gray |
| Threads.GrayscaleThreads | a.cpp:111-125 | after the threaded pass, modelled as its ranges run in sequence, every pixel is turned gray. This equals the thread ranges applied one after another |
| Bmp.GeneratedFile | a.cpp:22-66 | the generator writes exactly as many bytes as the file size it stores |
| Bmp.GeneratedFileHeader | a.cpp:23-47 | the stored file size decodes to the generated file's length, and the stored dimensions parse back as given |
| Bmp.GeneratedFileRows | a.cpp:53-66 | after the 54 header bytes the generator writes the padded rows of the gradient, row by row with zero padding, and they read back as the gradient |
| Bmp.ProcessedFile | a.cpp:79-143 | the processor refuses exactly the files without the "BM" signature; otherwise what it writes starts with the two headers exactly as it read them |
| Bmp.ProcessedFileContents | a.cpp:100-139 | after the headers, the processor writes the padded rows of the gray buffer (pixel bytes placed by `EncodeRowsAt`, padding zero by `EncodeRowsPadding`, whatever padding the input had), `height * Stride(width)` bytes that read back as the input pixels turned gray |
| Bmp.ProcessGeneratedFile | a.cpp:151-161 | processing a generated file succeeds and keeps the headers and the size. Its rows are the gradient turned gray |
| Bmp.ProcessBmp | a.cpp:79-143 | parsing the headers, filling the buffer row by row, running the threaded pass and writing the rows produces `ProcessedFile` of the bytes read |

## Left out

- File opening, reading, writing and `ignore`, the error messages on `std::cerr`, and `return false` when a file cannot be opened. The model works on the bytes the streams carry. Input shorter than the 54 header bytes is not modelled: the headers are taken as the 14 and 40 bytes given. Pixel bytes past the end of the data read as 0, because the vector starts zeroed and a failed read stores nothing.
- `std::thread` creation and `join`. The threads are modelled as their ranges run one after another, which the order-independence lemmas justify.
- `std::thread::hardware_concurrency()` is an input. A reported value above the largest `int` is not modelled.
- Grayscale.ToGray: the gray level is an arbitrary function of (r, g, b). The exact double-precision value `0.3 * r + 0.59 * g + 0.11 * b` and its truncation are not modelled, so no exact output values are claimed. Nor is idempotence: the three weights sum to slightly less than 1 in double precision, so truncation can map a gray pixel to a darker one, and a second pass need not leave the buffer unchanged.
- Signed `int` overflow and negative widths or heights are not handled by the program. `Bmp.ProcessBmp` and `Bmp.ProcessedFile` require that the parsed width and height be non-negative and that `width * 3` and `width * height` fit in an `int`. `Bmp.GeneratedFile` also requires that `255 * width`, `255 * height` and the stored file size fit, so the gradient's `x * 255` and `y * 255` never overflow.
- Header fields other than the signature, width and height are not checked by the processor, and the model does not check them either. Among them are the stored file size, the bits per pixel and the data offset.
- `main` runs the two steps on a fixed 256 by 256 image and prints progress messages. Only the composition of the two steps is modelled (`Bmp.ProcessGeneratedFile`).
- graph_plotter.py is not part of this model. It plots timings with matplotlib and has no logic to verify.
