# BMP codec: a verified Dafny model

This project models a small C codec for uncompressed BMP images. A file is a
54-byte header followed by the pixel array. The header is the 14-byte file
header plus the 40-byte BITMAPINFOHEADER, packed and little-endian. The pixel
array holds rows of 3-byte pixels in blue, green, red order, each row padded
with zero bytes to a multiple of four.

The repository has two versions of the codec, and both are modelled:

- `bmp.c` at the root is the later version (module `BmpRoot`).
- `ps4/bmp.c` is the earlier version (module `BmpPs4`). It disagrees with the
  later one on the row geometry.

`flip_horizontally` (`ps4/transformations.c`) is modelled in `Transformations`.

The modules follow the program's layers:

- `ByteOrder`: 8-, 16- and 32-bit unsigned integers as integer newtypes, their
  little-endian bytes, and `swap_uint16`/`swap_uint32` written as arithmetic.
- `BmpFormat`: `struct bmp_header` as a datatype, its 54-byte encoding and
  decoding, how a header is loaded on a little- or big-endian host,
  `struct pixel`, and `struct bmp_image` as a class owning a header and a
  pixel array.
- `FileStream`: a `FILE*` as a class with contents and a position. `Seek`,
  `Read` and `Write` stand for `fseek`, `fread` and `fwrite`. A write past the
  end fills the gap with zeros.
- `PixelCodec`: the padded pixel array as functions (`EncodeRows`,
  `DecodeRows`) and the two row loops as methods proved against them
  (`ReadRows`, `WriteRows`). The body of each loop is a method of its own
  (`ReadRow`, `WriteRow`). Row positions are written `Cells(rows, n)`,
  which is `rows * n` counted one row at a time (`BmpFormat.CellsProduct`).
  Row i of the buffer starts at `Cells(i, width)`. In the file it starts at
  `Cells(i, 3 * width + padding)`.
- `BmpRoot`, `BmpPs4`: validation, geometry, header parsing, and the
  operations `read_bmp_header`, `read_data`, `read_bmp`, `write_bmp` and
  `create_bmp`.
- `ImageCopy`: `copy_data` and `copy_bmp`. The two versions implement these
  identically.
- `Transformations`: the mirror image as a function, and the two-counter swap
  loop over a copy as a method proved to compute it.

Some arithmetic is written out explicitly:

- In the geometry functions (`pixel_row_size`, `pixel_padding_size`,
  `pixel_array_size`, `bmp_file_size` and their ps4 counterparts), every
  `uint32_t` product or sum that can wrap is reduced modulo 2^32. Buffer
  sizes and indexes are not wrapped (see "Left out").
- `pixel_row_size` converts `bpp * width` to `float`. The model computes this
  exactly as IEEE 754 binary32 rounding to nearest, ties to even
  (`BmpRoot.ToFloat32`). It is not treated as `bpp * width / 8` with a size
  bound, so inputs of every size are covered. `RowSizeExact` shows that the
  two agree below 2^24. `RowSizeRoundsWideRows` shows a 24-bpp row of
  11184811 pixels where they do not: the header then records one byte a
  row less than the loops emit.
- At 16 bpp the header check counts 2 bytes a pixel (bmp.c:495), but
  `read_data` and `write_bmp` move 3-byte `struct pixel`s.
  `SixteenBitRowsDisagree` shows a 2x1 header that records 4 pixel bytes
  where the loops move 6. The model follows the code as written here and
  does not correct either side.

The host is taken to be little-endian (`ByteOrder.HOST`). The big-endian load
is still modelled and proved to be the byte-swapped little-endian decoding
(`BmpFormat.BigEndianLoadIsSwapped`). Reading a header is therefore
host-independent (`BmpRoot.ReadIsHostIndependent`).

Nothing here was executed. The statements below are what the verifier
accepts about the model.

## Model

| member | source | states |
|---|---|---|
| ByteOrder.SwapUint16 | bmp.c:546-549 | (x >> 8) \| (x << 8) on 16 bits |
| ByteOrder.SwapUint32 | bmp.c:550-554 | the bytes of each 16-bit half exchanged, then the two halves exchanged |
| ByteOrder.SwapUint16ReversesBytes | bmp.c:546-549 | the little-endian bytes of swap_uint16(x) are those of x in the opposite order |
| ByteOrder.SwapUint32ReversesBytes | bmp.c:550-554 | the four little-endian bytes of swap_uint32(x) are those of x reversed |
| ByteOrder.SwapUint16Involution | bmp.c:546-549 | swapping a 16-bit value twice gives it back |
| ByteOrder.SwapUint32Involution | bmp.c:550-554 | swapping a 32-bit value twice gives it back |
| BmpFormat.DecodeHeader | ps4/bmp.h:24-46 | the header a little-endian host holds after copying 54 bytes over the packed struct: each field read little-endian at its offset 0, 2, 6, 8, 10, 14, 18, 22, 26, 28, 30, 34, 38, 42, 46, 50 |
| BmpFormat.SwapFields | ps4/bmp.c:305-323 | every 16-bit field put through swap_uint16 and every 32-bit field through swap_uint32 |
| BmpFormat.Image.Valid | ps4/bmp.h:65-69 | the pixel buffer holds exactly width * height pixels |
| BmpFormat.EncodeHeader | ps4/bmp.h:24-46 | the packed header occupies exactly 54 bytes |
| BmpFormat.DecodeEncodeHeader | ps4/bmp.h:28-46 | decoding the 54-byte little-endian image of a header, fields at offsets 0,2,6,8,10,14,18,22,26,28,30,34,38,42,46,50, gives the header back |
| BmpFormat.EncodeDecodeHeader | ps4/bmp.h:28-46 | the header decoded from any 54 bytes encodes back to exactly those bytes |
| BmpFormat.MagicBytes | bmp.c:77 | the type field is the magic 0x4d42 exactly when the file starts with 0x42 'B', 0x4D 'M' |
| BmpFormat.SwapFieldsInvolution | ps4/bmp.c:305-323 | swapping every header field twice gives the header back |
| BmpFormat.BigEndianLoadIsSwapped | bmp.c:343-346 | the header a big-endian host loads is every field of the little-endian decoding byte-swapped, so one swap recovers that decoding |
| FileStream.OverwriteEffect | bmp.c:315 | a write covers pos .. pos + length with the block, grows the stream to reach its end, and leaves every other byte as it was or, in a gap, zero |
| FileStream.OverwriteConsecutive | bmp.c:328-332 | two writes back to back leave the stream as one write of both blocks |
| PixelCodec.EncodeRow | ps4/bmp.h:48-58 | a row of pixels is 3 bytes a pixel, and pixel j is the blue, green, red bytes at 3j, 3j+1, 3j+2 |
| PixelCodec.DecodeEncodeRow | bmp.c:369 | reading width pixels from the bytes of a row, whatever follows, yields that row |
| PixelCodec.EncodeRows | bmp.c:328-332 | the emitted pixel array has height rows of 3 * width + padding bytes each |
| PixelCodec.DecodeRows | bmp.c:366-371 | the pixels read from the array are height rows of width pixels |
| PixelCodec.DecodeRowsPrefix | bmp.c:366-371 | reading the rows looks only at the bytes they occupy |
| PixelCodec.EncodeRowsSplit | bmp.c:328-332 | the emitted array is the first height - 1 rows followed by the last row's pixel bytes and its padding |
| PixelCodec.EncodeRowsStep | bmp.c:328-332 | writing one more row appends that row's pixel bytes and padding to the array written so far |
| PixelCodec.DecodeRowsLast | bmp.c:367-371 | reading one more row appends the width pixels found at that row's start |
| PixelCodec.DecodeEncodeRows | bmp.c:353-373 | reading back the padded rows written for height rows of width pixels yields the same pixels |
| PixelCodec.ReadRow | bmp.c:369-370 | one read_data iteration: the width pixels at the stream position land at data[base ..], the cells before base keep their values, and the position moves past the row and its padding |
| PixelCodec.WriteRow | bmp.c:330-331 | one write_bmp iteration: the row's bytes and then the padding are written at the position, which extends the block written so far from the offset |
| PixelCodec.ReadRowsStep | bmp.c:367-371 | once row i is in place after the first i rows, the first i + 1 rows of the buffer are the first i + 1 rows of the file |
| PixelCodec.ReadRows | bmp.c:366-371 | the read_data loop leaves in the buffer exactly the rows decoded from the offset, row i taken from offset + i * (3 * width + padding); it leaves the stream contents alone and ends past the last row's padding |
| PixelCodec.WriteRows | bmp.c:327-332 | the write_bmp loop leaves the stream as the old contents overwritten at the offset by the padded rows, and ends after them |
| BmpRoot.RoundToMultiple | bmp.c:510 | the result is the multiple of the unit nearest to p, ties going to the even multiple |
| BmpRoot.ToFloat32 | bmp.c:510 | (float) of a 32-bit value is exact below 2^24 and off by at most 128 above it |
| BmpRoot.PixelRowSize | bmp.c:508-511 | pixel_row_size is the float-rounded 32-bit product bpp * width divided by 8, rounded down |
| BmpRoot.PixelPaddingSize | bmp.c:513-516 | the padding is at most 3 and brings the row size to a multiple of four |
| BmpRoot.PixelArraySize | bmp.c:518-521 | the array size is a multiple of four, and it is height * (row + padding) whenever that fits in 32 bits |
| BmpRoot.BmpFileSize | bmp.c:503-506 | the file size is offset + pixel array size whenever that fits in 32 bits |
| BmpRoot.BmpHeaderValid | bmp.c:486-501 | valid exactly when the type is 'BM', the offset 54, the DIB size 40, one plane, no compression, no palette and no important colours, 16 or 24 bpp, width and height at least 1, and the size equal to bmp_file_size |
| BmpRoot.RowSizeExact | bmp.c:508-511 | while bpp * width < 2^24 the row size is bpp * width / 8: 2 * width at 16 bpp, 3 * width at 24 bpp |
| BmpRoot.RowSizeRoundsWideRows | bmp.c:510 | at 24 bpp and width 11184811 the row size is 33554432, not 3 * width = 33554433 |
| BmpRoot.FixtureSizes | ps4/tests/testh_transformations.c:66-116 | a 24-bpp header of 2x2, 3x2, 2x4 or 2x1 pixels has pixel array sizes 16, 24, 32 and 8 and file sizes 70, 78 and 86 |
| BmpRoot.ValidIgnoresUncheckedFields | bmp.c:486-501 | validity does not depend on reserved1, reserved2, image_size, x_ppm or y_ppm |
| BmpRoot.SwapEndianness | bmp.c:523-544 | swap_endianness does nothing on a little-endian host and undoes itself on a big-endian one |
| BmpRoot.ReadIsHostIndependent | bmp.c:343-346 | loading the header and swapping it gives the little-endian decoding on either host |
| BmpRoot.ParseHeader | bmp.c:336-351 | a header comes back exactly when the decoded 54 bytes are valid, and it is their decoding, which re-encodes to those bytes |
| BmpRoot.WrittenFileReadsBack | bmp.c:309-373 | a valid header followed by its padded rows parses back to that header, the rows fit, and they read back as the same pixels |
| BmpRoot.EncodedLengthMatchesSize | bmp.c:518-521 | at 24 bpp, while 24 * width < 2^24 and nothing wraps, the rows the loops emit have exactly pixel_array_size bytes, and 54 plus that is the recorded size |
| BmpRoot.SixteenBitRowsDisagree | bmp.c:495 | a 16-bpp header is accepted with 2 bytes a pixel while the loops move 3: for 2x1 pixels it records 4 bytes and the loops emit 6 |
| BmpRoot.Resized | bmp.c:421-425 | the derived header is the template with only width, height, size and image_size changed: width and height as given, size = bmp_file_size, image_size = pixel_array_size |
| BmpRoot.ResizedValid | bmp.c:421-426 | resizing a valid template gives a valid header exactly when both dimensions are at least 1 |
| BmpRoot.ReadBmpHeader | bmp.c:336-351 | NULL for a NULL stream; otherwise the parsed first 54 bytes, NULL when they are not valid; the stream contents are unchanged |
| BmpRoot.ReadData | bmp.c:353-373 | NULL exactly for a NULL stream or header, and for a NULL header the position is left alone; otherwise a fresh buffer of width * height pixels holding the rows read from the offset |
| BmpRoot.ReadBmp | bmp.c:284-307 | NULL for a NULL stream and exactly when the header is not valid, the position then left at 54; otherwise a valid image whose header and pixels are those in the stream |
| BmpRoot.WriteBmp | bmp.c:309-334 | false exactly for a NULL stream or image, and for a NULL image the position is left alone; otherwise the header bytes at 0 and the padded rows at the offset, and the image's header as before |
| BmpRoot.WriteIntoEmptyStream | bmp.c:314-327 | writing into an empty stream leaves the header bytes followed by the rows |
| BmpRoot.CreateBmp | bmp.c:410-433 | NULL exactly for a missing or invalid template or an invalid resized header; otherwise a fresh valid image with the resized header and width * height pixels |
| ImageCopy.CopyData | bmp.c:447-458 | NULL exactly for a NULL header or buffer; otherwise a fresh buffer equal to the first width * height pixels (ps4/bmp.c:256-269 is the same) |
| ImageCopy.CopyBmp | bmp.c:394-408 | NULL exactly for a NULL image; otherwise a fresh valid image with an equal header and an equal, separate pixel buffer (ps4/bmp.c:178-204 is the same) |
| BmpPs4.RowSize | ps4/bmp.c:288-291 | row_size is a multiple of four, at most the 32-bit product bpp * width over 8 and less than 4 bytes below it |
| BmpPs4.DataPadding | ps4/bmp.c:293-298 | data_padding is always 0 |
| BmpPs4.PixelArraySize | ps4/bmp.c:300-303 | pixel_array_size is always 0 |
| BmpPs4.BmpHeaderValid | ps4/bmp.c:271-286 | the root variant's field checks, with the size equal to ps4's pixel_array_size |
| BmpPs4.ValidMeansSizeZero | ps4/bmp.c:271-286 | a header is valid exactly when it passes the root variant's field checks and records a size of 0 |
| BmpPs4.ArraySizeOmitsRows | ps4/bmp.c:300-303 | for the 2x2 24-bpp header the root variant accepts with size 70, the pixel array size is 0 instead of 16 and the header is refused |
| BmpPs4.RowSizeRoundsDown | ps4/bmp.c:288-291 | a one-pixel 24-bpp row gets row size 0, where the root variant gives 3 bytes plus 1 of padding |
| BmpPs4.SwapEndianness | ps4/bmp.c:305-323 | the unconditional swap undoes itself |
| BmpPs4.LoadHeader | ps4/bmp.c:397-402 | loading and swapping only on a big-endian host gives the little-endian decoding on either host |
| BmpPs4.ParseHeader | ps4/bmp.c:390-405 | a header comes back exactly when the decoded bytes are valid; it is their decoding and records size 0 |
| BmpPs4.WrittenFileReadsBack | ps4/bmp.c:361-427 | a valid header, recording size 0, followed by its rows back to back parses back to that header, the rows fit, and they read back as the same pixels |
| BmpPs4.Resized | ps4/bmp.c:221-224 | the derived header is the template with only width, height and size changed, and size is 0 |
| BmpPs4.ResizedValid | ps4/bmp.c:221-225 | resizing a valid template gives a valid header exactly when both dimensions are at least 1 |
| BmpPs4.ReadBmpHeader | ps4/bmp.c:390-405 | NULL for a NULL stream; otherwise the parsed first 54 bytes, NULL when they are not valid |
| BmpPs4.ReadData | ps4/bmp.c:407-427 | NULL exactly for a NULL stream or header, and for a NULL header the position is left alone; otherwise width * height pixels read as unpadded rows from the offset |
| BmpPs4.ReadBmp | ps4/bmp.c:337-359 | NULL for a NULL stream and exactly when the header is not valid; otherwise a valid image with the stream's header and pixels |
| BmpPs4.WriteBmp | ps4/bmp.c:361-388 | false exactly for a NULL stream or image, and for a NULL image the position is left alone; otherwise the header bytes at 0 and the unpadded rows at the offset, and the header as before |
| BmpPs4.CreateBmp | ps4/bmp.c:206-240 | NULL exactly for a missing or invalid template or an invalid resized header; otherwise a fresh valid image with the resized header |
| Transformations.Mirror | ps4/transformations.c:16-26 | each row of the buffer reversed, the rows kept in order, the same number of pixels |
| Transformations.MirrorAt | ps4/transformations.c:16-26 | result[r * w + c] == input[r * w + (w - 1 - c)] for every row r and column c |
| Transformations.MirrorKeepsRows | ps4/transformations.c:20-24 | row r of the result is row r of the input reversed: no pixel changes row |
| Transformations.MirrorMiddleColumn | ps4/transformations.c:16 | for an odd width the middle column is unchanged |
| Transformations.MirrorInvolution | ps4/transformations.c:16-26 | flipping twice gives back the original pixels |
| Transformations.SwapInRow | ps4/transformations.c:20-24 | swapping columns left and w - 1 - left of one more row through a temporary keeps the loop invariant: earlier pairs mirrored in every row, this pair in the rows done, the rest untouched |
| Transformations.PairDone | ps4/transformations.c:16-18 | once the pair is swapped in every row, the next pair begins with no row done |
| Transformations.SwapColumns | ps4/transformations.c:18-25 | the inner loop swaps columns left and w - 1 - left in every row, moving on to the next pair of the loop invariant |
| Transformations.AllDone | ps4/transformations.c:16 | once left_col is no longer below right_col every row is mirrored |
| Transformations.FlipHorizontally | ps4/transformations.c:6-29 | NULL for a NULL image; otherwise a fresh copy with the same header whose pixels are the mirror image of the input's; the input is unchanged |

## Left out

- Opening and closing files, and the `fprintf` diagnostics (bmp.c:294, 301), are not modelled. A stream is its contents and position.
- BmpRoot.ReadBmpHeader: requires the stream to hold at least 54 bytes. A shorter read leaves part of the freshly allocated header uninitialised, and the model has no value for that memory. The same holds for BmpPs4.ReadBmpHeader, BmpRoot.ReadBmp and BmpPs4.ReadBmp.
- BmpPs4.ReadBmp: when the header is not valid, ps4/bmp.c:347 calls `free_bmp_image` on an image whose `data` field `malloc` left uninitialised (ps4/bmp.c:341), and `FREE(image->data)` (ps4/bmp.c:429-434) frees an indeterminate pointer. That is undefined behaviour. The model returns NULL on that path and has no value for uninitialised memory.
- BmpRoot.ReadData: requires the rows to be present behind the offset (`DataFits`). `fread` stops at the end of the file, leaves the rest of the buffer uninitialised, and its count is never checked. The same holds for BmpPs4.ReadData, BmpRoot.ReadBmp and BmpPs4.ReadBmp.
- Memory allocation is taken to succeed, so the NULL returns on allocation failure are not modelled. The same goes for `malloc`, `free`, `free_bmp_image`, `alloc_bmp_image`, `alloc_bmp_header` and `alloc_data`. The ownership defects on those paths are out of scope: `create_bmp` freeing `copy` but leaking `copy->header` at bmp.c:426, the leak at ps4/bmp.c:225, and the unchecked allocations at ps4/bmp.c:341 and ps4/transformations.c:10.
- `copy_bmp_header` is not a separate member. A header is a value here, so copying it is assignment, as in `CopyBmp` and `CreateBmp`.
- A non-NULL `struct bmp_image` with a NULL header or data pointer cannot be expressed. An `Image` always has both.
- The size `width * height * sizeof(struct pixel)` in `alloc_data`, `copy_data` and `read_data` can wrap. This wrap-around is not modelled. The same goes for the 32-bit index arithmetic `i * width` and `row * width + col` in the row loops and in `flip_horizontally`. Buffers have exactly width * height cells and indexes do not wrap. The row loops keep `i * width` as a running sum (`base`), which has the same value while nothing wraps.
- Host byte order is fixed to little-endian. So `write_bmp` writes the little-endian memory image of the header. On a big-endian host the source writes the header before swapping it (bmp.c:315 against bmp.c:325; ps4/bmp.c:367 against ps4/bmp.c:379), and that path is not modelled.
- The `IS_LITTLE_ENDIAN` compound-literal test is not modelled; the constant `HOST` stands for it.
- The `ASSERT` inside `CHECK_METADATA` does nothing unless DEBUG is defined, so it is not modelled.
- Transformations.FlipHorizontally: requires width >= 1 or height == 0. With width 0, `right_col` starts at UINT32_MAX; with rows present, the loop would then index an empty buffer. The model keeps the wrapped start value, so the zero-width, zero-height case runs as in C.
- `ps4/helpers.h` only repeats declarations and constants; it is not part of this model. The demo driver `ps4/main.c` and the test files are not part of this model either. The tests' expected numbers appear only as the fixture lemma.
- `rotate_right`, `rotate_left`, `crop`, `scale` and `extract` have no implementation in the repository's files, so they are not modelled.

## Findings

| source | as written | input that shows it | evidently intended | confidence | as-written member | corrected member |
|---|---|---|---|---|---|---|
| ps4/bmp.c:300-303 | `pixel_array_size` returns `height * data_padding`, leaving out the row bytes | a 24-bpp header of 2x2 pixels: 0 instead of 16, so a header recording the real size 70 is refused | height * (row bytes + padding), as the root variant computes it | high, not executed | BmpPs4.ArraySizeOmitsRows | BmpRoot.PixelArraySize |
| ps4/bmp.c:288-291 | `row_size` is `(bpp * width / 32) * 4`, rounding down to whole 32-bit words | a 24-bpp row of 1 pixel: 0 instead of 3 bytes | the row bytes bpp * width / 8, with the padding added separately, as the root variant computes it | high, not executed | BmpPs4.RowSizeRoundsDown | BmpRoot.RowSizeExact |

The corrections are the root version of the same functions. The rest of the
root model builds on them: `ParseHeader`, `WrittenFileReadsBack` and
`EncodedLengthMatchesSize`.
