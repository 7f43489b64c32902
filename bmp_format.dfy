/** The in-memory types of the codec: the packed 54-byte BMP header (the
    14-byte file header followed by the 40-byte BITMAPINFOHEADER), a pixel,
    and an image owning a header and a pixel buffer. */
module BmpFormat {
  import opened ByteOrder

  /** sizeof(struct bmp_header): the packed structure has no holes. */
  const HEADER_SIZE: nat := 54
  /** sizeof(struct pixel). */
  const PIXEL_SIZE: nat := 3
  /** The magic number, "BM" read as a little-endian 16-bit word. */
  const MAGIC: u16 := 0x4d42

  /** struct bmp_header, one constructor argument per field, in layout order. */
  datatype Header = Header(
    fileType: u16,         // offset 0
    size: u32,             // offset 2: file size
    reserved1: u16,        // offset 6
    reserved2: u16,        // offset 8
    offset: u32,           // offset 10: start of the pixel array
    dibSize: u32,          // offset 14: size of the info header
    width: u32,            // offset 18
    height: u32,           // offset 22
    planes: u16,           // offset 26
    bpp: u16,              // offset 28: bits per pixel
    compression: u32,      // offset 30
    imageSize: u32,        // offset 34
    xPpm: u32,             // offset 38
    yPpm: u32,             // offset 42
    numColors: u32,        // offset 46
    importantColors: u32)  // offset 50

  /** struct pixel: three bytes, blue first, no alpha. */
  datatype Pixel = Pixel(blue: byte, green: byte, red: byte)

  // ---------------------------------------------------------------------------
  // The packed layout

  /** The bytes of the packed structure as a little-endian host holds them. */
  function EncodeHeader(h: Header): (r: seq<byte>)
    ensures |r| == HEADER_SIZE
  {
    LE16(h.fileType) + LE32(h.size) + LE16(h.reserved1) + LE16(h.reserved2)
    + LE32(h.offset) + LE32(h.dibSize) + LE32(h.width) + LE32(h.height)
    + LE16(h.planes) + LE16(h.bpp) + LE32(h.compression) + LE32(h.imageSize)
    + LE32(h.xPpm) + LE32(h.yPpm) + LE32(h.numColors) + LE32(h.importantColors)
  }

  /** The header a little-endian host sees after copying the first 54 bytes
      of b over the packed structure. */
  function DecodeHeader(b: seq<byte>): Header
    requires |b| >= HEADER_SIZE
  {
    Header(U16At(b, 0), U32At(b, 2), U16At(b, 6), U16At(b, 8), U32At(b, 10),
           U32At(b, 14), U32At(b, 18), U32At(b, 22), U16At(b, 26), U16At(b, 28),
           U32At(b, 30), U32At(b, 34), U32At(b, 38), U32At(b, 42), U32At(b, 46),
           U32At(b, 50))
  }

  lemma {:induction false} DecodeEncodeHeader(h: Header)
    ensures DecodeHeader(EncodeHeader(h)) == h
  {
    var e := EncodeHeader(h);
    U16RoundTrip(h.fileType);
    U32RoundTrip(h.size);
    U16RoundTrip(h.reserved1);
    U16RoundTrip(h.reserved2);
    U32RoundTrip(h.offset);
    U32RoundTrip(h.dibSize);
    U32RoundTrip(h.width);
    U32RoundTrip(h.height);
    U16RoundTrip(h.planes);
    U16RoundTrip(h.bpp);
    U32RoundTrip(h.compression);
    U32RoundTrip(h.imageSize);
    U32RoundTrip(h.xPpm);
    U32RoundTrip(h.yPpm);
    U32RoundTrip(h.numColors);
    U32RoundTrip(h.importantColors);
  }

  /** A header decoded from bytes encodes back to exactly those bytes. */
  lemma {:induction false} EncodeDecodeHeader(b: seq<byte>)
    requires |b| >= HEADER_SIZE
    ensures EncodeHeader(DecodeHeader(b)) == b[..HEADER_SIZE]
  {
    LE16OfBytes(b, 0);
    LE32OfBytes(b, 2);
    LE16OfBytes(b, 6);
    LE16OfBytes(b, 8);
    LE32OfBytes(b, 10);
    LE32OfBytes(b, 14);
    LE32OfBytes(b, 18);
    LE32OfBytes(b, 22);
    LE16OfBytes(b, 26);
    LE16OfBytes(b, 28);
    LE32OfBytes(b, 30);
    LE32OfBytes(b, 34);
    LE32OfBytes(b, 38);
    LE32OfBytes(b, 42);
    LE32OfBytes(b, 46);
    LE32OfBytes(b, 50);
    assert b[..2] == b[0..2];
    PrefixSplit(b, 2, 6);
    PrefixSplit(b, 6, 8);
    PrefixSplit(b, 8, 10);
    PrefixSplit(b, 10, 14);
    PrefixSplit(b, 14, 18);
    PrefixSplit(b, 18, 22);
    PrefixSplit(b, 22, 26);
    PrefixSplit(b, 26, 28);
    PrefixSplit(b, 28, 30);
    PrefixSplit(b, 30, 34);
    PrefixSplit(b, 34, 38);
    PrefixSplit(b, 38, 42);
    PrefixSplit(b, 42, 46);
    PrefixSplit(b, 46, 50);
    PrefixSplit(b, 50, 54);
  }

  lemma PrefixSplit(b: seq<byte>, j: nat, k: nat)
    requires j <= k <= |b|
    ensures b[..k] == b[..j] + b[j..k]
  {
  }

  /** The magic number holds exactly when the file starts with 'B', 'M'. */
  lemma MagicBytes(b: seq<byte>)
    requires |b| >= HEADER_SIZE
    ensures DecodeHeader(b).fileType == MAGIC <==> b[0] == 0x42 && b[1] == 0x4D
  {
    LE16OfBytes(b, 0);
  }

  // ---------------------------------------------------------------------------
  // Host byte order

  /** The header a host of the given byte order sees after copying the first
      54 bytes of b over the packed structure: every field is read in the
      host's own order. */
  function HostLoad(b: seq<byte>, host: Endianness): Header
    requires |b| >= HEADER_SIZE
  {
    match host
    case LittleEndian => DecodeHeader(b)
    case BigEndian =>
      Header(U16BE(b, 0), U32BE(b, 2), U16BE(b, 6), U16BE(b, 8), U32BE(b, 10),
             U32BE(b, 14), U32BE(b, 18), U32BE(b, 22), U16BE(b, 26), U16BE(b, 28),
             U32BE(b, 30), U32BE(b, 34), U32BE(b, 38), U32BE(b, 42), U32BE(b, 46),
             U32BE(b, 50))
  }

  /** The two bytes at position i, most significant first. */
  function U16BE(b: seq<byte>, i: nat): u16
    requires i + 2 <= |b|
  {
    U16At([b[i + 1], b[i]], 0)
  }

  /** The four bytes at position i, most significant first. */
  function U32BE(b: seq<byte>, i: nat): u32
    requires i + 4 <= |b|
  {
    U32At([b[i + 3], b[i + 2], b[i + 1], b[i]], 0)
  }

  /** Every field byte-swapped: the body of swap_endianness. */
  function SwapFields(h: Header): Header
  {
    Header(SwapUint16(h.fileType), SwapUint32(h.size), SwapUint16(h.reserved1),
           SwapUint16(h.reserved2), SwapUint32(h.offset), SwapUint32(h.dibSize),
           SwapUint32(h.width), SwapUint32(h.height), SwapUint16(h.planes),
           SwapUint16(h.bpp), SwapUint32(h.compression), SwapUint32(h.imageSize),
           SwapUint32(h.xPpm), SwapUint32(h.yPpm), SwapUint32(h.numColors),
           SwapUint32(h.importantColors))
  }

  lemma {:induction false} SwapFieldsInvolution(h: Header)
    ensures SwapFields(SwapFields(h)) == h
  {
    SwapUint16Involution(h.fileType);
    SwapUint32Involution(h.size);
    SwapUint16Involution(h.reserved1);
    SwapUint16Involution(h.reserved2);
    SwapUint32Involution(h.offset);
    SwapUint32Involution(h.dibSize);
    SwapUint32Involution(h.width);
    SwapUint32Involution(h.height);
    SwapUint16Involution(h.planes);
    SwapUint16Involution(h.bpp);
    SwapUint32Involution(h.compression);
    SwapUint32Involution(h.imageSize);
    SwapUint32Involution(h.xPpm);
    SwapUint32Involution(h.yPpm);
    SwapUint32Involution(h.numColors);
    SwapUint32Involution(h.importantColors);
  }

  /** A 16-bit word read in the other byte order is the byte-swapped word. */
  lemma SwappedU16At(b: seq<byte>, i: nat)
    requires i + 2 <= |b|
    ensures U16BE(b, i) == SwapUint16(U16At(b, i))
  {
    var x := U16At(b, i);
    LE16OfBytes(b, i);
    SwapUint16ReversesBytes(x);
    U16RoundTrip(SwapUint16(x));
  }

  /** A 32-bit word read in the other byte order is the byte-swapped word. */
  lemma SwappedU32At(b: seq<byte>, i: nat)
    requires i + 4 <= |b|
    ensures U32BE(b, i) == SwapUint32(U32At(b, i))
  {
    var x := U32At(b, i);
    LE32OfBytes(b, i);
    SwapUint32ReversesBytes(x);
    U32RoundTrip(SwapUint32(x));
  }

  /** On a big-endian host the loaded structure is the byte-swapped
      little-endian decoding, so swapping it once more recovers the header. */
  lemma {:induction false} BigEndianLoadIsSwapped(b: seq<byte>)
    requires |b| >= HEADER_SIZE
    ensures HostLoad(b, BigEndian) == SwapFields(DecodeHeader(b))
    ensures SwapFields(HostLoad(b, BigEndian)) == DecodeHeader(b)
  {
    SwappedU16At(b, 0);
    SwappedU32At(b, 2);
    SwappedU16At(b, 6);
    SwappedU16At(b, 8);
    SwappedU32At(b, 10);
    SwappedU32At(b, 14);
    SwappedU32At(b, 18);
    SwappedU32At(b, 22);
    SwappedU16At(b, 26);
    SwappedU16At(b, 28);
    SwappedU32At(b, 30);
    SwappedU32At(b, 34);
    SwappedU32At(b, 38);
    SwappedU32At(b, 42);
    SwappedU32At(b, 46);
    SwappedU32At(b, 50);
    SwapFieldsInvolution(DecodeHeader(b));
  }

  // ---------------------------------------------------------------------------
  // Counting pixels

  /** rows * n, counted one row at a time. The pixel buffer and the pixel
      array are walked row by row, and this form keeps that arithmetic
      linear. */
  function Cells(rows: nat, n: nat): nat
  {
    if rows == 0 then 0 else Cells(rows - 1, n) + n
  }

  lemma {:induction false} CellsProduct(rows: nat, n: nat)
    ensures Cells(rows, n) == rows * n
  {
    if rows > 0 {
      CellsProduct(rows - 1, n);
    }
  }

  lemma {:induction false} CellsMono(i: nat, j: nat, n: nat)
    requires i <= j
    ensures Cells(i, n) <= Cells(j, n)
    decreases j
  {
    if i < j {
      CellsMono(i, j - 1, n);
    }
  }

  // ---------------------------------------------------------------------------
  // struct bmp_image

  /** An image owns its header and its pixel buffer. */
  class Image {
    var header: Header
    var data: array<Pixel>

    /** The buffer holds exactly width * height pixels, that is height rows
        of width pixels. */
    ghost predicate Valid()
      reads this
    {
      && data.Length == header.width as int * header.height as int
      && data.Length == Cells(header.height as nat, header.width as nat)
    }

    constructor (header: Header, data: array<Pixel>)
      ensures this.header == header && this.data == data
    {
      this.header := header;
      this.data := data;
    }
  }
}
