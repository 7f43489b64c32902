/** The codec of the repository root (bmp.c): header validation, the stride
    geometry, host byte order, and reading, writing and creating images. */
module BmpRoot {
  import opened ByteOrder
  import opened BmpFormat
  import opened FileStream
  import opened PixelCodec
  import opened Optional

  // The supported metadata (enum BMP_META) and the format constants
  // (enum BMP_FORMAT).
  const OFFSET: u32 := 54
  const DIB_SIZE: u32 := 40
  const PLANES: u16 := 1
  const BPP16: u16 := 16
  const BPP24: u16 := 24
  const DWORD: nat := 32
  const BMPWORD: nat := 4

  // ---------------------------------------------------------------------------
  // (float) on an unsigned 32-bit value

  /** The multiple of unit nearest to p, ties going to the even multiple. */
  function RoundToMultiple(p: nat, unit: nat): (r: nat)
    requires unit > 0
    ensures r % unit == 0
    ensures 2 * (r - p) <= unit && 2 * (p - r) <= unit
    ensures (2 * (r - p) == unit || 2 * (p - r) == unit) ==> (r / unit) % 2 == 0
  {
    var q, rem := p / unit, p % unit;
    MultiplesAround(p, unit);
    if 2 * rem < unit || (2 * rem == unit && q % 2 == 0) then q * unit else q * unit + unit
  }

  /** The multiples of unit just below and just above p. */
  lemma MultiplesAround(p: nat, unit: nat)
    requires unit > 0
    ensures p == (p / unit) * unit + p % unit && 0 <= p % unit < unit
    ensures ((p / unit) * unit) % unit == 0 && ((p / unit) * unit) / unit == p / unit
    ensures ((p / unit) * unit + unit) % unit == 0 && ((p / unit) * unit + unit) / unit == p / unit + 1
  {
    DivModUnique((p / unit) * unit, unit, p / unit, 0);
    DivModUnique((p / unit) * unit + unit, unit, p / unit + 1, 0);
  }

  /** The value of (float)p for 0 <= p < 2^32 under IEEE 754 binary32
      round-to-nearest-even: a 24-bit significand, so p in [2^k, 2^(k+1))
      with k >= 24 becomes a multiple of 2^(k-23). */
  function ToFloat32(p: nat): (r: nat)
    requires p < TWO_32
    ensures p < 0x100_0000 ==> r == p
    ensures r <= p + 0x80 && p <= r + 0x80
  {
    if p < 0x100_0000 then p
    else if p < 0x200_0000 then RoundToMultiple(p, 0x2)
    else if p < 0x400_0000 then RoundToMultiple(p, 0x4)
    else if p < 0x800_0000 then RoundToMultiple(p, 0x8)
    else if p < 0x1000_0000 then RoundToMultiple(p, 0x10)
    else if p < 0x2000_0000 then RoundToMultiple(p, 0x20)
    else if p < 0x4000_0000 then RoundToMultiple(p, 0x40)
    else if p < 0x8000_0000 then RoundToMultiple(p, 0x80)
    else RoundToMultiple(p, 0x100)
  }

  // ---------------------------------------------------------------------------
  // Geometry

  /** bpp * width as the C expression computes it: uint16_t times uint32_t
      is an unsigned 32-bit product. */
  function RowBits(h: Header): (r: nat)
    ensures r < TWO_32
  {
    (h.bpp as int * h.width as int) % TWO_32
  }

  /** pixel_row_size: ((float)(bpp * width) / 32) * 4 truncated to uint32.
      Dividing by 32 and multiplying by 4 are exact on a float, so the
      result is the rounded product divided by 8, rounded down. */
  function PixelRowSize(h: Header): (r: u32)
    ensures 8 * r as int <= ToFloat32(RowBits(h)) < 8 * r as int + 8
  {
    (ToFloat32(RowBits(h)) / 8) as u32
  }

  /** pixel_padding_size: the bytes that bring a row to a multiple of four. */
  function PixelPaddingSize(h: Header): (r: byte)
    ensures r as int < BMPWORD
    ensures (PixelRowSize(h) as int + r as int) % BMPWORD == 0
  {
    var row := PixelRowSize(h) as int;
    DivModUnique(row, 4, row / 4, row % 4);
    var pad := (BMPWORD - row % BMPWORD) % BMPWORD;
    assert pad == if row % 4 == 0 then 0 else 4 - row % 4;
    DivModUnique(row + pad, 4, row / 4 + (if row % 4 == 0 then 0 else 1), 0);
    ((BMPWORD - PixelRowSize(h) as int % BMPWORD) % BMPWORD) as byte
  }

  /** pixel_array_size: height rows of row + padding bytes, modulo 2^32. */
  function PixelArraySize(h: Header): (r: u32)
    ensures r as int % BMPWORD == 0
    ensures h.height as int * (PixelRowSize(h) as int + PixelPaddingSize(h) as int) < TWO_32
            ==> r as int == h.height as int * (PixelRowSize(h) as int + PixelPaddingSize(h) as int)
  {
    var rowBytes := PixelRowSize(h) as int + PixelPaddingSize(h) as int;
    WrapKeepsWords(h.height as int, rowBytes);
    ((h.height as int * rowBytes) % TWO_32) as u32
  }

  lemma SmallMod(x: nat)
    ensures x < TWO_32 ==> x % TWO_32 == x
  {
    if x < TWO_32 {
      DivModUnique(x, TWO_32, 0, x);
    }
  }

  lemma WrapKeepsWords(n: nat, rowBytes: nat)
    requires rowBytes % 4 == 0
    ensures (n * rowBytes) % TWO_32 % 4 == 0
    ensures n * rowBytes < TWO_32 ==> (n * rowBytes) % TWO_32 == n * rowBytes
  {
    SmallMod(n * rowBytes);
    var k := rowBytes / 4;
    assert n * rowBytes == 4 * (n * k);
    var m := n * rowBytes;
    assert m == (m / TWO_32) * TWO_32 + m % TWO_32;
    assert m % TWO_32 == 4 * (n * k - (m / TWO_32) * 0x4000_0000);
  }

  /** bmp_file_size: the offset of the pixel array plus its size, modulo 2^32. */
  function BmpFileSize(h: Header): (r: u32)
    ensures h.offset as int + PixelArraySize(h) as int < TWO_32
            ==> r as int == h.offset as int + PixelArraySize(h) as int
  {
    ((h.offset as int + PixelArraySize(h) as int) % TWO_32) as u32
  }

  /** bmp_header_valid. reserved1/2, image_size, x_ppm and y_ppm are never
      looked at, and the upper bound UINT32_MAX on width and height holds
      for every 32-bit value. */
  predicate BmpHeaderValid(h: Header)
  {
    && h.fileType == MAGIC
    && h.offset == OFFSET
    && h.dibSize == DIB_SIZE
    && h.planes == PLANES
    && h.compression == 0
    && h.numColors == 0
    && h.importantColors == 0
    && (h.bpp == BPP16 || h.bpp == BPP24)
    && h.width >= 1
    && h.height >= 1
    && h.size == BmpFileSize(h)
  }

  // ---------------------------------------------------------------------------
  // Properties of the geometry

  /** While the product fits the float's significand the row size is exact:
      two bytes a pixel at 16 bpp, three at 24 bpp. */
  lemma RowSizeExact(h: Header)
    requires h.bpp as int * h.width as int < 0x100_0000
    ensures PixelRowSize(h) as int == h.bpp as int * h.width as int / 8
    ensures h.bpp == BPP16 ==> PixelRowSize(h) as int == 2 * h.width as int
    ensures h.bpp == BPP24 ==> PixelRowSize(h) as int == 3 * h.width as int
  {
    var p := h.bpp as int * h.width as int;
    SmallMod(p);
    if h.bpp == BPP16 {
      DivModUnique(p, 8, 2 * h.width as int, 0);
    } else if h.bpp == BPP24 {
      DivModUnique(p, 8, 3 * h.width as int, 0);
    }
  }

  /** Past 2^24 the float rounds: a 24-bpp row of 11184811 pixels needs
      33554433 bytes, but (float)268435464 is 268435456 and pixel_row_size
      answers 33554432. */
  lemma RowSizeRoundsWideRows(h: Header)
    requires h.bpp == BPP24 && h.width == 11184811
    ensures PixelRowSize(h) as int == 33554432
    ensures PixelRowSize(h) as int != 3 * h.width as int
  {
    assert RowBits(h) == 268435464;
    assert ToFloat32(268435464) == 268435456;
  }

  /** The sizes of the test fixtures: a 24-bpp template resized to 2x2,
      3x2, 2x4 and 2x1 pixels. */
  lemma FixtureSizes(t: Header)
    requires t.bpp == BPP24 && t.offset == OFFSET
    ensures PixelArraySize(t.(width := 2, height := 2)) == 16 && BmpFileSize(t.(width := 2, height := 2)) == 70
    ensures PixelArraySize(t.(width := 3, height := 2)) == 24 && BmpFileSize(t.(width := 3, height := 2)) == 78
    ensures PixelArraySize(t.(width := 2, height := 4)) == 32 && BmpFileSize(t.(width := 2, height := 4)) == 86
    ensures PixelArraySize(t.(width := 2, height := 1)) == 8
  {
    RowSizeExact(t.(width := 2, height := 2));
    RowSizeExact(t.(width := 3, height := 2));
    RowSizeExact(t.(width := 2, height := 4));
    RowSizeExact(t.(width := 2, height := 1));
  }

  /** Validity depends on no field bmp_header_valid does not test. */
  lemma ValidIgnoresUncheckedFields(h: Header, r1: u16, r2: u16, imageSize: u32, xPpm: u32, yPpm: u32)
    ensures BmpHeaderValid(h)
            <==> BmpHeaderValid(h.(reserved1 := r1, reserved2 := r2, imageSize := imageSize, xPpm := xPpm, yPpm := yPpm))
  {
  }

  // ---------------------------------------------------------------------------
  // Host byte order

  /** swap_endianness: every field byte-swapped on a big-endian host,
      nothing changed on a little-endian one. */
  function SwapEndianness(h: Header, host: Endianness): (r: Header)
    ensures host == LittleEndian ==> r == h
    ensures SwapFields(r) == if host == BigEndian then h else SwapFields(h)
  {
    SwapFieldsInvolution(h);
    if host == BigEndian then SwapFields(h) else h
  }

  /** Loading the header and swapping it gives the little-endian decoding
      whatever the host's byte order. */
  lemma ReadIsHostIndependent(b: seq<byte>, host: Endianness)
    requires |b| >= HEADER_SIZE
    ensures SwapEndianness(HostLoad(b, host), host) == DecodeHeader(b)
  {
    if host == BigEndian {
      BigEndianLoadIsSwapped(b);
    }
  }

  /** What read_bmp_header makes of the first 54 bytes of a stream. */
  function ParseHeader(b: seq<byte>): (r: Option<Header>)
    requires |b| >= HEADER_SIZE
    ensures r.Some? <==> BmpHeaderValid(DecodeHeader(b))
    ensures r.Some? ==> r.value == DecodeHeader(b) && EncodeHeader(r.value) == b[..HEADER_SIZE]
  {
    ReadIsHostIndependent(b, HOST);
    EncodeDecodeHeader(b);
    var h := SwapEndianness(HostLoad(b, HOST), HOST);
    if BmpHeaderValid(h) then Some(h) else None
  }

  /** A valid header followed by its padded rows parses back to the header
      and the pixels. */
  lemma WrittenFileReadsBack(h: Header, px: seq<Pixel>)
    requires BmpHeaderValid(h) && |px| == Cells(h.height as nat, h.width as nat)
    ensures var pad := PixelPaddingSize(h) as nat;
            var file := EncodeHeader(h) + EncodeRows(px, h.width as nat, h.height as nat, pad);
            && ParseHeader(file) == Some(h)
            && h.offset as int <= |file|
            && RowsFit(|file| - h.offset as int, h.width as nat, h.height as nat, pad)
            && DecodeRows(file[h.offset..], h.width as nat, h.height as nat, pad) == px
  {
    var pad := PixelPaddingSize(h) as nat;
    var rows := EncodeRows(px, h.width as nat, h.height as nat, pad);
    var file := EncodeHeader(h) + rows;
    DecodeEncodeHeader(h);
    assert file[..HEADER_SIZE] == EncodeHeader(h);
    assert DecodeHeader(file) == DecodeHeader(file[..HEADER_SIZE]);
    assert file[h.offset..] == rows;
    DecodeEncodeRows(px, h.width as nat, h.height as nat, pad);
  }

  /** At 24 bpp, as long as nothing wraps, the bytes the row loops emit are
      exactly the size the header records. */
  lemma EncodedLengthMatchesSize(h: Header, px: seq<Pixel>)
    requires BmpHeaderValid(h) && h.bpp == BPP24 && |px| == Cells(h.height as nat, h.width as nat)
    requires 24 * h.width as int < 0x100_0000
    requires HEADER_SIZE + h.height as int * (3 * h.width as int + PixelPaddingSize(h) as int) < TWO_32
    ensures |EncodeRows(px, h.width as nat, h.height as nat, PixelPaddingSize(h) as nat)| == PixelArraySize(h) as int
    ensures HEADER_SIZE + PixelArraySize(h) as int == h.size as int
  {
    RowSizeExact(h);
    CellsProduct(h.height as nat, Stride(h.width as nat, PixelPaddingSize(h) as nat));
  }

  /** At 16 bpp the header accepts rows of two bytes a pixel while the loops
      move three: a valid 2x1 header records 4 pixel bytes, the loops emit 6. */
  lemma SixteenBitRowsDisagree(h: Header, px: seq<Pixel>)
    requires h.bpp == BPP16 && h.width == 2 && h.height == 1 && |px| == 2
    ensures PixelArraySize(h) == 4
    ensures |EncodeRows(px, 2, 1, PixelPaddingSize(h) as nat)| == 6
  {
    RowSizeExact(h);
  }

  // ---------------------------------------------------------------------------
  // create_bmp

  /** The header create_bmp derives from a template: new width and height,
      then size := bmp_file_size and image_size := pixel_array_size. */
  function Resized(t: Header, width: u32, height: u32): (r: Header)
    ensures r.(width := t.width, height := t.height, size := t.size, imageSize := t.imageSize) == t
    ensures r.width == width && r.height == height
    ensures r.size == BmpFileSize(r) && r.imageSize == PixelArraySize(r)
  {
    var t1 := t.(width := width, height := height);
    var t2 := t1.(size := BmpFileSize(t1));
    t2.(imageSize := PixelArraySize(t2))
  }

  /** Resizing a valid template is valid exactly when both dimensions are
      at least one pixel. */
  lemma ResizedValid(t: Header, width: u32, height: u32)
    requires BmpHeaderValid(t)
    ensures BmpHeaderValid(Resized(t, width, height)) <==> width >= 1 && height >= 1
  {
  }

  // ---------------------------------------------------------------------------
  // The operations on streams and images

  /** read_bmp_header: NULL for a NULL stream, otherwise the first 54 bytes
      loaded on the host and swapped, or NULL if they are not valid. */
  method ReadBmpHeader(s: Stream?) returns (h: Option<Header>)
    requires s != null ==> |s.content| >= HEADER_SIZE
    modifies s
    ensures s == null ==> h == None
    ensures s != null ==> s.content == old(s.content) && s.pos == HEADER_SIZE
    ensures s != null ==> h == ParseHeader(s.content)
  {
    if s == null {
      return None;
    }
    s.Seek(0);
    var bytes := s.Read(HEADER_SIZE);
    var loaded := HostLoad(bytes, HOST);
    loaded := SwapEndianness(loaded, HOST);
    assert bytes == s.content[..HEADER_SIZE];
    ReadIsHostIndependent(s.content, HOST);
    ReadIsHostIndependent(bytes, HOST);
    assert DecodeHeader(bytes) == DecodeHeader(s.content);
    if BmpHeaderValid(loaded) {
      h := Some(loaded);
    } else {
      h := None;
    }
  }

  /** Where the pixel rows end: the offset plus height rows of pixel bytes
      and padding. */
  function RowsEnd(h: Header): nat
  {
    h.offset as int + Cells(h.height as nat, Stride(h.width as nat, PixelPaddingSize(h) as nat))
  }

  /** The pixel rows of a stream fit behind the header's offset. */
  predicate DataFits(content: seq<byte>, h: Header)
  {
    && h.offset as int <= |content|
    && RowsFit(|content| - h.offset as int, h.width as nat, h.height as nat, PixelPaddingSize(h) as nat)
  }

  /** read_data: NULL for a NULL stream or header, otherwise row i of the
      file, from offset on, in data[i * width .. i * width + width). */
  method ReadData(s: Stream?, header: Option<Header>) returns (data: array?<Pixel>)
    requires s != null && header.Some? ==> DataFits(s.content, header.value)
    modifies s
    ensures data == null <==> s == null || header.None?
    ensures s != null ==> s.content == old(s.content)
    ensures s != null && header.None? ==> s.pos == old(s.pos)
    ensures data != null ==> s.pos == RowsEnd(header.value)
    ensures data != null ==> fresh(data)
    ensures data != null ==> data.Length == header.value.width as int * header.value.height as int
    ensures data != null ==> data[..] == DecodeRows(s.content[header.value.offset..], header.value.width as nat,
                                                    header.value.height as nat, PixelPaddingSize(header.value) as nat)
  {
    if s == null || header.None? {
      return null;
    }
    var h := header.value;
    var pad := PixelPaddingSize(h);
    data := ReadRows(s, h.offset as nat, h.width as nat, h.height as nat, pad as nat);
  }

  /** read_bmp: NULL for a NULL stream or a stream without a valid header,
      otherwise the header and the pixel rows the stream holds. */
  method ReadBmp(s: Stream?) returns (image: Image?)
    requires s != null ==> |s.content| >= HEADER_SIZE
    requires s != null && ParseHeader(s.content).Some? ==> DataFits(s.content, ParseHeader(s.content).value)
    modifies s
    ensures s == null ==> image == null
    ensures s != null ==> s.content == old(s.content)
    ensures s != null ==> (image == null <==> ParseHeader(s.content).None?)
    ensures s != null && image == null ==> s.pos == HEADER_SIZE
    ensures image != null ==> s.pos == RowsEnd(image.header)
    ensures image != null ==> fresh(image) && fresh(image.data) && image.Valid()
    ensures image != null ==> image.header == ParseHeader(s.content).value
    ensures image != null ==> image.data[..] == DecodeRows(s.content[image.header.offset..], image.header.width as nat,
                                                           image.header.height as nat, PixelPaddingSize(image.header) as nat)
  {
    if s == null {
      return null;
    }
    var header := ReadBmpHeader(s);
    if header.None? {
      return null;
    }
    var data := ReadData(s, header);
    assert data.Length == Cells(header.value.height as nat, header.value.width as nat) by {
      CellsProduct(header.value.height as nat, header.value.width as nat);
    }
    image := new Image(header.value, data);
  }

  /** write_bmp: false for a NULL stream or image; otherwise the header's
      memory image at 0 and the padded rows from its offset on. The header
      is swapped back in place, which on a little-endian host leaves it as
      it was. */
  method WriteBmp(s: Stream?, image: Image?) returns (ok: bool)
    requires image != null ==> image.Valid()
    modifies s, image
    ensures ok == (s != null && image != null)
    ensures s != null && !ok ==> s.content == old(s.content)
    ensures s != null && image == null ==> s.pos == old(s.pos)
    ensures ok ==> s.pos == RowsEnd(image.header)
    ensures image != null ==> image.header == old(image.header) && image.data == old(image.data)
    ensures ok ==> s.content == Overwrite(Overwrite(old(s.content), 0, EncodeHeader(image.header)),
                                          image.header.offset as nat,
                                          EncodeRows(image.data[..], image.header.width as nat,
                                                     image.header.height as nat, PixelPaddingSize(image.header) as nat))
  {
    if s == null || image == null {
      return false;
    }
    s.Seek(0);
    s.Write(EncodeHeader(image.header));
    var h := image.header;
    var pad := PixelPaddingSize(h);
    image.header := SwapEndianness(image.header, HOST);
    WriteRows(s, h.offset as nat, image.data, h.width as nat, h.height as nat, pad as nat);
    ok := true;
  }

  /** Writing into an empty stream leaves exactly the header and the rows. */
  lemma WriteIntoEmptyStream(h: Header, rows: seq<byte>)
    requires h.offset == OFFSET
    ensures Overwrite(Overwrite([], 0, EncodeHeader(h)), h.offset as nat, rows) == EncodeHeader(h) + rows
  {
    OverwriteEmpty(EncodeHeader(h), rows);
  }

  /** create_bmp: NULL for a NULL or invalid template or when the resized
      header is invalid; otherwise a fresh image with the resized header and
      room for width * height pixels, none copied. */
  method CreateBmp(template: Option<Header>, width: u32, height: u32) returns (image: Image?)
    ensures image == null <==> template.None? || !BmpHeaderValid(template.value)
                                || !BmpHeaderValid(Resized(template.value, width, height))
    ensures image != null ==> fresh(image) && fresh(image.data) && image.Valid()
    ensures image != null ==> image.header == Resized(template.value, width, height)
  {
    if template.None? || !BmpHeaderValid(template.value) {
      return null;
    }
    var copy := template.value;
    copy := copy.(width := width);
    copy := copy.(height := height);
    assert copy == template.value.(width := width, height := height);
    copy := copy.(size := BmpFileSize(copy));
    copy := copy.(imageSize := PixelArraySize(copy));
    if !BmpHeaderValid(copy) {
      return null;
    }
    var data := new Pixel[width as int * height as int];
    assert data.Length == Cells(height as nat, width as nat) by {
      CellsProduct(height as nat, width as nat);
    }
    image := new Image(copy, data);
  }
}
