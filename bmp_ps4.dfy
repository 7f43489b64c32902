/** The earlier variant of the codec (ps4/bmp.c). It checks the same header
    fields as the root variant but computes the row geometry in integers
    and ends its validation with size == pixel_array_size; the byte swap is
    unconditional and its callers apply it only on a big-endian host. */
module BmpPs4 {
  import opened ByteOrder
  import opened BmpFormat
  import opened FileStream
  import opened PixelCodec
  import opened Optional
  import Root = BmpRoot

  // ---------------------------------------------------------------------------
  // Geometry

  /** row_size: ((bpp * width) / 32) * 4 on unsigned 32-bit integers; the
      division rounds down. */
  function RowSize(h: Header): (r: u32)
    ensures r as int % 4 == 0
    ensures 8 * r as int <= Root.RowBits(h) < 8 * r as int + 32
  {
    var words := Root.RowBits(h) / Root.DWORD;
    DivModUnique(Root.RowBits(h), 32, words, Root.RowBits(h) % 32);
    DivModUnique(words * 4, 4, words, 0);
    (words * Root.BMPWORD) as u32
  }

  /** data_padding: (4 - row_size % 4) % 4, which the rounding of row_size
      always makes 0. */
  function DataPadding(h: Header): (r: byte)
    ensures r == 0
  {
    ((Root.BMPWORD - RowSize(h) as int % Root.BMPWORD) % Root.BMPWORD) as byte
  }

  /** pixel_array_size: height * data_padding; the row bytes themselves are
      not counted, so the result is always 0. */
  function PixelArraySize(h: Header): (r: u32)
    ensures r == 0
  {
    ((h.height as int * DataPadding(h) as int) % TWO_32) as u32
  }

  /** bmp_header_valid: the root variant's field checks, then
      size == pixel_array_size. */
  predicate BmpHeaderValid(h: Header)
  {
    && h.fileType == MAGIC
    && h.offset == Root.OFFSET
    && h.dibSize == Root.DIB_SIZE
    && h.planes == Root.PLANES
    && h.compression == 0
    && h.numColors == 0
    && h.importantColors == 0
    && (h.bpp == Root.BPP16 || h.bpp == Root.BPP24)
    && h.width >= 1
    && h.height >= 1
    && h.size == PixelArraySize(h)
  }

  // ---------------------------------------------------------------------------
  // Properties of the geometry

  /** A valid header records a file size of 0; any real file size is
      refused. */
  lemma ValidMeansSizeZero(h: Header)
    ensures BmpHeaderValid(h) ==> h.size == 0
    ensures BmpHeaderValid(h) <==> Root.BmpHeaderValid(h.(size := Root.BmpFileSize(h))) && h.size == 0
  {
  }

  /** The 2x2 24-bpp header the root variant accepts (size 70) is refused
      here, and the pixel array size comes out as 0 where 16 bytes follow
      the header. */
  lemma ArraySizeOmitsRows(h: Header)
    requires h.bpp == Root.BPP24 && h.width == 2 && h.height == 2 && h.size == 70
    requires Root.BmpHeaderValid(h)
    ensures PixelArraySize(h) == 0 && Root.PixelArraySize(h) == 16
    ensures !BmpHeaderValid(h)
  {
    Root.FixtureSizes(h);
  }

  /** row_size rounds down: a one-pixel 24-bpp row occupies 3 bytes plus one
      of padding, but row_size is 0. */
  lemma RowSizeRoundsDown(h: Header)
    requires h.bpp == Root.BPP24 && h.width == 1
    ensures RowSize(h) == 0
    ensures Root.PixelRowSize(h) == 3 && Root.PixelPaddingSize(h) == 1
  {
    Root.RowSizeExact(h);
  }

  // ---------------------------------------------------------------------------
  // Host byte order

  /** swap_endianness: every field swapped, whatever the host. */
  function SwapEndianness(h: Header): (r: Header)
    ensures SwapFields(r) == h
  {
    SwapFieldsInvolution(h);
    SwapFields(h)
  }

  /** The header the read path ends with: loaded on the host and swapped
      when the host is big-endian. */
  function LoadHeader(b: seq<byte>, host: Endianness): (r: Header)
    requires |b| >= HEADER_SIZE
    ensures r == DecodeHeader(b)
  {
    BigEndianLoadIsSwapped(b);
    var h := HostLoad(b, host);
    if host == BigEndian then SwapEndianness(h) else h
  }

  /** What read_bmp_header makes of the first 54 bytes of a stream. */
  function ParseHeader(b: seq<byte>): (r: Option<Header>)
    requires |b| >= HEADER_SIZE
    ensures r.Some? <==> BmpHeaderValid(DecodeHeader(b))
    ensures r.Some? ==> r.value == DecodeHeader(b) && r.value.size == 0
  {
    var h := LoadHeader(b, HOST);
    if BmpHeaderValid(h) then Some(h) else None
  }

  /** A valid header, which records size 0, followed by its rows back to
      back parses back to the header and the pixels. */
  lemma WrittenFileReadsBack(h: Header, px: seq<Pixel>)
    requires BmpHeaderValid(h) && |px| == Cells(h.height as nat, h.width as nat)
    ensures var file := EncodeHeader(h) + EncodeRows(px, h.width as nat, h.height as nat, 0);
            && ParseHeader(file) == Some(h)
            && DataFits(file, h)
            && DecodeRows(file[h.offset..], h.width as nat, h.height as nat, 0) == px
  {
    var rows := EncodeRows(px, h.width as nat, h.height as nat, 0);
    var file := EncodeHeader(h) + rows;
    DecodeEncodeHeader(h);
    assert file[..HEADER_SIZE] == EncodeHeader(h);
    assert DecodeHeader(file) == DecodeHeader(file[..HEADER_SIZE]);
    assert file[h.offset..] == rows;
    DecodeEncodeRows(px, h.width as nat, h.height as nat, 0);
  }

  // ---------------------------------------------------------------------------
  // create_bmp

  /** The header create_bmp derives from a template: new width and height
      and size := pixel_array_size; image_size stays the template's. */
  function Resized(t: Header, width: u32, height: u32): (r: Header)
    ensures r.(width := t.width, height := t.height, size := t.size) == t
    ensures r.width == width && r.height == height && r.size == 0
  {
    var t1 := t.(width := width, height := height);
    t1.(size := PixelArraySize(t1))
  }

  /** Resizing a valid template is valid exactly when both dimensions are
      at least one pixel. */
  lemma ResizedValid(t: Header, width: u32, height: u32)
    requires BmpHeaderValid(t)
    ensures BmpHeaderValid(Resized(t, width, height)) <==> width >= 1 && height >= 1
  {
  }

  // ---------------------------------------------------------------------------
  // The operations on streams and images

  /** read_bmp_header: NULL for a NULL stream, otherwise the first 54 bytes
      loaded (swapped on a big-endian host), or NULL if they are not valid. */
  method ReadBmpHeader(s: Stream?) returns (h: Option<Header>)
    requires s != null ==> |s.content| >= HEADER_SIZE
    modifies s
    ensures s == null ==> h == None
    ensures s != null ==> s.content == old(s.content) && s.pos == HEADER_SIZE
    ensures s != null ==> h == ParseHeader(s.content)
  {
    if s == null {
      return None;
    }
    s.Seek(0);
    var bytes := s.Read(HEADER_SIZE);
    var header := HostLoad(bytes, HOST);
    if HOST == BigEndian {
      header := SwapEndianness(header);
    }
    assert bytes == s.content[..HEADER_SIZE];
    assert DecodeHeader(bytes) == DecodeHeader(s.content);
    h := if BmpHeaderValid(header) then Some(header) else None;
  }

  /** Where the pixel rows end: the offset plus height unpadded rows. */
  function RowsEnd(h: Header): nat
  {
    h.offset as int + Cells(h.height as nat, Stride(h.width as nat, DataPadding(h) as nat))
  }

  /** The pixel rows of a stream fit behind the header's offset. */
  predicate DataFits(content: seq<byte>, h: Header)
  {
    && h.offset as int <= |content|
    && RowsFit(|content| - h.offset as int, h.width as nat, h.height as nat, DataPadding(h) as nat)
  }

  /** read_data: NULL for a NULL stream or header, otherwise row i of the
      file, from offset on, in data[i * width .. i * width + width); rows
      are read back to back since the padding is 0. */
  method ReadData(s: Stream?, header: Option<Header>) returns (data: array?<Pixel>)
    requires s != null && header.Some? ==> DataFits(s.content, header.value)
    modifies s
    ensures data == null <==> s == null || header.None?
    ensures s != null ==> s.content == old(s.content)
    ensures s != null && header.None? ==> s.pos == old(s.pos)
    ensures data != null ==> s.pos == RowsEnd(header.value)
    ensures data != null ==> fresh(data)
    ensures data != null ==> data.Length == header.value.width as int * header.value.height as int
    ensures data != null ==> data[..] == DecodeRows(s.content[header.value.offset..], header.value.width as nat,
                                                    header.value.height as nat, 0)
  {
    if s == null || header.None? {
      return null;
    }
    var h := header.value;
    var pad := DataPadding(h);
    data := ReadRows(s, h.offset as nat, h.width as nat, h.height as nat, pad as nat);
  }

  /** read_bmp: NULL for a NULL stream or a stream without a valid header,
      otherwise the header and the pixel rows. */
  method ReadBmp(s: Stream?) returns (image: Image?)
    requires s != null ==> |s.content| >= HEADER_SIZE
    requires s != null && ParseHeader(s.content).Some? ==> DataFits(s.content, ParseHeader(s.content).value)
    modifies s
    ensures s == null ==> image == null
    ensures s != null ==> s.content == old(s.content)
    ensures s != null ==> (image == null <==> ParseHeader(s.content).None?)
    ensures image != null ==> s.pos == RowsEnd(image.header)
    ensures image != null ==> fresh(image) && fresh(image.data) && image.Valid()
    ensures image != null ==> image.header == ParseHeader(s.content).value
    ensures image != null ==> image.data[..] == DecodeRows(s.content[image.header.offset..], image.header.width as nat,
                                                           image.header.height as nat, 0)
  {
    if s == null {
      return null;
    }
    var header := ReadBmpHeader(s);
    if header.None? {
      return null;
    }
    var data := ReadData(s, header);
    assert data.Length == Cells(header.value.height as nat, header.value.width as nat) by {
      CellsProduct(header.value.height as nat, header.value.width as nat);
    }
    image := new Image(header.value, data);
  }

  /** write_bmp: false for a NULL stream or image; otherwise the header's
      memory image at 0 and the rows, unpadded, from its offset on. */
  method WriteBmp(s: Stream?, image: Image?) returns (ok: bool)
    requires image != null ==> image.Valid()
    modifies s, image
    ensures ok == (s != null && image != null)
    ensures s != null && !ok ==> s.content == old(s.content)
    ensures s != null && image == null ==> s.pos == old(s.pos)
    ensures ok ==> s.pos == RowsEnd(image.header)
    ensures image != null ==> image.header == old(image.header) && image.data == old(image.data)
    ensures ok ==> s.content == Overwrite(Overwrite(old(s.content), 0, EncodeHeader(image.header)),
                                          image.header.offset as nat,
                                          EncodeRows(image.data[..], image.header.width as nat,
                                                     image.header.height as nat, 0))
  {
    if s == null || image == null {
      return false;
    }
    s.Seek(0);
    s.Write(EncodeHeader(image.header));
    var h := image.header;
    var pad := DataPadding(h);
    var swapped := h;
    if HOST == BigEndian {
      swapped := SwapEndianness(swapped);
    }
    image.header := swapped;
    WriteRows(s, h.offset as nat, image.data, h.width as nat, h.height as nat, pad as nat);
    ok := true;
  }

  /** create_bmp: NULL for a NULL or invalid template or an invalid resized
      header; otherwise a fresh image with the resized header and room for
      width * height pixels. */
  method CreateBmp(template: Option<Header>, width: u32, height: u32) returns (image: Image?)
    ensures image == null <==> template.None? || !BmpHeaderValid(template.value)
                                || !BmpHeaderValid(Resized(template.value, width, height))
    ensures image != null ==> fresh(image) && fresh(image.data) && image.Valid()
    ensures image != null ==> image.header == Resized(template.value, width, height)
  {
    if template.None? || !BmpHeaderValid(template.value) {
      return null;
    }
    var copy := template.value;
    copy := copy.(width := width);
    copy := copy.(height := height);
    copy := copy.(size := PixelArraySize(copy));
    if !BmpHeaderValid(copy) {
      return null;
    }
    var data := new Pixel[width as int * height as int];
    assert data.Length == Cells(height as nat, width as nat) by {
      CellsProduct(height as nat, width as nat);
    }
    image := new Image(copy, data);
  }
}
