/** The padded pixel array: `height` rows of `width` three-byte pixels in
    blue, green, red order, each row followed by `pad` padding bytes. Row 0
    of the pixel buffer is the first row in the file. Row r of the buffer
    starts at pixel Cells(r, width) and in the file at byte
    Cells(r, Stride(width, pad)). */
module PixelCodec {
  import opened ByteOrder
  import opened BmpFormat
  import opened FileStream

  // ---------------------------------------------------------------------------
  // Arithmetic on rows

  /** Bytes taken by one row together with its padding. */
  function Stride(width: nat, pad: nat): nat
  {
    PIXEL_SIZE * width + pad
  }

  /** Rows 0 .. height-1 lie inside n bytes, the padding of the last row
      aside: reading them never runs past the end. */
  predicate RowsFit(n: nat, width: nat, height: nat, pad: nat)
  {
    Cells(height, Stride(width, pad)) <= n + pad
  }

  lemma RowsFitFewer(n: nat, width: nat, i: nat, height: nat, pad: nat)
    requires i < height && RowsFit(n, width, height, pad)
    ensures Cells(i, Stride(width, pad)) + PIXEL_SIZE * width <= n
    ensures RowsFit(n, width, i, pad) && RowsFit(n, width, i + 1, pad)
  {
    CellsMono(i + 1, height, Stride(width, pad));
  }

  /** Room for row i's pixels is room for the first i + 1 rows. */
  lemma RowsFitStep(n: nat, width: nat, i: nat, pad: nat)
    requires RowsFit(n, width, i, pad) && Cells(i, Stride(width, pad)) + PIXEL_SIZE * width <= n
    ensures RowsFit(n, width, i + 1, pad)
  {
  }

  /** Row i of a buffer of height rows lies inside it. */
  lemma RowPrefix(i: nat, width: nat, height: nat)
    requires i < height
    ensures Cells(i, width) + width <= Cells(height, width)
  {
    CellsMono(i + 1, height, width);
  }

  // ---------------------------------------------------------------------------
  // One row

  function PixelBytes(p: Pixel): (r: seq<byte>)
  {
    [p.blue, p.green, p.red]
  }

  /** The pixel stored at the j-th three bytes of b. */
  function PixelAt(b: seq<byte>, j: nat): Pixel
    requires PIXEL_SIZE * j + PIXEL_SIZE <= |b|
  {
    Pixel(b[3 * j], b[3 * j + 1], b[3 * j + 2])
  }

  /** The memory image of a row of pixels: what fwrite emits for it. */
  function EncodeRow(row: seq<Pixel>): (r: seq<byte>)
    ensures |r| == PIXEL_SIZE * |row|
    ensures forall j :: 0 <= j < |row| ==> PixelAt(r, j) == row[j]
  {
    if row == [] then []
    else
      var r := EncodeRow(row[..|row| - 1]) + PixelBytes(row[|row| - 1]);
      assert forall j :: 0 <= j < |row| - 1 ==> PixelAt(r, j) == PixelAt(EncodeRow(row[..|row| - 1]), j);
      r
  }

  /** The first width pixels stored in b: what fread fills a row with. */
  function DecodeRow(b: seq<byte>, width: nat): (r: seq<Pixel>)
    requires PIXEL_SIZE * width <= |b|
    ensures |r| == width
  {
    seq(width, j requires 0 <= j < width => PixelAt(b, j))
  }

  lemma DecodeEncodeRow(row: seq<Pixel>, tail: seq<byte>)
    ensures DecodeRow(EncodeRow(row) + tail, |row|) == row
  {
    var b := EncodeRow(row) + tail;
    forall j | 0 <= j < |row| ensures DecodeRow(b, |row|)[j] == row[j] {
      assert PixelAt(b, j) == PixelAt(EncodeRow(row), j);
    }
  }

  lemma DecodeRowPrefix(b: seq<byte>, n: nat, width: nat)
    requires PIXEL_SIZE * width <= n <= |b|
    ensures DecodeRow(b, width) == DecodeRow(b[..n], width)
  {
  }

  // ---------------------------------------------------------------------------
  // All rows

  /** The padded pixel array that write_bmp emits for a buffer of height
      rows of width pixels, with zero padding bytes. */
  function EncodeRows(px: seq<Pixel>, width: nat, height: nat, pad: nat): (r: seq<byte>)
    requires |px| == Cells(height, width)
    ensures |r| == Cells(height, Stride(width, pad))
    decreases height
  {
    if height == 0 then []
    else
      var k := Cells(height - 1, width);
      EncodeRows(px[..k], width, height - 1, pad) + EncodeRow(px[k..]) + Zeros(pad)
  }

  /** The buffer that read_data fills from the bytes b of the pixel array:
      row i holds the width pixels at byte Cells(i, Stride(width, pad)). */
  function DecodeRows(b: seq<byte>, width: nat, height: nat, pad: nat): (r: seq<Pixel>)
    requires RowsFit(|b|, width, height, pad)
    ensures |r| == Cells(height, width)
    decreases height
  {
    if height == 0 then []
    else
      RowsFitFewer(|b|, width, height - 1, height, pad);
      DecodeRows(b, width, height - 1, pad) + DecodeRow(b[Cells(height - 1, Stride(width, pad))..], width)
  }

  /** Decoding looks only at the bytes the rows occupy. */
  lemma {:induction false} DecodeRowsPrefix(b: seq<byte>, n: nat, width: nat, height: nat, pad: nat)
    requires n <= |b| && RowsFit(n, width, height, pad)
    ensures DecodeRows(b, width, height, pad) == DecodeRows(b[..n], width, height, pad)
    decreases height
  {
    if height > 0 {
      var start := Cells(height - 1, Stride(width, pad));
      RowsFitFewer(n, width, height - 1, height, pad);
      DecodeRowsPrefix(b, n, width, height - 1, pad);
      forall j | 0 <= j < width ensures PixelAt(b[start..], j) == PixelAt(b[..n][start..], j) {
      }
      assert DecodeRow(b[start..], width) == DecodeRow(b[..n][start..], width);
    }
  }

  /** The last row of an encoding and everything before it. */
  lemma EncodeRowsSplit(px: seq<Pixel>, width: nat, height: nat, pad: nat)
    requires |px| == Cells(height, width) && height > 0
    ensures Cells(height - 1, width) + width == |px|
    ensures Cells(height - 1, Stride(width, pad)) + Stride(width, pad) == |EncodeRows(px, width, height, pad)|
    ensures EncodeRows(px, width, height, pad)[..Cells(height - 1, Stride(width, pad))]
            == EncodeRows(px[..Cells(height - 1, width)], width, height - 1, pad)
    ensures EncodeRows(px, width, height, pad)[Cells(height - 1, Stride(width, pad))..]
            == EncodeRow(px[Cells(height - 1, width)..]) + Zeros(pad)
  {
    var k := Cells(height - 1, width);
    var front, last := EncodeRows(px[..k], width, height - 1, pad), EncodeRow(px[k..]) + Zeros(pad);
    assert EncodeRows(px, width, height, pad) == front + last;
  }

  /** One more row: the encoding of the first i + 1 rows of a buffer, where
      row i starts at base. */
  lemma EncodeRowsStep(px: seq<Pixel>, width: nat, i: nat, pad: nat, base: nat, row: seq<Pixel>)
    requires base == Cells(i, width) && base + width <= |px| && row == px[base..base + width]
    ensures base + width == Cells(i + 1, width)
    ensures EncodeRows(px[..base + width], width, i + 1, pad)
            == EncodeRows(px[..base], width, i, pad) + (EncodeRow(row) + Zeros(pad))
  {
    var front := px[..base + width];
    assert front[..base] == px[..base];
    assert front[base..] == row;
    var e, r, z := EncodeRows(px[..base], width, i, pad), EncodeRow(row), Zeros(pad);
    assert e + r + z == e + (r + z);
  }

  /** The last row of a decoding and the rows before it. */
  lemma DecodeRowsLast(b: seq<byte>, width: nat, height: nat, pad: nat)
    requires RowsFit(|b|, width, height, pad) && height > 0
    ensures Cells(height - 1, Stride(width, pad)) + PIXEL_SIZE * width <= |b|
    ensures RowsFit(|b|, width, height - 1, pad)
    ensures DecodeRows(b, width, height, pad)
            == DecodeRows(b, width, height - 1, pad) + DecodeRow(b[Cells(height - 1, Stride(width, pad))..], width)
  {
    RowsFitFewer(|b|, width, height - 1, height, pad);
  }

  /** The last row of an encoding decodes to the last row of the buffer. */
  lemma DecodeLastRow(px: seq<Pixel>, width: nat, height: nat, pad: nat)
    requires |px| == Cells(height, width) && height > 0
    ensures Cells(height - 1, width) <= |px|
    ensures Cells(height - 1, Stride(width, pad)) + PIXEL_SIZE * width <= |EncodeRows(px, width, height, pad)|
    ensures DecodeRow(EncodeRows(px, width, height, pad)[Cells(height - 1, Stride(width, pad))..], width)
            == px[Cells(height - 1, width)..]
  {
    EncodeRowsSplit(px, width, height, pad);
    DecodeEncodeRow(px[Cells(height - 1, width)..], Zeros(pad));
  }

  /** The rows before the last decode as they did on their own. */
  lemma DecodeFrontRows(px: seq<Pixel>, width: nat, height: nat, pad: nat)
    requires |px| == Cells(height, width) && height > 0
    ensures Cells(height - 1, width) <= |px|
    ensures RowsFit(|EncodeRows(px, width, height, pad)|, width, height - 1, pad)
    ensures DecodeRows(EncodeRows(px, width, height, pad), width, height - 1, pad)
            == DecodeRows(EncodeRows(px[..Cells(height - 1, width)], width, height - 1, pad), width, height - 1, pad)
  {
    var e := EncodeRows(px, width, height, pad);
    EncodeRowsSplit(px, width, height, pad);
    DecodeRowsPrefix(e, Cells(height - 1, Stride(width, pad)), width, height - 1, pad);
  }

  /** The inductive step of DecodeEncodeRows: if the rows before the last
      read back, so do all of them. */
  lemma DecodeEncodeLastRow(px: seq<Pixel>, width: nat, height: nat, pad: nat)
    requires |px| == Cells(height, width) && height > 0
    requires Cells(height - 1, width) <= |px|
    requires DecodeRows(EncodeRows(px[..Cells(height - 1, width)], width, height - 1, pad), width, height - 1, pad)
             == px[..Cells(height - 1, width)]
    ensures DecodeRows(EncodeRows(px, width, height, pad), width, height, pad) == px
  {
    var k := Cells(height - 1, width);
    DecodeFrontRows(px, width, height, pad);
    DecodeLastRow(px, width, height, pad);
    DecodeRowsLast(EncodeRows(px, width, height, pad), width, height, pad);
    assert px[..k] + px[k..] == px;
  }

  /** Reading back what was written yields the same pixels. */
  lemma {:induction false} DecodeEncodeRows(px: seq<Pixel>, width: nat, height: nat, pad: nat)
    requires |px| == Cells(height, width)
    ensures RowsFit(|EncodeRows(px, width, height, pad)|, width, height, pad)
    ensures DecodeRows(EncodeRows(px, width, height, pad), width, height, pad) == px
    decreases height
  {
    if height > 0 {
      DecodeEncodeRows(px[..Cells(height - 1, width)], width, height - 1, pad);
      DecodeEncodeLastRow(px, width, height, pad);
    }
  }

  // ---------------------------------------------------------------------------
  // The row loops of read_data and write_bmp

  /** One iteration of read_data's loop: fread of width pixels into
      data[base .. base + width), then fseek past the row's padding. */
  method ReadRow(s: Stream, data: array<Pixel>, base: nat, width: nat, pad: nat)
    requires base + width <= data.Length && s.pos + PIXEL_SIZE * width <= |s.content|
    modifies s, data
    ensures s.content == old(s.content) && s.pos == old(s.pos) + Stride(width, pad)
    ensures data[..base] == old(data[..base]) && data[base + width..] == old(data[base + width..])
    ensures data[base..base + width] == DecodeRow(s.content[old(s.pos)..], width)
  {
    var bytes := s.Read(PIXEL_SIZE * width);
    forall j | 0 <= j < width {
      data[base + j] := PixelAt(bytes, j);
    }
    DecodeRowPrefix(s.content[old(s.pos)..], PIXEL_SIZE * width, width);
    assert s.content[old(s.pos)..][..PIXEL_SIZE * width] == bytes;
    s.Seek(s.pos + pad);
  }

  /** One iteration of write_bmp's loop: fwrite of the row, then of the
      padding, right after the block written so far from offset on. */
  method WriteRow(s: Stream, row: seq<Pixel>, padding: seq<byte>,
                  ghost start: seq<byte>, ghost offset: nat, ghost written: seq<byte>)
    requires s.content == Overwrite(start, offset, written) && s.pos == offset + |written|
    modifies s
    ensures s.content == Overwrite(start, offset, written + (EncodeRow(row) + padding))
    ensures s.pos == old(s.pos) + PIXEL_SIZE * |row| + |padding|
  {
    s.Write(EncodeRow(row));
    s.Write(padding);
    OverwriteConsecutive(old(s.content), old(s.pos), EncodeRow(row), padding);
    OverwriteConsecutive(start, offset, written, EncodeRow(row) + padding);
  }

  /** The inductive step of ReadRows: once row i has landed at base, the
      first i + 1 rows of the buffer are those of the file. */
  lemma ReadRowsStep(cur: seq<Pixel>, content: seq<byte>, offset: nat, width: nat, i: nat, pad: nat, base: nat)
    requires offset + Cells(i, Stride(width, pad)) + PIXEL_SIZE * width <= |content|
    requires RowsFit(|content| - offset, width, i, pad)
    requires base == Cells(i, width) && base + width <= |cur|
    requires cur[..base] == DecodeRows(content[offset..], width, i, pad)
    requires cur[base..base + width] == DecodeRow(content[offset + Cells(i, Stride(width, pad))..], width)
    ensures base + width == Cells(i + 1, width)
    ensures RowsFit(|content| - offset, width, i + 1, pad)
    ensures cur[..base + width] == DecodeRows(content[offset..], width, i + 1, pad)
  {
    var file, k := content[offset..], Cells(i, Stride(width, pad));
    RowsFitStep(|file|, width, i, pad);
    DecodeRowsLast(file, width, i + 1, pad);
    assert content[offset + k..] == file[k..];
    assert cur[..base + width] == cur[..base] + cur[base..base + width];
  }

  /** From the stream's offset on, read height rows of width pixels, skipping
      pad bytes after each row. Row i goes to data[base ..] with base the
      running value of i * width. */
  method ReadRows(s: Stream, offset: nat, width: nat, height: nat, pad: nat) returns (data: array<Pixel>)
    requires offset <= |s.content| && RowsFit(|s.content| - offset, width, height, pad)
    modifies s
    ensures fresh(data) && data.Length == width * height
    ensures s.content == old(s.content) && s.pos == offset + Cells(height, Stride(width, pad))
    ensures data[..] == DecodeRows(s.content[offset..], width, height, pad)
  {
    data := new Pixel[width * height];
    assert data.Length == Cells(height, width) by {
      CellsProduct(height, width);
    }
    s.Seek(offset);
    var i, base := 0, 0;
    while i < height
      invariant 0 <= i <= height && base == Cells(i, width) <= data.Length
      invariant s.content == old(s.content) && s.pos == offset + Cells(i, Stride(width, pad))
      invariant RowsFit(|s.content| - offset, width, i, pad)
      invariant data[..base] == DecodeRows(s.content[offset..], width, i, pad)
    {
      RowPrefix(i, width, height);
      RowsFitFewer(|s.content| - offset, width, i, height, pad);
      ReadRow(s, data, base, width, pad);
      ReadRowsStep(data[..], s.content, offset, width, i, pad, base);
      i, base := i + 1, base + width;
    }
    assert data[..base] == data[..];
  }

  /** From offset on, write height rows of width pixels, each followed by pad
      zero bytes. */
  method WriteRows(s: Stream, offset: nat, data: array<Pixel>, width: nat, height: nat, pad: nat)
    requires data.Length == Cells(height, width)
    modifies s
    ensures s.content == Overwrite(old(s.content), offset, EncodeRows(data[..], width, height, pad))
    ensures s.pos == offset + Cells(height, Stride(width, pad))
  {
    s.Seek(offset);
    ghost var px := data[..];
    ghost var written: seq<byte> := [];
    var padding := Zeros(pad);
    var i, base := 0, 0;
    while i < height
      invariant 0 <= i <= height && base == Cells(i, width) <= |px|
      invariant written == EncodeRows(px[..base], width, i, pad)
      invariant s.content == Overwrite(old(s.content), offset, written)
      invariant s.pos == offset + |written|
    {
      RowPrefix(i, width, height);
      var row := data[base..base + width];
      EncodeRowsStep(px, width, i, pad, base, row);
      WriteRow(s, row, padding, old(s.content), offset, written);
      written := written + (EncodeRow(row) + padding);
      i, base := i + 1, base + width;
    }
    assert px[..base] == px;
  }
}
