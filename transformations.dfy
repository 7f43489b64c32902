/** flip_horizontally (ps4/transformations.c): the image mirrored along its
    vertical axis, computed on a deep copy by swapping column pairs. */
module Transformations {
  import opened ByteOrder
  import opened BmpFormat
  import opened ImageCopy

  // ---------------------------------------------------------------------------
  // Cells of a width-wide buffer

  /** The cell at row r, column c is at r * width + c, and nowhere else. */
  lemma CellIndex(r: int, c: int, width: nat, height: nat)
    requires 0 <= r < height && 0 <= c < width
    ensures 0 <= r * width + c < width * height
    ensures (r * width + c) / width == r && (r * width + c) % width == c
  {
    DivModUnique(r * width + c, width, r, c);
    MulAwayFromZero(height - r, width);
    assert r * width + width <= height * width;
  }

  /** Every index of the buffer is some cell. */
  lemma IndexCell(i: int, width: nat, height: nat)
    requires 0 <= i < width * height
    ensures width > 0
    ensures i == (i / width) * width + i % width
    ensures 0 <= i / width < height && 0 <= i % width < width
  {
    assert width != 0;
    var r := i / width;
    MulAwayFromZero(height - r, width);
    MulAwayFromZero(r, width);
  }

  /** Where the pixel at index i comes from when its row is mirrored: the
      same row, column width - 1 - (i % width). */
  function MirrorIndex(i: int, width: int): int
    requires width > 0
  {
    i + (width - 1) - 2 * (i % width)
  }

  lemma MirrorIndexCell(i: int, width: nat, height: nat)
    requires 0 <= i < width * height
    ensures width > 0
    ensures 0 <= MirrorIndex(i, width) < width * height
    ensures MirrorIndex(i, width) / width == i / width
    ensures MirrorIndex(i, width) % width == width - 1 - i % width
    ensures MirrorIndex(MirrorIndex(i, width), width) == i
  {
    IndexCell(i, width, height);
    CellIndex(i / width, width - 1 - i % width, width, height);
  }

  // ---------------------------------------------------------------------------
  // The mirrored image

  /** Each row of px reversed, rows kept in place. */
  function Mirror(px: seq<Pixel>, width: nat, height: nat): (r: seq<Pixel>)
    requires |px| == width * height
    ensures |r| == |px|
  {
    seq(|px|, i requires 0 <= i < |px| =>
      MirrorIndexCell(i, width, height);
      px[MirrorIndex(i, width)])
  }

  /** result[r * width + c] == input[r * width + (width - 1 - c)]. */
  lemma {:induction false} MirrorAt(px: seq<Pixel>, width: nat, height: nat, r: nat, c: nat)
    requires |px| == width * height && r < height && c < width
    ensures 0 <= r * width + c < |px| && 0 <= r * width + (width - 1 - c) < |px|
    ensures Mirror(px, width, height)[r * width + c] == px[r * width + (width - 1 - c)]
  {
    CellIndex(r, c, width, height);
    CellIndex(r, width - 1 - c, width, height);
  }

  /** Mirroring twice gives back the image. */
  lemma {:induction false} MirrorInvolution(px: seq<Pixel>, width: nat, height: nat)
    requires |px| == width * height
    ensures Mirror(Mirror(px, width, height), width, height) == px
  {
    var m := Mirror(px, width, height);
    forall i | 0 <= i < |px| ensures Mirror(m, width, height)[i] == px[i] {
      MirrorIndexCell(i, width, height);
    }
  }

  /** The pixels of a row in the opposite order. */
  function Reverse(row: seq<Pixel>): (r: seq<Pixel>)
    ensures |r| == |row|
    ensures forall j :: 0 <= j < |row| ==> r[j] == row[|row| - 1 - j]
  {
    if row == [] then [] else [row[|row| - 1]] + Reverse(row[..|row| - 1])
  }

  /** Pixels stay in their row: row r of the result is row r of the input
      reversed. */
  lemma {:induction false} MirrorKeepsRows(px: seq<Pixel>, width: nat, height: nat, r: nat)
    requires |px| == width * height && r < height
    ensures 0 <= r * width && r * width + width <= |px|
    ensures Mirror(px, width, height)[r * width..r * width + width] == Reverse(px[r * width..r * width + width])
  {
    if width > 0 {
      CellIndex(r, width - 1, width, height);
    }
    var lhs, rhs := Mirror(px, width, height)[r * width..r * width + width], Reverse(px[r * width..r * width + width]);
    forall c | 0 <= c < width ensures lhs[c] == rhs[c] {
      MirrorAt(px, width, height, r, c);
    }
  }

  /** For an odd width the middle column is left as it is. */
  lemma MirrorMiddleColumn(px: seq<Pixel>, width: nat, height: nat, r: nat)
    requires |px| == width * height && r < height && width % 2 == 1
    ensures 0 <= r * width + width / 2 < |px|
    ensures Mirror(px, width, height)[r * width + width / 2] == px[r * width + width / 2]
  {
    MirrorAt(px, width, height, r, width / 2);
  }

  // ---------------------------------------------------------------------------
  // The loop

  /** What index i holds once the column pairs before `left` have been
      swapped in every row, and the pair (left, width - 1 - left) in the
      first `rows` rows. */
  ghost function Expected(orig: seq<Pixel>, width: nat, height: nat, i: nat, left: int, rows: int): Pixel
    requires |orig| == width * height && i < |orig|
  {
    MirrorIndexCell(i, width, height);
    var c := i % width;
    if c < left || c > width - 1 - left || ((c == left || c == width - 1 - left) && i / width < rows)
    then orig[MirrorIndex(i, width)]
    else orig[i]
  }

  /** The state of the pixel buffer at a point of the loop. */
  ghost predicate Progress(cur: seq<Pixel>, orig: seq<Pixel>, width: nat, height: nat, left: int, rows: int)
  {
    |cur| == |orig| == width * height
    && forall i :: 0 <= i < |cur| ==> cur[i] == Expected(orig, width, height, i, left, rows)
  }

  lemma Start(orig: seq<Pixel>, width: nat, height: nat)
    requires |orig| == width * height
    ensures Progress(orig, orig, width, height, 0, 0)
  {
    forall i | 0 <= i < |orig| ensures orig[i] == Expected(orig, width, height, i, 0, 0) {
      MirrorIndexCell(i, width, height);
    }
  }

  /** Swapping the pair (left, width - 1 - left) in one more row. */
  lemma SwapInRow(cur: seq<Pixel>, orig: seq<Pixel>, width: nat, height: nat, left: nat, row: nat)
    requires Progress(cur, orig, width, height, left, row)
    requires left < width - 1 - left && row < height
    ensures 0 <= row * width + left < |cur| && 0 <= row * width + (width - 1 - left) < |cur|
    ensures var a, b := row * width + left, row * width + (width - 1 - left);
            Progress(cur[a := cur[b]][b := cur[a]], orig, width, height, left, row + 1)
  {
    var right := width - 1 - left;
    CellIndex(row, left, width, height);
    CellIndex(row, right, width, height);
    var a, b := row * width + left, row * width + right;
    var next := cur[a := cur[b]][b := cur[a]];
    forall i | 0 <= i < |cur| ensures next[i] == Expected(orig, width, height, i, left, row + 1) {
      IndexCell(i, width, height);
      MirrorIndexCell(i, width, height);
      if i == a {
        assert MirrorIndex(i, width) == b;
        assert next[i] == cur[b] == Expected(orig, width, height, b, left, row);
      } else if i == b {
        assert MirrorIndex(i, width) == a;
        assert next[i] == cur[a] == Expected(orig, width, height, a, left, row);
      } else {
        assert next[i] == cur[i] == Expected(orig, width, height, i, left, row);
      }
    }
  }

  /** With the pair swapped in every row, the next pair begins. */
  lemma PairDone(cur: seq<Pixel>, orig: seq<Pixel>, width: nat, height: nat, left: nat)
    requires Progress(cur, orig, width, height, left, height)
    ensures Progress(cur, orig, width, height, left + 1, 0)
  {
    forall i | 0 <= i < |cur| ensures cur[i] == Expected(orig, width, height, i, left + 1, 0) {
      IndexCell(i, width, height);
      assert cur[i] == Expected(orig, width, height, i, left, height);
    }
  }

  /** Once the counters meet, every row is mirrored. */
  lemma AllDone(cur: seq<Pixel>, orig: seq<Pixel>, width: nat, height: nat, left: nat)
    requires Progress(cur, orig, width, height, left, 0)
    requires width - 1 - left <= left
    ensures cur == Mirror(orig, width, height)
  {
    var m := Mirror(orig, width, height);
    forall i | 0 <= i < |cur| ensures cur[i] == m[i] {
      MirrorIndexCell(i, width, height);
      assert cur[i] == Expected(orig, width, height, i, left, 0);
    }
  }

  /** The inner loop of flip_horizontally: the pair (left, right) swapped
      in every row. */
  method SwapColumns(data: array<Pixel>, width: nat, height: nat, left: nat, right: nat, ghost orig: seq<Pixel>)
    requires Progress(data[..], orig, width, height, left, 0)
    requires left < right && (width >= 1 ==> right == width - 1 - left) && (width == 0 ==> height == 0)
    modifies data
    ensures Progress(data[..], orig, width, height, left + 1, 0)
  {
    var row := 0;
    while row < height
      invariant 0 <= row <= height
      invariant Progress(data[..], orig, width, height, left, row)
    {
      SwapInRow(data[..], orig, width, height, left, row);
      var offset := row * width;
      var tmp := data[offset + left];
      data[offset + left] := data[offset + right];
      data[offset + right] := tmp;
      row := row + 1;
    }
    PairDone(data[..], orig, width, height, left);
  }

  /** flip_horizontally: NULL for a NULL image; otherwise a deep copy whose
      rows are mirrored, the input left as it was. */
  method FlipHorizontally(image: Image?) returns (copy: Image?)
    requires image != null ==> image.Valid()
    requires image != null ==> image.header.width >= 1 || image.header.height == 0
    ensures copy == null <==> image == null
    ensures image != null ==> image.data[..] == old(image.data[..])
    ensures copy != null ==> fresh(copy) && fresh(copy.data) && copy.Valid() && copy.header == image.header
    ensures copy != null ==> copy.data[..] == Mirror(image.data[..], image.header.width as nat, image.header.height as nat)
  {
    if image == null {
      return null;
    }
    copy := CopyBmp(image);
    var data := copy.data;
    var width := image.header.width as int;
    var height := image.header.height as int;
    ghost var orig := image.data[..];
    Start(orig, width, height);

    var left := 0;
    var right := (width - 1) % TWO_32;
    while left < right
      invariant copy.data == data && copy.header == image.header
      invariant image.data[..] == orig
      invariant 0 <= left
      invariant width >= 1 ==> right == width - 1 - left && left <= right + 1
      invariant width == 0 ==> height == 0
      invariant Progress(data[..], orig, width, height, left, 0)
      decreases right - left
    {
      SwapColumns(data, width, height, left, right, orig);
      left := left + 1;
      right := right - 1;
    }
    AllDone(data[..], orig, width, height, left);
  }
}
