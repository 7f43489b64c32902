/** Deep copies of images (copy_data and copy_bmp). Both variants of the
    codec implement them the same way. */
module ImageCopy {
  import opened BmpFormat
  import opened Optional

  /** copy_data: NULL for a NULL header or buffer, otherwise a fresh buffer
      holding the first width * height pixels (what memcpy moves). */
  method CopyData(header: Option<Header>, data: array?<Pixel>) returns (copy: array?<Pixel>)
    requires header.Some? && data != null ==> data.Length >= header.value.width as int * header.value.height as int
    ensures copy == null <==> header.None? || data == null
    ensures copy != null ==> fresh(copy)
    ensures copy != null ==> copy[..] == data[..header.value.width as int * header.value.height as int]
  {
    if header.None? || data == null {
      return null;
    }
    var n := header.value.width as int * header.value.height as int;
    copy := new Pixel[n];
    forall i | 0 <= i < n {
      copy[i] := data[i];
    }
  }

  /** copy_bmp: NULL exactly for a NULL image, otherwise a fresh image with
      an equal header and an equal, separate pixel buffer. */
  method CopyBmp(image: Image?) returns (copy: Image?)
    requires image != null ==> image.Valid()
    ensures copy == null <==> image == null
    ensures copy != null ==> fresh(copy) && fresh(copy.data) && copy.Valid()
    ensures copy != null ==> copy.header == image.header && copy.data[..] == image.data[..]
  {
    if image == null {
      return null;
    }
    var header := image.header;
    var data := CopyData(Some(header), image.data);
    assert image.data[..image.data.Length] == image.data[..];
    copy := new Image(header, data);
  }
}
