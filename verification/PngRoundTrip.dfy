/** A whole 8-bit image written and read: filters, deflate, inflate, and the filters undone. */
module PngRoundTrip {
  import opened BitMath
  import opened PngFilter
  import opened PngImage
  import ZCompress
  import ZlibRoundTrip

  /** The rows of an image with at least one row and one column come back as they were, in
      the order they were written, whatever the filters and the compression level. */
  method RoundTrip(pixels: array<byte>, stride_bytes: nat, x: nat, y: nat, n: nat, force: int, flip: bool, quality: int)
    returns (ok: bool, out: array<byte>)
    requires 1 <= n && 1 <= x && 1 <= y
    requires Line(x, n) <= stride_bytes && Line(y, stride_bytes) <= pixels.Length
    requires ZCompress.StoredLength(Line(y, Line(x, n) + 1)) <= 0x7FFF_FFFF
    ensures ok && out.Length == Line(y, Line(x, n))
    ensures ImageRows(out[..], Line(x, n), y, false, Line(x, n)) ==
            ImageRows(pixels[..], stride_bytes, y, flip, Line(x, n))
  {
    hide Line, IsFilteredImage, KnownTypes, ImageRows;
    var filt := FilterImage(pixels, stride_bytes, x, y, n, force, flip);
    ghost var rows := ImageRows(pixels[..], stride_bytes, y, flip, Line(x, n));
    SomeData(y, Line(x, n));
    var inflated, raw := ZlibRoundTrip.RoundTrip(filt[..], quality, Line(y, Line(x, n) + 1));
    AllKnown(rows, filt[..], n, Line(x, n), y);
    ok, out := CreateImageRaw(raw, x, y, n);
    FilteredImageUnique(rows, ImageRows(out[..], Line(x, n), y, false, Line(x, n)), n, Line(x, n), raw);
  }

  lemma SomeData(y: nat, len: nat)
    requires y >= 1
    ensures Line(y, len + 1) > 0
  {
    LineMono(0, y, len + 1);
  }
}
