/** Interlaced PNG images of 8-bit samples: the filter data of the seven passes one after the
    other, defiltered and put together. */
module PngInterlaced {
  import opened BitMath
  import opened PngFilter
  import opened PngImage
  import opened Adam7

  type Pixel = seq<byte>

  /** The bytes of a pass: none at all, not even filter types, if it has no pixels. */
  function PassBytes(w: nat, h: nat, n: nat, p: nat): nat
    requires p < 7
  {
    if Columns(w, p) == 0 || Rows(h, p) == 0 then 0 else Line(Rows(h, p), Line(Columns(w, p), n) + 1)
  }

  /** Where the data of pass p begin. */
  function Offset(w: nat, h: nat, n: nat, p: nat): nat
    requires p <= 7
  {
    if p == 0 then 0 else Offset(w, h, n, p - 1) + PassBytes(w, h, n, p - 1)
  }

  /** There are data for every row of pass p, and their filter types are known. */
  ghost predicate PassKnown(raw: seq<byte>, w: nat, h: nat, n: nat, p: nat)
    requires p < 7
  {
    Columns(w, p) > 0 && Rows(h, p) > 0 ==>
      Offset(w, h, n, p) <= |raw| && KnownTypes(raw[Offset(w, h, n, p)..], Line(Columns(w, p), n), Rows(h, p))
  }

  lemma PixelBytes(y: nat, x: nat, n: nat)
    ensures Line(Line(y, x), n) == Line(y, Line(x, n))
  {
    assert (y * x) * n == y * (x * n);
  }

  /** The bytes of an image, pixel by pixel. */
  function PixelsOf(out: seq<byte>, n: nat, count: nat): (ps: seq<Pixel>)
    requires Line(count, n) <= |out|
    ensures |ps| == count
  {
    seq(count, i requires 0 <= i < count => PixelOf(out, n, count, i))
  }

  function PixelOf(out: seq<byte>, n: nat, count: nat, i: nat): Pixel
    requires i < count && Line(count, n) <= |out|
  {
    RowFits(i, count, n);
    out[Line(i, n)..Line(i, n) + n]
  }

  /** The pixels of pass p are those of the image whose filter data are at its place. */
  ghost predicate PassIs(raw: seq<byte>, w: nat, h: nat, n: nat, p: nat, pixels: seq<Pixel>)
    requires p < 7
  {
    && |pixels| == Line(Rows(h, p), Columns(w, p))
    && (Columns(w, p) > 0 && Rows(h, p) > 0 ==>
          Offset(w, h, n, p) <= |raw| &&
          IsPass(raw[Offset(w, h, n, p)..], Columns(w, p), Rows(h, p), n, pixels))
  }

  ghost predicate IsPass(data: seq<byte>, x: nat, y: nat, n: nat, pixels: seq<Pixel>)
  {
    exists out: seq<byte> :: IsImage(out, data, x, y, n) && pixels == PixelsOf(out, n, Line(y, x))
  }

  ghost predicate IsImage(out: seq<byte>, data: seq<byte>, x: nat, y: nat, n: nat)
    ensures IsImage(out, data, x, y, n) ==> Line(Line(y, x), n) <= |out|
  {
    var len := Line(x, n);
    PixelBytes(y, x, n);
    |out| == Line(y, len) && IsFilteredImage(ImageRows(out, len, y, false, len), n, len, data)
  }

  /** One pass of the loop of `stbi__create_png_image`, as far as its data. */
  method ReadPass(raw: seq<byte>, w: nat, h: nat, n: nat, p: nat, at: nat)
    returns (ok: bool, pixels: seq<Pixel>, next: nat)
    requires 1 <= n && p < 7 && at == Offset(w, h, n, p) <= |raw|
    ensures ok <==> PassKnown(raw, w, h, n, p)
    ensures ok ==> PassIs(raw, w, h, n, p, pixels) && next == Offset(w, h, n, p + 1) <= |raw|
  {
    hide KnownTypes, IsFilteredImage, ImageRows, PixelsOf, Line, Columns, Rows;
    var x, y := Columns(w, p), Rows(h, p);
    ok, pixels, next := true, [], at;
    if x != 0 && y != 0 {
      var out;
      ok, out := CreateImageRaw(raw[at..], x, y, n);
      if ok {
        EnoughData(raw[at..], Line(x, n), y);
        assert IsImage(out[..], raw[at..], x, y, n);
        pixels := PixelsOf(out[..], n, Line(y, x));
        assert IsPass(raw[at..], x, y, n, pixels);
        next := at + Line(y, Line(x, n) + 1);
      }
    } else {
      NoPixels(x, y);
    }
  }

  lemma NoPixels(x: nat, y: nat)
    requires x == 0 || y == 0
    ensures Line(y, x) == 0
  {
  }

  lemma EnoughData(data: seq<byte>, len: nat, y: nat)
    requires KnownTypes(data, len, y)
    ensures Line(y, len + 1) <= |data|
  {
  }

  ghost predicate AllPasses(raw: seq<byte>, w: nat, h: nat, n: nat, passes: seq<seq<Pixel>>)
  {
    |passes| == 7 && forall p: nat | p < 7 :: PassIs(raw, w, h, n, p, passes[p])
  }

  /** Every pixel of the image is that of its pass. */
  ghost predicate PutTogether(w: nat, h: nat, passes: seq<seq<Pixel>>, final: seq<Pixel>)
  {
    && PassImages(w, h, passes) && |final| == Line(h, w)
    && forall x: nat, y: nat | x < w && y < h :: PlacedFrom(w, h, passes, final, x, y)
  }

  ghost predicate PlacedFrom(w: nat, h: nat, passes: seq<seq<Pixel>>, final: seq<Pixel>, x: nat, y: nat)
    requires |passes| == 7
  {
    var p := PassOf(x, y);
    var i, j := Div(x, XSpc(p)), Div(y, YSpc(p));
    && At(x, y, w) < |final| && i < Columns(w, p) && j < Rows(h, p) && At(i, j, Columns(w, p)) < |passes[p]|
    && final[At(x, y, w)] == passes[p][At(i, j, Columns(w, p))]
  }

  lemma SettledTogether(w: nat, h: nat, passes: seq<seq<Pixel>>, final: seq<Pixel>, writes: seq<nat>)
    requires PassImages(w, h, passes) && |final| == |writes| == Line(h, w)
    requires AllSettled(w, h, passes, final, writes, 7, 0, 0)
    ensures PutTogether(w, h, passes, final)
  {
    forall x: nat, y: nat | x < w && y < h ensures PlacedFrom(w, h, passes, final, x, y) {
      var p := PassOf(x, y);
      var i, j := Div(x, XSpc(p)), Div(y, YSpc(p));
      PassUnique(x, y, i, j, p);
      hide AllSettled, At, Div, Columns, Rows, OnGrid, PassOf;
      EveryPixel(w, h, passes, final, writes, x, y, p, i, j);
    }
  }

  lemma PassesFit(raw: seq<byte>, w: nat, h: nat, n: nat, passes: seq<seq<Pixel>>)
    requires AllPasses(raw, w, h, n, passes)
    ensures PassImages(w, h, passes)
  {
    forall p: nat | p < 7 ensures |passes[p]| == Line(Rows(h, p), Columns(w, p)) {
      assert PassIs(raw, w, h, n, p, passes[p]);
    }
  }

  /** The data of all seven passes. */
  method ReadPasses(raw: seq<byte>, w: nat, h: nat, n: nat) returns (ok: bool, passes: seq<seq<Pixel>>)
    requires 1 <= n
    ensures ok <==> forall p: nat | p < 7 :: PassKnown(raw, w, h, n, p)
    ensures ok ==> AllPasses(raw, w, h, n, passes)
  {
    hide PassKnown, PassIs, Offset;
    passes := [];
    var p: nat, at: nat := 0, 0;
    ok := true;
    FirstOffset(w, h, n);
    while p < 7 && ok
      invariant p <= 7 && (ok ==> |passes| == p && at == Offset(w, h, n, p) <= |raw|)
      invariant ok ==> forall q: nat | q < p :: PassKnown(raw, w, h, n, q) && PassIs(raw, w, h, n, q, passes[q])
      invariant !ok ==> p < 7 && !PassKnown(raw, w, h, n, p)
      decreases 7 - p, ok
    {
      var pixels, next;
      ok, pixels, next := ReadPass(raw, w, h, n, p, at);
      if ok {
        passes := passes + [pixels];
        at, p := next, p + 1;
      }
    }
  }

  lemma FirstOffset(w: nat, h: nat, n: nat)
    ensures Offset(w, h, n, 0) == 0
  {
  }

  /** The image that interlaced filter data are of. */
  ghost predicate InterlacedImage(raw: seq<byte>, w: nat, h: nat, n: nat, final: seq<Pixel>)
  {
    exists passes :: AllPasses(raw, w, h, n, passes) && PutTogether(w, h, passes, final)
  }

  /** `stbi__create_png_image` for an interlaced image of 8-bit samples with no alpha channel
      to add. It succeeds exactly when every pass that has pixels has data for all its rows,
      of known filter types; then each pixel is the one of its pass. The passes are all
      defiltered before the first is placed, which the code does in turn. */
  method CreateInterlaced(raw: seq<byte>, w: nat, h: nat, n: nat) returns (ok: bool, final: array<Pixel>)
    requires 1 <= n
    ensures ok <==> forall p: nat | p < 7 :: PassKnown(raw, w, h, n, p)
    ensures ok ==> InterlacedImage(raw, w, h, n, final[..])
  {
    hide PassKnown, AllPasses, AllSettled, PassImages, PutTogether;
    final := new Pixel[Line(h, w)](_ => []);
    var passes;
    ok, passes := ReadPasses(raw, w, h, n);
    if ok {
      PassesFit(raw, w, h, n, passes);
      ghost var writes := Deinterlace(w, h, passes, final);
      SettledTogether(w, h, passes, final[..], writes);
    }
  }

  // ---- the image is determined --------------------------------------------------------

  /** The data of a pass are those of one image only. */
  lemma PassUnambiguous(data: seq<byte>, x: nat, y: nat, n: nat, a: seq<Pixel>, b: seq<Pixel>)
    requires n > 0 && IsPass(data, x, y, n, a) && IsPass(data, x, y, n, b)
    ensures a == b
  {
    var o :| IsImage(o, data, x, y, n) && a == PixelsOf(o, n, Line(y, x));
    var q :| IsImage(q, data, x, y, n) && b == PixelsOf(q, n, Line(y, x));
    var len := Line(x, n);
    hide PixelsOf, IsFilteredImage, Line;
    FilteredImageUnique(ImageRows(o, len, y, false, len), ImageRows(q, len, y, false, len), n, len, data);
    SameImage(o, q, len, y);
  }

  lemma {:induction false} RowsAgree(a: seq<byte>, b: seq<byte>, len: nat, y: nat, t: nat)
    requires |a| == |b| == Line(y, len) && t <= y
    requires ImageRows(a, len, y, false, len) == ImageRows(b, len, y, false, len)
    ensures Line(t, len) <= |a| && a[..Line(t, len)] == b[..Line(t, len)]
  {
    if t > 0 {
      RowsAgree(a, b, len, y, t - 1);
      RowFits(t - 1, y, len);
      LastRowFits(t - 1, len);
      var p := Line(t - 1, len);
      assert ImageRows(a, len, y, false, len)[t - 1] == ImageRows(b, len, y, false, len)[t - 1];
      assert a[p..p + len] == b[p..p + len];
      hide Line, ImageRows;
      assert a[..p + len] == a[..p] + a[p..p + len] && b[..p + len] == b[..p] + b[p..p + len];
    }
  }

  lemma SameImage(a: seq<byte>, b: seq<byte>, len: nat, y: nat)
    requires |a| == |b| == Line(y, len)
    requires ImageRows(a, len, y, false, len) == ImageRows(b, len, y, false, len)
    ensures a == b
  {
    hide *;
    RowsAgree(a, b, len, y, y);
    assert a[..|a|] == a && b[..|b|] == b;
  }
}
