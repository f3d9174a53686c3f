/** A whole GIF picture: any encoding of its indices, cut into sub-blocks, decoded into a
    frame, plain or interlaced. */
module GifPicture {
  import opened BitMath
  import opened Deflate
  import opened GifLzw
  import opened GifCanvas
  import opened GifRaster

  /** The code size, and sub-blocks whose bits are a clear code and an encoding of the text. */
  ghost predicate Carries(s: seq<byte>, cs: nat, text: seq<byte>, codes: seq<nat>)
  {
    && 1 <= cs <= 11 && Head(s) == cs && Encodes(cs, Initial(cs), text, codes)
    && var d := Data(Tail(s), 0);
       Holds(LE(d), 8 * |d|, [Field(Clear(cs), cs + 1)] + Packed(cs, Initial(cs), text, codes))
  }

  /** The indices in the frame, row after row in the order given: each shows its colour, if
      that is not transparent. Nothing else of the picture changes. */
  ghost predicate Shows(f: Frame, palette: seq<Pixel>, rows: seq<nat>, text: seq<byte>, was: seq<Pixel>,
                        now: seq<Pixel>)
    requires |palette| == 256
  {
    && |now| == |was|
    && (forall i: nat, c: nat | i < |rows| && c < f.w :: ShowsAt(f, palette, rows, i, c, text, was, now))
    && forall a: nat | a < |now| && Outside(f, a) :: now[a] == was[a]
  }

  ghost predicate ShowsAt(f: Frame, palette: seq<Pixel>, rows: seq<nat>, i: nat, c: nat, text: seq<byte>,
                          was: seq<Pixel>, now: seq<Pixel>)
    requires |palette| == 256 && |now| == |was| && i < |rows|
  {
    var a, n := At(f, rows[i], c), Line(i, f.w) + c;
    a < |now| && now[a] == if n < |text| then Shown(was[a], palette[text[n]]) else was[a]
  }

  ghost predicate Outside(f: Frame, a: nat)
  {
    forall r: nat, c: nat | r < f.h && c < f.w :: At(f, r, c) != a
  }

  lemma PaintedShows(f: Frame, palette: seq<Pixel>, cv: Canvas, text: seq<byte>)
    requires |palette| == 256 && Fits(f, cv) && cv.col == 0 && Distinct(cv.rows, f.h)
    ensures Shows(f, palette, cv.rows, text, cv.pixels, PutAll(f, palette, cv, text).pixels)
  {
    hide PutAll, Distinct, Fits, At, Shown;
    var now := PutAll(f, palette, cv, text).pixels;
    forall i: nat, c: nat | i < |cv.rows| && c < f.w
      ensures ShowsAt(f, palette, cv.rows, i, c, text, cv.pixels, now)
    {
      PixelAt(f, palette, cv, text, i, c, Line(i, f.w) + c, At(f, cv.rows[i], c));
    }
    forall a: nat | a < |now| && Outside(f, a) ensures now[a] == cv.pixels[a] {
      PixelElsewhere(f, palette, cv, text, a);
    }
  }

  lemma RowsInOrder(w: nat, h: nat, interlaced: bool)
    ensures Distinct(if w == 0 then [] else RowOrder(h, interlaced), h)
  {
    RowOrderDistinct(h, interlaced);
  }

  /** `stbi__gif_load_next` on an image descriptor: whatever the encoder, the indices of the text
      appear row by row, in four passes if interlaced, in the colours of the frame. It fails if the
      frame is outside the picture or has no colours, or if the encoder deferred its clear code beyond
      the decoder's limit. */
  method DecodeFrame(g: Gif, ghost cs: nat, ghost text: seq<byte>, ghost codes: seq<nat>) returns (ok: bool)
    requires g.Valid() && Carries(AfterDescription(g.s), cs, text, codes)
    modifies g, g.Image, g.codes
    ensures g.Valid() && (ok <==> old(g.Acceptable(g.s)) && ShortRuns(cs, codes, 0))
    ensures ok ==> Colours(old(g.s), old(if g.eflags % 2 == 1 then g.transparent else -1), old(g.pal), old(g.lpal),
                           g.color_table)
    ensures ok ==> var d := DescriptionOf(old(g.s));
      Shows(Frame(g.w, d.x, d.y, d.w, d.h), g.color_table, if d.w == 0 then [] else RowOrder(d.h, d.Interlaced()), text,
            old(g.out[..]), g.out[..])
  {
    hide Encodes, Packed, Holds, GifLzw.Expand, PutAll, Shows, ShortRuns, RowOrder, Distinct, Initial, DescriptionOf,
      AfterDescription, Colours;
    ok := g.Descriptor();
    if ok {
      ghost var before := g.View();
      ghost var d := Data(Tail(g.s), 0);
      RowsInOrder(g.frame.w, g.frame.h, DescriptionOf(old(g.s)).Interlaced());
      ok := g.ProcessRaster();
      DecodeEncoded(cs, text, codes, LE(d), 8 * |d|);
      if ok { PaintedShows(g.frame, g.color_table, before, text); }
    }
  }
}
