/** Where the pixels of a GIF image go (GIF89a Appendix E): the rows in the order of the
    passes, each from left to right. */
module GifCanvas {
  import opened BitMath

  datatype Pixel = Pixel(r: byte, g: byte, b: byte, a: byte)

  /** Rows start, start + step, ... below h. */
  function Pass(start: nat, step: nat, h: nat): seq<nat>
    requires step > 0
    decreases if start < h then h - start else 0
  {
    if start >= h then [] else [start] + Pass(start + step, step, h)
  }

  /** The passes still to come: pass p takes every 2^p-th row from row 2^p / 2. */
  function Later(parse: nat, h: nat): seq<nat>
  {
    if parse == 0 then [] else Pass(Pow2(parse - 1), Pow2(parse), h) + Later(parse - 1, h)
  }

  function RowOrder(h: nat, interlaced: bool): seq<nat>
  {
    if interlaced then Pass(0, 8, h) + Later(3, h) else Pass(0, 1, h)
  }

  /** How often a row comes. */
  function Times(r: nat, rows: seq<nat>): nat
  {
    if |rows| == 0 then 0 else (if rows[0] == r then 1 else 0) + Times(r, rows[1..])
  }

  lemma {:induction false} TimesConcat(r: nat, a: seq<nat>, b: seq<nat>)
    ensures Times(r, a + b) == Times(r, a) + Times(r, b)
  {
    if |a| == 0 {
      assert a + b == b;
    } else {
      assert (a + b)[1..] == a[1..] + b;
      TimesConcat(r, a[1..], b);
    }
  }

  lemma {:induction false} TimesAt(rows: seq<nat>, i: nat)
    requires i < |rows|
    ensures Times(rows[i], rows) >= 1
    ensures forall j: nat | j < i :: rows[j] == rows[i] ==> Times(rows[i], rows) >= 2
  {
    if i > 0 {
      TimesAt(rows[1..], i - 1);
      forall j: nat | j < i && rows[j] == rows[i] ensures Times(rows[i], rows) >= 2 {
        if j > 0 { assert rows[1..][j - 1] == rows[i]; }
      }
    }
  }

  /** d is a multiple of the row step. */
  predicate OnStep(d: nat, step: nat)
  {
    step == 1 || (step == 2 && d % 2 == 0) || (step == 4 && d % 4 == 0) || (step == 8 && d % 8 == 0)
  }

  lemma {:induction false} PassCount(start: nat, step: nat, h: nat, r: nat)
    requires step == 1 || step == 2 || step == 4 || step == 8
    ensures Times(r, Pass(start, step, h)) == if start <= r < h && OnStep(r - start, step) then 1 else 0
    decreases if start < h then h - start else 0
  {
    if start < h {
      var next := start + step;
      PassCount(next, step, h, r);
      assert Pass(start, step, h)[1..] == Pass(next, step, h);
      if start < r < next {
        assert !OnStep(r - start, step);
      }
    }
  }

  lemma LaterPasses(h: nat)
    ensures Later(3, h) == Pass(4, 8, h) + (Pass(2, 4, h) + Pass(1, 2, h))
  {
    Pow2Values();
    hide Pow2, Pass;
    assert Later(1, h) == Pass(1, 2, h) + [];
    assert Later(2, h) == Pass(2, 4, h) + Later(1, h);
  }

  /** Each row of an interlaced image is on exactly one of the four grids. */
  lemma OneGrid(r: nat)
    ensures (if OnStep(r, 8) then 1 else 0) + (if r >= 4 && OnStep(r - 4, 8) then 1 else 0)
          + (if r >= 2 && OnStep(r - 2, 4) then 1 else 0) + (if r >= 1 && OnStep(r - 1, 2) then 1 else 0) == 1
  {
  }

  /** The four passes take rows 0, 8, ..., then 4, 12, ..., then 2, 6, ..., then 1, 3, ...;
      with or without interlacing each row of the image comes exactly once. */
  lemma RowsOnce(h: nat, interlaced: bool, r: nat)
    ensures RowOrder(h, true) == Pass(0, 8, h) + (Pass(4, 8, h) + (Pass(2, 4, h) + Pass(1, 2, h)))
    ensures Times(r, RowOrder(h, interlaced)) == if r < h then 1 else 0
  {
    LaterPasses(h);
    PassCount(0, 1, h, r);
    PassCount(0, 8, h, r);
    PassCount(4, 8, h, r);
    PassCount(2, 4, h, r);
    PassCount(1, 2, h, r);
    OneGrid(r);
    hide Pass, Later, OnStep, Times;
    TimesConcat(r, Pass(2, 4, h), Pass(1, 2, h));
    TimesConcat(r, Pass(4, 8, h), Pass(2, 4, h) + Pass(1, 2, h));
    TimesConcat(r, Pass(0, 8, h), Pass(4, 8, h) + (Pass(2, 4, h) + Pass(1, 2, h)));
  }

  ghost predicate Distinct(rows: seq<nat>, h: nat)
  {
    && (forall i: nat | i < |rows| :: rows[i] < h)
    && (forall i: nat, j: nat | i < j < |rows| :: rows[i] != rows[j])
  }

  lemma RowOrderDistinct(h: nat, interlaced: bool)
    ensures Distinct(RowOrder(h, interlaced), h)
  {
    var rows := RowOrder(h, interlaced);
    forall i: nat | i < |rows|
      ensures rows[i] < h && forall j: nat | j < i :: rows[j] != rows[i]
    {
      RowsOnce(h, interlaced, rows[i]);
      TimesAt(rows, i);
    }
  }

  // ---- painting -----------------------------------------------------------------------

  /** A w by h image at (x, y) of a picture `width` pixels wide. */
  datatype Frame = Frame(width: nat, x: nat, y: nat, w: nat, h: nat)

  /** The picture so far, the pixels written, and where the next one goes. */
  datatype Canvas = Canvas(pixels: seq<Pixel>, written: seq<bool>, rows: seq<nat>, col: nat)

  function At(f: Frame, row: nat, col: nat): nat
  {
    (f.y + row) * f.width + f.x + col
  }

  ghost predicate Inside(f: Frame, height: nat)
  {
    f.x + f.w <= f.width && f.y + f.h <= height
  }

  ghost predicate Fits(f: Frame, cv: Canvas)
  {
    && (forall i: nat | i < |cv.rows| :: cv.rows[i] < f.h)
    && (cv.rows != [] ==> cv.col < f.w)
    && |cv.written| == |cv.pixels|
    && exists height: nat :: Inside(f, height) && |cv.pixels| == height * f.width
  }

  lemma AtBound(f: Frame, height: nat, row: nat, col: nat)
    requires Inside(f, height) && row < f.h && col < f.w
    ensures At(f, row, col) < height * f.width
  {
    RowsApart(f.y + row, height, f.width);
  }

  lemma AtInjective(f: Frame, r1: nat, c1: nat, r2: nat, c2: nat)
    requires c1 < f.w && c2 < f.w && f.x + f.w <= f.width
    ensures At(f, r1, c1) == At(f, r2, c2) ==> r1 == r2 && c1 == c2
  {
    if r1 < r2 {
      RowsApart(f.y + r1, f.y + r2, f.width);
    } else if r2 < r1 {
      RowsApart(f.y + r2, f.y + r1, f.width);
    }
  }

  /** A nearly transparent colour leaves the pixel as it was. */
  function Shown(was: Pixel, colour: Pixel): Pixel
  {
    if colour.a > 128 then colour else was
  }

  /** One palette index: its colour goes to the next pixel, if one is left. */
  ghost function Put(f: Frame, palette: seq<Pixel>, cv: Canvas, e: byte): (r: Canvas)
    requires |palette| == 256 && Fits(f, cv)
    ensures Fits(f, r) && |r.pixels| == |cv.pixels|
  {
    if cv.rows == [] then cv else
    var i := At(f, cv.rows[0], cv.col);
    assert i < |cv.pixels| by {
      var height: nat :| Inside(f, height) && |cv.pixels| == height * f.width;
      AtBound(f, height, cv.rows[0], cv.col);
    }
    var pixels, written := cv.pixels[i := Shown(cv.pixels[i], palette[e])], cv.written[i := true];
    if cv.col + 1 < f.w then Canvas(pixels, written, cv.rows, cv.col + 1)
    else Canvas(pixels, written, cv.rows[1..], 0)
  }

  ghost function PutAll(f: Frame, palette: seq<Pixel>, cv: Canvas, es: seq<byte>): (r: Canvas)
    requires |palette| == 256 && Fits(f, cv)
    ensures Fits(f, r) && |r.pixels| == |cv.pixels|
  {
    if |es| == 0 then cv else Put(f, palette, PutAll(f, palette, cv, es[..|es| - 1]), es[|es| - 1])
  }

  lemma {:induction false} PutAllConcat(f: Frame, palette: seq<Pixel>, cv: Canvas, a: seq<byte>, b: seq<byte>)
    requires |palette| == 256 && Fits(f, cv)
    ensures PutAll(f, palette, cv, a + b) == PutAll(f, palette, PutAll(f, palette, cv, a), b)
    decreases |b|
  {
    if |b| == 0 {
      assert a + b == a;
    } else {
      assert (a + b)[..|a + b| - 1] == a + b[..|b| - 1];
      PutAllConcat(f, palette, cv, a, b[..|b| - 1]);
    }
  }

  /** After n indices the cursor is at pixel n in order, row by row. */
  ghost predicate CursorAt(f: Frame, order: seq<nat>, cv: Canvas, n: nat, i: nat)
  {
    && i <= |order| && cv.rows == order[i..]
    && if i < |order| then cv.col < f.w && i * f.w + cv.col == n else |order| * f.w <= n
  }

  lemma {:induction false} CursorMoves(f: Frame, palette: seq<Pixel>, cv: Canvas, es: seq<byte>) returns (i: nat)
    requires |palette| == 256 && Fits(f, cv) && cv.col == 0
    ensures CursorAt(f, cv.rows, PutAll(f, palette, cv, es), |es|, i)
    decreases |es|
  {
    if |es| == 0 {
      i := 0;
    } else {
      var j := CursorMoves(f, palette, cv, es[..|es| - 1]);
      i := j;
      if j < |cv.rows| && PutAll(f, palette, cv, es[..|es| - 1]).col + 1 == f.w {
        i := j + 1;
        assert (j + 1) * f.w == j * f.w + f.w;
      }
    }
  }

  lemma PutAt(f: Frame, palette: seq<Pixel>, cv: Canvas, e: byte, a: nat)
    requires |palette| == 256 && Fits(f, cv) && a < |cv.pixels|
    ensures var here, r := cv.rows != [] && At(f, cv.rows[0], cv.col) == a, Put(f, palette, cv, e);
            && r.pixels[a] == (if here then Shown(cv.pixels[a], palette[e]) else cv.pixels[a])
            && r.written[a] == (here || cv.written[a])
  {
  }

  /** Index number n = i * w + c colours column c of the i-th row in order; the pixels
      whose turn has not come keep what they had. So no pixel is written twice. */
  lemma {:induction false} PixelAt(
    f: Frame, palette: seq<Pixel>, cv: Canvas, es: seq<byte>, i: nat, c: nat, n: nat, a: nat)
    requires |palette| == 256 && Fits(f, cv) && cv.col == 0 && Distinct(cv.rows, f.h)
    requires i < |cv.rows| && c < f.w && n == i * f.w + c && a == At(f, cv.rows[i], c)
    ensures var r := PutAll(f, palette, cv, es);
            && a < |cv.pixels|
            && r.pixels[a] == (if n < |es| then Shown(cv.pixels[a], palette[es[n]]) else cv.pixels[a])
            && r.written[a] == (n < |es| || cv.written[a])
    decreases |es|
  {
    var height: nat :| Inside(f, height) && |cv.pixels| == height * f.width;
    AtBound(f, height, cv.rows[i], c);
    if |es| != 0 {
      var es', e := es[..|es| - 1], es[|es| - 1];
      var r := PutAll(f, palette, cv, es');
      PixelAt(f, palette, cv, es', i, c, n, a);
      var j := CursorMoves(f, palette, cv, es');
      if j < |cv.rows| {
        NextPlace(f, cv.rows, r, |es'|, i, c, j);
      } else {
        LastPlace(f, cv.rows, i, c);
      }
      PutAt(f, palette, r, e, a);
      assert r.rows != [] && At(f, r.rows[0], r.col) == a <==> n == |es'|;
      hide At, Put, Fits, Distinct;
    }
  }

  lemma NextPlace(f: Frame, order: seq<nat>, r: Canvas, n: nat, i: nat, c: nat, j: nat)
    requires Distinct(order, f.h) && CursorAt(f, order, r, n, j) && j < |order| && f.x + f.w <= f.width
    requires i < |order| && c < f.w
    ensures At(f, r.rows[0], r.col) == At(f, order[i], c) <==> i * f.w + c == n
  {
    AtInjective(f, order[i], c, order[j], r.col);
    if i * f.w + c == n {
      PlaceUnique(f.w, i, c, j, r.col);
    }
  }

  lemma LastPlace(f: Frame, order: seq<nat>, i: nat, c: nat)
    requires i < |order| && c < f.w
    ensures i * f.w + c < |order| * f.w
  {
    RowsApart(i, |order|, f.w);
  }

  /** Pixels outside the image's rectangle are never written. */
  lemma {:induction false} PixelElsewhere(f: Frame, palette: seq<Pixel>, cv: Canvas, es: seq<byte>, a: nat)
    requires |palette| == 256 && Fits(f, cv) && a < |cv.pixels|
    requires forall r: nat, c: nat | r < f.h && c < f.w :: At(f, r, c) != a
    ensures PutAll(f, palette, cv, es).pixels[a] == cv.pixels[a]
    ensures PutAll(f, palette, cv, es).written[a] == cv.written[a]
    decreases |es|
  {
    if |es| != 0 {
      PixelElsewhere(f, palette, cv, es[..|es| - 1], a);
    }
  }
}
