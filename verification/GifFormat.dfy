/** A GIF frame read off byte by byte (GIF89a sections 15 and 20 to 22, Appendices E and F),
    without the functions that define it here. */
module GifFormat {
  import opened BitMath
  import opened GifLzw
  import opened GifCanvas
  import opened GifRaster
  import opened GifPicture

  // ---- the order of the rows ----------------------------------------------------------

  lemma PassSize(start: nat, step: nat, h: nat)
    requires step == 1 || step == 2 || step == 4 || step == 8
    requires start < step
    ensures h < start ==> |Pass(start, step, h)| == 0
    ensures h >= start && step == 1 ==> |Pass(start, step, h)| == h - start
    ensures h >= start && step == 2 ==> |Pass(start, step, h)| == (h - start + 1) / 2
    ensures h >= start && step == 4 ==> |Pass(start, step, h)| == (h - start + 3) / 4
    ensures h >= start && step == 8 ==> |Pass(start, step, h)| == (h - start + 7) / 8
  {
    PassLength(start, step, h);
  }

  /** The rows of a pass are `step` apart. */
  lemma {:induction false} PassLength(start: nat, step: nat, h: nat)
    requires step > 0
    ensures start < h ==> start + (|Pass(start, step, h)| - 1) * step < h <= start + |Pass(start, step, h)| * step
    ensures start >= h ==> |Pass(start, step, h)| == 0
    decreases if start < h then h - start else 0
  {
    if start < h {
      PassLength(start + step, step, h);
      var n := |Pass(start + step, step, h)|;
      assert (n + 1) * step == n * step + step;
      assert n > 0 ==> (n - 1) * step + step == n * step;
    }
  }

  lemma {:induction false} PassAt(start: nat, step: nat, h: nat, i: nat)
    requires step > 0 && i < |Pass(start, step, h)|
    ensures Pass(start, step, h)[i] == start + i * step
    decreases i
  {
    if i > 0 {
      PassAt(start + step, step, h, i - 1);
      assert i * step == (i - 1) * step + step;
    }
  }

  lemma PassSizes(h: nat)
    ensures |Pass(0, 8, h)| == (h + 7) / 8 && |Pass(4, 8, h)| == (h + 3) / 8
    ensures |Pass(2, 4, h)| == (h + 1) / 4 && |Pass(1, 2, h)| == h / 2
  {
    hide Pass;
    PassSize(0, 8, h);
    PassSize(4, 8, h);
    PassSize(2, 4, h);
    PassSize(1, 2, h);
  }

  /** Together the four passes have h rows. */
  lemma SizesSum(h: nat, q: nat, r: nat)
    requires h == 8 * q + r && r < 8
    ensures (h + 7) / 8 + (h + 3) / 8 + (h + 1) / 4 + h / 2 == h
  {
    assert (h + 7) / 8 == q + if r >= 1 then 1 else 0;
    assert (h + 3) / 8 == q + if r >= 5 then 1 else 0;
    assert (h + 1) / 4 == 2 * q + if r >= 7 then 2 else if r >= 3 then 1 else 0;
    assert h / 2 == 4 * q + r / 2;
  }

  lemma FourParts(a: seq<nat>, b: seq<nat>, c: seq<nat>, d: seq<nat>, i: nat)
    requires i < |a| + |b| + |c| + |d|
    ensures (a + (b + (c + d)))[i] ==
            if i < |a| then a[i] else if i < |a| + |b| then b[i - |a|]
            else if i < |a| + |b| + |c| then c[i - |a| - |b|] else d[i - |a| - |b| - |c|]
  {
  }

  /** Appendix E: which row comes i-th. Every eighth row from row 0, every eighth from row 4,
      every fourth from row 2, every second from row 1. */
  lemma RowAt(h: nat, i: nat)
    requires i < h
    ensures |RowOrder(h, false)| == |RowOrder(h, true)| == h
    ensures RowOrder(h, false)[i] == i
    ensures var a, b, c := (h + 7) / 8, (h + 3) / 8, (h + 1) / 4;
            RowOrder(h, true)[i] == if i < a then 8 * i else if i < a + b then 4 + 8 * (i - a)
                                    else if i < a + b + c then 2 + 4 * (i - a - b) else 1 + 2 * (i - a - b - c)
  {
    RowsOnce(h, true, 0);
    PassSizes(h);
    SizesSum(h, h / 8, h % 8);
    PassSize(0, 1, h);
    PassAt(0, 1, h, i);
    var a, b, c := |Pass(0, 8, h)|, |Pass(4, 8, h)|, |Pass(2, 4, h)|;
    FourParts(Pass(0, 8, h), Pass(4, 8, h), Pass(2, 4, h), Pass(1, 2, h), i);
    hide Pass, Later, Times;
    if i < a {
      PassAt(0, 8, h, i);
    } else if i < a + b {
      PassAt(4, 8, h, i - a);
    } else if i < a + b + c {
      PassAt(2, 4, h, i - a - b);
    } else {
      PassAt(1, 2, h, i - a - b - c);
    }
  }

  // ---- sub-blocks (section 15) --------------------------------------------------------

  lemma NextOfBlock(t: seq<byte>, n: nat)
    requires 0 < n && t != []
    ensures Data(t, n) == [t[0]] + Data(t[1..], n - 1) && AfterData(t, n) == AfterData(t[1..], n - 1)
  {
  }

  lemma {:induction false} BlockOf(t: seq<byte>, n: nat)
    requires n <= |t|
    ensures Data(t, n) == t[..n] + Data(t[n..], 0) && AfterData(t, n) == AfterData(t[n..], 0)
    decreases n
  {
    hide *;
    if n == 0 {
      assert t[0..] == t;
    } else {
      NextOfBlock(t, n);
      BlockOf(t[1..], n - 1);
      assert t[1..][n - 1..] == t[n..];
      assert t[..n] == [t[0]] + t[1..][..n - 1];
    }
  }

  /** A sub-block is its length and that many bytes; one of length 0 is the last. */
  lemma SubBlock(t: seq<byte>)
    requires |t| > 0 && t[0] as int < |t|
    ensures t[0] == 0 ==> Data(t, 0) == [] && AfterData(t, 0) == t[1..]
    ensures var n: nat := t[0];
            n > 0 ==> Data(t, 0) == t[1..n + 1] + Data(t[n + 1..], 0) && AfterData(t, 0) == AfterData(t[n + 1..], 0)
  {
    var n: nat := t[0];
    if n > 0 {
      BlockOf(t[1..], n);
      assert t[1..][..n] == t[1..n + 1] && t[1..][n..] == t[n + 1..];
    }
  }

  // ---- codes (Appendix F) -------------------------------------------------------------

  /** At the start there are the roots, a clear code and an end code, and codes have one bit
      more than the code size. */
  lemma FirstCodes(cs: nat)
    requires cs <= 8
    ensures Start(cs).width == cs + 1 && !Start(cs).cleared && Start(cs).last == []
    ensures |Start(cs).table| == Pow2(cs) + 2
    ensures forall i: nat | i < Pow2(cs) :: Start(cs).table[i] == [i]
  {
    Pow2Mono(cs, 8);
    Pow2Values();
  }

  /** Codes get one bit wider when the table is full for their width, up to twelve bits. */
  lemma Widening(w: nat, avail: nat)
    requires 1 <= w <= 12 && 0 < avail <= Pow2(w)
    ensures Grow(w, avail) == if avail == Pow2(w) && w < 12 then w + 1 else w
  {
    hide Pow2, Low;
    Pow2Values();
    if avail < Pow2(w) {
      LowFits(avail, w);
    } else {
      Join(0, 1, w);
      if w < 12 { Pow2Mono(w, 11); }
    }
  }

  /** What the next code of r does to a decoder that has seen a clear code. It clears the
      table, it ends the data, ... */
  lemma ControlCode(cs: nat, r: nat, n: nat, s: Lzw)
    requires 0 < s.width <= n
    ensures Low(r, s.width) == Pow2(cs) ==>
              Expand(cs, r, n, s) == Expand(cs, Shr(r, s.width), n - s.width, Start(cs).(cleared := true))
    ensures Low(r, s.width) == Pow2(cs) + 1 ==> Expand(cs, r, n, s) == Expansion([], true)
  {
  }

  /** ... or it stands for the phrase p: one of the table, or the one before it with its own
      first byte added if it is the code about to be defined. The phrase before it, one byte
      longer, becomes the next entry. Any other code is an error. */
  lemma PhraseCode(cs: nat, r: nat, n: nat, s: Lzw, p: seq<byte>, s': Lzw)
    requires 0 < s.width <= n && s.cleared
    requires var c := Low(r, s.width);
             && c != Pow2(cs) && c != Pow2(cs) + 1
             && p == if c < |s.table| then s.table[c]
                     else if c == |s.table| && s.last != [] then s.last + s.last[..1] else []
    requires p != [] ==> var t := if s.last == [] then s.table else s.table + [s.last + p[..1]];
                         s' == Lzw(t, p, Grow(s.width, |t|), true) && s'.width > 0
    ensures var x := Expand(cs, r, n, s);
            if p != [] && (s.last == [] || |s.table| < 8192)
            then var y := Expand(cs, Shr(r, s.width), n - s.width, s'); x == Expansion(p + y.out, y.ok)
            else x == Expansion([], false)
  {
    hide Initial, Grow, Low, Shr, Pow2;
    var c := Low(r, s.width);
    if p != [] {
      assert p[..1] == [p[0]];
      assert s.last != [] ==> s.last[..1] == [s.last[0]];
      assert Known(s, c) && Phrase(s, c) == p && Next(s, c) == s';
      ExpandPhrase(cs, r, n, s, c);
    } else {
      assert !Known(s, c);
    }
  }

  // ---- a frame (sections 20 to 22) ----------------------------------------------------

  /** The colours of a frame whose descriptor starts at t: those of its own table are three
      bytes each, red, green and blue. */
  lemma TableBytes(t: seq<byte>, transp: int, pal: Palette, lpal: Palette, table: seq<Pixel>, size: nat, e: byte)
    requires Colours(t, transp, pal, lpal, table)
    requires |t| >= 9 + 3 * size && size == if t[8] >= 128 then Pow2(t[8] % 8 + 1) else 0
    ensures |table| == 256
    ensures e < size ==>
              table[e] == Pixel(t[9 + 3 * e as int], t[10 + 3 * e as int], t[11 + 3 * e as int],
                                if e == transp then 0 else 255)
    ensures size > 0 && e >= size ==> table[e] == lpal[e]
    ensures size == 0 ==> table[e] == pal[e]
  {
    hide Pow2;
    assert DescriptionOf(t).Entries() == size;
    var k: nat := e;
    assert table[k] == if size == 0 then pal[k] else if k < size then ColourAt(Drop(t, 9), k, transp == k) else lpal[k];
  }

  /** A frame whose descriptor starts at t, after it is decoded: index number n = i * w + c of
      the text is at column c of the i-th row in order. An index e of its own table, if there
      is one with more than e colours, shows the three bytes there as red, green and blue, or
      nothing if it is the transparent one. */
  lemma FramePixel(t: seq<byte>, transp: int, pal: Palette, lpal: Palette, table: seq<Pixel>, width: nat,
                   text: seq<byte>, was: seq<Pixel>, now: seq<Pixel>,
                   x: nat, y: nat, w: nat, h: nat, size: nat, i: nat, c: nat, n: nat, row: nat, a: nat)
    requires Colours(t, transp, pal, lpal, table)
    requires var d := DescriptionOf(t);
             Shows(Frame(width, d.x, d.y, d.w, d.h), table, if d.w == 0 then [] else RowOrder(d.h, d.Interlaced()),
                   text,
                   was, now)
    requires |t| >= 9 + 3 * size && size == if t[8] >= 128 then Pow2(t[8] % 8 + 1) else 0
    requires x == t[0] as int + 256 * t[1] as int && y == t[2] as int + 256 * t[3] as int
    requires w == t[4] as int + 256 * t[5] as int && h == t[6] as int + 256 * t[7] as int
    requires i < |RowOrder(h, t[8] / 64 % 2 == 1)| && c < w && n == i * w + c < |text|
    requires row == RowOrder(h, t[8] / 64 % 2 == 1)[i] && a == (y + row) * width + x + c
    ensures a < |now| == |was|
    ensures var e: nat := text[n];
            && (e < size ==> now[a] == if e == transp then was[a]
                else Pixel(t[9 + 3 * e], t[10 + 3 * e], t[11 + 3 * e], 255))
            && (size > 0 && e >= size ==> now[a] == if lpal[e].a > 128 then lpal[e] else was[a])
            && (size == 0 ==> now[a] == if pal[e].a > 128 then pal[e] else was[a])
  {
    hide Pow2, RowOrder, Colours;
    TableBytes(t, transp, pal, lpal, table, size, text[n]);
    var d := DescriptionOf(t);
    assert d == Description(x, y, w, h, t[8]);
    hide DescriptionOf;
    PixelShown(Frame(width, x, y, w, h), table, RowOrder(h, d.Interlaced()), text, was, now, i, c, n, a);
  }

  lemma PixelShown(f: Frame, table: seq<Pixel>, rows: seq<nat>, text: seq<byte>, was: seq<Pixel>, now: seq<Pixel>,
                   i: nat, c: nat, n: nat, a: nat)
    requires |table| == 256 && Shows(f, table, rows, text, was, now)
    requires i < |rows| && c < f.w && n == i * f.w + c < |text| && a == (f.y + rows[i]) * f.width + f.x + c
    ensures a < |now| == |was| && now[a] == if table[text[n]].a > 128 then table[text[n]] else was[a]
  {
    assert ShowsAt(f, table, rows, i, c, text, was, now);
  }
}
