/** Adam7 interlacing (W3C PNG Specification, section 8.2): seven passes over a grid. */
module Adam7 {
  import opened BitMath

  function XOrig(p: nat): nat
    requires p < 7
  {
    match p case 0 => 0 case 1 => 4 case 2 => 0 case 3 => 2 case 4 => 0 case 5 => 1 case _ => 0
  }

  function YOrig(p: nat): nat
    requires p < 7
  {
    match p case 0 => 0 case 1 => 0 case 2 => 4 case 3 => 0 case 4 => 2 case 5 => 0 case _ => 1
  }

  function XSpc(p: nat): (s: nat)
    requires p < 7
    ensures s > XOrig(p)
  {
    match p case 0 => 8 case 1 => 8 case 2 => 4 case 3 => 4 case 4 => 2 case 5 => 2 case _ => 1
  }

  function YSpc(p: nat): (s: nat)
    requires p < 7
    ensures s > YOrig(p)
  {
    match p case 0 => 8 case 1 => 8 case 2 => 8 case 3 => 4 case 4 => 4 case 5 => 2 case _ => 2
  }

  /** v / s for the spacings in use. */
  function Div(v: nat, s: nat): nat
  {
    match s case 1 => v case 2 => v / 2 case 4 => v / 4 case _ => v / 8
  }

  /** How many of n positions are orig, orig + spc, ... */
  function Count(n: nat, orig: nat, spc: nat): nat
    requires orig < spc
  {
    Div(n - orig + spc - 1, spc)
  }

  function Columns(w: nat, p: nat): nat
    requires p < 7
  {
    Count(w, XOrig(p), XSpc(p))
  }

  function Rows(h: nat, p: nat): nat
    requires p < 7
  {
    Count(h, YOrig(p), YSpc(p))
  }

  /** The pass that holds pixel (x, y): the 8 by 8 pattern of section 8.2, by halves. */
  function PassOf(x: nat, y: nat): (p: nat)
    ensures p < 7
  {
    if y % 2 == 1 then 6
    else if x % 2 == 1 then 5
    else if y % 4 == 2 then 4
    else if x % 4 == 2 then 3
    else if y % 8 == 4 then 2
    else if x % 8 == 4 then 1
    else 0
  }

  /** i * spc + orig for the spacings in use. */
  function Pos(i: nat, orig: nat, spc: nat): nat
  {
    match spc case 1 => i + orig case 2 => 2 * i + orig case 4 => 4 * i + orig case _ => 8 * i + orig
  }

  /** Position x of the image is position i of a grid. */
  predicate OnGrid(x: nat, i: nat, orig: nat, spc: nat)
  {
    x == Pos(i, orig, spc)
  }

  /** The counts are exact: the grid's positions below n are those with an index below the
      count. */
  lemma CountExact(n: nat, orig: nat, spc: nat, x: nat, i: nat)
    requires orig < spc && (spc == 1 || spc == 2 || spc == 4 || spc == 8) && OnGrid(x, i, orig, spc)
    ensures x < n <==> i < Count(n, orig, spc)
  {
  }

  lemma Residue8(x: nat)
    ensures x % 4 == if x % 8 < 4 then x % 8 else x % 8 - 4
  {
    var q, r := x / 8, x % 8;
    assert x == 4 * (2 * q) + r && x == 4 * (2 * q + 1) + (r - 4);
  }

  lemma Residue4(x: nat)
    ensures x % 2 == if x % 4 < 2 then x % 4 else x % 4 - 2
  {
    var q, r := x / 4, x % 4;
    assert x == 2 * (2 * q) + r && x == 2 * (2 * q + 1) + (r - 2);
  }

  lemma OnGridMod(x: nat, i: nat, orig: nat, spc: nat)
    requires orig < spc && (spc == 1 || spc == 2 || spc == 4 || spc == 8)
    ensures OnGrid(x, i, orig, spc) <==>
              i == Div(x, spc) &&
              match spc case 1 => true case 2 => x % 2 == orig case 4 => x % 4 == orig case _ => x % 8 == orig
  {
  }

  /** A pixel lies on the grid of one pass, and of one only. */
  lemma PassUnique(x: nat, y: nat, i: nat, j: nat, p: nat)
    requires p < 7
    ensures OnGrid(x, i, XOrig(p), XSpc(p)) && OnGrid(y, j, YOrig(p), YSpc(p)) <==>
            p == PassOf(x, y) && i == Div(x, XSpc(p)) && j == Div(y, YSpc(p))
  {
    OnGridMod(x, i, XOrig(p), XSpc(p));
    OnGridMod(y, j, YOrig(p), YSpc(p));
    Residue8(x);
    Residue8(y);
    Residue4(x);
    Residue4(y);
    hide OnGrid, Div;
    match p {
      case 0 =>
      case 1 =>
      case 2 =>
      case 3 =>
      case 4 =>
      case 5 =>
      case _ =>
    }
  }

  /** The passes of a w by h image hold pixel (x, y) exactly when the image does. */
  lemma InPass(w: nat, h: nat, x: nat, y: nat)
    ensures var p := PassOf(x, y);
            x < w && y < h <==> Div(x, XSpc(p)) < Columns(w, p) && Div(y, YSpc(p)) < Rows(h, p)
  {
    var p := PassOf(x, y);
    var i, j := Div(x, XSpc(p)), Div(y, YSpc(p));
    PassUnique(x, y, i, j, p);
    CountExact(w, XOrig(p), XSpc(p), x, i);
    CountExact(h, YOrig(p), YSpc(p), y, j);
  }

  // ---- sizes --------------------------------------------------------------------------

  /** The pixels of the first p passes. */
  function PassSizes(w: nat, h: nat, p: nat): nat
    requires p <= 7
  {
    if p == 0 then 0 else PassSizes(w, h, p - 1) + Line(Rows(h, p - 1), Columns(w, p - 1))
  }

  lemma DivIs(x: nat, y: nat, q: nat, r: nat)
    requires (y == 2 || y == 4 || y == 8) && r < y && x == y * q + r
    ensures x / y == q
  {
    if y == 2 {
      assert x / 2 == q;
    } else if y == 4 {
      assert x / 4 == q;
    } else {
      assert x / 8 == q;
    }
  }

  lemma HalvesOfQuarters(m: nat)
    ensures (m + 2) / 4 + m / 4 == m / 2
  {
    var q, s := m / 4, m % 4;
    DivIs(m, 2, 2 * q + s / 2, s % 2);
    DivIs(m + 2, 4, q + s / 2, if s < 2 then s + 2 else s - 2);
  }

  lemma HalvesOfEighths(m: nat)
    ensures (m + 4) / 8 + m / 8 == m / 4
  {
    var q, s := m / 8, m % 8;
    DivIs(m, 4, 2 * q + s / 4, s % 4);
    DivIs(m + 4, 8, q + s / 4, if s < 4 then s + 4 else s - 4);
  }

  /** Two interleaved grids make one of half the spacing. */
  lemma CountEighths(n: nat)
    ensures Count(n, 0, 8) + Count(n, 4, 8) == Count(n, 0, 4)
  {
    HalvesOfEighths(n + 3);
  }

  lemma CountQuarters(n: nat)
    ensures Count(n, 0, 4) + Count(n, 2, 4) == Count(n, 0, 2)
  {
    HalvesOfQuarters(n + 1);
  }

  lemma CountHalves(n: nat)
    ensures Count(n, 0, 2) + Count(n, 1, 2) == n == Count(n, 0, 1)
  {
  }

  lemma Together(a: nat, b: nat, c: nat, n: nat)
    requires a + b == c
    ensures Line(a, n) + Line(b, n) == Line(c, n) && Line(n, a) + Line(n, b) == Line(n, c)
  {
    assert a * n + b * n == c * n;
  }

  /** The passes together have as many pixels as the image. */
  lemma SizesSum(w: nat, h: nat)
    ensures PassSizes(w, h, 7) == Line(h, w)
  {
    hide Count, Line;
    CountEighths(w);
    CountEighths(h);
    CountQuarters(w);
    CountQuarters(h);
    CountHalves(w);
    CountHalves(h);
    var w8, w8', w4, w4', w2, w2' := Count(w, 0, 8), Count(w, 4, 8), Count(w, 0, 4), Count(w, 2, 4), Count(w, 0, 2),
      Count(w, 1, 2);
    var h8, h8', h4, h4', h2, h2' := Count(h, 0, 8), Count(h, 4, 8), Count(h, 0, 4), Count(h, 2, 4), Count(h, 0, 2),
      Count(h, 1, 2);
    Together(w8, w8', w4, h8);
    Together(h8, h8', h4, w4);
    Together(w4, w4', w2, h4);
    Together(h4, h4', h2, w2);
    Together(w2, w2', w, h2);
    Together(h2, h2', h, w);
    assert PassSizes(w, h, 1) == Line(h8, w8);
    assert PassSizes(w, h, 2) == Line(h8, w4);
    assert PassSizes(w, h, 3) == Line(h4, w4);
    assert PassSizes(w, h, 4) == Line(h4, w2);
    assert PassSizes(w, h, 5) == Line(h2, w2);
    assert PassSizes(w, h, 6) == Line(h2, w);
  }

  // ---- de-interlacing -----------------------------------------------------------------

  function At(x: nat, y: nat, w: nat): nat
  {
    Line(y, w) + x
  }

  lemma AtUnique(x: nat, y: nat, x': nat, y': nat, w: nat)
    requires x < w && x' < w && At(x, y, w) == At(x', y', w)
    ensures x == x' && y == y'
  {
    PlaceUnique(w, y, x, y', x');
  }

  lemma AtBound(x: nat, y: nat, w: nat, h: nat)
    requires x < w && y < h
    ensures At(x, y, w) < Line(h, w)
  {
    RowsApart(y, h, w);
  }

  ghost predicate PassImages<P>(w: nat, h: nat, passes: seq<seq<P>>)
  {
    |passes| == 7 && forall p: nat | p < 7 :: |passes[p]| == Line(Rows(h, p), Columns(w, p))
  }

  /** Where pixel (x, y) comes from: its pass, row and column there. */
  ghost function Source(x: nat, y: nat): (nat, nat, nat)
  {
    var p := PassOf(x, y);
    (p, Div(y, YSpc(p)), Div(x, XSpc(p)))
  }

  ghost predicate Before(s: (nat, nat, nat), p: nat, j: nat, i: nat)
  {
    s.0 < p || (s.0 == p && (s.1 < j || (s.1 == j && s.2 < i)))
  }

  /** The pixel that belongs at (x, y). */
  ghost function Value<P>(w: nat, h: nat, passes: seq<seq<P>>, x: nat, y: nat): P
    requires PassImages(w, h, passes) && x < w && y < h
  {
    var s := Source(x, y);
    InPass(w, h, x, y);
    AtBound(s.2, s.1, Columns(w, s.0), Rows(h, s.0));
    passes[s.0][At(s.2, s.1, Columns(w, s.0))]
  }

  /** A place written once, with its pixel, or not at all. */
  ghost predicate Cell<P>(come: bool, final: seq<P>, writes: seq<nat>, at: nat, v: P)
  {
    at < |final| == |writes| && if come then writes[at] == 1 && final[at] == v else writes[at] == 0
  }

  /** Pixel (x, y) has been written once if its turn has come, and else not at all. */
  ghost predicate Settled<P>(w: nat, h: nat, passes: seq<seq<P>>, final: seq<P>, writes: seq<nat>,
                             x: nat, y: nat, p: nat, j: nat, i: nat)
    requires PassImages(w, h, passes) && x < w && y < h
  {
    Cell(Before(Source(x, y), p, j, i), final, writes, At(x, y, w), Value(w, h, passes, x, y))
  }

  ghost predicate AllSettled<P>(w: nat, h: nat, passes: seq<seq<P>>, final: seq<P>, writes: seq<nat>,
                                p: nat, j: nat, i: nat)
    requires PassImages(w, h, passes) && |final| == |writes| == Line(h, w)
  {
    forall x: nat, y: nat | x < w && y < h :: Settled(w, h, passes, final, writes, x, y, p, j, i)
  }

  /** One pixel of a pass, moved to its place: what that does to pixel (x, y). */
  lemma SettledStep<P>(w: nat, h: nat, passes: seq<seq<P>>, final: seq<P>, writes: seq<nat>,
                       p: nat, j: nat, i: nat, next: nat, out_x: nat, out_y: nat, at: nat, v: P, x: nat, y: nat)
    requires PassImages(w, h, passes) && |final| == |writes| == Line(h, w)
    requires p < 7 && out_x == Pos(i, XOrig(p), XSpc(p)) && out_y == Pos(j, YOrig(p), YSpc(p))
    requires out_x < w && out_y < h && at == At(out_x, out_y, w) < |final| && next == i + 1
    requires At(i, j, Columns(w, p)) < |passes[p]| && v == passes[p][At(i, j, Columns(w, p))]
    requires x < w && y < h && Settled(w, h, passes, final, writes, x, y, p, j, i)
    requires writes[at] == 0
    ensures Settled(w, h, passes, final[at := v], writes[at := writes[at] + 1], x, y, p, j, next)
  {
    SourceUnique(x, y, i, j, p, out_x, out_y);
    var s := Source(x, y);
    if s.0 == p && s.1 == j && s.2 == i {
      assert s == (p, j, i);
      assert Value(w, h, passes, x, y) == v;
    } else {
      assert Before(s, p, j, next) == Before(s, p, j, i);
      if At(x, y, w) == at {
        AtUnique(x, y, out_x, out_y, w);
      }
    }
    hide Value, At, Source, Before;
  }

  lemma SettleOne<P>(w: nat, h: nat, passes: seq<seq<P>>, final: seq<P>, writes: seq<nat>,
                     p: nat, j: nat, i: nat, next: nat, out_x: nat, out_y: nat, at: nat)
    requires PassImages(w, h, passes) && |final| == |writes| == Line(h, w)
    requires p < 7 && j < Rows(h, p) && i < Columns(w, p) && next == i + 1
    requires out_x == Pos(i, XOrig(p), XSpc(p)) && out_y == Pos(j, YOrig(p), YSpc(p)) && at == At(out_x, out_y, w)
    requires AllSettled(w, h, passes, final, writes, p, j, i)
    ensures out_x < w && out_y < h && at < |final| && At(i, j, Columns(w, p)) < |passes[p]|
    ensures AllSettled(w, h, passes, final[at := passes[p][At(i, j, Columns(w, p))]], writes[at := writes[at] + 1],
                       p, j, next)
  {
    CountExact(w, XOrig(p), XSpc(p), out_x, i);
    CountExact(h, YOrig(p), YSpc(p), out_y, j);
    AtBound(out_x, out_y, w, h);
    AtBound(i, j, Columns(w, p), Rows(h, p));
    var v := passes[p][At(i, j, Columns(w, p))];
    assert writes[at] == 0 by {
      SourceUnique(out_x, out_y, i, j, p, out_x, out_y);
      assert Settled(w, h, passes, final, writes, out_x, out_y, p, j, i);
    }
    var final', writes' := final[at := v], writes[at := writes[at] + 1];
    forall x: nat, y: nat | x < w && y < h
      ensures Settled(w, h, passes, final', writes', x, y, p, j, next)
    {
      assert Settled(w, h, passes, final, writes, x, y, p, j, i);
      SettledStep(w, h, passes, final, writes, p, j, i, next, out_x, out_y, at, v, x, y);
    }
  }

  /** Two pixels do not come from one place. */
  lemma SourceUnique(x: nat, y: nat, i: nat, j: nat, p: nat, out_x: nat, out_y: nat)
    requires p < 7 && out_x == Pos(i, XOrig(p), XSpc(p)) && out_y == Pos(j, YOrig(p), YSpc(p))
    ensures Source(x, y) == (p, j, i) <==> x == out_x && y == out_y
  {
    PassUnique(out_x, out_y, i, j, p);
    PassUnique(x, y, i, j, p);
  }

  lemma NoneSettled<P>(w: nat, h: nat, passes: seq<seq<P>>, final: seq<P>, writes: seq<nat>)
    requires PassImages(w, h, passes) && |final| == |writes| == Line(h, w) && writes == seq(|final|, _ => 0)
    ensures AllSettled(w, h, passes, final, writes, 0, 0, 0)
  {
    forall x: nat, y: nat | x < w && y < h ensures Settled(w, h, passes, final, writes, x, y, 0, 0, 0) {
      AtBound(x, y, w, h);
    }
  }

  /** The end of a row, or of a pass, is the start of the next. */
  lemma TurnOver<P>(w: nat, h: nat, passes: seq<seq<P>>, final: seq<P>, writes: seq<nat>, p: nat, j: nat, i: nat,
                    p': nat, j': nat)
    requires PassImages(w, h, passes) && |final| == |writes| == Line(h, w) && p < 7
    requires AllSettled(w, h, passes, final, writes, p, j, i)
    requires (p' == p && j' == j + 1 && i == Columns(w, p)) ||
             (p' == p + 1 && j' == 0 && i == 0 && j == Rows(h, p)) ||
             (p' == p + 1 && j' == 0 && j == 0 && i == 0 && (Columns(w, p) == 0 || Rows(h, p) == 0))
    ensures AllSettled(w, h, passes, final, writes, p', j', 0)
  {
    forall x: nat, y: nat | x < w && y < h ensures Settled(w, h, passes, final, writes, x, y, p', j', 0) {
      assert Settled(w, h, passes, final, writes, x, y, p, j, i);
      InPass(w, h, x, y);
    }
  }

  /** Row j of pass p. */
  method PlaceRow<P>(w: nat, h: nat, passes: seq<seq<P>>, final: array<P>, p: nat, j: nat, ghost writes0: seq<nat>)
    returns (ghost writes: seq<nat>)
    requires PassImages(w, h, passes) && |writes0| == final.Length == Line(h, w)
    requires p < 7 && j < Rows(h, p) && AllSettled(w, h, passes, final[..], writes0, p, j, 0)
    modifies final
    ensures |writes| == final.Length && AllSettled(w, h, passes, final[..], writes, p, j, Columns(w, p))
  {
    writes := writes0;
    var x := Columns(w, p);
    var out_y := Pos(j, YOrig(p), YSpc(p));
    var i: nat := 0;
    while i < x
      invariant i <= x && |writes| == final.Length && AllSettled(w, h, passes, final[..], writes, p, j, i)
    {
      var out_x := Pos(i, XOrig(p), XSpc(p));
      var at := At(out_x, out_y, w);
      SettleOne(w, h, passes, final[..], writes, p, j, i, i + 1, out_x, out_y, at);
      hide AllSettled, At, Pos, Columns, Rows, PassImages;
      ghost var was := final[..];
      final[at] := passes[p][At(i, j, x)];
      assert final[..] == was[at := passes[p][At(i, j, x)]];
      writes := writes[at := writes[at] + 1];
      i := i + 1;
    }
  }

  /** `stbi__create_png_image`, given the images of the passes: every pixel of the result is
      written once, from its place in its pass, and nothing else is written. */
  method Deinterlace<P>(w: nat, h: nat, passes: seq<seq<P>>, final: array<P>) returns (ghost writes: seq<nat>)
    requires PassImages(w, h, passes) && final.Length == Line(h, w)
    modifies final
    ensures |writes| == final.Length
    ensures AllSettled(w, h, passes, final[..], writes, 7, 0, 0)
  {
    writes := seq(final.Length, _ => 0);
    NoneSettled(w, h, passes, final[..], writes);
    var p := 0;
    while p < 7
      invariant p <= 7 && |writes| == final.Length && AllSettled(w, h, passes, final[..], writes, p, 0, 0)
    {
      var x, y := Columns(w, p), Rows(h, p);
      if x != 0 && y != 0 {
        var j: nat := 0;
        while j < y
          invariant j <= y && |writes| == final.Length && AllSettled(w, h, passes, final[..], writes, p, j, 0)
        {
          writes := PlaceRow(w, h, passes, final, p, j, writes);
          TurnOver(w, h, passes, final[..], writes, p, j, x, p, j + 1);
          j := j + 1;
        }
        TurnOver(w, h, passes, final[..], writes, p, j, 0, p + 1, 0);
      } else {
        TurnOver(w, h, passes, final[..], writes, p, 0, 0, p + 1, 0);
      }
      p := p + 1;
    }
  }

  /** What Deinterlace leaves, in the image's own terms. */
  lemma EveryPixel<P>(w: nat, h: nat, passes: seq<seq<P>>, final: seq<P>, writes: seq<nat>, x: nat, y: nat, p: nat,
                      i: nat, j: nat)
    requires PassImages(w, h, passes) && |final| == |writes| == Line(h, w) && x < w && y < h
    requires AllSettled(w, h, passes, final, writes, 7, 0, 0)
    requires p == PassOf(x, y) && OnGrid(x, i, XOrig(p), XSpc(p)) && OnGrid(y, j, YOrig(p), YSpc(p))
    ensures At(x, y, w) < |final| && i < Columns(w, p) && j < Rows(h, p) && At(i, j, Columns(w, p)) < |passes[p]|
    ensures writes[At(x, y, w)] == 1 && final[At(x, y, w)] == passes[p][At(i, j, Columns(w, p))]
  {
    assert Settled(w, h, passes, final, writes, x, y, 7, 0, 0);
    PassUnique(x, y, i, j, p);
    InPass(w, h, x, y);
    AtBound(x, y, w, h);
    AtBound(i, j, Columns(w, p), Rows(h, p));
  }
}
