/** `stbi__gif`: the LZW dictionary, the output cursor and the loop that feeds them. */
module GifRaster {
  import opened BitMath
  import opened GifLzw
  import opened GifCanvas

  // ---- sub-blocks ---------------------------------------------------------------------

  /** A byte of the stream; zero past its end. */
  function Head(t: seq<byte>): byte
  {
    if t == [] then 0 else t[0]
  }

  function Tail(t: seq<byte>): seq<byte>
  {
    if t == [] then [] else t[1..]
  }

  function Drop(t: seq<byte>, n: nat): seq<byte>
  {
    if n <= |t| then t[n..] else []
  }

  /** The data of the sub-blocks of t, the first `len` bytes being the rest of one. */
  function Data(t: seq<byte>, len: nat): seq<byte>
    decreases |t|, len
  {
    if len > 0 then [Head(t)] + Data(Tail(t), len - 1)
    else if Head(t) == 0 then []
    else Data(Tail(t), Head(t))
  }

  /** What follows the empty sub-block that ends them. */
  function AfterData(t: seq<byte>, len: nat): seq<byte>
    decreases |t|, len
  {
    if len > 0 then AfterData(Tail(t), len - 1)
    else if Head(t) == 0 then Tail(t)
    else AfterData(Tail(t), Head(t))
  }

  lemma {:induction false} SkipBlock(t: seq<byte>, len: nat)
    ensures AfterData(t, len) == AfterData(Drop(t, len), 0)
    decreases len
  {
    if len > 0 {
      SkipBlock(Tail(t), len - 1);
      assert Drop(t, len) == Drop(Tail(t), len - 1);
    } else {
      assert Drop(t, 0) == t;
    }
  }

  // ---- the decoder --------------------------------------------------------------------

  lemma LineOf(size: nat)
    ensures Line(1, size) == size && Line(8, size) == 8 * size
  {
  }

  lemma AtLine(f: Frame, row: nat, col: nat, size: nat)
    requires size == 4 * f.width
    ensures 4 * At(f, row, col) == Line(f.y + row, size) + 4 * (f.x + col)
  {
  }

  /** The row steps of the passes, as byte offsets. */
  lemma PassStep(parse: nat, size: nat)
    requires 1 <= parse <= 3
    ensures Shl(1, parse) * size == Line(Pow2(parse), size)
    ensures Shl(1, parse) * size / 2 == Line(Pow2(parse - 1), size)
    ensures (Pow2(parse) == 2 || Pow2(parse) == 4 || Pow2(parse) == 8) && Pow2(parse - 1) >= 1
  {
    Pow2Values();
    assert Pow2(parse) == 2 * Pow2(parse - 1);
  }

  // ---- image descriptors --------------------------------------------------------------

  type Palette = p: seq<Pixel> | |p| == 256 witness seq(256, i => Pixel(0, 0, 0, 0))

  function ByteAt(t: seq<byte>, k: nat): byte
  {
    if k < |t| then t[k] else 0
  }

  function Word(t: seq<byte>, k: nat): nat
  {
    ByteAt(t, k) + 256 * ByteAt(t, k + 1)
  }

  /** Colour i of a table. */
  function ColourAt(t: seq<byte>, i: nat, transparent: bool): Pixel
  {
    Pixel(ByteAt(t, 3 * i), ByteAt(t, 3 * i + 1), ByteAt(t, 3 * i + 2), if transparent then 0 else 255)
  }

  /** Three bytes, red, green and blue. */
  lemma ColourBytes(t: seq<byte>, i: nat, transparent: bool)
    requires 3 * i + 2 < |t|
    ensures ColourAt(t, i, transparent) == Pixel(t[3 * i], t[3 * i + 1], t[3 * i + 2], if transparent then 0 else 255)
  {
  }

  /** The place and size of a frame, and its flags. */
  datatype Description = Description(x: nat, y: nat, w: nat, h: nat, lflags: byte)
  {
    predicate Interlaced() { lflags / 64 % 2 == 1 }

    predicate HasTable() { lflags >= 128 }

    function Entries(): nat
    {
      if HasTable() then Pow2(lflags % 8 + 1) else 0
    }
  }

  function DescriptionOf(t: seq<byte>): Description
  {
    Description(Word(t, 0), Word(t, 2), Word(t, 4), Word(t, 6), ByteAt(t, 8))
  }

  function AfterDescription(t: seq<byte>): seq<byte>
  {
    Drop(t, 9 + 3 * DescriptionOf(t).Entries())
  }

  /** The colours of a frame: its own table over those of an earlier frame, or the picture's. */
  ghost predicate Colours(t: seq<byte>, transp: int, pal: Palette, lpal: Palette, table: seq<Pixel>)
  {
    && |table| == 256
    && var n := DescriptionOf(t).Entries();
       forall i: nat | i < 256 ::
         table[i] == if n == 0 then pal[i] else if i < n then ColourAt(Drop(t, 9), i, transp == i) else lpal[i]
  }

  lemma DropAgain(t: seq<byte>, m: nat, n: nat)
    ensures Drop(Drop(t, m), n) == Drop(t, m + n)
  {
  }

  lemma TableSize(k: nat)
    requires k < 8
    ensures 1 <= Shl(2, k) == Pow2(k + 1) <= 256
  {
    Pow2Mono(k + 1, 8);
    Pow2Mono(0, k + 1);
  }

  lemma DropNone(t: seq<byte>)
    ensures Drop(t, 0) == t
  {
  }

  lemma DropByte(t: seq<byte>, k: nat)
    ensures Head(Drop(t, k)) == ByteAt(t, k) && Tail(Drop(t, k)) == Drop(t, k + 1)
  {
  }

  /** `stbi__gif_lzw`. A prefix of -1 marks a root. */
  datatype Code = Code(prefix: int, first: byte, suffix: byte)

  class Gif {
    const w: nat
    const h: nat
    const out: array<Pixel>
    const history: array<bool>
    const codes: array<Code>
    var flags: byte
    var eflags: byte
    var transparent: int
    var pal: Palette
    var lpal: Palette
    var color_table: seq<Pixel>
    var parse: nat
    var step: nat
    var start_x: nat
    var start_y: nat
    var max_x: nat
    var max_y: nat
    var cur_x: nat
    var cur_y: nat
    var line_size: nat
    /** The bytes still to be read. */
    var s: seq<byte>

    ghost const Image: set<object>
    ghost var frame: Frame
    /** The rows still to be painted, and the column in the first of them. */
    ghost var rows: seq<nat>
    ghost var col: nat

    constructor (w: nat, h: nat, flags: byte, pal: Palette, s: seq<byte>)
      ensures Valid() && fresh(Image) && fresh(codes)
      ensures this.w == w && this.h == h && this.s == s && this.flags == flags && this.pal == pal
      ensures View().pixels == seq(h * w, _ => Pixel(0, 0, 0, 0))
      ensures View().written == seq(h * w, _ => false)
    {
      this.w, this.h, this.s, this.flags, this.pal, color_table := w, h, s, flags, pal, pal;
      eflags, transparent, lpal := 0, -1, seq(256, i => Pixel(0, 0, 0, 0));
      var o := new Pixel[h * w](_ => Pixel(0, 0, 0, 0));
      var p := new bool[h * w](_ => false);
      out, history := o, p;
      codes := new Code[MAX_CODES](_ => Code(-1, 0, 0));
      parse, step, line_size := 0, 4 * w, 4 * w;
      start_x, start_y, max_x, max_y, cur_x, cur_y := 0, 0, 0, 0, 0, 0;
      frame := Frame(w, 0, 0, 0, 0);
      rows, col := [], 0;
      Image := {this, o, p};
      new;
      assert out[..] == seq(h * w, _ => Pixel(0, 0, 0, 0));
      assert history[..] == seq(h * w, _ => false);
      assert Inside(frame, h);
    }

    // ---- invariants -------------------------------------------------------------------

    ghost predicate Valid()
      reads this, Image
    {
      Shape() && Edges() && Cursor()
    }

    ghost predicate Shape()
      reads this, Image
    {
      && Image == {this, out, history} && codes !in Image && codes.Length == MAX_CODES
      && out.Length == Line(h, w) && history.Length == Line(h, w)
      && |color_table| == 256
      && Inside(frame, h) && frame.width == w
    }

    ghost predicate Edges()
      reads this
    {
      && line_size == 4 * w
      && start_x == 4 * frame.x && max_x == 4 * (frame.x + frame.w)
      && start_y == Line(frame.y, line_size) && max_y == Line(frame.y + frame.h, line_size)
    }

    /** The cursor stands at column `col` of the first remaining row. */
    ghost predicate Cursor()
      reads this
    {
      if rows == [] then cur_y >= max_y
      else col < frame.w && cur_x == 4 * (frame.x + col) && InRow()
    }

    ghost predicate InRow()
      reads this
      requires rows != []
    {
      && rows[0] < frame.h && cur_y == Line(frame.y + rows[0], line_size)
      && Sweeping(rows[0])
      && forall i: nat | i < |rows| :: rows[i] < frame.h
    }

    /** The remaining rows are the rest of this pass, then the later passes. */
    ghost predicate Sweeping(row: nat)
      reads this
    {
      parse <= 3 && exists k: nat | StepIs(k) :: rows == Pass(row, k, frame.h) + Later(parse, frame.h)
    }

    ghost predicate StepIs(k: nat)
      reads this
      ensures StepIs(k) ==> k > 0
    {
      (k == 1 || k == 2 || k == 4 || k == 8) && step == Line(k, line_size)
    }

    ghost function View(): Canvas
      reads this, out, history
    {
      Canvas(out[..], history[..], rows, col)
    }

    /** Entry c is a root, or a smaller entry and one more byte. */
    ghost predicate Entry(t: Table, c: nat)
      requires c < |t| <= codes.Length
      reads codes
    {
      t[c] != [] ==>
        && codes[c].first == t[c][0]
        && -1 <= codes[c].prefix < c
        && if codes[c].prefix < 0 then t[c] == [codes[c].suffix]
           else t[codes[c].prefix] != [] && t[c] == t[codes[c].prefix] + [codes[c].suffix]
    }

    ghost predicate Holds(t: Table)
      reads codes
    {
      |t| <= codes.Length && forall c: nat | c < |t| :: Entry(t, c)
    }

    // ---- the cursor -------------------------------------------------------------------

    lemma RowBelow(row: nat)
      requires Edges() && w > 0
      ensures Line(frame.y + row, line_size) >= max_y <==> row >= frame.h
    {
      LineMono(frame.y + row, frame.y + frame.h, line_size);
    }

    /** The image descriptor: a frame within the picture that has colours is accepted, and the
        cursor starts at the first row in order. */
    method Descriptor() returns (ok: bool)
      requires Valid()
      modifies this
      ensures Valid() && pal == old(pal) && flags == old(flags) && eflags == old(eflags)
        && transparent == old(transparent)
      ensures ok <==> Acceptable(old(s))
      ensures ok ==> Started(DescriptionOf(old(s))) && s == AfterDescription(old(s))
      ensures ok ==> Colours(old(s), if eflags % 2 == 1 then transparent else -1, pal, old(lpal), color_table)
    {
      hide RowOrder, Shape, Cursor, Edges, Colours, Word, ByteAt, Drop, Line;
      ghost var t := s;
      DropNone(t);
      var x := Get16(t, 0);
      var y := Get16(t, 2);
      var w := Get16(t, 4);
      var h := Get16(t, 6);
      ok := false;
      if x + w <= this.w && y + h <= this.h {
        var lflags := PlaceFrame(x, y, w, h, t);
        ok := ChooseTable(lflags, t);
      }
    }

    method PlaceFrame(x: nat, y: nat, w: nat, h: nat, ghost t: seq<byte>) returns (lflags: byte)
      requires Valid() && x + w <= this.w && y + h <= this.h && s == Drop(t, 8)
      modifies `s, `line_size, `start_x, `start_y, `max_x, `max_y, `frame, `cur_x, `cur_y, `step, `parse, `rows, `col
      ensures Valid() && lflags == ByteAt(t, 8) && s == Drop(t, 9)
      ensures Started(Description(x, y, w, h, lflags))
    {
      hide RowOrder, Cursor, Line, Drop;
      DropByte(t, 8);
      SetEdges(x, y, w, h);
      lflags := Get8();
      StartCursor(w, lflags / 64 % 2 == 1);
    }

    method ChooseTable(lflags: byte, ghost t: seq<byte>) returns (ok: bool)
      requires Valid() && s == Drop(t, 9) && lflags == DescriptionOf(t).lflags
      modifies `s, `lpal, `color_table
      ensures Valid()
      ensures ok <==> DescriptionOf(t).HasTable() || flags >= 128
      ensures ok ==> s == AfterDescription(t)
      ensures ok ==> Colours(t, if eflags % 2 == 1 then transparent else -1, pal, old(lpal), color_table)
    {
      hide DescriptionOf, ColourAt, Drop, Shl, Pow2;
      ok := true;
      if lflags >= 128 {
        TableSize(lflags % 8);
        DropAgain(t, 9, 3 * Shl(2, lflags % 8));
        ParseColourTable(Shl(2, lflags % 8), if eflags % 2 == 1 then transparent else -1);
        color_table := lpal;
      } else if flags >= 128 {
        color_table := pal;
      } else {
        ok := false;
      }
    }

    ghost predicate Acceptable(t: seq<byte>)
      reads this
    {
      var d := DescriptionOf(t);
      d.x + d.w <= w && d.y + d.h <= h && (d.HasTable() || flags >= 128)
    }

    /** The same, in the bytes of the descriptor (GIF89a section 20). */
    lemma AcceptableFrame(t: seq<byte>)
      requires |t| >= 9
      ensures Acceptable(t) <==>
                && t[0] as int + 256 * t[1] as int + t[4] as int + 256 * t[5] as int <= w
                && t[2] as int + 256 * t[3] as int + t[6] as int + 256 * t[7] as int <= h
                && (t[8] >= 128 || flags >= 128)
    {
    }

    ghost predicate Started(d: Description)
      reads this
    {
      && frame == Frame(w, d.x, d.y, d.w, d.h) && col == 0
      && rows == if d.w == 0 then [] else RowOrder(d.h, d.Interlaced())
    }

    method Get16(ghost t: seq<byte>, ghost k: nat) returns (v: nat)
      requires s == Drop(t, k)
      modifies `s
      ensures v == Word(t, k) && s == Drop(t, k + 2) && (old(Valid()) ==> Valid())
    {
      DropByte(t, k);
      DropByte(t, k + 1);
      var low: nat := Get8();
      var high: nat := Get8();
      v := low + 256 * high;
    }

    method ReadColour(ghost t: seq<byte>, ghost i: nat, transparent: bool) returns (c: Pixel)
      requires s == Drop(t, 3 * i)
      modifies `s
      ensures c == ColourAt(t, i, transparent) && s == Drop(t, 3 * (i + 1))
    {
      hide Drop, ByteAt;
      DropByte(t, 3 * i);
      DropByte(t, 3 * i + 1);
      DropByte(t, 3 * i + 2);
      var r := Get8();
      var g := Get8();
      var b := Get8();
      c := Pixel(r, g, b, if transparent then 0 else 255);
    }

    method ParseColourTable(n: nat, transp: int)
      requires n <= 256
      modifies `s, `lpal
      ensures s == Drop(old(s), 3 * n)
      ensures forall i: nat | i < n :: lpal[i] == ColourAt(old(s), i, transp == i)
      ensures |old(s)| >= 3 * n ==>
                forall i: nat | i < n ::
                  lpal[i] == Pixel(old(s)[3 * i], old(s)[3 * i + 1], old(s)[3 * i + 2], if transp == i then 0 else 255)
      ensures forall i: nat | n <= i < 256 :: lpal[i] == old(lpal)[i]
    {
      hide Drop, ColourAt;
      ghost var t := s;
      DropNone(t);
      var i: nat := 0;
      while i < n
        invariant i <= n && s == Drop(t, 3 * i)
        invariant forall j: nat | j < i :: lpal[j] == ColourAt(t, j, transp == j)
        invariant forall j: nat | i <= j < 256 :: lpal[j] == old(lpal)[j]
      {
        var colour := ReadColour(t, i, transp == i);
        lpal := lpal[i := colour];
        i := i + 1;
      }
      forall i: nat | i < n && |t| >= 3 * n
        ensures lpal[i] == Pixel(t[3 * i], t[3 * i + 1], t[3 * i + 2], if transp == i then 0 else 255)
      {
        ColourBytes(t, i, transp == i);
      }
    }

    method SetEdges(x: nat, y: nat, w: nat, h: nat)
      modifies `line_size, `start_x, `start_y, `max_x, `max_y, `frame
      ensures Edges() && frame == Frame(this.w, x, y, w, h)
    {
      hide Line;
      frame := Frame(this.w, x, y, w, h);
      line_size := this.w * 4;
      start_x := x * 4;
      start_y := Line(y, line_size);
      max_x := start_x + w * 4;
      max_y := start_y + Line(h, line_size);
      LineAdd(y, h, line_size);
    }

    method StartCursor(w: nat, interlaced: bool)
      requires Edges() && frame.w == w
      modifies `cur_x, `cur_y, `step, `parse, `rows, `col
      ensures Cursor() && col == 0
      ensures rows == if w == 0 then [] else RowOrder(frame.h, interlaced)
    {
      hide Line, Pass, Later, RowOrder, Distinct;
      cur_x, cur_y := start_x, start_y;
      if w == 0 {
        cur_y := max_y;
      }
      if interlaced {
        step, parse := 8 * line_size, 3;
      } else {
        step, parse := line_size, 0;
      }
      rows, col := if w == 0 then [] else RowOrder(frame.h, interlaced), 0;
      CursorStarts(interlaced);
    }

    lemma CursorStarts(interlaced: bool)
      requires Edges() && col == 0 && rows == if frame.w == 0 then [] else RowOrder(frame.h, interlaced)
      requires cur_x == start_x && cur_y == if frame.w == 0 then max_y else start_y
      requires step == (if interlaced then 8 * line_size else line_size) && parse == if interlaced then 3 else 0
      ensures Cursor()
    {
      hide Line, Pass, Later, RowOrder, Distinct;
      LineOf(line_size);
      StartOfSweep(frame.h, interlaced);
      RowsBelow(frame.h, interlaced);
      if rows != [] {
        assert StepIs(if interlaced then 8 else 1);
        assert Sweeping(0);
      }
    }

    /** The end of a row: on to the next row of this pass, or of the next pass with rows. */
    method NextRow()
      requires Shape() && Edges() && rows != [] && InRow() && col + 1 == frame.w
      modifies `cur_x, `cur_y, `step, `parse, `rows, `col
      ensures Valid() && rows == old(rows[1..]) && col == 0
    {
      ghost var k, row := NextInPass();
      hide Line;
      rows, col := rows[1..], 0;
      cur_x := start_x;
      cur_y := cur_y + step;
      NextPass(row, k);
    }

    /** The row that is next in this pass, if it is within the frame. */
    lemma NextInPass() returns (k: nat, row: nat)
      requires Edges() && rows != [] && InRow()
      ensures parse <= 3 && StepIs(k) && rows[1..] == Pass(row, k, frame.h) + Later(parse, frame.h)
      ensures cur_y + step == Line(frame.y + row, line_size)
    {
      hide Line, Later;
      k :| StepIs(k) && rows == Pass(rows[0], k, frame.h) + Later(parse, frame.h);
      row := rows[0] + k;
      assert Pass(rows[0], k, frame.h)[1..] == Pass(row, k, frame.h);
      LineAdd(frame.y + rows[0], k, line_size);
    }

    method NextPass(ghost row: nat, ghost k: nat)
      requires Shape() && Edges()
      requires parse <= 3 && StepIs(k) && rows == Pass(row, k, frame.h) + Later(parse, frame.h)
      requires cur_y == Line(frame.y + row, line_size) && cur_x == start_x && col == 0 < frame.w
      requires forall i: nat | i < |rows| :: rows[i] < frame.h
      modifies `cur_y, `step, `parse
      ensures Valid()
    {
      ghost var row: nat, k: nat := row, k;
      hide Line, Pow2, Shl, Later;
      RowBelow(row);
      while cur_y >= max_y && parse > 0
        invariant parse <= 3 && StepIs(k)
        invariant cur_y == Line(frame.y + row, line_size) && (cur_y >= max_y <==> row >= frame.h)
        invariant rows == Pass(row, k, frame.h) + Later(parse, frame.h)
        decreases parse
      {
        PassStep(parse, line_size);
        step := Shl(1, parse) * line_size;
        cur_y := start_y + step / 2;
        LaterStep(parse, frame.h);
        row, k := Pow2(parse - 1), Pow2(parse);
        parse := parse - 1;
        LineAdd(frame.y, row, line_size);
        RowBelow(row);
      }
      LaterStep(parse, frame.h);
    }

    // ---- one code ---------------------------------------------------------------------

    lemma ViewFits()
      requires Valid()
      ensures Fits(frame, View())
    {
      assert Inside(frame, h) && |View().pixels| == h * frame.width;
    }

    lemma RowsLeft()
      requires Valid()
      ensures cur_y >= max_y <==> rows == []
    {
      if rows != [] {
        RowBelow(rows[0]);
      }
    }

    lemma PlaceOf() returns (i: nat)
      requires Valid() && rows != []
      ensures i == At(frame, rows[0], col) && i < Line(h, w)
      ensures (cur_x + cur_y) / 4 == i
      ensures cur_x + 4 >= max_x <==> col + 1 == frame.w
    {
      i := At(frame, rows[0], col);
      AtBound(frame, h, rows[0], col);
      AtLine(frame, rows[0], col, line_size);
    }

    /** Writes one pixel, unless its colour is nearly transparent. */
    method Paint(e: byte, p: nat)
      requires |color_table| == 256 && p < out.Length && p < history.Length
      modifies out, history
      ensures out[..] == old(out[..])[p := Shown(old(out[p]), color_table[e])]
      ensures history[..] == old(history[..])[p := true]
    {
      history[p] := true;
      if color_table[e].a > 128 {
        out[p] := color_table[e];
      }
    }

    /** The end of `stbi__out_gif_code`: one palette index. */
    method Plot(e: byte)
      requires Valid() && rows != []
      modifies Image
      ensures Valid() && color_table == old(color_table) && s == old(s) && frame == old(frame)
      ensures Fits(frame, old(View())) && View() == Put(frame, color_table, old(View()), e)
    {
      ViewFits();
      ghost var i := PlaceOf();
      hide Line, Fits, At;
      Paint(e, (cur_x + cur_y) / 4);
      ghost var cv := View();
      assert Put(frame, color_table, old(View()), e) ==
        if col + 1 < frame.w then Canvas(cv.pixels, cv.written, rows, col + 1)
        else Canvas(cv.pixels, cv.written, rows[1..], 0);
      hide Put, Shown;
      cur_x := cur_x + 4;
      if cur_x >= max_x {
        NextRow();
      } else {
        col := col + 1;
      }
    }

    /** `stbi__out_gif_code`: the prefix first, by recursion, then the last byte. */
    method OutGifCode(code: nat, ghost t: Table)
      requires Valid() && Holds(t) && code < |t| && t[code] != []
      modifies Image
      ensures Valid() && color_table == old(color_table) && s == old(s) && frame == old(frame)
      ensures Fits(frame, old(View())) && View() == PutAll(frame, color_table, old(View()), t[code])
      decreases code
    {
      ViewFits();
      assert Entry(t, code);
      if codes[code].prefix >= 0 {
        OutGifCode(codes[code].prefix, t);
        assert t[code][..|t[code]| - 1] == t[codes[code].prefix];
      }
      RowsLeft();
      if cur_y >= max_y {
        return;
      }
      Plot(codes[code].suffix);
    }

    /** The loop's variables hold the decoder state st. */
    ghost predicate Dict(cs: nat, st: Lzw, avail: nat, oldcode: int, codesize: nat, first: bool)
      reads codes
    {
      && TableFits(cs, st.table) && Holds(st.table)
      && avail == |st.table| && 0 < codesize == st.width <= 13 && first == !st.cleared
      && (oldcode < 0 <==> st.last == [])
      && (oldcode >= 0 ==> oldcode < avail && st.last == st.table[oldcode])
    }

    /** The new entry: the last phrase and the first byte of this one. The test for a code
        one past the table comes after `avail` has moved and is never met; the entry read
        instead is the new one, whose first byte has just been set. */
    method AddEntry(cs: nat, ghost st: Lzw, code: nat, avail: nat, oldcode: nat, codesize: nat, first: bool)
      requires Dict(cs, st, avail, oldcode, codesize, first) && Known(st, code) && avail < codes.Length
      modifies codes
      ensures Holds(Added(st, Phrase(st, code)))
    {
      ghost var t := Added(st, Phrase(st, code));
      assert Entry(st.table, oldcode);
      assert code < |st.table| ==> Entry(st.table, code);
      codes[avail] := codes[avail].(prefix := oldcode, first := codes[oldcode].first);
      var p, avail := avail, avail + 1;
      var suffix := codes[code].first;
      if code == avail {
        assert false;
      }
      codes[p] := codes[p].(suffix := suffix);
      forall c: nat | c < |t| ensures Entry(t, c) {
        if c < p {
          assert old(Entry(st.table, c));
        }
      }
    }

    /** A code that is neither clear nor end. */
    method DataCode(cs: nat, ghost st: Lzw, code: nat, avail0: nat, oldcode0: int, codesize0: nat, first: bool)
      returns (ok: bool, avail: nat, oldcode: int, codesize: nat)
      requires Valid() && Dict(cs, st, avail0, oldcode0, codesize0, first)
      requires code != Clear(cs) && code != Clear(cs) + 1
      modifies Image, codes
      ensures Valid() && color_table == old(color_table) && s == old(s) && frame == old(frame)
      ensures Fits(frame, old(View()))
      ensures ok <==> Accepts(st, code)
      ensures ok ==> View() == PutAll(frame, color_table, old(View()), Phrase(st, code))
      ensures ok ==> Dict(cs, Next(st, code), avail, oldcode, codesize, first)
      ensures !ok ==> View() == old(View())
    {
      ViewFits();
      avail, oldcode, codesize := avail0, oldcode0, codesize0;
      ok := code <= avail && !first && (oldcode >= 0 || code != avail);
      assert ok ==> Known(st, code);
      if ok && oldcode >= 0 {
        avail := avail + 1;
        ok := avail <= 8192;
        if ok {
          AddEntry(cs, st, code, avail0, oldcode, codesize, first);
        }
      }
      if ok {
        ghost var t := Added(st, Phrase(st, code));
        AddedIs(cs, st, code);
        OutGifCode(code, t);
        if Low(avail, codesize) == 0 && avail <= 0x0FFF {
          codesize := codesize + 1;
        }
        GrowBound(codesize0, avail);
        oldcode := code;
      }
    }

    // ---- the raster -------------------------------------------------------------------

    method Get8() returns (b: byte)
      modifies `s
      ensures b == Head(old(s)) && s == Tail(old(s))
    {
      if s == [] {
        b := 0;
      } else {
        b := s[0];
        s := s[1..];
      }
    }

    method Skip(n: nat)
      modifies `s
      ensures s == Drop(old(s), n)
    {
      s := if n <= |s| then s[n..] else [];
    }

    method Roots(cs: nat)
      requires cs <= 12 && codes.Length == MAX_CODES
      modifies codes
      ensures Holds(Initial(cs))
    {
      Pow2Mono(cs, 12);
      assert Pow2(12) == 4096;
      hide Pow2;
      var clear := Pow2(cs);
      var init_code := 0;
      while init_code < clear
        invariant 0 <= init_code <= clear
        invariant forall c: nat | c < init_code :: codes[c] == Code(-1, Root(c), Root(c))
      {
        codes[init_code] := Code(-1, init_code % 256, init_code % 256);
        init_code := init_code + 1;
      }
    }

    /** The sub-blocks after the end code. */
    method SkipRest(len0: nat)
      modifies `s
      ensures s == AfterData(old(s), len0)
    {
      SkipBlock(s, len0);
      Skip(len0);
      var len: nat := Get8();
      while len > 0
        invariant AfterData(old(s), len0) == if len > 0 then AfterData(s, len) else s
        decreases |s|, len
      {
        SkipBlock(s, len);
        Skip(len);
        len := Get8();
      }
    }

    /** `stbi__process_gif_raster`: the picture becomes the old one with the expansion of
        the sub-blocks painted into the frame, one pixel for each index. */
    method ProcessRaster() returns (ok: bool)
      requires Valid()
      modifies Image, codes
      ensures Valid() && color_table == old(color_table) && frame == old(frame)
      ensures Fits(frame, old(View()))
      ensures var cs, t := Head(old(s)), Tail(old(s));
              if cs > 12 then !ok && View() == old(View())
              else
                var x := Expand(cs, LE(Data(t, 0)), 8 * |Data(t, 0)|, Start(cs));
                && ok == x.ok
                && View() == PutAll(frame, color_table, old(View()), x.out)
                && (ok ==> s == AfterData(t, 0))
    {
      ViewFits();
      var lzw_cs := Get8();
      ok := false;
      if lzw_cs <= 12 {
        ok := Codes(lzw_cs);
      }
    }

    /** One more byte of data, from this sub-block or the next. */
    method NextByte(len0: nat, bits0: nat, valid_bits0: nat) returns (more: bool, len: nat, bits: nat, valid_bits: nat)
      requires Valid() && bits0 < Pow2(valid_bits0)
      modifies `s
      ensures Valid() && View() == old(View())
      ensures forall t: Table :: old(Holds(t)) ==> Holds(t)
      ensures !more ==> old(Data(s, len0)) == [] && s == old(AfterData(s, len0))
      ensures more ==> AfterData(s, len) == old(AfterData(s, len0))
      ensures more ==> old(Data(s, len0)) != [] && Data(s, len) == old(Data(s, len0))[1..]
      ensures more ==> valid_bits == valid_bits0 + 8 && bits < Pow2(valid_bits)
      ensures more ==> bits + Shl(LE(Data(s, len)), valid_bits) == bits0 + Shl(LE(old(Data(s, len0))), valid_bits0)
    {
      hide LE, Shl, Pow2;
      ghost var d := Data(s, len0);
      more, len, bits, valid_bits := true, len0, bits0, valid_bits0;
      if len == 0 {
        len := Get8();
        more := len != 0;
      }
      assert more ==> d == Data(s, len) && AfterData(s, len) == AfterData(old(s), len0);
      if more {
        len := len - 1;
        var b := Get8();
        bits := bits + Shl(b, valid_bits);
        valid_bits := valid_bits + 8;
        assert d == [b] + Data(s, len);
        Refill(d, bits0, valid_bits0);
      }
    }

    /** What one code does. */
    method OneCode(cs: nat, ghost st: Lzw, code: nat, len: nat,
                   avail0: nat, oldcode0: int, codesize0: nat, first0: bool)
      returns (more: bool, ok: bool, avail: nat, oldcode: int, codesize: nat, first: bool,
               ghost st': Lzw, ghost p: seq<byte>)
      requires Valid() && cs <= 12 && Dict(cs, st, avail0, oldcode0, codesize0, first0)
      requires Holds(Initial(cs))
      modifies Image, codes
      ensures Valid() && color_table == old(color_table) && frame == old(frame)
      ensures Follows(cs, st, code, more, ok, p, st')
      ensures more ==> Dict(cs, st', avail, oldcode, codesize, first) && Holds(Initial(cs))
      ensures more ==> 0 < codesize == st'.width
      ensures Fits(frame, old(View())) && View() == PutAll(frame, color_table, old(View()), p)
      ensures more ==> s == old(s)
      ensures !more && ok ==> s == AfterData(old(s), len)
    {
      ViewFits();
      more, ok, avail, oldcode, codesize, first := true, true, avail0, oldcode0, codesize0, first0;
      st', p := st, [];
      if code == Pow2(cs) {
        codesize, avail, oldcode, first := cs + 1, Pow2(cs) + 2, -1, false;
        st' := Cleared(cs);
        InitialTable(cs);
      } else if code == Pow2(cs) + 1 {
        SkipRest(len);
        more := false;
      } else {
        ok, avail, oldcode, codesize := DataCode(cs, st, code, avail, oldcode, codesize, first);
        more := ok;
        if ok {
          st', p := Next(st, code), Phrase(st, code);
          RootsStay(cs, st'.table);
        }
      }
    }

    /** Clearing restores the table: the roots are never overwritten. */
    lemma RootsStay(cs: nat, t: Table)
      requires TableFits(cs, t) && Holds(t)
      ensures Holds(Initial(cs))
    {
      forall c: nat | c < |Initial(cs)| ensures Entry(Initial(cs), c) {
        assert Entry(t, c);
        RootEntry(cs, t, c);
      }
    }

    method Codes(cs: nat) returns (ok: bool)
      requires Valid() && cs <= 12
      modifies Image, codes
      ensures Valid() && color_table == old(color_table) && frame == old(frame)
      ensures Fits(frame, old(View()))
      ensures var t := old(s);
              var x := Expand(cs, LE(Data(t, 0)), 8 * |Data(t, 0)|, Start(cs));
              && ok == x.ok
              && View() == PutAll(frame, color_table, old(View()), x.out)
              && (ok ==> s == AfterData(t, 0))
    {
      ViewFits();
      Roots(cs);
      InitialTable(cs);
      ghost var d := Data(s, 0);
      ghost var r: nat, n: nat := LE(d), 8 * |d|;
      ghost var x := Expand(cs, r, n, Start(cs));
      assert x == Prepend([], x);
      assert Shl(LE(d), 0) == LE(d) && 0 < Pow2(0);
      hide Expand;
      ghost var out;
      ok, out := CodeLoop(cs, Pow2(cs) + 2, d, r, n, View(), x, AfterData(s, 0));
    }

    method CodeLoop(cs: nat, avail0: nat, ghost d0: seq<byte>, ghost r0: nat, ghost n0: nat,
                    ghost start: Canvas, ghost x: Expansion, ghost after: seq<byte>)
      returns (ok: bool, ghost done: seq<byte>)
      requires Valid() && cs <= 12 && this in Image && codes !in Image
      requires Dict(cs, Start(cs), avail0, -1, cs + 1, true) && Holds(Initial(cs))
      requires d0 == Data(s, 0) && r0 == 0 + Shl(LE(d0), 0) && n0 == 8 * |d0| && after == AfterData(s, 0)
      requires start == View() && Fits(frame, start) && |color_table| == 256
      requires x == Prepend([], Expand(cs, r0, n0, Start(cs))) && 0 < Pow2(0)
      modifies Image, codes
      ensures Valid() && color_table == old(color_table) && frame == old(frame)
      ensures x == Expansion(done, ok) && View() == PutAll(frame, color_table, start, done)
      ensures ok ==> s == after
    {
      hide *;
      NothingPut(frame, color_table, start);
      StartWidth(cs);
      ghost var d, r, n, f, palette := d0, r0, n0, frame, color_table;
      ghost var st := Start(cs);
      var first, codesize: nat, len: nat, bits: nat, valid_bits: nat := true, cs + 1, 0, 0, 0;
      var avail: nat, oldcode := avail0, -1;
      var more := true;
      ok, done := true, [];
      while more
        invariant Valid() && frame == f && color_table == palette
        invariant more ==> ok && Dict(cs, st, avail, oldcode, codesize, first) && Holds(Initial(cs))
        invariant more ==> 0 < codesize == st.width
        invariant more ==> bits < Pow2(valid_bits) && valid_bits < codesize + 8
        invariant View() == PutAll(f, palette, start, done)
        invariant more ==> d == Data(s, len) && after == AfterData(s, len)
        invariant more ==> r == bits + Shl(LE(d), valid_bits) && n == valid_bits + 8 * |d|
        invariant more ==> x == Prepend(done, Expand(cs, r, n, st))
        invariant !more ==> x == Expansion(done, ok)
        invariant !more && ok ==> s == after
        decreases more, n, |d|
      {
        if valid_bits < codesize {
          more, len, bits, valid_bits := NextByte(len, bits, valid_bits);
          if more {
            d := d[1..];
          } else {
            NoMore(cs, r, n, st, done);
          }
        } else {
          var code := Low(bits, codesize);
          ghost var was, p := st, [];
          ghost var r', n' := SplitBits(bits, d, valid_bits, codesize, r, n);
          bits := Shr(bits, codesize);
          valid_bits := valid_bits - codesize;
          more, ok, avail, oldcode, codesize, first, st, p :=
            OneCode(cs, st, code, len, avail, oldcode, codesize, first);
          TakeCode(cs, r, n, r', n', code, was, more, ok, p, st, done, x);
          PutAllConcat(f, palette, start, done, p);
          done, r, n := done + p, r', n';
        }
      }
    }
  }

  lemma StartWidth(cs: nat)
    ensures Start(cs).width == cs + 1
  {
  }

  lemma NothingPut(f: Frame, palette: seq<Pixel>, c: Canvas)
    requires Fits(f, c) && |palette| == 256
    ensures PutAll(f, palette, c, []) == c
  {
  }

  /** A byte moves from the unread data into the bits at hand. */
  lemma Refill(d: seq<byte>, bits: nat, n: nat)
    requires |d| > 0 && bits < Pow2(n)
    ensures bits + Shl(LE(d), n) == bits + Shl(d[0], n) + Shl(LE(d[1..]), n + 8)
    ensures bits + Shl(d[0], n) < Pow2(n + 8)
  {
    var v := LE(d[1..]);
    ShlAdd(d[0], 256 * v, n);
    Shl8(v);
    ShlShl(v, 8, n);
    ShlMono(d[0], 256, n);
    ShlShl(1, 8, n);
    assert Shl(1, 8) == 256;
  }

  /** Code `code` in state st emits p and leads to st', or ends the expansion. */
  ghost predicate Follows(cs: nat, st: Lzw, code: nat, more: bool, ok: bool, p: seq<byte>, st': Lzw)
  {
    if code == Clear(cs) then more && ok && p == [] && st' == Cleared(cs)
    else if code == Clear(cs) + 1 then !more && ok && p == []
    else if Accepts(st, code) then more && ok && p == Phrase(st, code) && st' == Next(st, code)
    else !more && !ok && p == []
  }

  /** A code leaves the bits at hand ... */
  lemma SplitBits(bits: nat, d: seq<byte>, valid_bits: nat, w: nat, r: nat, n: nat) returns (r': nat, n': nat)
    requires bits < Pow2(valid_bits) && w <= valid_bits
    requires r == bits + Shl(LE(d), valid_bits) && n == valid_bits + 8 * |d|
    ensures w <= n && Low(bits, w) == Low(r, w) && r' == Shr(r, w) && n' == n - w
    ensures Shr(bits, w) < Pow2(valid_bits - w)
    ensures r' == Shr(bits, w) + Shl(LE(d), valid_bits - w) && n' == valid_bits - w + 8 * |d|
  {
    JoinMore(bits, LE(d), valid_bits, w);
    r', n' := Shr(r, w), n - w;
  }

  /** ... and does what the expansion says. */
  lemma TakeCode(cs: nat, r: nat, n: nat, r': nat, n': nat, code: nat,
                 st: Lzw, more: bool, ok: bool, p: seq<byte>, st': Lzw, done: seq<byte>, x: Expansion)
    requires 0 < st.width <= n && code == Low(r, st.width) && r' == Shr(r, st.width) && n' == n - st.width
    requires Follows(cs, st, code, more, ok, p, st') && x == Prepend(done, Expand(cs, r, n, st))
    ensures more ==> st'.width > 0
    ensures x == if more then Prepend(done + p, Expand(cs, r', n', st')) else Expansion(done + p, ok)
  {
    if more {
      var e := Expand(cs, r', n', st');
      assert Expand(cs, r, n, st) == Prepend(p, e);
      assert done + (p + e.out) == done + p + e.out;
    } else {
      assert Expand(cs, r, n, st) == Expansion(p, ok);
    }
  }

  /** No code is complete, and no data is left. */
  lemma NoMore(cs: nat, r: nat, n: nat, st: Lzw, done: seq<byte>)
    requires n < st.width
    ensures Prepend(done, Expand(cs, r, n, st)) == Expansion(done, true)
  {
    assert done + [] == done;
  }

  lemma RootEntry(cs: nat, t: Table, c: nat)
    requires TableFits(cs, t) && c < Clear(cs) + 2
    ensures t[c] == Initial(cs)[c]
    ensures |t[c]| <= 1 && (c != Clear(cs) && c != Clear(cs) + 1 ==> |t[c]| == 1)
  {
    assert t[c] == t[..Clear(cs) + 2][c];
  }

  lemma InitialTable(cs: nat)
    requires cs <= 12
    ensures TableFits(cs, Initial(cs))
  {
  }

  lemma AddedIs(cs: nat, st: Lzw, code: nat)
    requires Known(st, code) && TableFits(cs, st.table)
    ensures var t := Added(st, Phrase(st, code));
            code < |t| && t[code] == Phrase(st, code) && TableFits(cs, t)
  {
    AddedFits(cs, st, Phrase(st, code));
  }

  /** A code is never wider than 13 bits. */
  lemma GrowBound(w: nat, avail: nat)
    requires 0 < w <= 13 && avail > 0
    ensures 0 < Grow(w, avail) <= 13
  {
    if w == 13 && avail <= 0xFFF {
      assert Pow2(13) == 8192;
      LowFits(avail, w);
    }
  }

  lemma LaterStep(parse: nat, h: nat)
    ensures Later(parse, h) ==
            if parse == 0 then [] else Pass(Pow2(parse - 1), Pow2(parse), h) + Later(parse - 1, h)
  {
  }

  lemma RowsBelow(h: nat, interlaced: bool)
    ensures forall i: nat | i < |RowOrder(h, interlaced)| :: RowOrder(h, interlaced)[i] < h
  {
    RowOrderDistinct(h, interlaced);
  }

  lemma StartOfSweep(h: nat, interlaced: bool)
    ensures RowOrder(h, interlaced) == if interlaced then Pass(0, 8, h) + Later(3, h) else Pass(0, 1, h) + Later(0, h)
    ensures h > 0 ==> RowOrder(h, interlaced) != [] && RowOrder(h, interlaced)[0] == 0
    ensures h == 0 ==> RowOrder(h, interlaced) == []
  {
    LaterPasses(h);
  }
}
