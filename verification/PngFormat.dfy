/** PNG filter data and the seven passes of an interlaced image read off byte by byte (W3C PNG
    Specification, sections 8.2 and 9.2), without the functions that define them here. */
module PngFormat {
  import opened BitMath
  import opened PngFilter
  import opened PngImage
  import opened Adam7
  import opened PngInterlaced

  // ---- filters (section 9.2) ----------------------------------------------------------

  /** Byte i of a filtered line, from the byte a pixel before it (a), the one above (b) and the
      one above a pixel before (c); these are 0 outside the image. */
  lemma FilteredByte(t: nat, row: seq<byte>, prior: seq<byte>, n: nat, line: seq<byte>, i: nat, a: int, b: int, c: int)
    requires IsFiltered(t, row, prior, n, line) && i < |row|
    requires a == (if i < n then 0 else row[i - n]) && b == prior[i] && c == if i < n then 0 else prior[i - n]
    ensures t <= 4
    ensures t == 0 ==> line[i] == row[i]
    ensures t == 1 ==> line[i] == (row[i] as int - a) % 256
    ensures t == 2 ==> line[i] == (row[i] as int - b) % 256
    ensures t == 3 ==> line[i] == (row[i] as int - (a + b) / 2) % 256
    ensures t == 4 ==> line[i] == (row[i] as int - WriterPaeth(a, b, c)) % 256
  {
    hide WriterPaeth;
    assert line[i] == FilterByte(t, row, prior, n, i);
  }

  lemma Undone(x: byte, v: byte, p: int)
    requires v == (x as int - p) % 256
    ensures x == (v as int + p) % 256
  {
    var q := (x as int - p) / 256;
    assert v as int + p == x as int - 256 * q;
  }

  /** ... and the other way round. */
  lemma RestoredByte(t: nat, row: seq<byte>, prior: seq<byte>, n: nat, line: seq<byte>, i: nat, a: int, b: int, c: int)
    requires IsFiltered(t, row, prior, n, line) && i < |row|
    requires a == (if i < n then 0 else row[i - n]) && b == prior[i] && c == if i < n then 0 else prior[i - n]
    ensures t <= 4 && i < |line|
    ensures t == 0 ==> row[i] == line[i]
    ensures t == 1 ==> row[i] == (line[i] as int + a) % 256
    ensures t == 2 ==> row[i] == (line[i] as int + b) % 256
    ensures t == 3 ==> row[i] == (line[i] as int + (a + b) / 2) % 256
    ensures t == 4 ==> row[i] == (line[i] as int + WriterPaeth(a, b, c)) % 256
  {
    FilteredByte(t, row, prior, n, line, i, a, b, c);
    assert |line| == |row| == |prior|;
    hide *;
    if t == 1 {
      Undone(row[i], line[i], a);
    } else if t == 2 {
      Undone(row[i], line[i], b);
    } else if t == 3 {
      Undone(row[i], line[i], (a + b) / 2);
    } else if t == 4 {
      Undone(row[i], line[i], WriterPaeth(a, b, c));
    }
  }

  /** Row j of an image, the row above it and its line in the filter data. */
  lemma RowOfData(out: seq<byte>, raw: seq<byte>, len: nat, y: nat, n: nat, j: nat, at: nat, src: nat)
    requires |out| == Line(y, len) && IsFilteredImage(ImageRows(out, len, y, false, len), n, len, raw)
    requires j < y && at == Line(j, len) && src == Line(j, len + 1) && (j > 0 ==> Line(j - 1, len) == at - len)
    ensures at + len <= |out| && src + 1 + len <= |raw|
    ensures IsFiltered(raw[src], out[at..at + len], if j == 0 then seq(len, _ => 0) else out[at - len..at], n,
                       raw[src + 1..src + 1 + len])
  {
    hide Line, IsFiltered, ImageRows;
    var rows := ImageRows(out, len, y, false, len);
    assert RowFiltered(rows, n, len, raw, j);
    RowIs(out, len, y, j);
    if j > 0 { RowIs(out, len, y, j - 1); }
  }

  lemma LinesAt(len: nat, y: nat, j: nat, at: nat, src: nat, size: nat)
    requires size == y * len && j < y && at == j * len && src == j * (len + 1)
    ensures size == Line(y, len) && at == Line(j, len) && src == Line(j, len + 1) && at + len <= size
    ensures j > 0 ==> Line(j - 1, len) == at - len
  {
    RowsApart(j, y, len);
  }

  lemma RowIs(out: seq<byte>, len: nat, y: nat, j: nat)
    requires Line(y, len) <= |out| && j < y
    ensures Line(j, len) + len <= |out|
    ensures ImageRows(out, len, y, false, len)[j] == out[Line(j, len)..Line(j, len) + len]
  {
    RowFits(j, y, len);
  }

  lemma ByteOfRow(out: seq<byte>, raw: seq<byte>, len: nat, n: nat, top: bool, i: nat, at: nat, src: nat)
    requires at + len <= |out| && src + 1 + len <= |raw| && (!top ==> at >= len) && i < len
    requires IsFiltered(raw[src], out[at..at + len], if top then seq(len, _ => 0) else out[at - len..at], n,
                        raw[src + 1..src + 1 + len])
    ensures var t, x, v := raw[src], out[at + i], raw[src + 1 + i] as int;
            var a: int := if i < n then 0 else out[at + i - n];
            var b: int := if top then 0 else out[at - len + i];
            var c: int := if top || i < n then 0 else out[at - len + i - n];
            && t <= 4
            && (t == 0 ==> x == v)
            && (t == 1 ==> x == (v + a) % 256)
            && (t == 2 ==> x == (v + b) % 256)
            && (t == 3 ==> x == (v + (a + b) / 2) % 256)
            && (t == 4 ==> x == (v + WriterPaeth(a, b, c)) % 256)
  {
    hide *;
    var row, prior := out[at..at + len], if top then seq(len, _ => 0 as byte) else out[at - len..at];
    var line := raw[src + 1..src + 1 + len];
    var a: int := if i < n then 0 else row[i - n];
    var c: int := if i < n then 0 else prior[i - n];
    assert row[i] == out[at + i] && line[i] == raw[src + 1 + i];
    assert prior[i] == if top then 0 else out[at - len + i];
    RestoredByte(raw[src], row, prior, n, line, i, a, prior[i], c);
  }

  /** Byte i of row j of the image is the byte of the filter data plus what its filter type, the
      byte in front of the row's, makes of the byte a pixel before (a), the one above (b) and the
      one above a pixel before (c); these are 0 outside the image. */
  lemma ImageByte(out: seq<byte>, raw: seq<byte>, len: nat, y: nat, n: nat, j: nat, i: nat, at: nat, src: nat)
    requires |out| == y * len && IsFilteredImage(ImageRows(out, len, y, false, len), n, len, raw)
    requires j < y && i < len && at == j * len && src == j * (len + 1)
    ensures at + len <= |out| && src + 1 + len <= |raw| && (j > 0 ==> at >= len)
    ensures var t, x, v := raw[src], out[at + i], raw[src + 1 + i] as int;
            var a: int := if i < n then 0 else out[at + i - n];
            var b: int := if j == 0 then 0 else out[at - len + i];
            var c: int := if j == 0 || i < n then 0 else out[at - len + i - n];
            && t <= 4
            && (t == 0 ==> x == v)
            && (t == 1 ==> x == (v + a) % 256)
            && (t == 2 ==> x == (v + b) % 256)
            && (t == 3 ==> x == (v + (a + b) / 2) % 256)
            && (t == 4 ==> x == (v + WriterPaeth(a, b, c)) % 256)
  {
    hide *;
    LinesAt(len, y, j, at, src, |out|);
    RowOfData(out, raw, len, y, n, j, at, src);
    ByteOfRow(out, raw, len, n, j == 0, i, at, src);
  }

  /** `CreateImageRaw` demands a line for every row, with a type of at most 4. */
  lemma TypesKnown(raw: seq<byte>, len: nat, y: nat, j: nat)
    requires KnownTypes(raw, len, y)
    ensures y * (len + 1) <= |raw| && (j < y ==> j * (len + 1) < |raw| && raw[j * (len + 1)] <= 4)
  {
    assert j < y ==> KnownType(raw, len, j);
  }

  lemma TypeUnknown(raw: seq<byte>, len: nat, y: nat) returns (j: nat)
    requires !KnownTypes(raw, len, y) && y * (len + 1) <= |raw|
    ensures j < y && j * (len + 1) < |raw| && raw[j * (len + 1)] > 4
  {
    j :| j < y && !KnownType(raw, len, j);
    RowsApart(j, y, len + 1);
  }

  // ---- the writer's choices -----------------------------------------------------------

  /** Row j of the filter data is row j of the picture, from its other end if it is flipped. */
  lemma WrittenRow(pixels: seq<byte>, stride: nat, height: nat, flip: bool, len: nat, j: nat, at: nat)
    requires len <= stride && height * stride <= |pixels| && Line(height, stride) <= |pixels| && j < height
    requires at == (if flip then height - 1 - j else j) * stride
    ensures at + len <= |pixels| && ImageRows(pixels, stride, height, flip, len)[j] == pixels[at..at + len]
  {
    RowFits(if flip then height - 1 - j else j, height, stride);
  }

  /** The cost of a line is the sum of its bytes taken as signed ones, without their signs. */
  lemma CostGrows(line: seq<byte>, b: byte)
    ensures Cost([]) == 0 && Cost(line + [b]) == Cost(line) + if b < 128 then b else 256 - b
  {
    assert (line + [b])[..|line|] == line;
  }

  // ---- interlacing (section 8.2) ------------------------------------------------------

  /** The seven grids: which pixels a pass has, and where it has pixel (x, y). */
  lemma PassRule(x: nat, y: nat)
    ensures PassOf(x, y) == 0 <==> x % 8 == 0 && y % 8 == 0
    ensures PassOf(x, y) == 1 <==> x % 8 == 4 && y % 8 == 0
    ensures PassOf(x, y) == 2 <==> x % 4 == 0 && y % 8 == 4
    ensures PassOf(x, y) == 3 <==> x % 4 == 2 && y % 4 == 0
    ensures PassOf(x, y) == 4 <==> x % 2 == 0 && y % 4 == 2
    ensures PassOf(x, y) == 5 <==> x % 2 == 1 && y % 2 == 0
    ensures PassOf(x, y) == 6 <==> y % 2 == 1
  {
    Residue8(x);
    Residue8(y);
    Residue4(x);
    Residue4(y);
  }

  /** How large the passes of a w by h image are. */
  lemma PassSizeRule(w: nat, h: nat)
    ensures Columns(w, 0) == (w + 7) / 8 && Rows(h, 0) == (h + 7) / 8
    ensures Columns(w, 1) == (w + 3) / 8 && Rows(h, 1) == (h + 7) / 8
    ensures Columns(w, 2) == (w + 3) / 4 && Rows(h, 2) == (h + 3) / 8
    ensures Columns(w, 3) == (w + 1) / 4 && Rows(h, 3) == (h + 3) / 4
    ensures Columns(w, 4) == (w + 1) / 2 && Rows(h, 4) == (h + 1) / 4
    ensures Columns(w, 5) == w / 2 && Rows(h, 5) == (h + 1) / 2
    ensures Columns(w, 6) == w && Rows(h, 6) == h / 2
  {
  }

  lemma PlaceInPass(x: nat, y: nat, p: nat)
    requires p < 7
    ensures Div(x, XSpc(p)) == if p < 2 then x / 8 else if p < 4 then x / 4 else if p < 6 then x / 2 else x
    ensures Div(y, YSpc(p)) == if p < 3 then y / 8 else if p < 5 then y / 4 else y / 2
  {
  }

  /** Where the pixels of an interlaced image come from: column i and row j of their pass. */
  lemma InterlacedPixel(w: nat, h: nat, passes: seq<seq<Pixel>>, final: seq<Pixel>, x: nat, y: nat,
                        p: nat, i: nat, j: nat, from: nat, to: nat)
    requires PutTogether(w, h, passes, final) && x < w && y < h && p == PassOf(x, y)
    requires i == if p < 2 then x / 8 else if p < 4 then x / 4 else if p < 6 then x / 2 else x
    requires j == if p < 3 then y / 8 else if p < 5 then y / 4 else y / 2
    requires from == j * Columns(w, p) + i && to == y * w + x
    ensures |passes| == 7 && p < 7 && from < |passes[p]| && to < |final| && final[to] == passes[p][from]
  {
    hide Columns, Rows, PassOf;
    PlaceInPass(x, y, p);
    hide Div;
    assert PlacedFrom(w, h, passes, final, x, y);
  }

  /** The data of the passes follow each other; one without pixels has none. */
  lemma PassData(w: nat, h: nat, n: nat, p: nat)
    requires p < 7
    ensures Offset(w, h, n, 0) == 0
    ensures Offset(w, h, n, p + 1) == Offset(w, h, n, p) +
            if Columns(w, p) == 0 || Rows(h, p) == 0 then 0 else Rows(h, p) * (Columns(w, p) * n + 1)
  {
    hide Columns, Rows;
  }
}
