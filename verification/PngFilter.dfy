/** PNG line filters (W3C PNG Specification, section 9), the writer's and the reader's. */
module PngFilter {
  import opened BitMath

  // ---- the filters of the standard ----------------------------------------------------

  function Byte(v: int): byte
  {
    v % 256
  }

  /** `stbiw__paeth`, as in section 9.4: of a, b and c the one nearest to a + b - c, the
      first of them if several are. */
  function WriterPaeth(a: int, b: int, c: int): int
  {
    var p := a + b - c;
    var pa, pb, pc := Abs(p - a), Abs(p - b), Abs(p - c);
    if pa <= pb && pa <= pc then a else if pb <= pc then b else c
  }

  /** `stbi__paeth`: no distances, and no branches that matter. */
  function ReaderPaeth(a: int, b: int, c: int): int
  {
    var thresh := c * 3 - (a + b);
    var lo := if a < b then a else b;
    var hi := if a < b then b else a;
    var t0 := if hi <= thresh then lo else c;
    if thresh <= lo then hi else t0
  }

  /** The two predictors agree on all integers, and pick the nearest; of several as near it is
      the one to the left, or else the one above (section 9.4). */
  lemma PaethAgree(a: int, b: int, c: int)
    ensures ReaderPaeth(a, b, c) == WriterPaeth(a, b, c)
    ensures var r, p := ReaderPaeth(a, b, c), a + b - c;
            && (Abs(p - a) <= Abs(p - b) && Abs(p - a) <= Abs(p - c) ==> r == a)
            && (Abs(p - b) < Abs(p - a) && Abs(p - b) <= Abs(p - c) ==> r == b)
            && (Abs(p - c) < Abs(p - a) && Abs(p - c) < Abs(p - b) ==> r == c)
    ensures var r, p := ReaderPaeth(a, b, c), a + b - c;
            && (r == a || r == b || r == c)
            && Abs(p - r) <= Abs(p - a) && Abs(p - r) <= Abs(p - b) && Abs(p - r) <= Abs(p - c)
  {
  }

  /** Section 9.2: what each filter type predicts from the bytes to the left (a), above (b)
      and above left (c). */
  function Predict(t: nat, a: byte, b: byte, c: byte): (r: byte)
    requires t < 5
  {
    match t
    case 0 => 0
    case 1 => a
    case 2 => b
    case 3 => (a + b) / 2
    case _ => WriterPaeth(a, b, c)
  }

  /** The byte one pixel to the left; zero in the first pixel. */
  function Left(row: seq<byte>, n: nat, i: nat): byte
    requires i < |row|
  {
    if i < n then 0 else row[i - n]
  }

  function FilterByte(t: nat, row: seq<byte>, prior: seq<byte>, n: nat, i: nat): byte
    requires t < 5 && i < |row| == |prior|
  {
    Byte(row[i] - Predict(t, Left(row, n, i), prior[i], Left(prior, n, i)))
  }

  /** `line` is the row under filter type t, n bytes to a pixel. */
  ghost predicate IsFiltered(t: nat, row: seq<byte>, prior: seq<byte>, n: nat, line: seq<byte>)
  {
    && t < 5 && |line| == |row| == |prior|
    && forall i: nat | i < |row| :: line[i] == FilterByte(t, row, prior, n, i)
  }

  /** The row above the first is zero. */
  function Zeros(n: nat): seq<byte>
  {
    seq(n, _ => 0)
  }

  lemma ByteUndone(x: byte, y: byte, p: byte)
    ensures Byte(x - p) == y <==> Byte(y + p) == x
  {
  }

  /** A filtered line determines its row. */
  lemma {:induction false} FilterUnique(t: nat, r1: seq<byte>, r2: seq<byte>, prior: seq<byte>, n: nat, line: seq<byte>)
    requires n > 0 && IsFiltered(t, r1, prior, n, line) && IsFiltered(t, r2, prior, n, line)
    ensures r1 == r2
  {
    var i := 0;
    while i < |line|
      invariant 0 <= i <= |line| && forall k: nat | k < i :: r1[k] == r2[k]
    {
      assert Left(r1, n, i) == Left(r2, n, i);
      var p := Predict(t, Left(r1, n, i), prior[i], Left(prior, n, i));
      assert line[i] == FilterByte(t, r1, prior, n, i) == FilterByte(t, r2, prior, n, i);
      ByteUndone(r1[i], line[i], p);
      ByteUndone(r2[i], line[i], p);
      i := i + 1;
    }
  }

  function Prior(rows: seq<seq<byte>>, j: nat, len: nat): seq<byte>
    requires j <= |rows|
  {
    if j == 0 then Zeros(len) else rows[j - 1]
  }

  /** Row j of the filter data: the filter type, then the filtered line. */
  ghost predicate RowFiltered(rows: seq<seq<byte>>, n: nat, len: nat, raw: seq<byte>, j: nat)
    requires j < |rows|
  {
    var at := Line(j, len + 1);
    && at + 1 + len <= |raw|
    && IsFiltered(raw[at], rows[j], Prior(rows, j, len), n, raw[at + 1..at + 1 + len])
  }

  ghost predicate IsFilteredImage(rows: seq<seq<byte>>, n: nat, len: nat, raw: seq<byte>)
  {
    forall j: nat | j < |rows| :: RowFiltered(rows, n, len, raw, j)
  }

  /** The filter data determines the image. */
  lemma FilteredImageUnique(r1: seq<seq<byte>>, r2: seq<seq<byte>>, n: nat, len: nat, raw: seq<byte>)
    requires n > 0 && |r1| == |r2| && IsFilteredImage(r1, n, len, raw) && IsFilteredImage(r2, n, len, raw)
    ensures r1 == r2
  {
    var j := 0;
    while j < |r1|
      invariant 0 <= j <= |r1| && forall k: nat | k < j :: r1[k] == r2[k]
    {
      assert RowFiltered(r1, n, len, raw, j) && RowFiltered(r2, n, len, raw, j);
      var at := Line(j, len + 1);
      FilterUnique(raw[at], r1[j], r2[j], Prior(r1, j, len), n, raw[at + 1..at + 1 + len]);
      j := j + 1;
    }
  }

  // ---- the writer ---------------------------------------------------------------------

  /** Row y of a picture in memory, from the top or, flipped, from the bottom. */
  ghost function RowAt(pixels: seq<byte>, stride: nat, height: nat, y: nat, flip: bool, len: nat): (r: seq<byte>)
    requires y < height && len <= stride && Line(height, stride) <= |pixels|
    ensures |r| == len
  {
    var at := if flip then height - 1 - y else y;
    RowFits(at, height, stride);
    pixels[Line(at, stride)..Line(at, stride) + len]
  }

  lemma RowFits(y: nat, height: nat, stride: nat)
    requires y < height
    ensures Line(y, stride) + stride <= Line(height, stride)
  {
    RowsApart(y, height, stride);
  }

  ghost function Above(pixels: seq<byte>, stride: nat, height: nat, y: nat, flip: bool, len: nat): (r: seq<byte>)
    requires y < height && len <= stride && Line(height, stride) <= |pixels|
    ensures |r| == len
  {
    if y == 0 then Zeros(len) else RowAt(pixels, stride, height, y - 1, flip, len)
  }

  /** The writer's own code for a filter type: on the first row it leaves out the row above. */
  function WriterType(t: nat, y: nat): nat
    requires t < 5
  {
    if y != 0 then t else match t case 0 => 0 case 1 => 1 case 2 => 0 case 3 => 5 case _ => 6
  }

  /** Predicting from one neighbour alone. */
  lemma PaethOne(a: byte, b: byte, c: byte)
    ensures WriterPaeth(a, 0, 0) == a && WriterPaeth(0, b, 0) == b
    ensures 0 <= WriterPaeth(a, b, c) < 256
  {
  }

  /** What the writer's code for a filter type does to a byte of the first pixel ... */
  lemma FirstByteFiltered(t: nat, y: nat, row: seq<byte>, prior: seq<byte>, n: nat, i: nat)
    requires t < 5 && i < |row| == |prior| && i < n && (y == 0 ==> prior[i] == 0)
    ensures FilterByte(t, row, prior, n, i) ==
              match WriterType(t, y)
              case 2 => Byte(row[i] as int - prior[i])
              case 3 => Byte(row[i] as int - prior[i] / 2)
              case 4 => Byte(row[i] as int - Byte(WriterPaeth(0, prior[i], 0)))
              case _ => row[i]
  {
    PaethOne(0, prior[i], 0);
    assert Byte(row[i] as int - 0) == row[i] && Byte(prior[i]) == prior[i];
    hide WriterPaeth, Byte;
  }

  /** ... and to a later one, is the filter of the standard. */
  lemma LaterByteFiltered(t: nat, y: nat, row: seq<byte>, prior: seq<byte>, n: nat, i: nat)
    requires t < 5 && n <= i < |row| == |prior| && (y == 0 ==> prior[i] == 0 && prior[i - n] == 0)
    ensures FilterByte(t, row, prior, n, i) ==
              match WriterType(t, y)
              case 0 => row[i]
              case 1 => Byte(row[i] as int - row[i - n])
              case 2 => Byte(row[i] as int - prior[i])
              case 3 => Byte(row[i] as int - (row[i - n] as int + prior[i]) / 2)
              case 4 => Byte(row[i] as int - Byte(WriterPaeth(row[i - n], prior[i], prior[i - n])))
              case 5 => Byte(row[i] as int - row[i - n] / 2)
              case _ => Byte(row[i] as int - Byte(WriterPaeth(row[i - n], 0, 0)))
  {
    PaethOne(row[i - n], prior[i], prior[i - n]);
    var p := WriterPaeth(row[i - n], prior[i], prior[i - n]);
    assert Byte(row[i] as int - 0) == row[i] && Byte(row[i - n]) == row[i - n] && Byte(p) == p;
    hide WriterPaeth, Byte;
  }

  /** Bytes z.. and, below the first row, up.. hold a row and the row above it. */
  ghost predicate RowsHere(pixels: seq<byte>, z: nat, up: int, y: nat, row: seq<byte>, prior: seq<byte>)
  {
    && z + |row| <= |pixels| && row == pixels[z..z + |row|] && |prior| == |row|
    && if y == 0 then prior == Zeros(|row|)
       else 0 <= up && up + |row| <= |pixels| && prior == pixels[up..up + |row|]
  }

  ghost predicate FilteredUpTo(t: nat, row: seq<byte>, prior: seq<byte>, n: nat, line: seq<byte>, i: nat)
  {
    && t < 5 && i <= |line| == |row| == |prior|
    && forall k: nat | k < i :: line[k] == FilterByte(t, row, prior, n, k)
  }

  /** A line that is not changed, or not changed because the row above is zero. */
  method CopyLine(pixels: array<byte>, z: nat, up: int, y: nat, n: nat, t: nat, line_buffer: array<byte>,
                  ghost row: seq<byte>, ghost prior: seq<byte>)
    requires t < 5 && WriterType(t, y) == 0 && line_buffer != pixels
    requires line_buffer.Length == |row| && RowsHere(pixels[..], z, up, y, row, prior)
    modifies line_buffer
    ensures IsFiltered(t, row, prior, n, line_buffer[..])
  {
    forall i | 0 <= i < line_buffer.Length {
      line_buffer[i] := pixels[z + i];
    }
    forall i: nat | i < |row| ensures line_buffer[i] == FilterByte(t, row, prior, n, i) {
      assert row[i] == pixels[z + i];
      if i < n {
        FirstByteFiltered(t, y, row, prior, n, i);
      } else {
        LaterByteFiltered(t, y, row, prior, n, i);
      }
      hide FilterByte;
    }
  }

  /** The first pixel of a line. */
  method EncodeFirstPixel(pixels: array<byte>, z: nat, up: int, y: nat, n: nat, t: nat, line_buffer: array<byte>,
                          ghost row: seq<byte>, ghost prior: seq<byte>)
    requires t < 5 && WriterType(t, y) != 0 && line_buffer != pixels
    requires n <= line_buffer.Length == |row| && RowsHere(pixels[..], z, up, y, row, prior)
    modifies line_buffer
    ensures FilteredUpTo(t, row, prior, n, line_buffer[..], n)
  {
    var i: nat := 0;
    while i < n
      invariant i <= n
      invariant FilteredUpTo(t, row, prior, n, line_buffer[..], i)
    {
      ghost var was := line_buffer[..];
      assert row[i] == pixels[z + i] && (y > 0 ==> prior[i] == pixels[up + i]);
      FirstByteFiltered(t, y, row, prior, n, i);
      hide WriterPaeth, Byte, FilterByte;
      match WriterType(t, y) {
        case 2 => line_buffer[i] := Byte(pixels[z + i] as int - pixels[up + i]);
        case 3 => line_buffer[i] := Byte(pixels[z + i] as int - pixels[up + i] / 2);
        case 4 => line_buffer[i] := Byte(pixels[z + i] as int - Byte(WriterPaeth(0, pixels[up + i], 0)));
        case _ => line_buffer[i] := pixels[z + i];
      }
      assert line_buffer[i] == FilterByte(t, row, prior, n, i);
      assert forall k: nat | k < i :: line_buffer[k] == was[k];
      i := i + 1;
    }
  }

  /** The rest of the line. */
  method EncodeLaterPixels(pixels: array<byte>, z: nat, up: int, y: nat, n: nat, t: nat, line_buffer: array<byte>,
                           ghost row: seq<byte>, ghost prior: seq<byte>)
    requires t < 5 && WriterType(t, y) != 0 && line_buffer != pixels && 0 < n
    requires n <= line_buffer.Length == |row| && RowsHere(pixels[..], z, up, y, row, prior)
    requires FilteredUpTo(t, row, prior, n, line_buffer[..], n)
    modifies line_buffer
    ensures IsFiltered(t, row, prior, n, line_buffer[..])
  {
    var i: nat := n;
    while i < line_buffer.Length
      invariant n <= i <= line_buffer.Length
      invariant FilteredUpTo(t, row, prior, n, line_buffer[..], i)
    {
      ghost var was := line_buffer[..];
      assert row[i] == pixels[z + i] && row[i - n] == pixels[z + i - n];
      assert y > 0 ==> prior[i] == pixels[up + i] && prior[i - n] == pixels[up + i - n];
      LaterByteFiltered(t, y, row, prior, n, i);
      hide WriterPaeth, Byte, FilterByte;
      match WriterType(t, y) {
        case 1 => line_buffer[i] := Byte(pixels[z + i] as int - pixels[z + i - n]);
        case 2 => line_buffer[i] := Byte(pixels[z + i] as int - pixels[up + i]);
        case 3 => line_buffer[i] := Byte(pixels[z + i] as int - (pixels[z + i - n] as int + pixels[up + i]) / 2);
        case 4 =>
          var paeth := WriterPaeth(pixels[z + i - n], pixels[up + i], pixels[up + i - n]);
          line_buffer[i] := Byte(pixels[z + i] as int - Byte(paeth));
        case 5 => line_buffer[i] := Byte(pixels[z + i] as int - pixels[z + i - n] / 2);
        case _ => line_buffer[i] := Byte(pixels[z + i] as int - Byte(WriterPaeth(pixels[z + i - n], 0, 0)));
      }
      assert line_buffer[i] == FilterByte(t, row, prior, n, i);
      assert forall k: nat | k < i :: line_buffer[k] == was[k];
      i := i + 1;
    }
  }

  /** `stbiw__encode_png_line`. */
  method EncodePngLine(pixels: array<byte>, stride_bytes: nat, width: nat, height: nat, y: nat, n: nat,
                       filter_type: nat, flip: bool, line_buffer: array<byte>)
    requires filter_type < 5 && y < height && 1 <= n && 1 <= width
    requires Line(width, n) <= stride_bytes && Line(height, stride_bytes) <= pixels.Length
    requires line_buffer.Length == Line(width, n) && line_buffer != pixels
    modifies line_buffer
    ensures IsFiltered(filter_type,
                       RowAt(pixels[..], stride_bytes, height, y, flip, line_buffer.Length),
                       Above(pixels[..], stride_bytes, height, y, flip, line_buffer.Length), n, line_buffer[..])
  {
    var len := line_buffer.Length;
    ghost var row := RowAt(pixels[..], stride_bytes, height, y, flip, len);
    ghost var prior := Above(pixels[..], stride_bytes, height, y, flip, len);
    var z := Line(if flip then height - 1 - y else y, stride_bytes);
    var up: int := if flip then z + stride_bytes else z - stride_bytes;
    RowsInMemory(pixels[..], stride_bytes, height, y, flip, len);
    assert n <= len by { LineAdd(1, width - 1, n); }
    hide RowAt, Above, Line;
    if WriterType(filter_type, y) == 0 {
      CopyLine(pixels, z, up, y, n, filter_type, line_buffer, row, prior);
    } else {
      EncodeFirstPixel(pixels, z, up, y, n, filter_type, line_buffer, row, prior);
      EncodeLaterPixels(pixels, z, up, y, n, filter_type, line_buffer, row, prior);
    }
  }

  /** Where the rows the writer looks at are. */
  lemma RowsInMemory(pixels: seq<byte>, stride: nat, height: nat, y: nat, flip: bool, len: nat)
    requires y < height && len <= stride && Line(height, stride) <= |pixels|
    ensures var z := Line(if flip then height - 1 - y else y, stride);
            RowsHere(pixels, z, if flip then z + stride else z - stride, y,
                     RowAt(pixels, stride, height, y, flip, len), Above(pixels, stride, height, y, flip, len))
  {
    RowFits(if flip then height - 1 - y else y, height, stride);
    if y > 0 {
      RowFits(if flip then height - y else y - 1, height, stride);
      LineAdd(if flip then height - 1 - y else y - 1, 1, stride);
    }
  }
}
