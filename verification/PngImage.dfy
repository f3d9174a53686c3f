/** Whole images through the filters: the writer's choice of filters, the reader's
    defiltering, and the round trip. */
module PngImage {
  import opened BitMath
  import opened PngFilter

  /** The rows of a picture in the order they are written. */
  ghost function ImageRows(pixels: seq<byte>, stride: nat, height: nat, flip: bool, len: nat): (rows: seq<seq<byte>>)
    requires len <= stride && Line(height, stride) <= |pixels|
    ensures |rows| == height
  {
    seq(height, y requires 0 <= y < height => RowAt(pixels, stride, height, y, flip, len))
  }

  lemma AboveIsPrior(pixels: seq<byte>, stride: nat, height: nat, y: nat, flip: bool, len: nat)
    requires y < height && len <= stride && Line(height, stride) <= |pixels|
    ensures Above(pixels, stride, height, y, flip, len) == Prior(ImageRows(pixels, stride, height, flip, len), y, len)
  {
  }

  // ---- the writer ---------------------------------------------------------------------

  /** The size of a byte taken as a signed number. */
  function Magnitude(b: byte): nat
  {
    if b < 128 then b else 256 - b
  }

  function Cost(line: seq<byte>): nat
  {
    if |line| == 0 then 0 else Cost(line[..|line| - 1]) + Magnitude(line[|line| - 1])
  }

  ghost function CostOf(t: nat, row: seq<byte>, prior: seq<byte>, n: nat): nat
    requires t < 5 && |row| == |prior|
  {
    Cost(seq(|row|, i requires 0 <= i < |row| => FilterByte(t, row, prior, n, i)))
  }

  lemma CostOfLine(t: nat, row: seq<byte>, prior: seq<byte>, n: nat, line: seq<byte>)
    requires IsFiltered(t, row, prior, n, line)
    ensures Cost(line) == CostOf(t, row, prior, n)
  {
    assert line == seq(|row|, i requires 0 <= i < |row| => FilterByte(t, row, prior, n, i));
  }

  const WORST := 0x7FFF_FFFF

  /** `best` is the first of the cheapest among filter types below k. */
  ghost predicate Cheapest(best: nat, k: nat, row: seq<byte>, prior: seq<byte>, n: nat)
    requires best < 5 && k <= 5 && |row| == |prior|
  {
    && (forall t: nat | t < k && CostOf(t, row, prior, n) < WORST ::
          CostOf(best, row, prior, n) <= CostOf(t, row, prior, n))
    && (forall t: nat | t < best :: CostOf(best, row, prior, n) < CostOf(t, row, prior, n))
  }

  /** `best` is that, and costs val; or no filter type below k costs less than the limit. */
  ghost predicate Leads(best: nat, val: nat, k: nat, row: seq<byte>, prior: seq<byte>, n: nat)
    requires best < 5 && k <= 5 && |row| == |prior|
  {
    && (if val == WORST then best == 0 && forall t: nat | t < k :: CostOf(t, row, prior, n) >= WORST
        else best < k && val == CostOf(best, row, prior, n) < WORST)
    && Cheapest(best, k, row, prior, n)
  }

  lemma LeadsAtFirst(row: seq<byte>, prior: seq<byte>, n: nat)
    requires |row| == |prior|
    ensures Leads(0, WORST, 0, row, prior, n)
  {
  }

  lemma LeadsNext(best: nat, val: nat, k: nat, row: seq<byte>, prior: seq<byte>, n: nat)
    requires best < 5 && k < 5 && |row| == |prior| && Leads(best, val, k, row, prior, n)
    ensures var est := CostOf(k, row, prior, n);
            Leads(if est < val then k else best, if est < val then est else val, k + 1, row, prior, n)
  {
    hide CostOf;
  }

  lemma LeadsAtLast(best: nat, val: nat, row: seq<byte>, prior: seq<byte>, n: nat)
    requires best < 5 && |row| == |prior| && Leads(best, val, 5, row, prior, n)
    ensures Cheapest(best, 5, row, prior, n)
  {
  }

  method Estimate(line: array<byte>) returns (est: nat)
    ensures est == Cost(line[..])
  {
    est := 0;
    var i := 0;
    while i < line.Length
      invariant 0 <= i <= line.Length && est == Cost(line[..i])
    {
      assert line[..i + 1][..i] == line[..i];
      est := est + Magnitude(line[i]);
      i := i + 1;
    }
    assert line[..i] == line[..];
  }

  /** The filter type of one row, and the line filtered with it: the type asked for, or
      else the one whose line costs least. */
  method ChooseLine(pixels: array<byte>, stride_bytes: nat, x: nat, y: nat, j: nat, n: nat,
                    force_filter: int, flip: bool, line_buffer: array<byte>) returns (filter_type: nat)
    requires j < y && 1 <= n && 1 <= x && force_filter < 5
    requires Line(x, n) <= stride_bytes && Line(y, stride_bytes) <= pixels.Length
    requires line_buffer.Length == Line(x, n) && line_buffer != pixels
    modifies line_buffer
    ensures var row := RowAt(pixels[..], stride_bytes, y, j, flip, line_buffer.Length);
            var prior := Above(pixels[..], stride_bytes, y, j, flip, line_buffer.Length);
            && IsFiltered(filter_type, row, prior, n, line_buffer[..])
            && if force_filter >= 0 then filter_type == force_filter else Cheapest(filter_type, 5, row, prior, n)
  {
    ghost var row := RowAt(pixels[..], stride_bytes, y, j, flip, line_buffer.Length);
    ghost var prior := Above(pixels[..], stride_bytes, y, j, flip, line_buffer.Length);
    hide Line, RowAt, Above, FilterByte, IsFiltered, CostOf, Leads, Cheapest;
    if force_filter > -1 {
      filter_type := force_filter;
      EncodePngLine(pixels, stride_bytes, x, y, j, n, force_filter, flip, line_buffer);
    } else {
      var best_filter: nat, best_filter_val: nat := 0, WORST;
      filter_type := 0;
      LeadsAtFirst(row, prior, n);
      while filter_type < 5
        invariant filter_type <= 5 && best_filter < 5
        invariant Leads(best_filter, best_filter_val, filter_type, row, prior, n)
      {
        EncodePngLine(pixels, stride_bytes, x, y, j, n, filter_type, flip, line_buffer);
        CostOfLine(filter_type, row, prior, n, line_buffer[..]);
        var est := Estimate(line_buffer);
        LeadsNext(best_filter, best_filter_val, filter_type, row, prior, n);
        if est < best_filter_val {
          best_filter_val := est;
          best_filter := filter_type;
        }
        filter_type := filter_type + 1;
      }
      LeadsAtLast(best_filter, best_filter_val, row, prior, n);
      EncodePngLine(pixels, stride_bytes, x, y, j, n, best_filter, flip, line_buffer);
      filter_type := best_filter;
    }
  }

  lemma SamePrefix(a: seq<byte>, b: seq<byte>, end: nat, p: nat, q: nat)
    requires p < q <= end <= |a| == |b| && a[..end] == b[..end]
    ensures a[p] == b[p] && a[p + 1..q] == b[p + 1..q]
  {
    assert forall i | 0 <= i < end :: a[i] == a[..end][i] == b[..end][i] == b[i];
  }

  /** Rows already stored are not touched. */
  lemma StoredStays(rows: seq<seq<byte>>, n: nat, len: nat, raw: seq<byte>, raw': seq<byte>, j: nat, k: nat)
    requires k < j <= |rows| && RowFiltered(rows, n, len, raw, k)
    requires |raw'| == |raw| && Line(j, len + 1) <= |raw| && raw[..Line(j, len + 1)] == raw'[..Line(j, len + 1)]
    ensures RowFiltered(rows, n, len, raw', k)
  {
    hide Line, IsFiltered, Prior;
    RowFits(k, j, len + 1);
    SamePrefix(raw, raw', Line(j, len + 1), Line(k, len + 1), Line(k, len + 1) + 1 + len);
  }

  method StoreLine(filt: array<byte>, at: nat, filter_type: byte, line_buffer: array<byte>)
    requires at + 1 + line_buffer.Length <= filt.Length && filt != line_buffer
    modifies filt
    ensures filt[..at] == old(filt[..at])
    ensures filt[at] == filter_type && filt[at + 1..at + 1 + line_buffer.Length] == line_buffer[..]
  {
    filt[at] := filter_type;
    forall i | 0 <= i < line_buffer.Length {
      filt[at + 1 + i] := line_buffer[i];
    }
  }

  /** The filter data `stbi_write_png_to_mem` compresses. */
  method FilterImage(pixels: array<byte>, stride_bytes: nat, x: nat, y: nat, n: nat, force: int, flip: bool)
    returns (filt: array<byte>)
    requires 1 <= n && 1 <= x
    requires Line(x, n) <= stride_bytes && Line(y, stride_bytes) <= pixels.Length
    ensures fresh(filt) && filt.Length == Line(y, Line(x, n) + 1)
    ensures IsFilteredImage(ImageRows(pixels[..], stride_bytes, y, flip, Line(x, n)), n, Line(x, n), filt[..])
  {
    hide Line, IsFiltered, Above, Prior, RowFiltered, RowAt, FilteredUpTo;
    var len := Line(x, n);
    var force_filter := if force >= 5 then -1 else force;
    filt := new byte[Line(y, len + 1)](_ => 0);
    var line_buffer := new byte[len](_ => 0);
    ghost var rows := ImageRows(pixels[..], stride_bytes, y, flip, len);
    NothingFiltered(rows, n, len, filt[..]);
    var j: nat := 0;
    while j < y
      invariant j <= y && fresh(line_buffer) && fresh(filt) && line_buffer != filt
      invariant line_buffer.Length == len && filt.Length == Line(y, len + 1)
      invariant pixels[..] == old(pixels[..])
      invariant FilteredUpTo(rows, n, len, filt[..], j)
    {
      var filter_type := ChooseLine(pixels, stride_bytes, x, y, j, n, force_filter, flip, line_buffer);
      AboveIsPrior(pixels[..], stride_bytes, y, j, flip, len);
      RowFits(j, y, len + 1);
      TypeKnown(filter_type, rows[j], Prior(rows, j, len), n, line_buffer[..]);
      ghost var was := filt[..];
      StoreLine(filt, Line(j, len + 1), filter_type, line_buffer);
      FilteredStep(rows, n, len, was, filt[..], j, filter_type, line_buffer[..]);
      j := j + 1;
    }
    AllFiltered(rows, n, len, filt[..]);
  }

  ghost predicate FilteredUpTo(rows: seq<seq<byte>>, n: nat, len: nat, raw: seq<byte>, j: nat)
  {
    j <= |rows| && forall k: nat | k < j :: RowFiltered(rows, n, len, raw, k)
  }

  lemma NothingFiltered(rows: seq<seq<byte>>, n: nat, len: nat, raw: seq<byte>)
    ensures FilteredUpTo(rows, n, len, raw, 0)
  {
  }

  lemma AllFiltered(rows: seq<seq<byte>>, n: nat, len: nat, raw: seq<byte>)
    requires FilteredUpTo(rows, n, len, raw, |rows|)
    ensures IsFilteredImage(rows, n, len, raw)
  {
  }

  lemma TypeKnown(t: nat, row: seq<byte>, prior: seq<byte>, n: nat, line: seq<byte>)
    requires IsFiltered(t, row, prior, n, line)
    ensures t < 5
  {
  }

  lemma FilteredStep(rows: seq<seq<byte>>, n: nat, len: nat, was: seq<byte>, raw: seq<byte>, j: nat, t: nat,
                     line: seq<byte>)
    requires FilteredUpTo(rows, n, len, was, j) && j < |rows| && |was| == |raw| && |line| == len
    requires IsFiltered(t, rows[j], Prior(rows, j, len), n, line)
    requires Line(j, len + 1) + 1 + len <= |raw| && raw[..Line(j, len + 1)] == was[..Line(j, len + 1)]
    requires raw[Line(j, len + 1)] == t && raw[Line(j, len + 1) + 1..Line(j, len + 1) + 1 + len] == line
    ensures FilteredUpTo(rows, n, len, raw, j + 1)
  {
    hide Line, IsFiltered, Prior;
    assert RowFiltered(rows, n, len, raw, j);
    hide RowFiltered;
    forall k: nat | k < j ensures RowFiltered(rows, n, len, raw, k) {
      StoredStays(rows, n, len, was, raw, j, k);
    }
  }

  // ---- the reader ---------------------------------------------------------------------

  /** `first_row_filter`: the reader's code for a filter type; 5 is averaging in the first row. */
  function ReaderType(t: nat, j: nat): nat
    requires t < 5
  {
    if j != 0 then t else match t case 0 => 0 case 1 => 1 case 2 => 0 case 3 => 5 case _ => 1
  }

  /** What the filter of the standard gives back for byte i, from the bytes before it. */
  function RestoredByte(t: nat, line: seq<byte>, row: seq<byte>, prior: seq<byte>, n: nat, i: nat): byte
    requires t < 5 && i < |line| == |row| == |prior|
  {
    Byte(line[i] as int + Predict(t, Left(row, n, i), prior[i], Left(prior, n, i)))
  }

  ghost predicate RestoredUpTo(t: nat, line: seq<byte>, row: seq<byte>, prior: seq<byte>, n: nat, i: nat)
  {
    && t < 5 && i <= |line| == |row| == |prior|
    && forall k: nat | k < i :: row[k] == RestoredByte(t, line, row, prior, n, k)
  }

  lemma NothingRestored(t: nat, line: seq<byte>, row: seq<byte>, prior: seq<byte>, n: nat)
    requires t < 5 && |line| == |row| == |prior|
    ensures RestoredUpTo(t, line, row, prior, n, 0)
  {
  }

  lemma RestoredIsFiltered(t: nat, line: seq<byte>, row: seq<byte>, prior: seq<byte>, n: nat)
    requires RestoredUpTo(t, line, row, prior, n, |line|)
    ensures IsFiltered(t, row, prior, n, line)
  {
    forall i: nat | i < |row| ensures line[i] == FilterByte(t, row, prior, n, i) {
      ByteUndone(row[i], line[i], Predict(t, Left(row, n, i), prior[i], Left(prior, n, i)));
      assert row[i] == RestoredByte(t, line, row, prior, n, i);
    }
  }

  lemma RestoredStep(t: nat, line: seq<byte>, was: seq<byte>, row: seq<byte>, prior: seq<byte>, n: nat, i: nat)
    requires n > 0 && RestoredUpTo(t, line, was, prior, n, i) && i < |line| == |row|
    requires row == was[i := row[i]] && row[i] == RestoredByte(t, line, was, prior, n, i)
    ensures RestoredUpTo(t, line, row, prior, n, i + 1)
  {
    forall k: nat | k < i + 1 ensures row[k] == RestoredByte(t, line, row, prior, n, k) {
      assert Left(row, n, k) == Left(was, n, k);
      if k < i {
        assert was[k] == RestoredByte(t, line, was, prior, n, k);
      }
    }
  }

  lemma ReaderPaethOne(a: byte, b: byte, c: byte)
    ensures ReaderPaeth(a, b, c) == WriterPaeth(a, b, c) && 0 <= WriterPaeth(a, b, c) < 256
    ensures WriterPaeth(a, 0, 0) == a && WriterPaeth(0, b, 0) == b
  {
    PaethAgree(a, b, c);
    PaethOne(a, b, c);
  }

  /** What the reader's code for a filter type does to a byte of the first pixel ... */
  lemma FirstByteRestored(t: nat, j: nat, line: seq<byte>, row: seq<byte>, prior: seq<byte>, n: nat, i: nat)
    requires t < 5 && i < |line| == |row| == |prior| && i < n && (j == 0 ==> prior[i] == 0)
    ensures RestoredByte(t, line, row, prior, n, i) ==
              match ReaderType(t, j)
              case 2 => Byte(line[i] as int + prior[i])
              case 3 => Byte(line[i] as int + prior[i] / 2)
              case 4 => Byte(line[i] as int + prior[i])
              case _ => line[i]
  {
    ReaderPaethOne(0, prior[i], 0);
    assert Byte(line[i] as int + 0) == line[i];
    hide WriterPaeth, ReaderPaeth, Byte;
  }

  /** ... and to a later one, undoes the filter of the standard. */
  lemma LaterByteRestored(t: nat, j: nat, line: seq<byte>, row: seq<byte>, prior: seq<byte>, n: nat, i: nat)
    requires t < 5 && n <= i < |line| == |row| == |prior| && (j == 0 ==> prior[i] == 0 && prior[i - n] == 0)
    ensures RestoredByte(t, line, row, prior, n, i) ==
              match ReaderType(t, j)
              case 0 => line[i]
              case 1 => Byte(line[i] as int + row[i - n])
              case 2 => Byte(line[i] as int + prior[i])
              case 3 => Byte(line[i] as int + (prior[i] as int + row[i - n]) / 2)
              case 4 => Byte(line[i] as int + ReaderPaeth(row[i - n], prior[i], prior[i - n]))
              case _ => Byte(line[i] as int + row[i - n] / 2)
  {
    ReaderPaethOne(row[i - n], prior[i], prior[i - n]);
    assert Byte(line[i] as int + 0) == line[i];
    hide WriterPaeth, ReaderPaeth, Byte;
  }

  /** One byte of a row, by the reader's code for the row's filter type. */
  method RestoreByte(raw: seq<byte>, t: nat, j: nat, n: nat, buf: array<byte>, cur: nat, prior: nat, k: nat,
                     ghost above: seq<byte>)
    requires t < 5 && 0 < n <= |raw| && |above| == |raw| && k < |raw|
    requires cur + |raw| <= buf.Length && prior + |raw| <= buf.Length
    requires above == if j == 0 then Zeros(|raw|) else buf[prior..prior + |raw|]
    modifies buf
    ensures buf[cur + k] == RestoredByte(t, raw, old(buf[cur..cur + |raw|]), above, n, k)
    ensures forall i | 0 <= i < buf.Length && i != cur + k :: buf[i] == old(buf[i])
  {
    hide ReaderPaeth, Byte, RestoredByte;
    ghost var was := buf[cur..cur + |raw|];
    assert j > 0 ==> above[k] == buf[prior + k];
    var kind := ReaderType(t, j);
    if k < n {
      FirstByteRestored(t, j, raw, was, above, n, k);
      match kind {
        case 2 => buf[cur + k] := Byte(raw[k] as int + buf[prior + k]);
        case 3 => buf[cur + k] := Byte(raw[k] as int + buf[prior + k] / 2);
        case 4 => buf[cur + k] := Byte(raw[k] as int + buf[prior + k]);
        case _ => buf[cur + k] := raw[k];
      }
    } else {
      LaterByteRestored(t, j, raw, was, above, n, k);
      assert was[k - n] == buf[cur + k - n] && (j > 0 ==> above[k - n] == buf[prior + k - n]);
      match kind {
        case 0 => buf[cur + k] := raw[k];
        case 1 => buf[cur + k] := Byte(raw[k] as int + buf[cur + k - n]);
        case 2 => buf[cur + k] := Byte(raw[k] as int + buf[prior + k]);
        case 3 => buf[cur + k] := Byte(raw[k] as int + (buf[prior + k] as int + buf[cur + k - n]) / 2);
        case 4 =>
          var paeth := ReaderPaeth(buf[cur + k - n], buf[prior + k], buf[prior + k - n]);
          buf[cur + k] := Byte(raw[k] as int + paeth);
        case _ => buf[cur + k] := Byte(raw[k] as int + buf[cur + k - n] / 2);
      }
    }
  }

  /** One row: the bytes cur.. of the workspace become the row whose filtered line this is. */
  method DefilterRow(raw: seq<byte>, t: nat, j: nat, n: nat, buf: array<byte>, cur: nat, prior: nat,
                     ghost above: seq<byte>)
    requires t < 5 && 0 < n <= |raw| && |above| == |raw|
    requires cur + |raw| <= buf.Length && prior + |raw| <= buf.Length
    requires cur + |raw| <= prior || prior + |raw| <= cur
    requires above == if j == 0 then Zeros(|raw|) else buf[prior..prior + |raw|]
    modifies buf
    ensures IsFiltered(t, buf[cur..cur + |raw|], above, n, raw)
  {
    hide RestoredByte, IsFiltered, RestoredUpTo, Zeros;
    ghost var kept := buf[prior..prior + |raw|];
    var k: nat := 0;
    NothingRestored(t, raw, buf[cur..cur + |raw|], above, n);
    while k < |raw|
      invariant k <= |raw| && buf[prior..prior + |raw|] == kept
      invariant RestoredUpTo(t, raw, buf[cur..cur + |raw|], above, n, k)
    {
      ghost var was := buf[cur..cur + |raw|];
      RestoreByte(raw, t, j, n, buf, cur, prior, k, above);
      assert forall m | 0 <= m < |raw| && m != k :: buf[cur + m] == was[m];
      assert buf[cur..cur + |raw|] == was[k := buf[cur + k]];
      RestoredStep(t, raw, was, buf[cur..cur + |raw|], above, n, k);
      k := k + 1;
    }
    RestoredIsFiltered(t, raw, buf[cur..cur + |raw|], above, n);
  }

  /** Row k of the output. */
  ghost predicate RowStored(rows: seq<seq<byte>>, out: seq<byte>, len: nat, k: nat)
    requires k < |rows|
  {
    Line(k, len) + len <= |out| && out[Line(k, len)..Line(k, len) + len] == rows[k]
  }

  method CopyLine(out: array<byte>, at: nat, buf: array<byte>, cur: nat, len: nat)
    requires at + len <= out.Length && cur + len <= buf.Length && out != buf
    modifies out
    ensures out[at..at + len] == buf[cur..cur + len] && out[..at] == old(out[..at])
  {
    forall i | 0 <= i < len {
      out[at + i] := buf[cur + i];
    }
    ghost var line := out[at..at + len];
    assert forall i | 0 <= i < len :: line[i] == buf[cur + i];
  }

  lemma StillStored(rows: seq<seq<byte>>, was: seq<byte>, out: seq<byte>, len: nat, j: nat, k: nat)
    requires k < j <= |rows| && |was| == |out| && Line(j, len) <= |out| && out[..Line(j, len)] == was[..Line(j, len)]
    requires RowStored(rows, was, len, k)
    ensures RowStored(rows, out, len, k)
  {
    RowsApart(k, j, len);
    var at, end := Line(k, len), Line(j, len);
    hide Line;
    assert out[at..at + len] == out[..end][at..at + len] == was[..end][at..at + len] == was[at..at + len];
  }

  lemma LastRowFits(j: nat, len: nat)
    ensures Line(j + 1, len) == Line(j, len) + len
  {
    LineAdd(j, 1, len);
  }

  /** Copies a finished row to the output; the rows above stay. */
  method StoreRow(out: array<byte>, buf: array<byte>, cur: nat, j: nat, len: nat, ghost rows: seq<seq<byte>>)
    requires Line(j + 1, len) <= out.Length && cur + len <= buf.Length && out != buf
    requires |rows| == j + 1 && rows[j] == buf[cur..cur + len]
    requires forall k: nat | k < j :: RowStored(rows, out[..], len, k)
    modifies out
    ensures forall k: nat | k <= j :: RowStored(rows, out[..], len, k)
  {
    hide Line;
    LastRowFits(j, len);
    ghost var was := out[..];
    CopyLine(out, Line(j, len), buf, cur, len);
    assert RowStored(rows, out[..], len, j);
    hide RowStored;
    forall k: nat | k < j ensures RowStored(rows, out[..], len, k) {
      StillStored(rows, was, out[..], len, j, k);
    }
  }

  ghost predicate RowsRead(rows: seq<seq<byte>>, out: seq<byte>, n: nat, len: nat, raw: seq<byte>)
  {
    forall k: nat | k < |rows| :: RowStored(rows, out, len, k) && RowFiltered(rows, n, len, raw, k)
  }

  /** Half of the workspace: the two lines take turns. */
  function Half(j: nat, len: nat): nat
  {
    if j % 2 == 0 then 0 else len
  }

  /** One row of the image, whose filter type is known. */
  method ReadRow(raw: seq<byte>, j: nat, n: nat, len: nat, filter_buf: array<byte>, out: array<byte>,
                 ghost rows: seq<seq<byte>>) returns (ghost rows': seq<seq<byte>>)
    requires 0 < n <= len && |rows| == j && RowsRead(rows, out[..], n, len, raw) && KnownType(raw, len, j)
    requires Line(j, len + 1) + 1 + len <= |raw| && Line(j + 1, len) <= out.Length
    requires filter_buf.Length == 2 * len && out != filter_buf
    requires j > 0 ==> rows[j - 1] == filter_buf[Half(j + 1, len)..Half(j + 1, len) + len]
    modifies filter_buf, out
    ensures |rows'| == j + 1 && RowsRead(rows', out[..], n, len, raw)
    ensures rows'[j] == filter_buf[Half(j, len)..Half(j, len) + len]
  {
    hide Line, IsFiltered, Prior, RowsRead, RowStored, RowFiltered, Half;
    var at := Line(j, len + 1);
    ghost var above := Prior(rows, j, len);
    PriorIs(rows, j, len);
    HalvesApart(j, len);
    ghost var was := out[..];
    DefilterRow(raw[at + 1..at + 1 + len], raw[at], j, n, filter_buf, Half(j, len), Half(j + 1, len), above);
    ghost var row := filter_buf[Half(j, len)..Half(j, len) + len];
    rows' := rows + [row];
    OlderRows(rows, row, was, n, len, raw);
    StoreRow(out, filter_buf, Half(j, len), j, len, rows');
    NewRow(rows, row, out[..], n, len, raw);
  }

  lemma HalvesApart(j: nat, len: nat)
    ensures Half(j, len) + len <= 2 * len && Half(j + 1, len) + len <= 2 * len
    ensures Half(j, len) + len <= Half(j + 1, len) || Half(j + 1, len) + len <= Half(j, len)
  {
  }

  lemma OlderRows(rows: seq<seq<byte>>, row: seq<byte>, out: seq<byte>, n: nat, len: nat, raw: seq<byte>)
    requires RowsRead(rows, out, n, len, raw)
    ensures forall k: nat | k < |rows| ::
              RowStored(rows + [row], out, len, k) && RowFiltered(rows + [row], n, len, raw, k)
  {
    hide IsFiltered, Line, Prior;
    forall k: nat | k < |rows|
      ensures RowStored(rows + [row], out, len, k) && RowFiltered(rows + [row], n, len, raw, k)
    {
      assert RowStored(rows, out, len, k) && RowFiltered(rows, n, len, raw, k);
      PriorGrow(rows, row, k, len);
    }
  }

  lemma NewRow(rows: seq<seq<byte>>, row: seq<byte>, out: seq<byte>, n: nat, len: nat, raw: seq<byte>)
    requires forall k: nat | k < |rows| :: RowFiltered(rows + [row], n, len, raw, k)
    requires forall k: nat | k <= |rows| :: RowStored(rows + [row], out, len, k)
    requires Line(|rows|, len + 1) + 1 + len <= |raw|
    requires var at := Line(|rows|, len + 1);
             IsFiltered(raw[at], row, Prior(rows, |rows|, len), n, raw[at + 1..at + 1 + len])
    ensures RowsRead(rows + [row], out, n, len, raw)
  {
    hide IsFiltered, Line, Prior, RowStored;
    PriorGrow(rows, row, |rows|, len);
    assert RowFiltered(rows + [row], n, len, raw, |rows|);
  }

  lemma PriorIs(rows: seq<seq<byte>>, j: nat, len: nat)
    requires j <= |rows|
    ensures Prior(rows, j, len) == if j == 0 then Zeros(len) else rows[j - 1]
  {
  }

  lemma PriorGrow(rows: seq<seq<byte>>, row: seq<byte>, j: nat, len: nat)
    requires j <= |rows|
    ensures Prior(rows + [row], j, len) == Prior(rows, j, len)
  {
  }

  /** `stbi__create_png_image_raw` for 8-bit samples with no alpha channel to add: it succeeds
      when there is enough data and every filter type is known, and then the image is the
      one whose filter data this is. */
  method CreateImageRaw(raw: seq<byte>, x: nat, y: nat, n: nat) returns (ok: bool, out: array<byte>)
    requires 1 <= n && 1 <= x
    ensures fresh(out)
    ensures var len := Line(x, n);
            && (ok <==> KnownTypes(raw, len, y))
            && (ok ==> out.Length == Line(y, len) &&
                       IsFilteredImage(ImageRows(out[..], len, y, false, len), n, len, raw))
  {
    hide Line, RowsRead, KnownType, IsFilteredImage, Half;
    var len := Line(x, n);
    out := new byte[Line(y, len)](_ => 0);
    if |raw| < Line(y, len + 1) {
      return false, out;
    }
    NotNarrower(x, n);
    var filter_buf := new byte[2 * len](_ => 0);
    ghost var rows: seq<seq<byte>> := [];
    NoRows(out[..], n, len, raw);
    var j: nat := 0;
    ok := true;
    while j < y && ok
      invariant j <= y && fresh(out) && fresh(filter_buf) && out != filter_buf
      invariant out.Length == Line(y, len) && filter_buf.Length == 2 * len
      invariant ok ==> |rows| == j && RowsRead(rows, out[..], n, len, raw)
      invariant ok ==> forall k: nat | k < j :: KnownType(raw, len, k)
      invariant ok && j > 0 ==> Half(j + 1, len) + len <= 2 * len &&
                                rows[j - 1] == filter_buf[Half(j + 1, len)..Half(j + 1, len) + len]
      invariant !ok ==> j < y && !KnownType(raw, len, j)
      decreases y - j, ok
    {
      RowFits(j, y, len + 1);
      NextRowFits(j, y, len);
      TypeIs(raw, len, j);
      if raw[Line(j, len + 1)] > 4 {
        ok := false;
      } else {
        HalvesApart(j, len);
        HalfAgain(j, len);
        rows := ReadRow(raw, j, n, len, filter_buf, out, rows);
        j := j + 1;
      }
    }
    if ok {
      AllRows(rows, out[..], n, len, raw, y);
    }
  }

  lemma NotNarrower(x: nat, n: nat)
    requires 1 <= x
    ensures n <= Line(x, n)
  {
    LineAdd(1, x - 1, n);
  }

  lemma NoRows(out: seq<byte>, n: nat, len: nat, raw: seq<byte>)
    ensures RowsRead([], out, n, len, raw)
  {
  }

  lemma NextRowFits(j: nat, y: nat, len: nat)
    requires j < y
    ensures Line(j + 1, len) <= Line(y, len)
  {
    RowsApart(j, y, len);
  }

  lemma TypeIs(raw: seq<byte>, len: nat, j: nat)
    requires Line(j, len + 1) < |raw|
    ensures KnownType(raw, len, j) <==> raw[Line(j, len + 1)] <= 4
  {
  }

  lemma HalfAgain(j: nat, len: nat)
    ensures Half(j, len) == Half(j + 2, len)
  {
  }

  lemma AllRows(rows: seq<seq<byte>>, out: seq<byte>, n: nat, len: nat, raw: seq<byte>, y: nat)
    requires |rows| == y && RowsRead(rows, out, n, len, raw) && |out| == Line(y, len)
    ensures IsFilteredImage(ImageRows(out, len, y, false, len), n, len, raw)
  {
    forall k: nat | k < y ensures rows[k] == RowAt(out, len, y, k, false, len) {
      assert RowStored(rows, out, len, k);
    }
    assert rows == ImageRows(out, len, y, false, len);
  }

  ghost predicate KnownType(raw: seq<byte>, len: nat, j: nat)
  {
    Line(j, len + 1) < |raw| && raw[Line(j, len + 1)] <= 4
  }

  ghost predicate KnownTypes(raw: seq<byte>, len: nat, y: nat)
  {
    Line(y, len + 1) <= |raw| && forall j: nat | j < y :: KnownType(raw, len, j)
  }

  lemma AllKnown(rows: seq<seq<byte>>, raw: seq<byte>, n: nat, len: nat, y: nat)
    requires |rows| == y && IsFilteredImage(rows, n, len, raw) && |raw| == Line(y, len + 1)
    ensures KnownTypes(raw, len, y)
  {
    forall j: nat | j < y ensures KnownType(raw, len, j) {
      assert RowFiltered(rows, n, len, raw, j);
    }
  }

  /** Filtering an image, with any choice of filters, and defiltering the result gives the
      same rows. */
  method FilterRoundTrip(pixels: array<byte>, stride_bytes: nat, x: nat, y: nat, n: nat, force: int, flip: bool)
    returns (out: array<byte>)
    requires 1 <= n && 1 <= x
    requires Line(x, n) <= stride_bytes && Line(y, stride_bytes) <= pixels.Length
    ensures out.Length == Line(y, Line(x, n))
    ensures ImageRows(out[..], Line(x, n), y, false, Line(x, n)) ==
            ImageRows(pixels[..], stride_bytes, y, flip, Line(x, n))
  {
    var filt := FilterImage(pixels, stride_bytes, x, y, n, force, flip);
    ghost var rows := ImageRows(pixels[..], stride_bytes, y, flip, Line(x, n));
    AllKnown(rows, filt[..], n, Line(x, n), y);
    var ok;
    ok, out := CreateImageRaw(filt[..], x, y, n);
    FilteredImageUnique(rows, ImageRows(out[..], Line(x, n), y, false, Line(x, n)), n, Line(x, n), filt[..]);
  }
}
