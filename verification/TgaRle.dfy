/** Run-length coded TGA images: packets of pixels, row by row. */
module TgaRle {
  import opened BitMath

  /** One pixel of one to four components. */
  type Pixel = seq<byte>

  /** Blue first in the file: `stbiw__write_pixel` with the colours reversed, and the swap
      at the end of the reader. */
  function Swapped(p: Pixel): (r: Pixel)
    ensures |r| == |p|
  {
    if |p| >= 3 then [p[2], p[1], p[0]] + p[3..] else p
  }

  /** Red, green and blue are stored as blue, green and red; one or two components stay. */
  lemma SwappedBytes(r: byte, g: byte, b: byte, a: byte)
    ensures Swapped([r, g, b]) == [b, g, r] && Swapped([r, g, b, a]) == [b, g, r, a]
    ensures Swapped([r]) == [r] && Swapped([r, a]) == [r, a]
  {
  }

  lemma SwappedTwice(p: Pixel)
    ensures Swapped(Swapped(p)) == p
  {
  }

  function SwappedRow(row: seq<Pixel>): (r: seq<Pixel>)
    ensures |r| == |row|
  {
    seq(|row|, i requires 0 <= i < |row| => Swapped(row[i]))
  }

  // ---- packets ------------------------------------------------------------------------

  datatype Packet = Run(n: nat, p: Pixel) | Literal(ps: seq<Pixel>)

  ghost predicate Legal(p: Packet, comp: nat)
  {
    match p
    case Run(n, v) => 1 <= n <= 128 && |v| == comp
    case Literal(ps) => 1 <= |ps| <= 128 && forall i | 0 <= i < |ps| :: |ps[i]| == comp
  }

  ghost predicate AllLegal(ps: seq<Packet>, comp: nat)
  {
    forall i | 0 <= i < |ps| :: Legal(ps[i], comp)
  }

  function Flat(ps: seq<Pixel>): seq<byte>
  {
    if |ps| == 0 then [] else ps[0] + Flat(ps[1..])
  }

  ghost function Wire(p: Packet, comp: nat): seq<byte>
    requires Legal(p, comp)
  {
    match p case Run(n, v) => [128 + (n - 1)] + v case Literal(ps) => [|ps| - 1] + Flat(ps)
  }

  function Plain(p: Packet): seq<Pixel>
  {
    match p case Run(n, v) => seq(n, _ => v) case Literal(ps) => ps
  }

  ghost function WireAll(ps: seq<Packet>, comp: nat): seq<byte>
    requires AllLegal(ps, comp)
  {
    if |ps| == 0 then [] else Wire(ps[0], comp) + WireAll(ps[1..], comp)
  }

  function PlainAll(ps: seq<Packet>): seq<Pixel>
  {
    if |ps| == 0 then [] else Plain(ps[0]) + PlainAll(ps[1..])
  }

  lemma AllFirst(ps: seq<Packet>, comp: nat)
    requires AllLegal(ps, comp) && |ps| > 0
    ensures Legal(ps[0], comp) && AllLegal(ps[1..], comp)
    ensures WireAll(ps, comp) == Wire(ps[0], comp) + WireAll(ps[1..], comp)
    ensures PlainAll(ps) == Plain(ps[0]) + PlainAll(ps[1..])
  {
    hide Wire, Plain, Legal;
  }

  lemma {:induction false} AllConcat(a: seq<Packet>, b: seq<Packet>, comp: nat)
    requires AllLegal(a, comp) && AllLegal(b, comp)
    ensures AllLegal(a + b, comp) && PlainAll(a + b) == PlainAll(a) + PlainAll(b)
    ensures WireAll(a + b, comp) == WireAll(a, comp) + WireAll(b, comp)
  {
    hide Wire, Plain, Legal;
    if |a| == 0 {
      assert a + b == b;
    } else {
      assert (a + b)[1..] == a[1..] + b && (a + b)[0] == a[0];
      AllConcat(a[1..], b, comp);
      assert AllLegal(a + b, comp);
      hide WireAll, PlainAll, AllLegal;
      assert WireAll(a + b, comp) == Wire(a[0], comp) + (WireAll(a[1..], comp) + WireAll(b, comp)) by {
        AllFirst(a + b, comp);
      }
      assert PlainAll(a + b) == Plain(a[0]) + (PlainAll(a[1..]) + PlainAll(b)) by { AllFirst(a + b, comp); }
      AllFirst(a, comp);
    }
  }

  lemma AllOne(p: Packet, comp: nat)
    requires Legal(p, comp)
    ensures AllLegal([p], comp) && PlainAll([p]) == Plain(p) && WireAll([p], comp) == Wire(p, comp)
  {
    assert [p][1..] == [];
    assert PlainAll([]) == [] && WireAll([], comp) == [];
  }

  // ---- the writer ---------------------------------------------------------------------

  /** The next packet of a row: its length, and whether it is literal pixels. The search
      for the end of a literal compares pixels two apart. */
  method FindPacket(row: seq<Pixel>, i: nat) returns (len: nat, diff: bool)
    requires i < |row|
    ensures 1 <= len <= 128 && i + len <= |row|
    ensures diff <==> i == |row| - 1 || row[i] != row[i + 1]
    ensures !diff ==> len >= 2 && forall k | i <= k < i + len :: row[k] == row[i]
    ensures !diff && len < 128 && i + len < |row| ==> row[i + len] != row[i]
    ensures diff ==> forall k | i + 2 <= k < i + len :: row[k - 2] != row[k]
    ensures diff && len < 128 && i + len < |row| ==> forall k | i + 2 <= k <= i + len :: row[k - 2] != row[k]
    ensures diff && len < 128 && i + len < |row| ==> i + len + 1 < |row| && row[i + len - 1] == row[i + len + 1]
  {
    var x := |row|;
    diff := true;
    len := 1;
    if i < x - 1 {
      len := len + 1;
      diff := row[i] != row[i + 1];
      var k := i + 2;
      var more := true;
      if diff {
        var prev := i;
        while k < x && len < 128 && more
          invariant i + 2 <= k <= x && prev == k - 2
          invariant if more then len == k - i <= 128 else len == k - i - 1
          invariant 1 <= len <= 128
          invariant forall j | i + 2 <= j < i + len :: row[j - 2] != row[j]
          invariant !more ==> k < x && row[k - 2] == row[k] && forall j | i + 2 <= j <= i + len :: row[j - 2] != row[j]
          decreases x - k, more
        {
          if row[prev] != row[k] {
            prev := prev + 1;
            len := len + 1;
            k := k + 1;
          } else {
            len := len - 1;
            more := false;
          }
        }
      } else {
        while k < x && len < 128 && more
          invariant i + 2 <= k <= x && len == k - i <= 128
          invariant forall j | i <= j < k :: row[j] == row[i]
          invariant !more ==> k < x && row[k] != row[i]
          decreases x - k, more
        {
          if row[i] == row[k] {
            len := len + 1;
            k := k + 1;
          } else {
            more := false;
          }
        }
      }
    }
  }

  lemma {:induction false} FlatConcat(a: seq<Pixel>, b: seq<Pixel>)
    ensures Flat(a + b) == Flat(a) + Flat(b)
  {
    if |a| == 0 {
      assert a + b == b;
    } else {
      assert (a + b)[1..] == a[1..] + b;
      FlatConcat(a[1..], b);
    }
  }

  lemma FlatOne(p: Pixel)
    ensures Flat([p]) == p
  {
    assert [p][1..] == [] && p + [] == p;
  }

  /** The pixels of a literal, as they are in the file. */
  method WritePixels(row: seq<Pixel>, i: nat, len: nat) returns (out: seq<byte>)
    requires i + len <= |row|
    ensures out == Flat(SwappedRow(row)[i..i + len])
  {
    hide Swapped, Flat;
    ghost var ps := SwappedRow(row);
    out := [];
    assert ps[i..i] == [] && Flat([]) == [] by { NothingFlat(); }
    var k := 0;
    while k < len
      invariant 0 <= k <= len && out == Flat(ps[i..i + k])
    {
      FlatConcat(ps[i..i + k], [ps[i + k]]);
      FlatOne(ps[i + k]);
      assert ps[i..i + k] + [ps[i + k]] == ps[i..i + (k + 1)];
      out := out + Swapped(row[i + k]);
      k := k + 1;
    }
  }

  lemma NothingFlat()
    ensures Flat([]) == []
  {
  }

  ghost predicate Sized(row: seq<Pixel>, comp: nat)
  {
    forall i | 0 <= i < |row| :: |row[i]| == comp
  }

  /** The first i pixels of a row have been written, in packets of their own. */
  ghost predicate Written(out: seq<byte>, ps: seq<Packet>, row: seq<Pixel>, i: nat, comp: nat)
  {
    i <= |row| && AllLegal(ps, comp) && out == WireAll(ps, comp) && PlainAll(ps) == SwappedRow(row)[..i]
  }

  /** One packet onto what has been written. */
  method WritePacket(row: seq<Pixel>, i: nat, len: nat, diff: bool, comp: nat, out0: seq<byte>, ghost ps0: seq<Packet>)
    returns (out: seq<byte>, ghost ps: seq<Packet>)
    requires Written(out0, ps0, row, i, comp) && Sized(row, comp)
    requires 1 <= len <= 128 && i + len <= |row|
    requires !diff ==> len >= 2 && forall k | i <= k < i + len :: row[k] == row[i]
    ensures Written(out, ps, row, i + len, comp)
  {
    hide Swapped, Flat, WireAll, PlainAll, AllLegal;
    ghost var qs := SwappedRow(row)[i..i + len];
    ghost var p;
    if diff {
      var header: byte := len - 1;
      var pixels := WritePixels(row, i, len);
      out := out0 + ([header] + pixels);
      p := Literal(qs);
    } else {
      var header: byte := (len - 129) % 256;
      out := out0 + ([header] + Swapped(row[i]));
      p := Run(len, Swapped(row[i]));
    }
    assert Legal(p, comp) && out == out0 + Wire(p, comp);
    assert Plain(p) == qs by { if !diff { RunPlain(row, i, len); } }
    hide SwappedRow, Legal, Wire, Sized;
    AllOne(p, comp);
    AllConcat(ps0, [p], comp);
    ps := ps0 + [p];
    assert SwappedRow(row)[..i + len] == SwappedRow(row)[..i] + qs;
  }

  lemma RunPlain(row: seq<Pixel>, i: nat, len: nat)
    requires i + len <= |row| && forall k | i <= k < i + len :: row[k] == row[i]
    requires len > 0
    ensures Plain(Run(len, Swapped(row[i]))) == SwappedRow(row)[i..i + len]
  {
    hide Swapped;
  }

  /** One row: its packets hold exactly its pixels, at most 128 each. */
  method WriteRow(row: seq<Pixel>, comp: nat) returns (out: seq<byte>, ghost ps: seq<Packet>)
    requires Sized(row, comp)
    ensures AllLegal(ps, comp) && out == WireAll(ps, comp) && PlainAll(ps) == SwappedRow(row)
    ensures RowCoded(out, row, comp)
  {
    out, ps := [], [];
    var i: nat := 0;
    assert Written(out, ps, row, 0, comp);
    hide Written, Sized;
    while i < |row|
      invariant i <= |row| && Written(out, ps, row, i, comp)
    {
      var len, diff := FindPacket(row, i);
      out, ps := WritePacket(row, i, len, diff, comp, out, ps);
      i := i + len;
    }
    RowDone(out, ps, row, comp);
  }

  /** Some legal packets hold exactly this row, blue first. */
  ghost predicate RowCoded(out: seq<byte>, row: seq<Pixel>, comp: nat)
  {
    exists ps :: AllLegal(ps, comp) && out == WireAll(ps, comp) && PlainAll(ps) == SwappedRow(row)
  }

  lemma RowDone(out: seq<byte>, ps: seq<Packet>, row: seq<Pixel>, comp: nat)
    requires Written(out, ps, row, |row|, comp)
    ensures AllLegal(ps, comp) && out == WireAll(ps, comp) && PlainAll(ps) == SwappedRow(row)
      && RowCoded(out, row, comp)
  {
    assert SwappedRow(row)[..|row|] == SwappedRow(row);
  }

  // ---- the image ----------------------------------------------------------------------

  /** Row r of an image. */
  function RowOf(data: seq<Pixel>, w: nat, h: nat, r: nat): (row: seq<Pixel>)
    requires r < h && |data| == Line(h, w)
    ensures |row| == w
  {
    RowsApart(r, h, w);
    data[Line(r, w)..Line(r, w) + w]
  }

  /** The image row that is written t-th: from the bottom up, unless flipped. */
  function RowWritten(h: nat, flip: bool, t: nat): nat
    requires t < h
  {
    if flip then t else h - 1 - t
  }

  /** The first t rows of the file. */
  ghost predicate RowsWritten(e: seq<Pixel>, data: seq<Pixel>, w: nat, h: nat, flip: bool, t: nat)
    requires |data| == Line(h, w)
  {
    && t <= h && |e| == Line(t, w)
    && forall k: nat | k < t :: RowIs(e, w, k, SwappedRow(RowOf(data, w, h, RowWritten(h, flip, k))))
  }

  ghost predicate RowIs(e: seq<Pixel>, w: nat, k: nat, row: seq<Pixel>)
  {
    Line(k, w) + w <= |e| && e[Line(k, w)..Line(k, w) + w] == row
  }

  lemma LineOne(w: nat)
    ensures Line(1, w) == w
  {
  }

  lemma RowKept(e: seq<Pixel>, more: seq<Pixel>, w: nat, k: nat, row: seq<Pixel>)
    requires RowIs(e, w, k, row)
    ensures RowIs(e + more, w, k, row)
  {
    hide Line;
    assert (e + more)[Line(k, w)..Line(k, w) + w] == e[Line(k, w)..Line(k, w) + w];
  }

  lemma RowLast(e: seq<Pixel>, row: seq<Pixel>, w: nat, k: nat)
    requires |e| == Line(k, w) && |row| == w
    ensures RowIs(e + row, w, k, row)
  {
    hide Line;
  }

  /** The rows come from the bottom up, or from the top down when asked for. */
  lemma WrittenPixel(e: seq<Pixel>, data: seq<Pixel>, w: nat, h: nat, flip: bool, k: nat, i: nat, from: nat, to: nat)
    requires |data| == Line(h, w) && RowsWritten(e, data, w, h, flip, h) && k < h && i < w
    requires from == (if flip then k else h - 1 - k) * w + i && to == k * w + i
    ensures from < |data| && to < |e| && e[to] == Swapped(data[from])
  {
    var r := RowWritten(h, flip, k);
    PixelOfRow(data, w, h, r, i, from);
    ElementOfRow(e, w, k, SwappedRow(RowOf(data, w, h, r)), i, to);
  }

  lemma PixelOfRow(data: seq<Pixel>, w: nat, h: nat, r: nat, i: nat, at: nat)
    requires |data| == Line(h, w) && r < h && i < w && at == r * w + i
    ensures at < |data| && SwappedRow(RowOf(data, w, h, r))[i] == Swapped(data[at])
  {
    RowsApart(r, h, w);
    hide Swapped;
  }

  lemma ElementOfRow(e: seq<Pixel>, w: nat, k: nat, row: seq<Pixel>, i: nat, at: nat)
    requires RowIs(e, w, k, row) && i < w && at == k * w + i
    ensures |row| == w && at < |e| && e[at] == row[i]
  {
  }

  lemma RowsGrow(e: seq<Pixel>, data: seq<Pixel>, w: nat, h: nat, flip: bool, t: nat, row: seq<Pixel>)
    requires |data| == Line(h, w) && t < h && RowsWritten(e, data, w, h, flip, t)
    requires row == SwappedRow(RowOf(data, w, h, RowWritten(h, flip, t)))
    ensures RowsWritten(e + row, data, w, h, flip, t + 1)
  {
    hide Line, RowIs, RowOf, SwappedRow;
    LineAdd(t, 1, w);
    LineOne(w);
    forall k: nat | k < t + 1 ensures RowIs(e + row, w, k, SwappedRow(RowOf(data, w, h, RowWritten(h, flip, k)))) {
      if k < t {
        var r := SwappedRow(RowOf(data, w, h, RowWritten(h, flip, k)));
        assert RowIs(e, w, k, r);
        RowKept(e, row, w, k, r);
      } else {
        RowLast(e, row, w, t);
      }
    }
  }

  lemma RowSized(data: seq<Pixel>, w: nat, h: nat, r: nat, comp: nat)
    requires r < h && |data| == Line(h, w) && Sized(data, comp)
    ensures Sized(RowOf(data, w, h, r), comp)
  {
    RowsApart(r, h, w);
    var at := Line(r, w);
    assert at + w <= |data|;
    hide Line;
    var row := data[at..at + w];
    forall i | 0 <= i < |row| ensures |row[i]| == comp {
      assert row[i] == data[at + i];
    }
  }

  /** Some legal packets hold exactly the rows of the image, in the order asked for. */
  ghost predicate ImageCoded(out: seq<byte>, data: seq<Pixel>, w: nat, h: nat, comp: nat, flip: bool)
    requires |data| == Line(h, w)
  {
    exists ps :: AllLegal(ps, comp) && out == WireAll(ps, comp) && RowsWritten(PlainAll(ps), data, w, h, flip, h)
  }

  /** The run-length branch of `stbi_write_tga_core`, after the header. */
  method WriteImage(data: seq<Pixel>, w: nat, h: nat, comp: nat, flip: bool)
    returns (out: seq<byte>, ghost ps: seq<Packet>)
    requires |data| == Line(h, w) && Sized(data, comp)
    ensures AllLegal(ps, comp) && out == WireAll(ps, comp)
    ensures RowsWritten(PlainAll(ps), data, w, h, flip, h)
    ensures ImageCoded(out, data, w, h, comp, flip)
  {
    out, ps := [], [];
    var t: nat := 0;
    assert AllLegal(ps, comp) && out == WireAll(ps, comp) && RowsWritten(PlainAll(ps), data, w, h, flip, 0);
    hide AllLegal, WireAll, PlainAll, RowsWritten, Sized, RowOf, Line, SwappedRow;
    while t < h
      invariant t <= h && AllLegal(ps, comp) && out == WireAll(ps, comp)
      invariant RowsWritten(PlainAll(ps), data, w, h, flip, t)
    {
      var row := RowOf(data, w, h, RowWritten(h, flip, t));
      RowSized(data, w, h, RowWritten(h, flip, t), comp);
      var bytes, qs := WriteRow(row, comp);
      AllConcat(ps, qs, comp);
      RowsGrow(PlainAll(ps), data, w, h, flip, t, SwappedRow(row));
      out, ps := out + bytes, ps + qs;
      t := t + 1;
    }
  }

  // ---- the reader ---------------------------------------------------------------------

  class Reader {
    var s: seq<byte>

    constructor (s: seq<byte>)
      ensures this.s == s
    {
      this.s := s;
    }

    method Get8() returns (b: byte)
      modifies this
      ensures if old(s) == [] then b == 0 && s == [] else b == old(s)[0] && s == old(s)[1..]
    {
      if s == [] {
        b := 0;
      } else {
        b := s[0];
        s := s[1..];
      }
    }

    method ReadRaw(comp: nat) returns (raw_data: Pixel)
      modifies this
      ensures |raw_data| == comp
      ensures |old(s)| >= comp ==> raw_data == old(s)[..comp] && s == old(s)[comp..]
    {
      raw_data := [];
      var j := 0;
      while j < comp
        invariant 0 <= j <= comp && |raw_data| == j
        invariant |old(s)| >= comp ==> raw_data == old(s)[..j] && s == old(s)[j..]
      {
        var b := Get8();
        raw_data := raw_data + [b];
        j := j + 1;
      }
    }

    /** The RLE command, if the last packet is used up: how many pixels are to come, whether
        they are one repeated, and whether a pixel is to be read now. */
    method Command(count0: nat, repeating0: bool, raw: Pixel, ghost comp: nat,
                   ghost left0: seq<Packet>, ghost pending0: seq<Pixel>, ghost tail: seq<byte>, ghost rest: seq<Pixel>,
                   ghost coded: bool)
      returns (RLE_count: nat, RLE_repeating: bool, read_next_pixel: bool, ghost left: seq<Packet>,
               ghost pending: seq<Pixel>)
      requires coded ==> Before(s, count0, repeating0, raw, pending0, left0, tail, comp, rest) && rest != []
      modifies this
      ensures RLE_count >= 1
      ensures coded ==> Taking(s, RLE_count, RLE_repeating, read_next_pixel, raw, pending, left, tail, comp, rest)
    {
      RLE_count, RLE_repeating, read_next_pixel := count0, repeating0, false;
      left, pending := left0, pending0;
      if RLE_count == 0 {
        if coded { pending := NextPacket(s, left0, tail, comp, rest); }
        var RLE_cmd := Get8();
        RLE_count := 1 + RLE_cmd % 128;
        RLE_repeating := RLE_cmd >= 128;
        read_next_pixel := true;
        if coded { left := left0[1..]; }
      } else if !RLE_repeating {
        read_next_pixel := true;
      }
    }

    /** The pixel, read or repeated. */
    method TakePixel(raw0: Pixel, read: bool, comp: nat, ghost count: nat, ghost repeating: bool,
                     ghost left: seq<Packet>, ghost pending0: seq<Pixel>, ghost tail: seq<byte>, ghost rest: seq<Pixel>,
                     ghost coded: bool)
      returns (raw_data: Pixel, ghost pending: seq<Pixel>)
      requires count >= 1 && |raw0| == comp
      requires coded ==> Taking(s, count, repeating, read, raw0, pending0, left, tail, comp, rest) && rest != []
      modifies this
      ensures |raw_data| == comp
      ensures coded ==> raw_data == rest[0]
      ensures coded ==> Before(s, count - 1, repeating, raw_data, pending, left, tail, comp, rest[1..])
    {
      raw_data, pending := raw0, pending0;
      if coded { PixelFirst(s, count, repeating, read, raw0, pending0, left, tail, comp, rest); }
      if read {
        raw_data := ReadRaw(comp);
        if coded && !repeating { pending := pending0[1..]; }
      }
    }

    /** The next pixel of the image. */
    method NextPixel(count0: nat, repeating0: bool, raw0: Pixel, comp: nat,
                     ghost left0: seq<Packet>, ghost pending0: seq<Pixel>, ghost tail: seq<byte>,
                     ghost rest: seq<Pixel>, ghost coded: bool)
      returns (RLE_count: nat, RLE_repeating: bool, raw_data: Pixel, ghost left: seq<Packet>, ghost pending: seq<Pixel>)
      requires |raw0| == comp
      requires coded ==> Before(s, count0, repeating0, raw0, pending0, left0, tail, comp, rest) && rest != []
      modifies this
      ensures |raw_data| == comp
      ensures coded ==> raw_data == rest[0]
      ensures coded ==> Before(s, RLE_count, RLE_repeating, raw_data, pending, left, tail, comp, rest[1..])
    {
      hide *;
      var read_next_pixel;
      RLE_count, RLE_repeating, read_next_pixel, left, pending :=
        Command(count0, repeating0, raw0, comp, left0, pending0, tail, rest, coded);
      raw_data, pending :=
        TakePixel(raw0, read_next_pixel, comp, RLE_count, RLE_repeating, left, pending, tail, rest, coded);
      RLE_count := RLE_count - 1;
    }

    /** The pixels of the packets, in the order of the file; of any other bytes, some pixels. */
    method ReadPixels(n: nat, comp: nat, tga_data: array<Pixel>, ghost ps: seq<Packet>, ghost tail: seq<byte>,
                      ghost coded: bool)
      requires tga_data.Length == n
      requires coded ==> AllLegal(ps, comp) && s == WireAll(ps, comp) + tail && |PlainAll(ps)| == n
      modifies this, tga_data
      ensures Sized(tga_data[..], comp)
      ensures coded ==> tga_data[..] == PlainAll(ps)
    {
      hide *;
      var RLE_count: nat, RLE_repeating := 0, false;
      var raw_data: Pixel := seq(comp, _ => 0);
      ghost var done: seq<Pixel>, rest, left, pending: seq<Pixel> := [], PlainAll(ps), ps, [];
      SizedNothing(comp);
      if coded { AtStart(s, raw_data, ps, tail, comp); }
      var i: nat := 0;
      while i < n
        invariant i <= n && |raw_data| == comp && tga_data[..i] == done && Sized(done, comp)
        invariant coded ==> done + rest == PlainAll(ps)
        invariant coded ==> Before(s, RLE_count, RLE_repeating, raw_data, pending, left, tail, comp, rest)
      {
        RLE_count, RLE_repeating, raw_data, left, pending :=
          NextPixel(RLE_count, RLE_repeating, raw_data, comp, left, pending, tail, rest, coded);
        tga_data[i] := raw_data;
        SizedPush(done, raw_data, comp);
        if coded {
          assert done + rest == (done + [raw_data]) + rest[1..];
          rest := rest[1..];
        }
        done := done + [raw_data];
        i := i + 1;
      }
      assert tga_data[..n] == tga_data[..];
    }
  }

  lemma AtStart(s: seq<byte>, raw: Pixel, ps: seq<Packet>, tail: seq<byte>, comp: nat)
    requires AllLegal(ps, comp) && s == WireAll(ps, comp) + tail
    ensures Before(s, 0, false, raw, [], ps, tail, comp, PlainAll(ps))
  {
  }

  lemma SizedNothing(comp: nat)
    ensures Sized([], comp)
  {
  }

  lemma SizedPush(row: seq<Pixel>, p: Pixel, comp: nat)
    requires Sized(row, comp) && |p| == comp
    ensures Sized(row + [p], comp)
  {
  }

  /** Between two pixels: `count` pixels of the current packet are to come, copies of the
      last one or pending in the stream, and then the packets left. */
  ghost predicate Before(s: seq<byte>, count: nat, repeating: bool, raw: Pixel, pending: seq<Pixel>,
                         left: seq<Packet>, tail: seq<byte>, comp: nat, rest: seq<Pixel>)
  {
    && AllLegal(left, comp)
    && if count == 0 then rest == PlainAll(left) && s == WireAll(left, comp) + tail
       else if repeating then rest == seq(count, _ => raw) + PlainAll(left) && s == WireAll(left, comp) + tail
       else InLiteral(s, count, pending, left, tail, comp, rest)
  }

  ghost predicate InLiteral(s: seq<byte>, count: nat, pending: seq<Pixel>, left: seq<Packet>, tail: seq<byte>,
                            comp: nat, rest: seq<Pixel>)
  {
    && AllLegal(left, comp) && |pending| == count && Sized(pending, comp)
    && rest == pending + PlainAll(left) && s == Flat(pending) + (WireAll(left, comp) + tail)
  }

  /** Before a pixel is taken: it is the last one again, or the next in the stream. */
  ghost predicate Taking(s: seq<byte>, count: nat, repeating: bool, read: bool, raw: Pixel, pending: seq<Pixel>,
                         left: seq<Packet>, tail: seq<byte>, comp: nat, rest: seq<Pixel>)
  {
    && AllLegal(left, comp) && count >= 1
    && if !read then repeating && rest == seq(count, _ => raw) + PlainAll(left) && s == WireAll(left, comp) + tail
       else if repeating then
         && |pending| == 1 && Sized(pending, comp)
         && rest == seq(count, _ => pending[0]) + PlainAll(left) && s == pending[0] + (WireAll(left, comp) + tail)
       else InLiteral(s, count, pending, left, tail, comp, rest)
  }

  lemma NextRun(s: seq<byte>, n: nat, v: Pixel, left: seq<Packet>, tail: seq<byte>, comp: nat)
    requires 1 <= n <= 128 && |v| == comp && AllLegal(left, comp)
    requires s == [128 + (n - 1)] + (v + (WireAll(left, comp) + tail))
    ensures Taking(s[1..], n, true, true, [], [v], left, tail, comp, seq(n, _ => v) + PlainAll(left))
  {
    hide WireAll, PlainAll, AllLegal;
    assert s[1..] == v + (WireAll(left, comp) + tail);
  }

  lemma NextLiteral(s: seq<byte>, qs: seq<Pixel>, left: seq<Packet>, tail: seq<byte>, comp: nat)
    requires 1 <= |qs| <= 128 && Sized(qs, comp) && AllLegal(left, comp)
    requires s == [|qs| - 1] + (Flat(qs) + (WireAll(left, comp) + tail))
    ensures Taking(s[1..], |qs|, false, true, [], qs, left, tail, comp, qs + PlainAll(left))
  {
    hide WireAll, PlainAll, AllLegal, Sized, Flat;
    assert s[1..] == Flat(qs) + (WireAll(left, comp) + tail);
  }

  /** A packet on the wire: its command byte, its pixels, and what follows. */
  lemma OnTheWire(p: Packet, w: seq<byte>, tail: seq<byte>, comp: nat)
    requires Legal(p, comp)
    ensures var s := (Wire(p, comp) + w) + tail;
            match p
            case Run(n, v) => 1 <= n <= 128 && |v| == comp && s == [128 + (n - 1)] + (v + (w + tail))
            case Literal(qs) => 1 <= |qs| <= 128 && Sized(qs, comp) && s == [|qs| - 1] + (Flat(qs) + (w + tail))
  {
    hide Flat;
  }

  lemma NoPackets()
    ensures PlainAll([]) == []
  {
  }

  /** The next packet's command byte, and what follows it. */
  lemma NextPacket(s: seq<byte>, ps: seq<Packet>, tail: seq<byte>, comp: nat, rest: seq<Pixel>)
    returns (pending: seq<Pixel>)
    requires AllLegal(ps, comp) && rest == PlainAll(ps) && rest != [] && s == WireAll(ps, comp) + tail
    ensures |ps| > 0 && |s| > 0
    ensures Taking(s[1..], 1 + s[0] % 128, s[0] >= 128, true, [], pending, ps[1..], tail, comp, rest)
  {
    hide AllLegal, WireAll, PlainAll, Wire, Flat, Taking, Legal, Sized;
    NoPackets();
    AllFirst(ps, comp);
    OnTheWire(ps[0], WireAll(ps[1..], comp), tail, comp);
    match ps[0] {
      case Run(n, v) =>
        pending := [v];
        NextRun(s, n, v, ps[1..], tail, comp);
      case Literal(qs) =>
        pending := qs;
        NextLiteral(s, qs, ps[1..], tail, comp);
    }
  }

  lemma CopyFirst(count: nat, v: Pixel, left: seq<Packet>, rest: seq<Pixel>)
    requires count >= 1 && rest == seq(count, _ => v) + PlainAll(left)
    ensures rest[0] == v && rest[1..] == seq(count - 1, _ => v) + PlainAll(left)
    ensures count == 1 ==> rest[1..] == PlainAll(left)
  {
    hide PlainAll;
  }

  lemma FlatFirst(ps: seq<Pixel>)
    requires |ps| > 0
    ensures Flat(ps) == ps[0] + Flat(ps[1..]) && (|ps| == 1 ==> Flat(ps) == ps[0] && ps[1..] == [])
  {
  }

  lemma LiteralFirst(s: seq<byte>, count: nat, pending: seq<Pixel>, left: seq<Packet>, tail: seq<byte>, comp: nat,
                     rest: seq<Pixel>)
    requires InLiteral(s, count, pending, left, tail, comp, rest) && count >= 1
    ensures |s| >= comp && s[..comp] == rest[0] == pending[0]
    ensures if count == 1 then rest[1..] == PlainAll(left) && s[comp..] == WireAll(left, comp) + tail
            else InLiteral(s[comp..], count - 1, pending[1..], left, tail, comp, rest[1..])
  {
    hide PlainAll, WireAll, Flat, AllLegal;
    var w := WireAll(left, comp) + tail;
    FlatFirst(pending);
    var f := Flat(pending[1..]);
    assert s == pending[0] + (f + w);
    assert s[comp..] == f + w;
    assert rest[1..] == pending[1..] + PlainAll(left);
  }

  /** The pixel to be taken is the next of the image. */
  lemma PixelFirst(s: seq<byte>, count: nat, repeating: bool, read: bool, raw: Pixel, pending: seq<Pixel>,
                   left: seq<Packet>, tail: seq<byte>, comp: nat, rest: seq<Pixel>)
    requires Taking(s, count, repeating, read, raw, pending, left, tail, comp, rest) && rest != []
    ensures if read
            then |s| >= comp && s[..comp] == rest[0] &&
                 Before(s[comp..], count - 1, repeating, rest[0], if repeating then pending else pending[1..],
                        left, tail, comp, rest[1..])
            else raw == rest[0] && Before(s, count - 1, repeating, raw, pending, left, tail, comp, rest[1..])
  {
    hide PlainAll, WireAll, AllLegal, Flat;
    if !read || repeating {
      CopyFirst(count, if read then pending[0] else raw, left, rest);
    } else {
      LiteralFirst(s, count, pending, left, tail, comp, rest);
    }
  }

  // ---- putting the image right --------------------------------------------------------

  /** The w elements from p and the w from q have changed places. */
  ghost predicate Exchanged(a: seq<Pixel>, was: seq<Pixel>, p: nat, q: nat, w: nat)
  {
    && |a| == |was| && p + w <= |a| && q + w <= |a|
    && a[p..p + w] == was[q..q + w] && a[q..q + w] == was[p..p + w]
    && forall m | 0 <= m < |a| && !(p <= m < p + w) && !(q <= m < q + w) :: a[m] == was[m]
  }

  lemma ExchangedNext(now: seq<Pixel>, next: seq<Pixel>, was: seq<Pixel>, p: nat, q: nat, i: nat)
    requires Exchanged(now, was, p, q, i) && p + i < |now| && q + i < |now| && (p + i < q || p == q)
    requires next == now[p + i := now[q + i]][q + i := now[p + i]]
    ensures Exchanged(next, was, p, q, i + 1)
  {
    assert now[p + i] == was[p + i] && now[q + i] == was[q + i];
    SliceGrows(next, now, p, i);
    SliceGrows(next, now, q, i);
    SliceGrows(was, was, p, i);
    SliceGrows(was, was, q, i);
  }

  lemma SliceGrows(a: seq<Pixel>, b: seq<Pixel>, p: nat, i: nat)
    requires p + i < |a| == |b| && a[p..p + i] == b[p..p + i]
    ensures a[p..p + i + 1] == b[p..p + i] + [a[p + i]]
  {
    assert a[p..p + i + 1] == a[p..p + i] + [a[p + i]];
  }

  /** Two rows change places, pixel by pixel; a row with itself stays. */
  method SwapBlocks(a: array<Pixel>, p: nat, q: nat, w: nat)
    requires (p + w <= q || p == q) && q + w <= a.Length
    modifies a
    ensures Exchanged(a[..], old(a[..]), p, q, w)
  {
    ghost var was := a[..];
    var i: nat := 0;
    while i < w
      invariant i <= w && Exchanged(a[..], was, p, q, i)
    {
      ghost var now := a[..];
      var temp := a[p + i];
      a[p + i] := a[q + i];
      a[q + i] := temp;
      ExchangedNext(now, a[..], was, p, q, i);
      i := i + 1;
    }
  }

  lemma ExchangedSized(a: seq<Pixel>, was: seq<Pixel>, p: nat, q: nat, w: nat, comp: nat)
    requires Exchanged(a, was, p, q, w) && Sized(was, comp)
    ensures Sized(a, comp)
  {
    forall i | 0 <= i < |a| ensures |a[i]| == comp {
      if p <= i < p + w {
        assert a[i] == a[p..p + w][i - p] == was[q..q + w][i - p];
      } else if q <= i < q + w {
        assert a[i] == a[q..q + w][i - q] == was[p..p + w][i - q];
      }
    }
  }

  /** The same w elements, wherever the others have gone. */
  lemma Untouched(a: seq<Pixel>, was: seq<Pixel>, p: nat, q: nat, w: nat, at: nat)
    requires Exchanged(a, was, p, q, w) && at + w <= |a|
    requires at + w <= p || p + w <= at
    requires at + w <= q || q + w <= at
    ensures a[at..at + w] == was[at..at + w]
  {
    assert forall m | at <= m < at + w :: a[m] == was[m];
  }

  function Other(r: nat, j: nat, k: nat): nat
  {
    if r == j then k else if r == k then j else r
  }

  lemma RowsFollow(a: seq<Pixel>, was: seq<Pixel>, w: nat, h: nat, j: nat, k: nat, r: nat)
    requires |a| == |was| == Line(h, w) && j <= k < h && r < h
    requires Exchanged(a, was, Line(j, w), Line(k, w), w)
    ensures RowOf(a, w, h, r) == RowOf(was, w, h, Other(r, j, k))
  {
    if r != j && r != k {
      RowsDisjoint(r, j, w);
      RowsDisjoint(r, k, w);
      RowsApart(r, h, w);
      hide Line;
      Untouched(a, was, Line(j, w), Line(k, w), w, Line(r, w));
    }
  }

  lemma RowsDisjoint(r: nat, j: nat, w: nat)
    requires r != j
    ensures Line(r, w) + w <= Line(j, w) || Line(j, w) + w <= Line(r, w)
  {
    if r < j { RowsApart(r, j, w); } else { RowsApart(j, r, w); }
  }

  /** The outer j rows, and the rows across from them, have changed places. */
  ghost predicate HalfInverted(a: seq<Pixel>, was: seq<Pixel>, w: nat, h: nat, j: nat)
    requires |a| == |was| == Line(h, w)
  {
    forall r: nat | r < h ::
      RowOf(a, w, h, r) == RowOf(was, w, h, if r < j || h - 1 - r < j then h - 1 - r else r)
  }

  lemma InvertStep(a: seq<Pixel>, b: seq<Pixel>, was: seq<Pixel>, w: nat, h: nat, j: nat)
    requires |a| == |b| == |was| == Line(h, w) && j <= h - 1 - j < h
    requires HalfInverted(b, was, w, h, j) && Exchanged(a, b, Line(j, w), Line(h - 1 - j, w), w)
    ensures HalfInverted(a, was, w, h, j + 1)
  {
    hide Exchanged, RowOf, Line;
    forall r: nat | r < h
      ensures RowOf(a, w, h, r) == RowOf(was, w, h, if r < j + 1 || h - 1 - r < j + 1 then h - 1 - r else r)
    {
      RowsFollow(a, b, w, h, j, h - 1 - j, r);
    }
  }

  /** Turning the image upside down, in place, a pair of rows at a time. */
  method Invert(tga_data: array<Pixel>, w: nat, h: nat, ghost comp: nat)
    requires tga_data.Length == Line(h, w) && Sized(tga_data[..], comp)
    modifies tga_data
    ensures Sized(tga_data[..], comp)
    ensures forall r: nat | r < h :: RowOf(tga_data[..], w, h, r) == RowOf(old(tga_data[..]), w, h, h - 1 - r)
  {
    ghost var was := tga_data[..];
    var j: nat := 0;
    assert HalfInverted(was, was, w, h, 0);
    hide HalfInverted, RowOf, Exchanged, Line, Sized;
    while j * 2 < h
      invariant j * 2 <= h + 1 && Sized(tga_data[..], comp)
      invariant HalfInverted(tga_data[..], was, w, h, j)
    {
      ghost var before := tga_data[..];
      RowPlaces(w, h, j, h - 1 - j);
      SwapBlocks(tga_data, Line(j, w), Line(h - 1 - j, w), w);
      ExchangedSized(tga_data[..], before, Line(j, w), Line(h - 1 - j, w), w, comp);
      InvertStep(tga_data[..], before, was, w, h, j);
      j := j + 1;
    }
    InvertDone(tga_data[..], was, w, h, j);
  }

  lemma RowPlaces(w: nat, h: nat, j: nat, k: nat)
    requires j <= k < h
    ensures Line(j, w) + w <= Line(k, w) || j == k
    ensures Line(k, w) + w <= Line(h, w)
  {
    RowsApart(k, h, w);
    if j < k { RowsApart(j, k, w); }
  }

  lemma InvertDone(a: seq<Pixel>, was: seq<Pixel>, w: nat, h: nat, j: nat)
    requires |a| == |was| == Line(h, w) && j * 2 >= h && HalfInverted(a, was, w, h, j)
    ensures forall r: nat | r < h :: RowOf(a, w, h, r) == RowOf(was, w, h, h - 1 - r)
  {
    hide RowOf, Line;
  }

  /** The colours the other way round, pixel by pixel. */
  method SwapColours(tga_data: array<Pixel>, comp: nat)
    requires Sized(tga_data[..], comp)
    modifies tga_data
    ensures tga_data[..] == SwappedRow(old(tga_data[..]))
  {
    ghost var was := tga_data[..];
    if comp >= 3 {
      var i: nat := 0;
      while i < tga_data.Length
        invariant i <= tga_data.Length
        invariant forall m | 0 <= m < i :: tga_data[m] == Swapped(was[m])
        invariant forall m | i <= m < tga_data.Length :: tga_data[m] == was[m]
      {
        var tga_pixel := tga_data[i];
        assert |was[i]| == comp;
        var temp := tga_pixel[0];
        tga_pixel := tga_pixel[0 := tga_pixel[2]];
        tga_pixel := tga_pixel[2 := temp];
        tga_data[i] := tga_pixel;
        i := i + 1;
      }
    } else {
      assert forall m | 0 <= m < |was| :: |was[m]| == comp;
    }
  }

  // ---- the round trip -----------------------------------------------------------------

  lemma SwappedRowOf(a: seq<Pixel>, w: nat, h: nat, r: nat)
    requires |a| == Line(h, w) && r < h
    ensures RowOf(SwappedRow(a), w, h, r) == SwappedRow(RowOf(a, w, h, r))
  {
    RowsApart(r, h, w);
    var at := Line(r, w);
    hide Line, Swapped;
  }

  lemma SwappedRowTwice(row: seq<Pixel>)
    ensures SwappedRow(SwappedRow(row)) == row
  {
    hide Swapped;
    forall i | 0 <= i < |row| ensures SwappedRow(SwappedRow(row))[i] == row[i] {
      SwappedTwice(row[i]);
    }
  }

  /** The row that ends up as row r: the writer's order undone and the colours put back. */
  lemma RowRestored(e: seq<Pixel>, image: seq<Pixel>, data: seq<Pixel>, w: nat, h: nat, flip: bool, r: nat)
    requires |e| == |image| == |data| == Line(h, w) && r < h
    requires RowsWritten(e, data, w, h, flip, h)
    requires RowOf(image, w, h, r) == SwappedRow(RowOf(e, w, h, h - 1 - r))
    ensures RowOf(image, w, h, r) == RowOf(data, w, h, if flip then h - 1 - r else r)
  {
    var k := h - 1 - r;
    var row := RowOf(data, w, h, RowWritten(h, flip, k));
    assert RowIs(e, w, k, SwappedRow(row));
    assert RowOf(e, w, h, k) == SwappedRow(row);
    hide RowOf, SwappedRow, RowsWritten, Line;
    SwappedRowTwice(row);
  }

  /** `stbi__tga_load` from the first packet on, for a picture stored from the bottom up or from
      the top down; when the bytes are packets for its pixels, these are the pixels. */
  method ReadImage(s: seq<byte>, w: nat, h: nat, comp: nat, inverted: bool, ghost ps: seq<Packet>,
                   ghost tail: seq<byte>, ghost coded: bool)
    returns (tga_data: array<Pixel>)
    requires coded ==> AllLegal(ps, comp) && s == WireAll(ps, comp) + tail && |PlainAll(ps)| == Line(h, w)
    ensures fresh(tga_data) && tga_data.Length == Line(h, w)
    ensures coded ==> forall r: nat | r < h ::
              RowOf(tga_data[..], w, h, r) == SwappedRow(RowOf(PlainAll(ps), w, h, if inverted then h - 1 - r else r))
  {
    tga_data := new Pixel[Line(h, w)](_ => []);
    hide AllLegal, WireAll, PlainAll, RowOf, SwappedRow, Line, Sized;
    var reader := new Reader(s);
    reader.ReadPixels(Line(h, w), comp, tga_data, ps, tail, coded);
    if inverted {
      Invert(tga_data, w, h, comp);
    }
    ghost var upright := tga_data[..];
    SwapColours(tga_data, comp);
    forall r: nat | r < h
      ensures RowOf(tga_data[..], w, h, r) == SwappedRow(RowOf(upright, w, h, r))
    {
      SwappedRowOf(upright, w, h, r);
    }
  }

  lemma {:induction false} SameRows(a: seq<Pixel>, b: seq<Pixel>, w: nat, h: nat, t: nat)
    requires |a| == |b| == Line(h, w) && t <= h
    requires forall r: nat | r < h :: RowOf(a, w, h, r) == RowOf(b, w, h, r)
    ensures Line(t, w) <= |a| && a[..Line(t, w)] == b[..Line(t, w)]
  {
    if t > 0 {
      var r := t - 1;
      SameRows(a, b, w, h, r);
      RowsApart(r, h, w);
      LineAdd(r, 1, w);
      assert RowOf(a, w, h, r) == RowOf(b, w, h, r);
      assert Line(1, w) == w;
      var at := Line(r, w);
      assert a[at..at + w] == b[at..at + w];
      hide Line, RowOf;
      assert a[..at + w] == a[..at] + a[at..at + w];
      assert b[..at + w] == b[..at] + b[at..at + w];
    }
  }

  /** What is written is read back: the same pixels, or upside down when the writer was
      told to flip. */
  method RoundTrip(data: seq<Pixel>, w: nat, h: nat, comp: nat, flip: bool, tail: seq<byte>)
    returns (tga_data: array<Pixel>)
    requires |data| == Line(h, w) && Sized(data, comp)
    ensures tga_data.Length == Line(h, w)
    ensures forall r: nat | r < h :: RowOf(tga_data[..], w, h, r) == RowOf(data, w, h, if flip then h - 1 - r else r)
    ensures !flip ==> tga_data[..] == data
  {
    hide *;
    var out, ps := WriteImage(data, w, h, comp, flip);
    AllWritten(PlainAll(ps), data, w, h, flip);
    tga_data := ReadImage(out + tail, w, h, comp, true, ps, tail, true);
    forall r: nat | r < h
      ensures RowOf(tga_data[..], w, h, r) == RowOf(data, w, h, if flip then h - 1 - r else r)
    {
      RowRestored(PlainAll(ps), tga_data[..], data, w, h, flip, r);
    }
    if !flip { SameRows(tga_data[..], data, w, h, h); }
  }

  lemma AllWritten(e: seq<Pixel>, data: seq<Pixel>, w: nat, h: nat, flip: bool)
    requires |data| == Line(h, w) && RowsWritten(e, data, w, h, flip, h)
    ensures |e| == Line(h, w)
  {
  }
}
