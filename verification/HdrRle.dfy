/** Run-length coding of a Radiance HDR scanline, one plane after the other. */
module HdrRle {
  import opened BitMath

  /** A run of one byte, or bytes as they are. */
  datatype Packet = Run(n: nat, v: byte) | Dump(data: seq<byte>)

  predicate Legal(p: Packet)
  {
    match p case Run(n, _) => 1 <= n <= 127 case Dump(data) => 1 <= |data| <= 128
  }

  function Wire(p: Packet): seq<byte>
    requires Legal(p)
  {
    match p case Run(n, v) => [n + 128, v] case Dump(data) => [|data|] + data
  }

  function Plain(p: Packet): seq<byte>
  {
    match p case Run(n, v) => seq(n, _ => v) case Dump(data) => data
  }

  ghost predicate AllLegal(ps: seq<Packet>)
  {
    forall i | 0 <= i < |ps| :: Legal(ps[i])
  }

  function WireAll(ps: seq<Packet>): seq<byte>
    requires AllLegal(ps)
  {
    if |ps| == 0 then [] else Wire(ps[0]) + WireAll(ps[1..])
  }

  function PlainAll(ps: seq<Packet>): seq<byte>
  {
    if |ps| == 0 then [] else Plain(ps[0]) + PlainAll(ps[1..])
  }

  lemma AllFirst(ps: seq<Packet>)
    requires AllLegal(ps) && |ps| > 0
    ensures WireAll(ps) == Wire(ps[0]) + WireAll(ps[1..]) && PlainAll(ps) == Plain(ps[0]) + PlainAll(ps[1..])
  {
    hide Wire, Plain, Legal;
  }

  lemma {:induction false} AllGrow(ps: seq<Packet>, p: Packet)
    requires AllLegal(ps) && Legal(p)
    ensures AllLegal(ps + [p])
    ensures WireAll(ps + [p]) == WireAll(ps) + Wire(p) && PlainAll(ps + [p]) == PlainAll(ps) + Plain(p)
  {
    hide Wire, Plain, Legal;
    if |ps| == 0 {
      assert ps + [p] == [p] && [p][1..] == [];
    } else {
      assert (ps + [p])[1..] == ps[1..] + [p] && (ps + [p])[0] == ps[0];
      AllGrow(ps[1..], p);
      hide WireAll, PlainAll;
      assert WireAll(ps + [p]) == Wire(ps[0]) + (WireAll(ps[1..]) + Wire(p)) by { AllFirst(ps + [p]); }
      assert PlainAll(ps + [p]) == Plain(ps[0]) + (PlainAll(ps[1..]) + Plain(p)) by { AllFirst(ps + [p]); }
      AllFirst(ps);
    }
  }

  // ---- the writer ---------------------------------------------------------------------

  /** What has been written of a plane: legal packets, in all its first x bytes. */
  ghost predicate Written(out: seq<byte>, ps: seq<Packet>, comp: seq<byte>, x: nat)
  {
    x <= |comp| && AllLegal(ps) && out == WireAll(ps) && PlainAll(ps) == comp[..x]
  }

  /** `stbiw__write_run_data`. The assertion always holds. */
  method WriteRun(out0: seq<byte>, length: nat, databyte: byte, ghost ps0: seq<Packet>, ghost comp: seq<byte>,
                  ghost x: nat)
    returns (out: seq<byte>, ghost ps: seq<Packet>)
    requires Written(out0, ps0, comp, x) && 1 <= length <= 127 && x + length <= |comp|
    requires forall i | x <= i < x + length :: comp[i] == databyte
    ensures Written(out, ps, comp, x + length)
  {
    assert length + 128 <= 255;
    out := out0 + [length + 128, databyte];
    ghost var p := Run(length, databyte);
    AllGrow(ps0, p);
    ps := ps0 + [p];
    assert comp[..x + length] == comp[..x] + Plain(p);
  }

  /** `stbiw__write_dump_data`. */
  method WriteDump(out0: seq<byte>, length: nat, data: seq<byte>, ghost ps0: seq<Packet>, ghost comp: seq<byte>,
                   ghost x: nat)
    returns (out: seq<byte>, ghost ps: seq<Packet>)
    requires Written(out0, ps0, comp, x) && 1 <= length <= 128 && x + length <= |comp| && data == comp[x..x + length]
    ensures Written(out, ps, comp, x + length)
  {
    hide WireAll, PlainAll;
    assert length <= 128;
    out := out0 + [length] + data;
    ghost var p := Dump(data);
    AllGrow(ps0, p);
    ps := ps0 + [p];
    assert comp[..x + length] == comp[..x] + data;
    assert out0 + [length] + data == out0 + ([length] + data);
  }

  /** The first place from x on where three equal bytes begin, or the end. */
  method FindRun(comp: seq<byte>, x: nat) returns (r: nat)
    requires x <= |comp|
    ensures x <= r <= |comp|
    ensures r + 2 < |comp| ==> comp[r] == comp[r + 1] == comp[r + 2]
    ensures r + 2 >= |comp| ==> r == |comp|
    ensures forall i: nat | x <= i < r && i + 2 < |comp| :: !(comp[i] == comp[i + 1] == comp[i + 2])
  {
    r := x;
    while r + 2 < |comp| && !(comp[r] == comp[r + 1] && comp[r] == comp[r + 2])
      invariant x <= r <= |comp|
      invariant forall i: nat | x <= i < r && i + 2 < |comp| :: !(comp[i] == comp[i + 1] == comp[i + 2])
    {
      r := r + 1;
    }
    if r + 2 >= |comp| {
      r := |comp|;
    }
  }

  /** One plane of `stbiw__write_hdr_scanline`. */
  method WritePlane(comp: seq<byte>) returns (out: seq<byte>, ghost ps: seq<Packet>)
    ensures AllLegal(ps) && out == WireAll(ps) && PlainAll(ps) == comp
    ensures PlaneCoded(out, comp)
  {
    hide *;
    var width := |comp|;
    var x: nat := 0;
    out, ps := [], [];
    NothingWritten(comp);
    while x < width
      invariant x <= width && Written(out, ps, comp, x)
    {
      var r := FindRun(comp, x);
      while x < r
        invariant x <= r <= width && Written(out, ps, comp, x)
      {
        var len := r - x;
        if len > 128 { len := 128; }
        out, ps := WriteDump(out, len, comp[x..x + len], ps, comp, x);
        x := x + len;
      }
      if r + 2 < width {
        ghost var start := x;
        while r < width && comp[r] == comp[x]
          invariant x <= r <= width && forall i | x <= i < r :: comp[i] == comp[x]
        {
          r := r + 1;
        }
        ghost var v := comp[x];
        while x < r
          invariant start <= x <= r <= width && Written(out, ps, comp, x)
          invariant forall i | start <= i < r :: comp[i] == v
        {
          var len := r - x;
          if len > 127 { len := 127; }
          out, ps := WriteRun(out, len, comp[x], ps, comp, x);
          x := x + len;
        }
      }
    }
    Finished(out, ps, comp);
  }

  lemma NothingWritten(comp: seq<byte>)
    ensures Written([], [], comp, 0)
  {
  }

  /** Some legal packets hold exactly this plane. */
  ghost predicate PlaneCoded(out: seq<byte>, comp: seq<byte>)
  {
    exists ps :: AllLegal(ps) && out == WireAll(ps) && PlainAll(ps) == comp
  }

  lemma Finished(out: seq<byte>, ps: seq<Packet>, comp: seq<byte>)
    requires Written(out, ps, comp, |comp|)
    ensures AllLegal(ps) && out == WireAll(ps) && PlainAll(ps) == comp && PlaneCoded(out, comp)
  {
    assert comp[..|comp|] == comp;
  }

  /** A scanline of four planes, each `width` bytes: a header and the planes in turn. */
  method WriteScanline(width: nat, planes: seq<seq<byte>>) returns (out: seq<byte>, ghost pss: seq<seq<Packet>>)
    requires 8 <= width < 32768 && |planes| == 4 && forall c | 0 <= c < 4 :: |planes[c]| == width
    ensures Planes(pss, planes) && out == [2, 2, width / 256, width % 256] + Chain(pss)
    ensures ScanlineCoded(out, width, planes)
  {
    hide WireAll, PlainAll, AllLegal, Chain;
    out, pss := [2, 2, width / 256, width % 256], [];
    ghost var head := out;
    var c: nat := 0;
    NoPlanes();
    assert out == head + Chain(pss);
    while c < 4
      invariant c <= 4 && |pss| == c && forall k | 0 <= k < c :: AllLegal(pss[k]) && PlainAll(pss[k]) == planes[k]
      invariant out == head + Chain(pss)
    {
      var plane, ps := WritePlane(planes[c]);
      ChainGrows(pss, ps);
      Regroup(head, Chain(pss), plane);
      out := out + plane;
      pss := pss + [ps];
      c := c + 1;
    }
  }

  lemma NoPlanes()
    ensures Chain([]) == []
  {
  }

  ghost predicate Planes(pss: seq<seq<Packet>>, planes: seq<seq<byte>>)
  {
    |pss| == |planes| == 4 && forall k | 0 <= k < 4 :: AllLegal(pss[k]) && PlainAll(pss[k]) == planes[k]
  }

  /** A header and four planes, each in packets. */
  ghost predicate ScanlineCoded(out: seq<byte>, width: nat, planes: seq<seq<byte>>)
    requires width < 65536
  {
    exists pss :: Planes(pss, planes) && out == [2, 2, width / 256, width % 256] + Chain(pss)
  }

  ghost function Chain(pss: seq<seq<Packet>>): seq<byte>
    requires forall k | 0 <= k < |pss| :: AllLegal(pss[k])
  {
    if |pss| == 0 then [] else WireAll(pss[0]) + Chain(pss[1..])
  }

  lemma {:induction false} ChainGrows(pss: seq<seq<Packet>>, ps: seq<Packet>)
    requires (forall k | 0 <= k < |pss| :: AllLegal(pss[k])) && AllLegal(ps)
    ensures Chain(pss + [ps]) == Chain(pss) + WireAll(ps)
  {
    hide WireAll, AllLegal;
    if |pss| == 0 {
      assert pss + [ps] == [ps] && [ps][1..] == [];
      assert Chain([]) == [];
    } else {
      assert (pss + [ps])[1..] == pss[1..] + [ps];
      ChainGrows(pss[1..], ps);
    }
  }

  // ---- the reader ---------------------------------------------------------------------

  datatype Status = Decoded | Flat | Corrupt

  class Reader {
    var s: seq<byte>

    constructor (s: seq<byte>)
      ensures this.s == s
    {
      this.s := s;
    }

    method Get8() returns (b: byte)
      modifies this
      ensures if old(s) == [] then b == 0 && s == [] else b == old(s)[0] && s == old(s)[1..]
    {
      if s == [] {
        b := 0;
      } else {
        b := s[0];
        s := s[1..];
      }
    }

    /** `count` copies of one byte, into component k of the scanline from pixel i0 on. */
    method FillRun(width: nat, i0: nat, scanline: array<byte>, k: nat, count: nat, value: byte)
      requires scanline.Length == 4 * width && k < 4 && i0 + count <= width
      modifies scanline
      ensures Placed(scanline[..], k, i0, seq(count, _ => value))
      ensures Others(scanline[..], old(scanline[..]), k, i0)
    {
      ghost var d: seq<byte> := seq(count, _ => value);
      var z, i := 0, i0;
      while z < count
        invariant 0 <= z <= count && i == i0 + z
        invariant Placed(scanline[..], k, i0, d[..z])
        invariant Others(scanline[..], old(scanline[..]), k, i0)
      {
        scanline[i * 4 + k] := value;
        i := i + 1;
        z := z + 1;
      }
      assert d[..z] == d;
    }

    /** `count` bytes of the stream. */
    method FillDump(width: nat, i0: nat, scanline: array<byte>, k: nat, count: nat)
      requires scanline.Length == 4 * width && k < 4 && i0 + count <= width
      modifies this, scanline
      ensures |old(s)| >= count ==> s == old(s)[count..] && Placed(scanline[..], k, i0, old(s)[..count])
      ensures Others(scanline[..], old(scanline[..]), k, i0)
    {
      var z, i := 0, i0;
      while z < count
        invariant 0 <= z <= count && i == i0 + z
        invariant |old(s)| >= count ==> s == old(s)[z..]
        invariant |old(s)| >= count ==> Placed(scanline[..], k, i0, old(s)[..z])
        invariant Others(scanline[..], old(scanline[..]), k, i0)
      {
        var b := Get8();
        scanline[i * 4 + k] := b;
        i := i + 1;
        z := z + 1;
      }
    }

    /** One packet into component k of the scanline, from pixel i0 on: an error exactly if it
        is empty or longer than what is left. */
    method ReadPacket(width: nat, i0: nat, scanline: array<byte>, k: nat, ghost p: Packet, ghost tail: seq<byte>,
                      ghost coded: bool) returns (ok: bool, i: nat)
      requires scanline.Length == 4 * width && k < 4 && i0 < width
      requires coded ==> Legal(p) && s == Wire(p) + tail && |Plain(p)| <= width - i0
      modifies this, scanline
      ensures ok <==> 0 < CountIn(old(s)) <= width - i0
      ensures i == i0 + if ok then CountIn(old(s)) else 0
      ensures coded ==> ok && s == tail && i == i0 + |Plain(p)|
      ensures coded ==> Placed(scanline[..], k, i0, Plain(p))
      ensures Others(scanline[..], old(scanline[..]), k, i0)
    {
      hide Others, Placed;
      assert Others(scanline[..], scanline[..], k, i0) by { OthersSame(scanline[..], k, i0); }
      if coded { OnTheWire(p, tail); }
      var nleft := width - i0;
      i := i0;
      var count: nat := Get8();
      if count > 128 {
        var value := Get8();
        count := count - 128;
        ok := !(count == 0 || count > nleft);
        if ok {
          FillRun(width, i0, scanline, k, count, value);
          i := i + count;
        }
      } else {
        ok := !(count == 0 || count > nleft);
        if ok {
          FillDump(width, i0, scanline, k, count);
          i := i + count;
        }
      }
    }

    /** Component k of the scanline. A plane that was written is restored, without error. */
    method ReadPlane(width: nat, scanline: array<byte>, k: nat, ghost ps: seq<Packet>, ghost tail: seq<byte>,
                     ghost coded: bool) returns (ok: bool)
      requires scanline.Length == 4 * width && k < 4
      requires coded ==> AllLegal(ps) && s == WireAll(ps) + tail && |PlainAll(ps)| == width
      modifies this, scanline
      ensures coded ==> ok && s == tail && Placed(scanline[..], k, 0, PlainAll(ps))
      ensures Others(scanline[..], old(scanline[..]), k, 0)
    {
      hide *;
      var i: nat := 0;
      ok := true;
      ghost var left := ps;
      ghost var plane := PlainAll(ps);
      OthersSame(scanline[..], k, 0);
      NothingPlaced(scanline[..], k, plane);
      while i < width && ok
        invariant i <= width && Others(scanline[..], old(scanline[..]), k, 0)
        invariant coded ==> ok && AllLegal(left) && s == WireAll(left) + tail
        invariant coded ==> |plane| == width && PlainAll(left) == plane[i..] && Placed(scanline[..], k, 0, plane[..i])
        decreases width - i, ok
      {
        ghost var before, p, rest := scanline[..], Run(1, 0), tail;
        var i0 := i;
        if coded {
          NextPacket(left, plane, i, tail);
          p, rest := left[0], WireAll(left[1..]) + tail;
          left := left[1..];
        }
        ok, i := ReadPacket(width, i, scanline, k, p, rest, coded);
        OthersStep(scanline[..], before, old(scanline[..]), k, i0);
        if coded { PlacedStep(scanline[..], before, k, i0, plane, Plain(p)); }
        if !ok { i := i0; }
      }
      if coded { NothingAfter(left, tail); assert plane[..i] == plane; }
    }

    /** The header of a scanline: without it the data is not run-length coded. */
    method ReadHeader(width: nat, ghost rest: seq<byte>, ghost coded: bool) returns (status: Status)
      requires coded ==> 8 <= width < 32768 && s == [2, 2, width / 256, width % 256] + rest
      modifies this
      ensures coded ==> status == Decoded && s == rest
    {
      if coded { HeaderFirst(s, width, rest); }
      var c1 := Get8();
      var c2 := Get8();
      var hi := Get8();
      if c1 != 2 || c2 != 2 || hi >= 128 {
        return Flat;
      }
      var lo := Get8();
      status := if hi * 256 + lo as int != width then Corrupt else Decoded;
    }

    method ReadPlanes(width: nat, scanline: array<byte>, ghost planes: seq<seq<byte>>, ghost pss: seq<seq<Packet>>,
                      ghost tail: seq<byte>, ghost coded: bool) returns (ok: bool)
      requires scanline.Length == 4 * width
      requires coded ==> Planes(pss, planes) && forall c | 0 <= c < 4 :: |planes[c]| == width
      requires coded ==> s == Chain(pss) + tail
      modifies this, scanline
      ensures coded ==> ok && s == tail && forall c: nat | c < 4 :: Placed(scanline[..], c, 0, planes[c])
    {
      hide Placed, Others, WireAll, PlainAll, AllLegal, Chain;
      var k: nat := 0;
      ok := true;
      ghost var left := pss;
      while k < 4 && ok
        invariant k <= 4
        invariant coded ==> ok && left == pss[k..] && s == Chain(left) + tail
        invariant coded ==> forall c: nat | c < k :: Placed(scanline[..], c, 0, planes[c])
        decreases 4 - k, ok
      {
        ghost var before, ps, rest := scanline[..], [], tail;
        if coded {
          NextPlane(left, tail);
          ps, rest := left[0], Chain(left[1..]) + tail;
          left := left[1..];
        }
        ok := ReadPlane(width, scanline, k, ps, rest, coded);
        if coded {
          forall c: nat | c < k ensures Placed(scanline[..], c, 0, planes[c]) {
            PlacedStays(scanline[..], before, k, c, planes[c]);
          }
        }
        if ok { k := k + 1; }
      }
      if coded { NoMorePlanes(left, tail); }
    }

    /** The scanline of four planes. */
    method ReadScanline(width: nat, scanline: array<byte>, ghost planes: seq<seq<byte>>, ghost pss: seq<seq<Packet>>,
                        ghost tail: seq<byte>, ghost coded: bool) returns (status: Status)
      requires scanline.Length == 4 * width
      requires coded ==> 8 <= width < 32768 && Planes(pss, planes) && forall c | 0 <= c < 4 :: |planes[c]| == width
      requires coded ==> s == [2, 2, width / 256, width % 256] + (Chain(pss) + tail)
      modifies this, scanline
      ensures coded ==> status == Decoded && s == tail
      ensures coded ==> forall c: nat | c < 4 :: Placed(scanline[..], c, 0, planes[c])
    {
      hide Placed, Chain;
      status := ReadHeader(width, if coded then Chain(pss) + tail else [], coded);
      if status == Decoded {
        var ok := ReadPlanes(width, scanline, planes, pss, tail, coded);
        status := if ok then Decoded else Corrupt;
      }
    }
  }

  /** How many bytes the next packet stands for, by its first byte. */
  function CountIn(s: seq<byte>): nat
  {
    if s == [] then 0 else if s[0] > 128 then s[0] - 128 else s[0]
  }

  lemma NextPacket(ps: seq<Packet>, plane: seq<byte>, i: nat, tail: seq<byte>)
    requires AllLegal(ps) && i < |plane| && PlainAll(ps) == plane[i..]
    ensures |ps| > 0 && Legal(ps[0]) && AllLegal(ps[1..])
    ensures WireAll(ps) + tail == Wire(ps[0]) + (WireAll(ps[1..]) + tail)
    ensures |Plain(ps[0])| <= |plane| - i && plane[i..i + |Plain(ps[0])|] == Plain(ps[0])
    ensures PlainAll(ps[1..]) == plane[i + |Plain(ps[0])|..]
  {
    var a, b := Plain(ps[0]), PlainAll(ps[1..]);
    assert plane[i..] == a + b;
    assert plane[i..][..|a|] == a && plane[i..][|a|..] == b;
    hide Wire, Plain;
  }

  lemma NothingAfter(ps: seq<Packet>, tail: seq<byte>)
    requires AllLegal(ps) && PlainAll(ps) == []
    ensures WireAll(ps) + tail == tail
  {
    assert |ps| == 0 by {
      if |ps| > 0 {
        PlainNonempty(ps);
        assert false;
      }
    }
  }

  lemma PlainNonempty(ps: seq<Packet>)
    requires AllLegal(ps) && |ps| > 0
    ensures PlainAll(ps) != []
  {
    assert Legal(ps[0]);
  }

  lemma OthersStep(a: seq<byte>, b: seq<byte>, c: seq<byte>, k: nat, i: nat)
    requires Others(a, b, k, i) && Others(b, c, k, 0)
    ensures Others(a, c, k, 0)
  {
  }

  lemma PlacedStep(a: seq<byte>, b: seq<byte>, k: nat, i: nat, plane: seq<byte>, d: seq<byte>)
    requires i + |d| <= |plane| && plane[i..i + |d|] == d
    requires Placed(b, k, 0, plane[..i]) && Others(a, b, k, i) && Placed(a, k, i, d)
    ensures Placed(a, k, 0, plane[..i + |d|])
  {
    var e := plane[..i + |d|];
    forall j: nat | j < |e| ensures PixelIs(a, k, 0 + j, e[j]) {
      if j < i {
        assert PixelIs(b, k, 0 + j, plane[..i][j]);
      } else {
        assert PixelIs(a, k, i + (j - i), d[j - i]);
      }
    }
  }

  lemma PlacedStays(a: seq<byte>, b: seq<byte>, k: nat, c: nat, d: seq<byte>)
    requires c != k && Others(a, b, k, 0) && Placed(b, c, 0, d)
    ensures Placed(a, c, 0, d)
  {
    forall j: nat | j < |d| ensures PixelIs(a, c, 0 + j, d[j]) {
      assert PixelIs(b, c, 0 + j, d[j]);
    }
  }

  lemma NextPlane(pss: seq<seq<Packet>>, tail: seq<byte>)
    requires |pss| > 0 && forall k | 0 <= k < |pss| :: AllLegal(pss[k])
    ensures Chain(pss) + tail == WireAll(pss[0]) + (Chain(pss[1..]) + tail)
  {
    hide WireAll, AllLegal;
  }

  lemma NoMorePlanes(pss: seq<seq<Packet>>, tail: seq<byte>)
    requires pss == []
    ensures Chain(pss) + tail == tail
  {
  }

  lemma HeaderFirst(s: seq<byte>, width: nat, rest: seq<byte>)
    requires width < 32768 && s == [2, 2, width / 256, width % 256] + rest
    ensures |s| >= 4 && s[0] == 2 && s[1..][0] == 2 && s[1..][1..][0] == width / 256 < 128
    ensures s[1..][1..][1..][0] == width % 256 && s[1..][1..][1..][1..] == rest
  {
  }

  /** Reading a written scanline back restores every plane, and reaches no error. */
  method RoundTrip(width: nat, planes: seq<seq<byte>>) returns (scanline: array<byte>, status: Status)
    requires 8 <= width < 32768 && |planes| == 4 && forall c | 0 <= c < 4 :: |planes[c]| == width
    ensures status == Decoded && scanline.Length == 4 * width
    ensures forall c: nat, i: nat | c < 4 && i < width :: scanline[4 * i + c] == planes[c][i]
  {
    var out, pss := WriteScanline(width, planes);
    var reader := new Reader(out);
    scanline := new byte[4 * width](_ => 0);
    hide Chain, WireAll, PlainAll, AllLegal, Placed;
    assert Chain(pss) + [] == Chain(pss);
    status := reader.ReadScanline(width, scanline, planes, pss, [], true);
    forall c: nat, i: nat | c < 4 && i < width ensures scanline[4 * i + c] == planes[c][i] {
      PlacedAt(scanline[..], c, planes[c], i);
    }
  }

  lemma PlacedAt(a: seq<byte>, c: nat, d: seq<byte>, i: nat)
    requires Placed(a, c, 0, d) && i < |d|
    ensures 4 * i + c < |a| && a[4 * i + c] == d[i]
  {
    assert PixelIs(a, c, 0 + i, d[i]);
  }

  lemma OnTheWire(p: Packet, tail: seq<byte>)
    requires Legal(p)
    ensures var s := Wire(p) + tail;
            match p
            case Run(n, v) => s[0] == n + 128 && s[1..][0] == v && s[1..][1..] == tail && Plain(p) == seq(n, _ => v)
            case Dump(d) =>
              && s[0] == |d| && |s[1..]| >= |d| && s[1..][..|d|] == d && s[1..][|d|..] == tail && Plain(p) == d
  {
    match p {
      case Run(n, v) =>
      case Dump(d) =>
        assert Wire(p) + tail == [|d|] + (d + tail);
        assert (Wire(p) + tail)[1..] == d + tail;
    }
  }

  /** Component k of the pixels from i0 on is d. */
  ghost predicate Placed(a: seq<byte>, k: nat, i0: nat, d: seq<byte>)
  {
    k < 4 && 4 * (i0 + |d|) <= |a| && forall j: nat | j < |d| :: PixelIs(a, k, i0 + j, d[j])
  }

  predicate PixelIs(a: seq<byte>, k: nat, i: nat, v: byte)
  {
    4 * i + k < |a| && a[4 * i + k] == v
  }

  /** The other components, and the pixels before i0, are unchanged. */
  ghost predicate Others(a: seq<byte>, b: seq<byte>, k: nat, i0: nat)
  {
    |a| == |b| && forall m: nat | m < |a| && (m % 4 != k || m < 4 * i0) :: a[m] == b[m]
  }

  lemma NothingPlaced(a: seq<byte>, k: nat, plane: seq<byte>)
    requires k < 4
    ensures Placed(a, k, 0, plane[..0])
  {
  }

  lemma OthersSame(a: seq<byte>, k: nat, i0: nat)
    ensures Others(a, a, k, i0)
  {
  }
}
