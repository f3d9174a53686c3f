/** The JPEG writer's entropy coder: bits are gathered in a 24-bit buffer and leave it as
    bytes, with a zero after every FF (ITU-T T.81 section F.1.2.3). */
module JpegWriter {
  import opened BitMath
  import opened Deflate
  import opened JpegBlock
  import opened JpegReader

  function Stuff(c: byte): seq<byte>
  {
    if c == 0xFF then [0xFF, 0] else [c]
  }

  /** The bytes with a zero stuffed after every FF. */
  function Stuffed(d: seq<byte>): seq<byte>
  {
    if |d| == 0 then [] else Stuff(d[0]) + Stuffed(d[1..])
  }

  lemma {:induction false} StuffedConcat(a: seq<byte>, b: seq<byte>)
    ensures Stuffed(a + b) == Stuffed(a) + Stuffed(b)
  {
    if |a| == 0 {
      assert a + b == b;
    } else {
      assert (a + b)[1..] == a[1..] + b;
      StuffedConcat(a[1..], b);
    }
  }

  lemma UnstuffOne(c: byte, t: seq<byte>)
    ensures Data(Stuff(c) + t) == [c] + Data(t)
  {
    if c == 0xFF {
      var s := [0xFF, 0] + t;
      assert s[1..] == [0] + t && s[1..][1..] == t;
      assert SkipFill(s[1..]) == s[1..];
    } else {
      assert ([c] + t)[1..] == t;
    }
  }

  /** A zero byte follows every FF, and nothing else is added. */
  lemma StuffedFirst(d: seq<byte>)
    requires |d| > 0
    ensures Stuffed(d) == Stuff(d[0]) + Stuffed(d[1..])
    ensures Stuff(d[0]) == if d[0] == 0xFF then [0xFF, 0x00] else [d[0]]
  {
  }

  /** The reader takes the stuffing out again. */
  lemma {:induction false} UnstuffStuffed(d: seq<byte>, t: seq<byte>)
    ensures Data(Stuffed(d) + t) == d + Data(t)
  {
    hide Data, SkipFill, Stuff;
    if |d| == 0 {
      assert Stuffed(d) + t == t;
    } else {
      hide Stuffed;
      var rest := Stuffed(d[1..]);
      StuffedFirst(d);
      UnstuffStuffed(d[1..], t);
      UnstuffOne(d[0], rest + t);
      assert (Stuff(d[0]) + rest) + t == Stuff(d[0]) + (rest + t);
      assert [d[0]] + (d[1..] + Data(t)) == d + Data(t);
    }
  }

  /** A marker ends the data. */
  lemma MarkerEnds(m: byte, t: seq<byte>)
    requires 0 < m < 0xFF
    ensures Data([0xFF, m] + t) == []
  {
    assert ([0xFF, m] + t)[1..] == [m] + t;
  }

  lemma {:induction false} MsbConcat(a: seq<byte>, b: seq<byte>)
    ensures Msb(a + b) == Msb(a) + Shl(Msb(b), 8 * |a|)
  {
    hide Rev;
    if |a| == 0 {
      assert a + b == b;
    } else {
      assert (a + b)[1..] == a[1..] + b;
      MsbConcat(a[1..], b);
      ShlShl(Msb(b), 8 * |a[1..]|, 8);
      Shl8(Shl(Msb(b), 8 * |a[1..]|));
    }
  }

  lemma {:induction false} MsbBound(a: seq<byte>)
    ensures Msb(a) < Pow2(8 * |a|)
  {
    if |a| != 0 {
      MsbBound(a[1..]);
      RevBound(a[0], 8);
      assert Pow2(8) == 256;
      ShlShl(1, 8 * |a[1..]|, 8);
      Shl8(Shl(1, 8 * |a[1..]|));
    }
  }

  /** The 24-bit buffer taken from its other end. */
  function Flip24(x: nat): nat
  {
    Rev(x, 24)
  }

  const BUF := 0x100_0000

  lemma BufSize(x: nat) returns (size: nat)
    ensures size == 24 && Pow2(size) == BUF && Flip24(x) == Rev(x, size)
  {
    Pow2Values();
    size := 24;
  }

  class BitWriter {
    var out: seq<byte>
    var bitBuf: nat
    var bitCnt: nat
    /** The data bytes written, before stuffing, and all the fields written. */
    ghost var data: seq<byte>
    ghost var fields: seq<Field>

    constructor ()
      ensures Valid() && fields == [] && data == [] && out == []
    {
      out, bitBuf, bitCnt, data, fields := [], 0, 0, [], [];
      new;
      var size := BufSize(0);
      hide Flip24, Rev;
      RevZero(size);
    }

    ghost predicate Valid()
      reads this
    {
      bitCnt < 8 && Holding(fields) && FieldsFit(fields)
    }

    /** The bytes written and the bits in the buffer are the fields. */
    ghost predicate Holding(fs: seq<Field>)
      reads this
    {
      && bitCnt <= 24 && bitBuf < BUF && Flip24(bitBuf) < Pow2(bitCnt)
      && out == Stuffed(data)
      && BitsOf(fs) == 8 * |data| + bitCnt
      && ValueOf(fs) == Msb(data) + Shl(Flip24(bitBuf), 8 * |data|)
    }

    /** `stbiw__jpg_writeBits`: n bits of v. Only the low 24 bits of the buffer are ever
        looked at, so the model keeps no others. */
    method WriteBits(v: nat, n: nat)
      requires Valid() && n <= 16 && v < Pow2(n)
      modifies this
      ensures Valid() && fields == old(fields) + [MsbField(v, n)]
    {
      hide MsbField, Flip24, Shl, Rev, Shr, Low, Msb, Pow2, BitsOf, ValueOf, Stuffed, FieldsFit;
      fields := fields + [MsbField(v, n)];
      AppendToBuffer(bitBuf, bitCnt, v, n, data, old(fields));
      FieldFits(old(fields), v, n);
      bitCnt := bitCnt + n;
      bitBuf := bitBuf + Shl(v, 24 - bitCnt);
      while bitCnt >= 8
        invariant Holding(fields) && fields == old(fields) + [MsbField(v, n)]
        decreases bitCnt
      {
        EmitByte();
      }
    }

    /** The top byte leaves the buffer, with a zero after it if it is FF. */
    method EmitByte()
      requires bitCnt >= 8 && Holding(fields)
      modifies this
      ensures Holding(fields) && fields == old(fields) && bitCnt == old(bitCnt) - 8
    {
      hide Flip24, Shl, Rev, Shr, Low, Msb, Pow2, BitsOf, ValueOf, Stuffed;
      TakeByte(bitBuf, bitCnt, data);
      var c: byte := Shr(bitBuf, 16);
      out := out + [c];
      if c == 255 {
        out := out + [0];
      }
      StuffedConcat(data, [c]);
      StuffedOne(c);
      data := data + [c];
      bitBuf := Low(Shl(bitBuf, 8), 24);
      bitCnt := bitCnt - 8;
    }

    /** The end of a scan: seven one bits, so that a last part of a byte is completed, and
        the end-of-image marker. */
    method Finish() returns (bytes: seq<byte>)
      requires Valid()
      modifies this
      ensures Valid() && fields == old(fields) + [MsbField(0x7F, 7)]
      ensures bytes == Stuffed(data) + [0xFF, 0xD9] && BitsOf(old(fields)) <= 8 * |data|
    {
      ghost var f := MsbField(0x7F, 7);
      OneField(0, f);
      BitsConcat(fields, [f]);
      SevenBits();
      hide Pow2, Rev, Shl;
      WriteBits(0x7F, 7);
      bytes := out + [0xFF, 0xD9];
    }

    // ---- one block ------------------------------------------------------------------

    method WriteSymbol(ht: CodeTable, sym: nat)
      requires Valid() && sym < 256 && CodesFit(ht, sym)
      modifies this
      ensures Valid() && fields == old(fields) + [SymbolField(ht, sym)]
    {
      WriteBits(ht[sym].0, ht[sym].1);
    }

    method WriteMagnitude(val: int, bits: nat, n: nat)
      requires Valid() && val != 0 && n == Category(val) <= 16 && bits == Magnitude(val) && bits < Pow2(n)
      modifies this
      ensures Valid() && fields == old(fields) + [MagnitudeField(val)]
    {
      WriteBits(bits, n);
    }

    /** The DC difference. */
    method WriteDc(dct: CodeTable, diff: int)
      requires Valid() && Category(diff) <= 11 && forall sym: nat | sym <= 11 :: CodesFit(dct, sym)
      modifies this
      ensures Valid() && fields == old(fields) + DcFields(dct, diff)
    {
      hide CodesFit, SymbolField, MagnitudeField, Category, Magnitude;
      if diff == 0 {
        WriteSymbol(dct, 0);
      } else {
        var bits, n := CalcBits(diff);
        WriteSymbol(dct, n);
        WriteMagnitude(diff, bits, n);
        assert old(fields) + [SymbolField(dct, n)] + [MagnitudeField(diff)] == old(fields) + DcFields(dct, diff);
      }
    }

    /** The entropy-coding part of `stbiw__jpg_processDU`. */
    method ProcessDU(DU: Zigzag, DC: int, dct: CodeTable, act: CodeTable) returns (dc: int)
      requires Valid() && Category(DU[0] - DC) <= 11 && SmallAcs(DU) && TablesFit(dct, act)
      modifies this
      ensures Valid() && dc == DU[0]
      ensures fields == old(fields) + DataUnit(dct, act, DU[0] - DC, DU)
    {
      hide AcFields, DcFields, CodesFit, Category;
      WriteDc(dct, DU[0] - DC);
      WriteAcs(DU, act);
      dc := DU[0];
      Regroup(old(fields), DcFields(dct, DU[0] - DC), AcFields(act, DU, 1));
    }

    method WriteAcs(DU: Zigzag, act: CodeTable)
      requires Valid() && SmallAcs(DU) && forall sym: nat | AcSymbol(sym) :: CodesFit(act, sym)
      modifies this
      ensures Valid() && fields == old(fields) + AcFields(act, DU, 1)
    {
      var end0pos := 63;
      while end0pos > 0 && DU[end0pos] == 0
        invariant 0 <= end0pos <= 63 && forall k: nat | end0pos < k < 64 :: DU[k] == 0
      {
        end0pos := end0pos - 1;
      }
      hide CodesFit, SymbolField, MagnitudeField, Category, Magnitude, AcFields;
      if end0pos == 0 {
        OnlyZeros(act, DU, 1);
        WriteSymbol(act, 0x00);
      } else {
        var i: nat := 1;
        while i <= end0pos
          invariant 1 <= i <= end0pos + 1 && Valid()
          invariant fields + AcFields(act, DU, i) == old(fields) + AcFields(act, DU, 1)
        {
          i := WriteRun(DU, i, end0pos, act);
        }
        if end0pos != 63 {
          OnlyZeros(act, DU, i);
          WriteSymbol(act, 0x00);
        } else {
          NothingLeft(act, DU);
        }
      }
    }

    static lemma TwoMore(fs: seq<Field>, f: Field, g: Field, rest: seq<Field>)
      ensures fs + [f] + [g] + rest == fs + ([f, g] + rest)
    {
    }

    /** A coefficient after fewer than sixteen zeros. */
    method WriteCoefficient(val: int, nrzeroes: nat, act: CodeTable, ghost rest: seq<Field>)
      requires Valid() && val != 0 && nrzeroes < 16 && Category(val) <= 10
      requires AcSymbol(nrzeroes * 16 + Category(val)) && CodesFit(act, nrzeroes * 16 + Category(val))
      modifies this
      ensures Valid()
      ensures fields + rest ==
              old(fields) + ([SymbolField(act, nrzeroes * 16 + Category(val)), MagnitudeField(val)] + rest)
    {
      hide CodesFit, SymbolField, MagnitudeField, Category, Magnitude;
      ghost var f, g := SymbolField(act, nrzeroes * 16 + Category(val)), MagnitudeField(val);
      TwoMore(fields, f, g, rest);
      var bits, n := CalcBits(val);
      WriteSymbol(act, nrzeroes * 16 + n);
      WriteMagnitude(val, bits, n);
    }

    /** Sixteen zeros at a time, as long as there are as many. */
    method WriteZeros(DU: Zigzag, ghost i0: nat, ghost i: nat, nrzeroes: nat, act: CodeTable)
      returns (left: nat, ghost at: nat)
      requires Valid() && SmallAcs(DU) && 1 <= i0 <= i < 64 && nrzeroes == i - i0 == ZeroRun(DU, i0)
      requires CodesFit(act, ZRL)
      modifies this
      ensures Valid() && i0 <= at <= i && left == i - at == ZeroRun(DU, at) && left < 16
      ensures fields + AcFields(act, DU, at) == old(fields) + AcFields(act, DU, i0)
    {
      hide CodesFit, SymbolField, AcFields, ZeroRun;
      at, left := i0, nrzeroes;
      if nrzeroes >= 16 {
        var lng := nrzeroes / 16;
        var nrmarker := 1;
        while nrmarker <= lng
          invariant 1 <= nrmarker <= lng + 1 && Valid()
          invariant at == i0 + 16 * (nrmarker - 1) <= i && ZeroRun(DU, at) == i - at
          invariant fields + AcFields(act, DU, at) == old(fields) + AcFields(act, DU, i0)
        {
          ZerosAt(act, DU, at, i);
          Regroup(fields, [SymbolField(act, ZRL)], AcFields(act, DU, at + 16));
          WriteSymbol(act, 0xF0);
          at := at + 16;
          nrmarker := nrmarker + 1;
        }
        left := nrzeroes % 16;
      }
    }

    static method SkipZeros(DU: Zigzag, i0: nat, end0pos: nat) returns (i: nat)
      requires 1 <= i0 <= end0pos <= 63 && DU[end0pos] != 0
      ensures i0 <= i <= end0pos && ZeroRun(DU, i0) == i - i0
    {
      i := i0;
      while i <= end0pos && DU[i] == 0
        invariant i0 <= i <= end0pos && forall k: nat | i0 <= k < i :: DU[k] == 0
      {
        i := i + 1;
      }
      RunIs(DU, i0, i);
    }

    /** The zeros from position i on and the coefficient after them. */
    method WriteRun(DU: Zigzag, i0: nat, end0pos: nat, act: CodeTable) returns (i: nat)
      requires Valid() && SmallAcs(DU) && 1 <= i0 <= end0pos <= 63 && DU[end0pos] != 0
      requires forall sym: nat | AcSymbol(sym) :: CodesFit(act, sym)
      modifies this
      ensures Valid() && i0 < i <= end0pos + 1
      ensures fields + AcFields(act, DU, i) == old(fields) + AcFields(act, DU, i0)
    {
      hide AcFields, ZeroRun, Category, SymbolField, MagnitudeField, CodesFit;
      i := SkipZeros(DU, i0, end0pos);
      ZerosInUse();
      var nrzeroes, at := WriteZeros(DU, i0, i, i - i0, act);
      ghost var next := i + 1;
      RunAt(act, DU, at, i, nrzeroes, Category(DU[i]));
      hide *;
      WriteCoefficient(DU[i], nrzeroes, act, AcFields(act, DU, next));
      i := i + 1;
    }
  }

  lemma FieldFits(fs: seq<Field>, v: nat, n: nat)
    requires FieldsFit(fs)
    ensures FieldsFit(fs + [MsbField(v, n)])
  {
    RevBound(v, n);
  }

  lemma SevenBits()
    ensures 0x7F < Pow2(7)
  {
  }

  lemma StuffedOne(c: byte)
    ensures Stuffed([c]) == if c == 255 then [c, 0] else [c]
  {
  }

  lemma AppendToBuffer(buf: nat, cnt: nat, v: nat, n: nat, data: seq<byte>, fs: seq<Field>)
    requires buf < BUF && cnt < 8 && n <= 16 && v < Pow2(n) && Flip24(buf) < Pow2(cnt)
    requires BitsOf(fs) == 8 * |data| + cnt && ValueOf(fs) == Msb(data) + Shl(Flip24(buf), 8 * |data|)
    ensures var buf', fs' := buf + Shl(v, 24 - (cnt + n)), fs + [MsbField(v, n)];
            && buf' < BUF && Flip24(buf') < Pow2(cnt + n)
            && BitsOf(fs') == 8 * |data| + (cnt + n)
            && ValueOf(fs') == Msb(data) + Shl(Flip24(buf'), 8 * |data|)
  {
    var f := MsbField(v, n);
    hide *;
    OneField(0, f);
    var w, m := Flip24(buf), 24 - (cnt + n);
    var r := Rev(v, n);
    var x := w + Shl(r, cnt);
    BufferGrows(buf, cnt, v, n, m, w, x);
    BitsConcat(fs, [f]);
    ValueConcat(fs, [f]);
    ShlAdd(w, Shl(r, cnt), 8 * |data|);
    ShlShl(r, cnt, 8 * |data|);
    MsbFieldIs(v, n);
  }

  lemma BufferGrows(buf: nat, cnt: nat, v: nat, n: nat, m: nat, w: nat, x: nat)
    requires buf < BUF && v < Pow2(n) && w == Flip24(buf) < Pow2(cnt) && cnt + n + m == 24
    requires x == w + Shl(Rev(v, n), cnt)
    ensures var buf' := buf + Shl(v, m); buf' < BUF && Flip24(buf') == x < Pow2(cnt + n)
  {
    hide *;
    var size := BufSize(buf);
    RevTwice(buf, size);
    AppendBits(w, cnt, v, n, m, size);
    RevBound(x, size);
    Pow2Mono(cnt + n, size);
    RevTwice(x, size);
    var size1 := BufSize(Rev(x, size));
  }

  lemma MsbFieldIs(v: nat, n: nat)
    ensures MsbField(v, n) == Field(Rev(v, n), n)
  {
  }

  /** A byte leaves the buffer. */
  lemma TakeByte(buf: nat, cnt: nat, data: seq<byte>)
    requires buf < BUF && 8 <= cnt <= 24 && Flip24(buf) < Pow2(cnt)
    ensures var c, buf' := Shr(buf, 16), Low(Shl(buf, 8), 24);
            && c < 256 && buf' < BUF && Flip24(buf') < Pow2(cnt - 8)
            && Msb(data + [c]) + Shl(Flip24(buf'), 8 * |data + [c]|) == Msb(data) + Shl(Flip24(buf), 8 * |data|)
  {
    hide *;
    var eight := ByteSize();
    var x := Flip24(buf);
    var size := BufSize(buf);
    RevTwice(buf, size);
    var size1 := BufSize(x);
    RevTop(x, eight, size);
    RevBound(x, eight);
    var c := Rev(x, eight);
    RevRev(x, eight);
    var y := Shr(x, eight);
    RevBound(buf, size);
    DropBits(x, eight, size);
    Split(Shl(buf, eight), size);
    RevBound(y, size);
    ShrShrink(x, eight);
    RevTwice(y, size);
    var size2 := BufSize(y);
    var size3 := BufSize(Rev(y, size));
    JoinMore(x, 0, cnt, eight);
    ShlZero(cnt);
    MsbConcat(data, [c]);
    MsbOne(c);
    Split(x, eight);
    ShlAdd(Low(x, eight), Shl(y, eight), 8 * |data|);
    ShlShl(y, eight, 8 * |data|);
  }

  lemma MsbOne(c: byte)
    ensures Msb([c]) == Rev(c, 8)
  {
  }

  // ---- one block ----------------------------------------------------------------------

  /** The codes a table gives to the symbols in use have at most 16 bits. */
  ghost predicate CodesFit(ht: CodeTable, sym: nat)
    requires sym < 256
  {
    ht[sym].1 <= 16 && ht[sym].0 < Pow2(ht[sym].1)
  }

  ghost predicate TablesFit(dct: CodeTable, act: CodeTable)
  {
    && (forall sym: nat | sym <= 11 :: CodesFit(dct, sym))
    && forall sym: nat | AcSymbol(sym) :: CodesFit(act, sym)
  }

  /** `stbiw__jpg_calcBits`. */
  method CalcBits(val: int) returns (bits: nat, n: nat)
    ensures if val == 0 then n == 1 && bits == 0 else n == Category(val) && bits == Magnitude(val) && bits < Pow2(n)
  {
    var tmp1 := if val < 0 then -val else val;
    n := 1;
    while tmp1 / 2 != 0
      invariant if val == 0 then tmp1 == 0 && n == 1 else tmp1 > 0 && n + BitsIn(tmp1) == Category(val) + 1
      decreases tmp1
    {
      tmp1 := tmp1 / 2;
      n := n + 1;
    }
    if val != 0 {
      assert BitsIn(tmp1) == 1;
      ExtendMagnitude(val);
    }
    bits := if val < 0 then val - 1 + Pow2(n) else val;
  }

  lemma OnlyZeros(act: CodeTable, DU: Zigzag, i: nat)
    requires SmallAcs(DU) && 1 <= i < 64 && forall k: nat | i <= k < 64 :: DU[k] == 0
    ensures AcFields(act, DU, i) == [SymbolField(act, EOB)] && AcSymbol(EOB)
  {
  }

  lemma NothingLeft(act: CodeTable, DU: Zigzag)
    requires SmallAcs(DU)
    ensures AcFields(act, DU, 64) == []
  {
  }

  lemma {:induction false} RunIs(DU: Zigzag, i: nat, j: nat)
    requires i <= j < 64 && DU[j] != 0 && forall k: nat | i <= k < j :: DU[k] == 0
    ensures ZeroRun(DU, i) == j - i
    decreases j - i
  {
    if i < j {
      RunIs(DU, i + 1, j);
    }
  }

  lemma ZerosAt(act: CodeTable, DU: Zigzag, at: nat, i: nat)
    requires SmallAcs(DU) && 1 <= at <= at + 16 <= i < 64 && ZeroRun(DU, at) == i - at
    ensures AcFields(act, DU, at) == [SymbolField(act, ZRL)] + AcFields(act, DU, at + 16)
    ensures ZeroRun(DU, at + 16) == i - (at + 16) && AcSymbol(ZRL)
  {
    RunIs(DU, at + 16, i);
  }

  lemma RunAt(act: CodeTable, DU: Zigzag, at: nat, i: nat, r: nat, n: nat)
    requires SmallAcs(DU) && 1 <= at <= i < 64 && r == i - at == ZeroRun(DU, at) && r < 16 && n == Category(DU[i])
    ensures DU[i] != 0 && 1 <= n <= 10 && AcSymbol(r * 16 + n)
    ensures AcFields(act, DU, at) ==
            [SymbolField(act, r * 16 + n), MagnitudeField(DU[i])] + AcFields(act, DU, i + 1)
  {
    BitsInBound(Abs(DU[i]));
    assert 1 <= n <= 10;
    hide SmallAcs, Category, BitsIn, MagnitudeField, SymbolField, ZeroRun, Pow2;
    RunIsSymbol(r, n);
    RunFields(act, DU, at, i, r, n);
  }

  lemma RunFields(act: CodeTable, DU: Zigzag, at: nat, i: nat, r: nat, n: nat)
    requires SmallAcs(DU) && 1 <= at <= i < 64 && i == at + r && r == ZeroRun(DU, at) && r < 16
    requires n == Category(DU[i]) && r * 16 + n < 256
    ensures DU[i] != 0
    ensures AcFields(act, DU, at) ==
            [SymbolField(act, r * 16 + n), MagnitudeField(DU[i])] + AcFields(act, DU, i + 1)
  {
    hide SmallAcs, Category, MagnitudeField, SymbolField, ZeroRun;
  }

  lemma ZerosInUse()
    ensures AcSymbol(ZRL)
  {
  }

  lemma RunIsSymbol(r: nat, s: nat)
    requires r < 16 && 1 <= s <= 10
    ensures AcSymbol(r * 16 + s)
  {
  }
}
