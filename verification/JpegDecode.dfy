/** `stbi__jpeg_decode_block`: one block of coefficients, dequantised and put in place. On every bit
    stream it finds what the bits mean, although it takes short symbols and their magnitudes in one
    look. */
module JpegDecode {
  import opened BitMath
  import opened Canonical
  import opened JpegHuffman
  import opened JpegLookup
  import opened JpegFastAc
  import opened JpegBlock
  import opened JpegMeaning
  import opened JpegReader

  /** `stbi__addints_valid`. */
  predicate AddintsValid(a: int, b: int)
  {
    if (a >= 0) != (b >= 0) then true
    else if a < 0 && b < 0 then a >= -0x8000_0000 - b
    else a <= 0x7FFF_FFFF - b
  }

  /** C's division, which truncates. */
  function TruncDiv(x: int, y: int): int
    requires y != 0
  {
    if (x >= 0) == (y >= 0) then Abs(x) / Abs(y) else -(Abs(x) / Abs(y))
  }

  /** `stbi__mul2shorts_valid`. */
  predicate Mul2shortsValid(a: int, b: int)
  {
    if b == 0 || b == -1 then true
    else if (a >= 0) == (b >= 0) then a <= TruncDiv(0x7FFF, b)
    else if b < 0 then a <= TruncDiv(-0x8000, b)
    else a >= TruncDiv(-0x8000, b)
  }

  lemma AddintsExact(a: int, b: int)
    requires -0x8000_0000 <= a <= 0x7FFF_FFFF && -0x8000_0000 <= b <= 0x7FFF_FFFF
    ensures AddintsValid(a, b) <==> -0x8000_0000 <= a + b <= 0x7FFF_FFFF
  {
  }

  lemma QuotientBound(a: nat, b: nat, m: nat)
    requires b > 0
    ensures a <= m / b <==> a * b <= m
  {
    var q := m / b;
    assert q * b <= m < q * b + b;
    if a <= q {
      assert q * b == a * b + (q - a) * b;
    } else {
      assert a * b == q * b + b + (a - q - 1) * b;
    }
  }

  /** The check is exact for factors that are not negative, as dequantisers are. For others
      it need not be: minus one always passes, and of two negative factors the comparison is
      the wrong way round. */
  lemma Mul2shortsExact(a: int, b: int)
    ensures b >= 0 ==> (Mul2shortsValid(a, b) <==> -0x8000 <= a * b <= 0x7FFF)
    ensures (Mul2shortsValid(a, b) <==> -0x8000 <= a * b <= 0x7FFF) <==>
              b >= 0 || (b == -1 && -0x7FFF <= a <= 0x8000) || (b < -1 && (a >= 0 || a == -(0x7FFF / -b)))
  {
    var m, n := Abs(a), Abs(b);
    ProductSign(a, b);
    if b != 0 {
      QuotientBound(m, n, 0x7FFF);
      QuotientBound(m, n, 0x8000);
    }
  }

  lemma ProductSign(a: int, b: int)
    ensures Abs(a) * Abs(b) >= 0
    ensures a * b == if (a >= 0) == (b >= 0) then Abs(a) * Abs(b) else -(Abs(a) * Abs(b))
  {
  }

  /** Such a pair: 40000 is no short, and 2 is one. */
  lemma Mul2shortsWrong()
    ensures Mul2shortsValid(-20000, -2) && -20000 * -2 > 0x7FFF
    ensures !Mul2shortsValid(-1, -2) && -0x8000 <= -1 * -2 <= 0x7FFF
  {
  }

  // ---- AC coefficients ----------------------------------------------------------------

  /** The entry of the combined table is the next step. */
  lemma FastStep(c: Counts, values: seq<byte>, dequant: seq<nat>, v: nat, k: nat, data: seq<int>, e: int)
    requires Fits(c) && Total(c) <= |values| == 256 && |data| == |dequant| == 64 && 1 <= k < 64
    requires e == Entry(c, values, Rev(v, FAST_BITS)) && e != 0
    ensures var q := k + e / 16 % 16;
            AcStep(c, values, dequant, v, k, data) ==
            Go(q + 1, Put(data, q, e / 256, dequant), Shr(v, e % 16), e % 16)
  {
    hide Fits, Entry, Starts, Shr, Rev, Extend, Put, Lookup, Total;
    var j, n := FastAcAgrees(c, values, v, e);
    FoundIs(c, v, j, n);
    ShrShr(v, n, values[j] % 16);
  }

  /** The nine bits on top of the buffer index the table. */
  lemma TopNine(s: JpegStream)
    requires s.Valid() && (s.code_bits >= 9 || s.Ahead() == [])
    ensures Shr(s.code_buffer, 23) == Rev(s.Rest(), FAST_BITS) < FAST_SIZE
  {
    hide Rev, Shr, Flip, Msb, Data, Shl, Pow2;
    s.Peek(9, 23);
    RevBound(s.Rest(), 9);
    Pow2Values();
  }

  ghost predicate Ready(s: JpegStream, data: array<int>, h: Huffman, c: Counts, fac: array<int>)
    reads s, h.Repr, fac
  {
    && s.Valid() && data.Length == 64 && h.Holds(c) && s !in h.Repr && data !in h.Repr
    && fac.Length == FAST_SIZE && fac != data
    && forall w: nat | w < FAST_SIZE :: fac[w] == Entry(c, h.values[..], w)
  }

  /** The decoder took the step, if its bits were sure. */
  ghost predicate Took(st: Step, sure: nat, was: seq<int>, s: JpegStream, ok: bool, more: bool, k: nat, data: seq<int>)
    reads s
  {
    && (ok ==> s.Valid())
    && (st.Wrong? ==> !ok)
    && (!st.Wrong? && st.used <= sure ==>
          && ok && s.Rest() == st.v && s.Left() >= sure - st.used && (more <==> st.Go?)
          && if st.Go? then k == st.k && data == st.data else data == was)
  }

  /** One AC symbol by the combined table. */
  method FastCoefficient(s: JpegStream, data: array<int>, h: Huffman, ghost c: Counts, fac: array<int>,
                         dequant: seq<nat>, e: int, k0: nat, ghost sure: nat)
    returns (ok: bool, k: nat)
    requires Ready(s, data, h, c, fac) && |dequant| == 64 && 1 <= k0 < 64 && s.Left() >= sure
    requires e == Entry(c, h.values[..], Rev(s.Rest(), FAST_BITS)) && e != 0
    requires s.code_bits >= 16 || s.Ahead() == []
    modifies s, data
    ensures ok ==> k > k0
    ensures Took(old(AcStep(c, h.values[..], dequant, s.Rest(), k0, data[..])), sure, old(data[..]), s, ok, true, k,
                 data[..])
  {
    hide Fits, Entry, Shr, Low, Shl, Rev, Msb, Data, Flip, AcStep;
    ghost var v, was := s.Rest(), data[..];
    FastStep(c, h.values[..], dequant, v, k0, was, e);
    k := k0 + e / 16 % 16;
    var n := e % 16;
    ok := n <= s.code_bits;
    if ok {
      s.Drop(n);
      var zig := Dezigzag(k);
      data[zig] := Short(e / 256 * dequant[zig]);
      assert data[..] == Put(was, k, e / 256, dequant);
    }
    k := k + 1;
  }

  /** One AC symbol, decoded and then its magnitude bits received. */
  method SlowCoefficient(s: JpegStream, data: array<int>, h: Huffman, ghost c: Counts, fac: array<int>,
                         dequant: seq<nat>, k0: nat, ghost sure: nat)
    returns (ok: bool, more: bool, k: nat)
    requires Ready(s, data, h, c, fac) && |dequant| == 64 && 1 <= k0 < 64 && s.Left() >= sure
    modifies s, data
    ensures ok && more ==> k > k0
    ensures Took(old(AcStep(c, h.values[..], dequant, s.Rest(), k0, data[..])), sure, old(data[..]), s, ok, more, k,
                 data[..])
  {
    hide Fits, Shr, Entry, Rev, Msb, Data, Flip, Lookup, Extend, Missed, Decoded, Put;
    ghost var v, was := s.Rest(), data[..];
    LookupInTable(c, v);
    var rs, j, n := s.HuffDecode(h, c);
    ok, more, k := rs >= 0, true, k0;
    if ok {
      var b := rs % 16;
      var r := rs / 16;
      if b == 0 {
        if rs != 0xF0 {
          more := false;
        } else {
          k := k + 16;
        }
      } else {
        k := k + r;
        ReceiveCoefficient(s, data, dequant, b, k, if n <= sure then sure - n else 0);
        k := k + 1;
      }
    }
  }

  /** The magnitude bits of a coefficient, and its place. */
  method ReceiveCoefficient(s: JpegStream, data: array<int>, dequant: seq<nat>, b: nat, k: nat, ghost sure: nat)
    requires s.Valid() && data.Length == 64 && |dequant| == 64 && 1 <= b < 16 && k < 64 + 15 && s.Left() >= sure
    modifies s, data
    ensures s.Valid()
    ensures b <= sure ==>
              && s.Rest() == Shr(old(s.Rest()), b) && s.Left() >= sure - b
              && data[..] == Put(old(data[..]), k, Extend(Rev(old(s.Rest()), b), b), dequant)
  {
    hide Extend, Short, Shr, Rev;
    ghost var was := data[..];
    var x := s.ExtendReceive(b);
    var zig := Dezigzag(k);
    data[zig] := Short(x * dequant[zig]);
    assert data[..] == Put(was, k, x, dequant);
  }

  method DecodeCoefficient(s: JpegStream, data: array<int>, h: Huffman, ghost c: Counts, fac: array<int>,
                           dequant: seq<nat>, k0: nat, ghost sure: nat)
    returns (ok: bool, more: bool, k: nat)
    requires Ready(s, data, h, c, fac) && |dequant| == 64 && 1 <= k0 < 64 && s.Left() >= sure
    modifies s, data
    ensures ok && more ==> k > k0
    ensures Took(old(AcStep(c, h.values[..], dequant, s.Rest(), k0, data[..])), sure, old(data[..]), s, ok, more, k,
                 data[..])
  {
    hide Fits, Entry, Rev, Shr, Msb, Data, Flip, Shl, Pow2, AcStep, Took;
    if s.code_bits < 16 {
      s.Grow();
    }
    TopNine(s);
    var r := fac[Shr(s.code_buffer, 23)];
    if r != 0 {
      more := true;
      ok, k := FastCoefficient(s, data, h, c, fac, dequant, r, k0, sure);
    } else {
      ok, more, k := SlowCoefficient(s, data, h, c, fac, dequant, k0, sure);
    }
  }

  /** The symbols from here on mean m. */
  ghost predicate Means(m: Meaning, c: Counts, values: seq<byte>, dequant: seq<nat>, v: nat, sure: nat, k: nat,
                        data: seq<int>)
    requires Total(c) <= 256 && |values| == 256 && |data| == |dequant| == 64
  {
    m.Unsure? || (k >= 1 && m == AcMeaning(c, values, dequant, v, sure, k, data))
  }

  /** The decoder has found what the bits mean, if they were sure. */
  ghost predicate Found(m: Meaning, s: JpegStream, ok: bool, data: seq<int>)
    reads s
  {
    && (ok ==> s.Valid())
    && (m.Done? ==> ok && data == m.data && s.Rest() == m.v && s.Left() >= m.sure)
    && (m.Bad? ==> !ok)
  }

  method DecodeAcs(s: JpegStream, data: array<int>, h: Huffman, ghost c: Counts, fac: array<int>, dequant: seq<nat>,
                   ghost sure0: nat) returns (ok: bool)
    requires Ready(s, data, h, c, fac) && |dequant| == 64 && s.Left() >= sure0
    modifies s, data
    ensures Found(old(AcMeaning(c, h.values[..], dequant, s.Rest(), sure0, 1, data[..])), s, ok, data[..])
  {
    hide Fits, Entry, Msb, Data, Flip, Rev, Shr, AcMeaning, AcStep;
    ghost var m, sure := AcMeaning(c, h.values[..], dequant, s.Rest(), sure0, 1, data[..]), sure0;
    var k: nat := 1;
    var more := true;
    ok := true;
    while more
      invariant more ==> ok && 1 <= k < 64 && Ready(s, data, h, c, fac) && s.Left() >= sure
      invariant more ==> Means(m, c, h.values[..], dequant, s.Rest(), sure, k, data[..])
      invariant !more ==> Found(m, s, ok, data[..])
      decreases more, 64 - k
    {
      ghost var v, k0, was := s.Rest(), k, data[..];
      ghost var st := AcStep(c, h.values[..], dequant, v, k0, was);
      ok, more, k := DecodeCoefficient(s, data, h, c, fac, dequant, k, sure);
      sure := StepMeans(m, c, h.values[..], dequant, v, sure, k0, was, st, s, ok, more, k, data[..]);
      more := ok && more && k < 64;
    }
  }

  /** What the meaning is, by the next step. */
  lemma MeaningStep(m: Meaning, c: Counts, values: seq<byte>, dequant: seq<nat>, v: nat, sure: nat, k: nat,
                    data: seq<int>, st: Step)
    requires Total(c) <= 256 && |values| == 256 && |data| == |dequant| == 64 && 1 <= k < 64
    requires m == AcMeaning(c, values, dequant, v, sure, k, data) && st == AcStep(c, values, dequant, v, k, data)
    ensures if st.Wrong? then m.Bad?
            else if st.used > sure then m.Unsure?
            else if st.End? then m == Done(data, st.v, sure - st.used)
            else if st.k >= 64 then m == Done(st.data, st.v, sure - st.used)
            else Means(m, c, values, dequant, st.v, sure - st.used, st.k, st.data)
  {
    hide AcStep, Total;
  }

  /** A step that was taken leaves the meaning as it is. */
  lemma StepMeans(m: Meaning, c: Counts, values: seq<byte>, dequant: seq<nat>, v: nat, sure: nat, k0: nat,
                  was: seq<int>, st: Step, s: JpegStream, ok: bool, more: bool, k: nat, data: seq<int>)
    returns (sure': nat)
    requires Total(c) <= 256 && |values| == 256 && |data| == |was| == |dequant| == 64 && 1 <= k0 < 64
    requires Means(m, c, values, dequant, v, sure, k0, was) && st == AcStep(c, values, dequant, v, k0, was)
    requires Took(st, sure, was, s, ok, more, k, data)
    ensures ok && more && k < 64 ==> s.Left() >= sure' && Means(m, c, values, dequant, s.Rest(), sure', k, data)
    ensures !(ok && more && k < 64) ==> Found(m, s, ok, data)
  {
    hide AcStep, AcMeaning, Total;
    if !m.Unsure? { MeaningStep(m, c, values, dequant, v, sure, k0, was, st); }
    sure' := if !st.Wrong? && st.used <= sure then sure - st.used else 0;
  }

  // ---- the DC coefficient -------------------------------------------------------------

  method ClearBlock(data: array<int>)
    requires data.Length == 64
    modifies data
    ensures forall i | 0 <= i < 64 :: data[i] == 0
  {
    forall i | 0 <= i < 64 {
      data[i] := 0;
    }
  }

  /** The decoder has found the difference, if its bits were sure. */
  ghost predicate FoundDifference(m: DcResult, s: JpegStream, ok: bool, diff: int)
    reads s
  {
    && (ok ==> s.Valid())
    && (m.Dc? ==> ok && diff == m.diff && s.Rest() == m.v && s.Left() >= m.sure)
    && (m.BadDc? ==> !ok)
  }

  /** The DC coefficient's difference from the prediction. */
  method DecodeDiff(s: JpegStream, hdc: Huffman, ghost cdc: Counts, ghost sure: nat) returns (ok: bool, diff: int)
    requires s.Valid() && hdc.Holds(cdc) && s !in hdc.Repr && s.Left() >= sure
    modifies s
    ensures ok ==> -0x8000 <= diff <= 0x7FFF
    ensures FoundDifference(DcMeaning(cdc, hdc.values[..], old(s.Rest()), sure), s, ok, diff)
  {
    hide Fits, Shr, Rev, Msb, Data, Flip, Extend, Lookup, Missed, Decoded;
    if s.code_bits < 16 {
      s.Grow();
    }
    LookupInTable(cdc, s.Rest());
    var t, j, n := s.HuffDecode(hdc, cdc);
    ok, diff := 0 <= t <= 15, 0;
    if ok && t != 0 {
      ExtendBound(s.Rest(), t);
      diff := s.ExtendReceive(t);
    }
  }

  lemma ExtendBound(v: nat, n: nat)
    requires 1 <= n <= 15
    ensures -0x8000 <= Extend(Rev(v, n), n) <= 0x7FFF
  {
    RevBound(v, n);
    Pow2Values();
    Pow2Mono(n, 15);
    hide Pow2, Rev;
  }

  /** Clears the block and puts the DC coefficient in it. */
  method PlaceDc(data: array<int>, dc_pred: int, diff: int, dequant: seq<nat>) returns (ok: bool, dc: int)
    requires data.Length == 64 && |dequant| == 64
    requires -0x8000_0000 <= dc_pred <= 0x7FFF_FFFF && -0x8000 <= diff <= 0x7FFF
    modifies data
    ensures ok <==> DcFits(dc_pred + diff, dequant[0])
    ensures ok ==> dc == dc_pred + diff && data[..] == OnlyDc(Short(dc * dequant[0]))
  {
    ClearBlock(data);
    AddintsExact(dc_pred, diff);
    ok, dc := AddintsValid(dc_pred, diff), dc_pred;
    if ok {
      dc := dc_pred + diff;
      Mul2shortsExact(dc, dequant[0]);
      ok := Mul2shortsValid(dc, dequant[0]);
      if ok {
        data[0] := Short(dc * dequant[0]);
      }
    }
  }

  /** `stbi__jpeg_decode_block`. On every bit stream it finds what the bits of the block mean, as long
      as they are sure: coefficients times dequantisers, each at its place, and the prediction moved
      by the difference; or it fails, if a symbol is wrong or the DC coefficient does not fit. */
  method DecodeBlock(s: JpegStream, data: array<int>, hdc: Huffman, hac: Huffman, fac: array<int>,
                     dc_pred: int, dequant: seq<nat>, ghost cdc: Counts, ghost cac: Counts)
    returns (ok: bool, dc: int)
    requires Ready(s, data, hac, cac, fac) && |dequant| == 64 && -0x8000_0000 <= dc_pred <= 0x7FFF_FFFF
    requires hdc.Holds(cdc) && s !in hdc.Repr && data !in hdc.Repr
    modifies s, data
    ensures var v, sure := old(s.Rest()), old(s.Left());
            && Found(BlockMeaning(cdc, hdc.values[..], cac, hac.values[..], dequant, dc_pred, v, sure), s, ok, data[..])
            && var d := DcMeaning(cdc, hdc.values[..], v, sure); ok && d.Dc? ==> dc == dc_pred + d.diff
  {
    hide AcMeaning, DcMeaning, OnlyDc, DcFits, Rev, Shr, Msb, Data, Flip, Fits, Entry;
    ghost var d := DcMeaning(cdc, hdc.values[..], s.Rest(), s.Left());
    ghost var sure := if d.Dc? then d.sure else 0;
    var diff;
    ok, diff := DecodeDiff(s, hdc, cdc, s.Left());
    dc := dc_pred;
    if ok {
      ok, dc := PlaceDc(data, dc_pred, diff, dequant);
      if ok {
        ok := DecodeAcs(s, data, hac, cac, fac, dequant, sure);
      }
    }
  }
}
