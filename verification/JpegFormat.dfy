/** Baseline JPEG read off bit by bit (ITU-T T.81 Annexes C and F, figure 5), without the
    functions that define it here. */
module JpegFormat {
  import opened BitMath
  import opened Canonical
  import opened ZCodes
  import opened Deflate
  import opened JpegHuffman
  import opened JpegBlock
  import JpegCoded
  import opened JpegLookup
  import opened JpegMeaning
  import opened JpegReader
  import opened JpegWriter
  import opened JpegScan

  // ---- codes (Annex C) ----------------------------------------------------------------

  lemma {:induction false} NoneShorter(c: Counts, n: nat)
    requires 1 <= n <= 16 && Shorter(c, n) == 0
    ensures FirstCode(c, n) == 0
  {
    if n > 1 { NoneShorter(c, n - 1); }
  }

  lemma {:induction false} NoneBetween(c: Counts, m: nat, n: nat)
    requires 1 <= m < n <= 16 && Shorter(c, n) == Shorter(c, m) + c[m]
    ensures FirstCode(c, n) == EndCode(c, m) * Pow2(n - m - 1) * 2
    decreases n
  {
    if m + 1 == n {
      Pow2Values();
    } else {
      ShorterMono(c, m, n - 1);
      NoneBetween(c, m, n - 1);
      assert Pow2(n - m - 1) == 2 * Pow2(n - m - 2);
      Regrouped(EndCode(c, m), Pow2(n - m - 2));
    }
  }

  lemma Regrouped(a: nat, p: nat)
    ensures 2 * (a * p * 2) == a * (2 * p) * 2
  {
  }

  /** Figure C.2: the first code is all zeros; each code is the one before it plus one, with
      zeros at its end if it is longer. */
  lemma CodesInOrder(c: Counts, k: nat, m: nat, n: nat)
    requires HasCode(c, k, n)
    ensures k == 0 ==> CodeOf(c, k, n) == 0
    ensures k > 0 && HasCode(c, k - 1, m) ==> m <= n && CodeOf(c, k, n) == (CodeOf(c, k - 1, m) + 1) * Pow2(n - m)
  {
    if k == 0 {
      NoneShorter(c, n);
    } else if HasCode(c, k - 1, m) {
      if n < m {
        ShorterMono(c, n, m);
        assert false;
      } else if m < n {
        ShorterMono(c, m, n);
        NoneBetween(c, m, n);
        assert Pow2(n - m) == 2 * Pow2(n - m - 1);
        Regrouped(EndCode(c, m), Pow2(n - m - 1));
      } else {
        Pow2Values();
      }
    }
  }

  // ---- values (section F.1.2.1, table F.1) --------------------------------------------

  /** Category n has the values of n bits without their sign; a negative value is written as
      if 2^n - 1 were added. */
  lemma CategoryRule(x: int, n: nat)
    ensures Category(0) == 0
    ensures n > 0 ==> (Category(x) == n <==> Pow2(n - 1) <= x < Pow2(n) || Pow2(n - 1) <= -x < Pow2(n))
    ensures x != 0 ==> Magnitude(x) == if x > 0 then x else x + Pow2(Category(x)) - 1
  {
    BitsInBound(Abs(x));
    assert Category(0) == 0;
    hide BitsIn, Pow2;
    if n > 0 && Category(x) < n {
      Pow2Mono(Category(x), n - 1);
    } else if n < Category(x) {
      Pow2Mono(n, Category(x) - 1);
    }
  }

  /** EXTEND gives the value with these bits (section F.2.2.1). */
  lemma ExtendRule(v: nat, n: nat)
    requires n > 0 && v < Pow2(n)
    ensures Category(Extend(v, n)) == n && Magnitude(Extend(v, n)) == v
  {
    CategoryRule(Extend(v, n), n);
    Doubles(n);
    hide Pow2, Category, Magnitude;
  }

  /** The conversion to 16 bits. */
  lemma ShortRule(x: int)
    ensures -32768 <= Short(x) <= 32767 && (x - Short(x)) % 65536 == 0
  {
    var q := (x + 32768) / 65536;
    assert x - Short(x) == 65536 * q;
  }

  // ---- the zigzag walk (figure 5) -----------------------------------------------------

  lemma Walk0(k: nat)
    requires 0 <= k < 8
    ensures var z, y := Dezigzag(k), Dezigzag(k + 1);
            var s, t := z / 8 + z % 8, y / 8 + y % 8;
            t == s + 1 || (t == s && y / 8 == z / 8 + if s % 2 == 0 then -1 else 1)
  {
  }

  lemma Walk8(k: nat)
    requires 8 <= k < 16
    ensures var z, y := Dezigzag(k), Dezigzag(k + 1);
            var s, t := z / 8 + z % 8, y / 8 + y % 8;
            t == s + 1 || (t == s && y / 8 == z / 8 + if s % 2 == 0 then -1 else 1)
  {
  }

  lemma Walk16(k: nat)
    requires 16 <= k < 24
    ensures var z, y := Dezigzag(k), Dezigzag(k + 1);
            var s, t := z / 8 + z % 8, y / 8 + y % 8;
            t == s + 1 || (t == s && y / 8 == z / 8 + if s % 2 == 0 then -1 else 1)
  {
  }

  lemma Walk24(k: nat)
    requires 24 <= k < 32
    ensures var z, y := Dezigzag(k), Dezigzag(k + 1);
            var s, t := z / 8 + z % 8, y / 8 + y % 8;
            t == s + 1 || (t == s && y / 8 == z / 8 + if s % 2 == 0 then -1 else 1)
  {
  }

  lemma Walk32(k: nat)
    requires 32 <= k < 40
    ensures var z, y := Dezigzag(k), Dezigzag(k + 1);
            var s, t := z / 8 + z % 8, y / 8 + y % 8;
            t == s + 1 || (t == s && y / 8 == z / 8 + if s % 2 == 0 then -1 else 1)
  {
  }

  lemma Walk40(k: nat)
    requires 40 <= k < 48
    ensures var z, y := Dezigzag(k), Dezigzag(k + 1);
            var s, t := z / 8 + z % 8, y / 8 + y % 8;
            t == s + 1 || (t == s && y / 8 == z / 8 + if s % 2 == 0 then -1 else 1)
  {
  }

  lemma Walk48(k: nat)
    requires 48 <= k < 56
    ensures var z, y := Dezigzag(k), Dezigzag(k + 1);
            var s, t := z / 8 + z % 8, y / 8 + y % 8;
            t == s + 1 || (t == s && y / 8 == z / 8 + if s % 2 == 0 then -1 else 1)
  {
  }

  lemma Walk56(k: nat)
    requires 56 <= k < 63
    ensures var z, y := Dezigzag(k), Dezigzag(k + 1);
            var s, t := z / 8 + z % 8, y / 8 + y % 8;
            t == s + 1 || (t == s && y / 8 == z / 8 + if s % 2 == 0 then -1 else 1)
  {
  }

  /** The walk starts in the corner and goes along the diagonals, of which s is the sum of row
      and column: up those where s is even, down the others, and from each on to the next. With
      `ZigzagInverse`, by which it comes to every place once, that is all of figure 5. */
  lemma ZigzagWalk(k: nat)
    requires k < 63
    ensures Dezigzag(0) == 0 && Dezigzag(k) < 64 && Dezigzag(k + 1) < 64
    ensures var z, y := Dezigzag(k), Dezigzag(k + 1);
            var s, t := z / 8 + z % 8, y / 8 + y % 8;
            t == s + 1 || (t == s && y / 8 == z / 8 + if s % 2 == 0 then -1 else 1)
  {
    assert Dezigzag(0) == 0;
    hide *;
    if k < 32 {
      if k < 8 { Walk0(k); } else if k < 16 { Walk8(k); } else if k < 24 { Walk16(k); } else { Walk24(k); }
    } else {
      if k < 40 { Walk32(k); } else if k < 48 { Walk40(k); } else if k < 56 { Walk48(k); } else { Walk56(k); }
    }
  }

  /** A block read back: coefficient k of the walk is at its place, times the quantiser of that
      place, as a 16-bit number. */
  lemma BlockPlaces(data: seq<int>, zz: Zigzag, dequant: seq<nat>, k: nat)
    requires IsBlock(data, zz, dequant) && k < 64
    ensures |data| == |dequant| == 64
    ensures var z := Dezigzag(k);
            -32768 <= data[z] <= 32767 && (zz[k] * dequant[z] - data[z]) % 65536 == 0
  {
    hide Dezigzag, Short;
    ShortRule(zz[k] * dequant[Dezigzag(k)]);
  }

  // ---- a block (sections F.1.2.1 and F.1.2.2) -----------------------------------------

  /** A block: the category of the difference, its bits if there are any, and then the AC
      coefficients from the first on. */
  lemma BlockCoded(dc: CodeTable, ac: CodeTable, diff: int, zz: Zigzag, s: nat, x: nat)
    requires s == Category(diff) <= 11 && x == (if diff >= 0 then diff else diff + Pow2(s) - 1) && SmallAcs(zz)
    ensures DataUnit(dc, ac, diff, zz) ==
            [Field(Rev(dc[s].0, dc[s].1), dc[s].1)] + (if diff == 0 then [] else [Field(Rev(x, s), s)])
            + AcFields(ac, zz, 1)
  {
    CategoryRule(diff, s);
    hide Pow2, Rev, BitsIn, AcFields, SmallAcs;
    assert DcFields(dc, diff) ==
           [Field(Rev(dc[s].0, dc[s].1), dc[s].1)] + (if diff == 0 then [] else [Field(Rev(x, s), s)]);
  }

  lemma RunLength(zz: Zigzag, i: nat, r: nat)
    requires i + r <= 64 && (forall k: nat | i <= k < i + r :: zz[k] == 0) && (i + r < 64 ==> zz[i + r] != 0)
    ensures ZeroRun(zz, i) == r
  {
  }

  lemma SmallAt(zz: Zigzag, k: nat)
    requires SmallAcs(zz) && 1 <= k < 64
    ensures Category(zz[k]) <= 10
  {
  }

  /** A run of r zeros and a coefficient of category s: the symbol 16 * r + s and the bits of
      the coefficient. */
  lemma RunCoded(ht: CodeTable, zz: Zigzag, i: nat, r: nat, s: nat, x: nat)
    requires SmallAcs(zz) && 1 <= i && r < 16 && i + r < 64 && zz[i + r] != 0 && s == Category(zz[i + r])
    requires forall k: nat | i <= k < i + r :: zz[k] == 0
    requires x == if zz[i + r] > 0 then zz[i + r] else zz[i + r] + Pow2(s) - 1
    ensures s <= 10
    ensures var y := ht[16 * r + s];
            AcFields(ht, zz, i) == [Field(Rev(y.0, y.1), y.1), Field(Rev(x, s), s)] + AcFields(ht, zz, i + r + 1)
  {
    hide *;
    var v := zz[i + r];
    RunLength(zz, i, r);
    SmallAt(zz, i + r);
    JpegCoded.RunHere(ht, zz, i, r, v);
    SymbolBits(ht, 16 * r + s);
    ValueBits(v, s, x);
  }

  lemma SymbolBits(ht: CodeTable, sym: nat)
    requires sym < 256
    ensures SymbolField(ht, sym) == Field(Rev(ht[sym].0, ht[sym].1), ht[sym].1)
  {
  }

  lemma ValueBits(v: int, s: nat, x: nat)
    requires v != 0 && s == Category(v) && x == if v > 0 then v else v + Pow2(s) - 1
    ensures MagnitudeField(v) == Field(Rev(x, s), s)
  {
    hide Rev, Category, Pow2;
  }

  /** Sixteen zeros that are not the last: the symbol F0. */
  lemma ZerosCoded(ht: CodeTable, zz: Zigzag, i: nat, r: nat)
    requires SmallAcs(zz) && 1 <= i && r >= 16 && i + r < 64 && zz[i + r] != 0
    requires forall k: nat | i <= k < i + r :: zz[k] == 0
    ensures AcFields(ht, zz, i) == [Field(Rev(ht[0xF0].0, ht[0xF0].1), ht[0xF0].1)] + AcFields(ht, zz, i + 16)
  {
    RunLength(zz, i, r);
    hide Rev, ZeroRun;
  }

  /** Only zeros up to the end: the symbol 00, unless none are left. */
  lemma EndCoded(ht: CodeTable, zz: Zigzag, i: nat)
    requires SmallAcs(zz) && 1 <= i <= 64 && forall k: nat | i <= k < 64 :: zz[k] == 0
    ensures AcFields(ht, zz, i) == if i == 64 then [] else [Field(Rev(ht[0].0, ht[0].1), ht[0].1)]
  {
    RunLength(zz, i, 64 - i);
    hide Rev, ZeroRun;
  }

  // ---- a block read (sections F.2.2.1 and F.2.2.2) ------------------------------------

  /** The difference after a symbol t of n bits: the value with the next t bits, of category t. */
  lemma DcRule(c: Counts, values: seq<byte>, v: nat, sure: nat, j: nat, n: nat, t: nat, x: int)
    requires Total(c) <= 256 && |values| == 256 && Lookup(c, v) == Symbol(j, n) && j < 256 && t == values[j]
    requires t > 0 ==> Category(x) == t && Magnitude(x) == Rev(Shr(v, n), t)
    ensures var m := DcMeaning(c, values, v, sure);
            && (n <= sure && t > 15 ==> m == BadDc)
            && (n <= sure && t == 0 ==> m == Dc(0, Shr(v, n), sure - n))
            && (n + t <= sure && 1 <= t <= 15 ==> m == Dc(x, Shr(v, n + t), sure - n - t))
            && (n > sure || (1 <= t <= 15 && n + t > sure) ==> m == UnsureDc)
  {
    ShrShr(v, n, t);
    if t > 0 { ExtendMagnitude(x); }
    hide Extend, Rev, Shr, Lookup, Category, Magnitude;
  }

  /** A symbol rs of n bits among the AC coefficients, at position k: F0 skips sixteen zeros, any
      other multiple of sixteen ends the block, and 16 * r + s skips r zeros before the value x
      with the next s bits, which belongs at place z. */
  lemma AcRule(rs: byte, r: nat, s: nat, n: nat, dequant: seq<nat>, v: nat, k: nat, data: seq<int>, x: int, z: nat)
    requires |data| == |dequant| == 64 && 1 <= k < 64 && rs == 16 * r + s && s < 16 && z == Dezigzag(k + r)
    requires s > 0 ==> Category(x) == s && Magnitude(x) == Rev(Shr(v, n), s)
    ensures var m := SymbolStep(rs, n, dequant, v, k, data);
            && (rs == 0xF0 ==> m == Go(k + 16, data, Shr(v, n), n))
            && (s == 0 && rs != 0xF0 ==> m == End(Shr(v, n), n))
            && (s > 0 ==> m == Go(k + r + 1, data[z := Short(x * dequant[z])], Shr(v, n + s), n + s))
  {
    assert Category(0) == 0;
    hide Extend, Rev, Shr, Short, Dezigzag, Category, Magnitude;
    Nibbles(rs, r, s);
    ShrShr(v, n, s);
    if s > 0 { ExtendMagnitude(x); }
  }

  lemma Nibbles(rs: byte, r: nat, s: nat)
    requires rs == 16 * r + s && s < 16
    ensures rs / 16 == r && rs % 16 == s
  {
  }

  // ---- a scan -------------------------------------------------------------------------

  lemma MsbNext(d: seq<byte>)
    requires d != []
    ensures Msb(d) == Rev(d[0], 8) + 256 * Msb(d[1..])
  {
  }

  lemma ByteSplit(b: byte, t: nat, v: nat)
    requires v == Rev(b, 8) + 256 * t
    ensures Low(Shr(v, 0), 8) == Rev(b, 8) && Shr(v, 8) == t
  {
    RevBound(b, 8);
    Pow2Values();
    hide *;
    Shl8(t);
    Join(Rev(b, 8), t, 8);
    NoShift(v);
  }

  lemma NoShift(v: nat)
    ensures Shr(v, 0) == v
  {
  }

  /** The bits of a byte come most significant first. */
  lemma {:induction false} ByteOfMsb(d: seq<byte>, i: nat)
    requires i < |d|
    ensures Low(Shr(Msb(d), 8 * i), 8) == Rev(d[i], 8)
  {
    var t := Msb(d[1..]);
    MsbNext(d);
    hide Msb;
    ByteSplit(d[0], t, Msb(d));
    hide *;
    if i != 0 {
      ByteOfMsb(d[1..], i - 1);
      ShrShr(Msb(d), 8, 8 * (i - 1));
    }
  }

  /** The units of macroblock m: one block of each component, or four of the first. */
  lemma UnitOrder(blocks: seq<Zigzag>, m: nat, j: nat)
    ensures j < 3 && 3 * m + j < |blocks| ==> Units(false, blocks)[3 * m + j] == Unit(j, blocks[3 * m + j])
    ensures j < 6 && 6 * m + j < |blocks| ==>
              Units(true, blocks)[6 * m + j] == Unit(if j < 4 then 0 else j - 3, blocks[6 * m + j])
  {
    assert j < 3 ==> (3 * m + j) % 3 == j;
    assert j < 6 ==> (6 * m + j) % 6 == j;
  }

  /** The prediction is the DC coefficient of the last block of the component, or 0. */
  lemma {:induction false} PredictionIs(us: seq<Unit>, i: nat, n: nat, j: int)
    requires -1 <= j < i <= |us| && forall k: nat | j < k < i :: us[k].comp != n
    requires j >= 0 ==> us[j].comp == n
    ensures Before(us, i, n) == if j < 0 then 0 else us[j].zz[0]
    decreases i
  {
    if i > 0 && j < i - 1 { PredictionIs(us, i - 1, n, j); }
  }
}
