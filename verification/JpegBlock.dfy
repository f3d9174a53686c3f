/** How one block of 64 coefficients is coded (ITU-T T.81 section F.1.2): as a list of bit
    fields, against which the writer and the reader are both proved. */
module JpegBlock {
  import opened BitMath
  import opened Canonical
  import opened Deflate
  import opened JpegHuffman

  // ---- magnitudes ---------------------------------------------------------------------

  function BitsIn(v: nat): nat
  {
    if v == 0 then 0 else 1 + BitsIn(v / 2)
  }

  /** The category of a value: the bits of its magnitude. */
  function Category(v: int): nat
  {
    BitsIn(Abs(v))
  }

  lemma {:induction false} BitsInBound(v: nat)
    ensures v < Pow2(BitsIn(v)) && (v > 0 ==> BitsIn(v) > 0 && Pow2(BitsIn(v) - 1) <= v)
  {
    if v != 0 {
      BitsInBound(v / 2);
    }
  }

  lemma {:induction false} BitsInUnique(v: nat, n: nat)
    requires v < Pow2(n)
    ensures BitsIn(v) <= n
    decreases n
  {
    if v != 0 {
      BitsInUnique(v / 2, n - 1);
    }
  }

  /** The magnitude bits: a negative value is written less one. */
  function Magnitude(v: int): int
  {
    if v < 0 then v - 1 + Pow2(Category(v)) else v
  }

  lemma Doubles(n: nat)
    requires n > 0
    ensures Pow2(n) == 2 * Pow2(n - 1)
  {
  }

  /** EXTEND undoes it. */
  lemma ExtendMagnitude(v: int)
    requires v != 0
    ensures Category(v) > 0 && 0 <= Magnitude(v) < Pow2(Category(v))
    ensures Extend(Magnitude(v), Category(v)) == v
  {
    BitsInBound(Abs(v));
    var n := Category(v);
    hide BitsIn, Shl;
    assert Pow2(n) == 2 * Pow2(n - 1) by { Doubles(n); }
    hide Pow2;
  }

  // ---- fields -------------------------------------------------------------------------

  /** n bits of v, most significant first. */
  function MsbField(v: nat, n: nat): Field
  {
    Field(Rev(v, n), n)
  }

  /** A code table as the writer has it: for each symbol a code and its length. */
  type CodeTable = t: seq<(nat, nat)> | |t| == 256 witness seq(256, _ => (0, 0))

  function SymbolField(ht: CodeTable, sym: nat): Field
    requires sym < 256
  {
    MsbField(ht[sym].0, ht[sym].1)
  }

  function MagnitudeField(v: int): Field
    requires v != 0
  {
    ExtendMagnitude(v);
    MsbField(Magnitude(v), Category(v))
  }

  function DcFields(ht: CodeTable, diff: int): seq<Field>
    requires Category(diff) < 256
  {
    if diff == 0 then [SymbolField(ht, 0)] else [SymbolField(ht, Category(diff)), MagnitudeField(diff)]
  }

  /** Coefficients in zigzag order. */
  type Zigzag = zz: seq<int> | |zz| == 64 witness seq(64, _ => 0)

  /** The AC coefficients of baseline coding have at most 10 bits. */
  ghost predicate SmallAcs(zz: Zigzag)
  {
    forall i: nat | 1 <= i < 64 :: Category(zz[i]) <= 10
  }

  /** How many zeros from position i on. */
  function ZeroRun(zz: Zigzag, i: nat): (r: nat)
    requires i <= 64
    ensures i + r <= 64 && (i + r < 64 ==> zz[i + r] != 0)
    ensures forall k: nat | i <= k < i + r :: zz[k] == 0
    decreases 64 - i
  {
    if i < 64 && zz[i] == 0 then 1 + ZeroRun(zz, i + 1) else 0
  }

  const EOB := 0x00
  const ZRL := 0xF0

  /** The AC coefficients from position i on: end of block if only zeros are left, sixteen
      zeros, or a run of up to fifteen zeros and the coefficient after it. */
  ghost function AcFields(ht: CodeTable, zz: Zigzag, i: nat): seq<Field>
    requires 1 <= i <= 64 && SmallAcs(zz)
    decreases 64 - i
  {
    var r := ZeroRun(zz, i);
    if i == 64 then []
    else if i + r == 64 then [SymbolField(ht, EOB)]
    else if r >= 16 then [SymbolField(ht, ZRL)] + AcFields(ht, zz, i + 16)
    else
      [SymbolField(ht, r * 16 + Category(zz[i + r])), MagnitudeField(zz[i + r])] + AcFields(ht, zz, i + r + 1)
  }

  ghost function DataUnit(dc: CodeTable, ac: CodeTable, diff: int, zz: Zigzag): seq<Field>
    requires Category(diff) <= 11 && SmallAcs(zz)
  {
    DcFields(dc, diff) + AcFields(ac, zz, 1)
  }

  // ---- matching tables ----------------------------------------------------------------

  /** The writer's code for a symbol is the one in the reader's table, where the reader finds it. */
  ghost predicate SameCode(ht: CodeTable, c: Counts, values: seq<byte>, sym: nat)
    requires sym < 256
  {
    exists k: nat :: k < |values| && values[k] == sym && Findable(c, k) && HasCode(c, k, ht[sym].1)
      && CodeOf(c, k, ht[sym].1) == ht[sym].0
  }

  ghost predicate DcTablesMatch(ht: CodeTable, c: Counts, values: seq<byte>)
  {
    forall sym: nat | sym <= 11 :: SameCode(ht, c, values, sym)
  }

  /** Symbols of the AC table: a run of up to 15 zeros and a category from 1 to 10, the end
      of the block and sixteen zeros. */
  predicate AcSymbol(sym: nat)
  {
    sym < 256 && (sym == EOB || sym == ZRL || 1 <= sym % 16 <= 10)
  }

  ghost predicate AcTablesMatch(ht: CodeTable, c: Counts, values: seq<byte>)
  {
    forall sym: nat | AcSymbol(sym) :: SameCode(ht, c, values, sym)
  }

  /** A stream that starts with a symbol's field starts with that symbol's code. */
  lemma SymbolStarts(ht: CodeTable, c: Counts, values: seq<byte>, sym: nat, v: nat) returns (k: nat, n: nat)
    requires sym < 256 && SameCode(ht, c, values, sym) && Fits(c)
    requires Low(v, SymbolField(ht, sym).n) == SymbolField(ht, sym).v
    ensures Starts(c, k, n, v) && Findable(c, k) && n == ht[sym].1 && k < |values| && values[k] == sym
  {
    n := ht[sym].1;
    k :| k < |values| && values[k] == sym && Findable(c, k) && HasCode(c, k, n) && CodeOf(c, k, n) == ht[sym].0;
    CodeRange(c, k, n);
    LowReversed(v, ht[sym].0, n);
  }

  lemma LowReversed(v: nat, x: nat, n: nat)
    requires x < Pow2(n)
    ensures Low(v, n) == Rev(x, n) ==> Rev(v, n) == x
  {
    if Low(v, n) == Rev(x, n) {
      RevLow(v, n);
      RevRev(x, n);
      LowFits(x, n);
    }
  }

  /** ... and the magnitude bits after it stand for the value. */
  lemma MagnitudeRead(x: int, v: nat)
    requires x != 0 && Low(v, MagnitudeField(x).n) == MagnitudeField(x).v
    ensures Category(x) > 0 && Extend(Rev(v, Category(x)), Category(x)) == x
  {
    ExtendMagnitude(x);
    LowReversed(v, Magnitude(x), Category(x));
  }

  // ---- zigzag order -------------------------------------------------------------------

  /** Entry i of a row of eight. */
  function Pick(i: nat, a: nat, b: nat, c: nat, d: nat, e: nat, f: nat, g: nat, h: nat): nat
  {
    match i case 0 => a case 1 => b case 2 => c case 3 => d case 4 => e case 5 => f case 6 => g case _ => h
  }

  /** Where position k of the zigzag order is in the block. The table has 79 entries: those
      past the end, which only corrupt data reaches, are at the last place. */
  function Dezigzag(k: nat): (z: nat)
    requires k < 64 + 15
    ensures z < 64
  {
    if k < 8 then Pick(k, 0, 1, 8, 16, 9, 2, 3, 10)
    else if k < 16 then Pick(k - 8, 17, 24, 32, 25, 18, 11, 4, 5)
    else if k < 24 then Pick(k - 16, 12, 19, 26, 33, 40, 48, 41, 34)
    else if k < 32 then Pick(k - 24, 27, 20, 13, 6, 7, 14, 21, 28)
    else if k < 40 then Pick(k - 32, 35, 42, 49, 56, 57, 50, 43, 36)
    else if k < 48 then Pick(k - 40, 29, 22, 15, 23, 30, 37, 44, 51)
    else if k < 56 then Pick(k - 48, 58, 59, 52, 45, 38, 31, 39, 46)
    else if k < 64 then Pick(k - 56, 53, 60, 61, 54, 47, 55, 62, 63)
    else 63
  }

  /** The writer's table: the zigzag position of place j. */
  function ZigzagOf(j: nat): (k: nat)
    requires j < 64
    ensures k < 64
  {
    if j < 8 then Pick(j, 0, 1, 5, 6, 14, 15, 27, 28)
    else if j < 16 then Pick(j - 8, 2, 4, 7, 13, 16, 26, 29, 42)
    else if j < 24 then Pick(j - 16, 3, 8, 12, 17, 25, 30, 41, 43)
    else if j < 32 then Pick(j - 24, 9, 11, 18, 24, 31, 40, 44, 53)
    else if j < 40 then Pick(j - 32, 10, 19, 23, 32, 39, 45, 52, 54)
    else if j < 48 then Pick(j - 40, 20, 22, 33, 38, 46, 51, 55, 60)
    else if j < 56 then Pick(j - 48, 21, 34, 37, 47, 50, 56, 59, 61)
    else Pick(j - 56, 35, 36, 48, 49, 57, 58, 62, 63)
  }

  lemma Inverse16(k: nat)
    requires 0 <= k < 16
    ensures ZigzagOf(Dezigzag(k)) == k && Dezigzag(ZigzagOf(k)) == k
  {
  }

  lemma Inverse32(k: nat)
    requires 16 <= k < 32
    ensures ZigzagOf(Dezigzag(k)) == k && Dezigzag(ZigzagOf(k)) == k
  {
  }

  lemma Inverse48(k: nat)
    requires 32 <= k < 48
    ensures ZigzagOf(Dezigzag(k)) == k && Dezigzag(ZigzagOf(k)) == k
  {
  }

  lemma Inverse64(k: nat)
    requires 48 <= k < 64
    ensures ZigzagOf(Dezigzag(k)) == k && Dezigzag(ZigzagOf(k)) == k
  {
  }

  /** The writer's table and the reader's are inverse to each other. */
  lemma ZigzagInverse(k: nat)
    requires k < 64
    ensures ZigzagOf(Dezigzag(k)) == k && Dezigzag(ZigzagOf(k)) == k
  {
    hide *;
    if k < 16 {
      Inverse16(k);
    } else if k < 32 {
      Inverse32(k);
    } else if k < 48 {
      Inverse48(k);
    } else {
      Inverse64(k);
    }
  }

  lemma DezigzagInjective(k: nat, m: nat)
    requires k < 64 && m < 64 && Dezigzag(k) == Dezigzag(m)
    ensures k == m
  {
    ZigzagInverse(k);
    ZigzagInverse(m);
    hide Dezigzag, ZigzagOf;
  }
}
