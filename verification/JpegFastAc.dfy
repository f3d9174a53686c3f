/** The JPEG reader's combined table: a short code and the magnitude bits after it, found
    with one look at 9 bits. */
module JpegFastAc {
  import opened BitMath
  import opened Canonical
  import opened JpegHuffman

  /** The magnitude bits after a code of n bits, as the table builder takes them out of a
      9-bit word. */
  function MagnitudeOf(w: nat, n: nat, mag: nat): nat
    requires n + mag <= FAST_BITS
  {
    Shr(Low(Shl(w, n), FAST_BITS), FAST_BITS - mag)
  }

  predicate Combines(c: Counts, values: seq<byte>, k: nat)
    requires k < Total(c) && k < |values|
  {
    values[k] % 16 > 0 && SizeOf(c, k) + values[k] % 16 <= FAST_BITS
  }

  function ValueIn(c: Counts, values: seq<byte>, k: nat, w: nat): int
    requires k < Total(c) && k < |values| && Combines(c, values, k)
  {
    var mag := values[k] % 16;
    Extend(MagnitudeOf(w, SizeOf(c, k), mag), mag)
  }

  /** The entry for w: value, run and number of bits as one number, or 0. */
  function Entry(c: Counts, values: seq<byte>, w: nat): int
    requires Total(c) <= |values| == 256
  {
    var k := FastEntry(c, Total(c), w);
    EntryHits(c, Total(c), w);
    if k < 255 && Combines(c, values, k) && -128 <= ValueIn(c, values, k, w) <= 127
    then ValueIn(c, values, k, w) * 256 + values[k] / 16 * 16 + (SizeOf(c, k) + values[k] % 16)
    else 0
  }

  /** The entry for one 9-bit word. */
  method EntryFor(h: Huffman, ghost c: Counts, i: nat) returns (e: int)
    requires h.Holds(c) && i < FAST_SIZE
    ensures e == Entry(c, h.values[..], i)
  {
    hide FastEntry, SizeOf, Shl, Shr, Low, Pow2, Fits, Limit;
    var fast := h.fast[i];
    EntryHits(c, Total(c), i);
    e := 0;
    if fast < 255 {
      var rs := h.values[fast];
      var run := rs / 16;
      var magbits := rs % 16;
      var len := h.size[fast];
      if magbits != 0 && len + magbits <= FAST_BITS {
        var k: int := Shr(Low(Shl(i, len), FAST_BITS), FAST_BITS - magbits);
        var m := Pow2(magbits - 1);
        if k < m {
          k := k - Pow2(magbits) + 1;
        }
        assert k == ValueIn(c, h.values[..], fast, i);
        if k >= -128 && k <= 127 {
          e := k * 256 + run * 16 + (len + magbits);
        }
      }
    }
  }

  /** `stbi__build_fast_ac`. */
  method BuildFastAc(fast_ac: array<int>, h: Huffman, ghost c: Counts)
    requires h.Holds(c) && fast_ac.Length == FAST_SIZE && fast_ac != h.delta
    modifies fast_ac
    ensures forall w: nat | w < FAST_SIZE :: fast_ac[w] == Entry(c, h.values[..], w)
  {
    hide Entry, Fits;
    var i: nat := 0;
    while i < FAST_SIZE
      invariant i <= FAST_SIZE && h.Holds(c)
      invariant forall w: nat | w < i :: fast_ac[w] == Entry(c, h.values[..], w)
    {
      fast_ac[i] := EntryFor(h, c, i);
      i := i + 1;
    }
  }

  /** A nonzero entry for the first nine bits of a stream says what decoding a symbol and
      then receiving its magnitude bits would find: run, value and number of bits. */
  lemma FastAcAgrees(c: Counts, values: seq<byte>, v: nat, e: int) returns (k: nat, n: nat)
    requires Total(c) <= |values| == 256
    requires e == Entry(c, values, Rev(v, FAST_BITS)) && e != 0
    ensures Starts(c, k, n, v) && k < 255 && values[k] % 16 > 0
    ensures e / 16 % 16 == values[k] / 16 && e % 16 == n + values[k] % 16 <= FAST_BITS
    ensures e / 256 == Extend(Rev(Shr(v, n), values[k] % 16), values[k] % 16)
  {
    var w := Rev(v, FAST_BITS);
    FastLookup(c, v);
    k := FastEntry(c, Total(c), w);
    n := SizeOf(c, k);
    var mag := values[k] % 16;
    var size := FAST_BITS;
    MagnitudeBits(v, n, mag, size);
    hide FastEntry, SizeOf, Starts, Extend, Shr, Low, Shl, Rev;
    Unpack(ValueIn(c, values, k, w), values[k] / 16, n + mag);
  }

  lemma Unpack(value: int, run: nat, bits: nat)
    requires run < 16 && bits < 16
    ensures var e := value * 256 + run * 16 + bits;
            e / 256 == value && e / 16 % 16 == run && e % 16 == bits
  {
    var e := value * 256 + run * 16 + bits;
    assert e / 16 == value * 16 + run;
  }
}
