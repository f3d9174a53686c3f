/** What the JPEG reader's tables make of a bit stream, for every table the reader accepts,
    and when that is the decoder of ITU-T T.81 Annex C. */
module JpegLookup {
  import opened BitMath
  import opened Canonical
  import opened ZCodes
  import opened JpegHuffman

  /** The symbol index the tables lead to and the number of bits dropped, or nothing. */
  datatype Found = Nothing | Symbol(k: int, n: nat)

  /** The search through the limits, from s bits on. */
  function LimitFrom(c: Counts, word: nat, s: nat): (r: nat)
    requires 1 <= s <= 17
    ensures s <= r <= 17
    decreases 17 - s
  {
    if s == 17 || word < Limit(c, s) then s else LimitFrom(c, word, s + 1)
  }

  function Lookup(c: Counts, v: nat): Found
    requires Total(c) <= 256
  {
    var e := FastEntry(c, Total(c), Rev(v, FAST_BITS));
    EntryHits(c, Total(c), Rev(v, FAST_BITS));
    if e < 255 then Symbol(e, SizeOf(c, e)) else SlowLookup(c, Rev(v, 16))
  }

  function SlowLookup(c: Counts, word: nat): Found
  {
    var s := LimitFrom(c, word, FAST_BITS + 1);
    if s == 17 then Nothing else Symbol(Shr(word, 16 - s) + Shorter(c, s) - FirstCode(c, s), s)
  }

  /** The decoder of Annex C: the symbol the stream starts with, and its length. */
  ghost predicate Right(c: Counts, v: nat, f: Found)
  {
    match f
    case Nothing => forall k: nat, n: nat :: !Starts(c, k, n, v)
    case Symbol(k, n) => k >= 0 && Starts(c, k, n, v)
  }

  /** The stream starts with a short code that the fast table cannot name. */
  ghost predicate Missed(c: Counts, v: nat)
  {
    !Accelerable(c) && exists n: nat :: Starts(c, 255, n, v)
  }

  /** The search stops at the first limit above the word. */
  lemma {:induction false} LimitFound(c: Counts, word: nat, s: nat, r: nat)
    requires 1 <= s <= 17 && Limit(c, s - 1) <= word && r == LimitFrom(c, word, s)
    ensures r <= 16 ==> Limit(c, r - 1) <= word < Limit(c, r)
    ensures r == 17 ==> Limit(c, 16) <= word
    decreases 17 - s
  {
    hide Limit;
    if s < 17 && word >= Limit(c, s) {
      LimitFound(c, word, s + 1, r);
    }
  }

  lemma NotMissed(c: Counts, v: nat, k: nat, n: nat)
    requires Starts(c, k, n, v) && Findable(c, k)
    ensures !Missed(c, v)
  {
    if m: nat :| Starts(c, 255, m, v) {
      StartsUnique(c, k, n, 255, m, v);
    }
  }

  lemma SlowRight(c: Counts, v: nat)
    requires Limit(c, FAST_BITS) <= Rev(v, 16)
    ensures Right(c, v, SlowLookup(c, Rev(v, 16)))
  {
    hide Limit, FirstCode, Shorter, LimitFrom, Starts;
    var s := LimitFrom(c, Rev(v, 16), FAST_BITS + 1);
    LimitFound(c, Rev(v, 16), FAST_BITS + 1, s);
    if s == 17 {
      forall k: nat, n: nat ensures !Starts(c, k, n, v) {
        LongNone(c, v, k, n);
      }
    } else {
      var k := SymbolOfWord(c, Rev(v, 16), s);
      RevTop(v, s, 16);
      WordStarts(c, k, s, v);
    }
  }

  lemma LongNone(c: Counts, v: nat, k: nat, n: nat)
    requires Limit(c, 16) <= Rev(v, 16)
    ensures !Starts(c, k, n, v)
  {
    if n <= 16 { PastLimitNone(c, v, 16, k, n); }
  }

  lemma WordStarts(c: Counts, k: nat, n: nat, v: nat)
    requires HasCode(c, k, n) && Rev(v, n) == CodeOf(c, k, n)
    ensures Starts(c, k, n, v)
  {
  }

  /** On every other stream the tables are the decoder of Annex C. */
  lemma LookupRight(c: Counts, v: nat)
    requires Total(c) <= 256 && !Missed(c, v)
    ensures Right(c, v, Lookup(c, v))
  {
    FastLookup(c, v);
    EntryHits(c, Total(c), Rev(v, FAST_BITS));
    if FastEntry(c, Total(c), Rev(v, FAST_BITS)) == 255 {
      hide Starts, Rev, SlowLookup, FastEntry, Right;
      PastFast(c, v);
      SlowRight(c, v);
    }
  }

  // ---- the streams it is wrong for ----------------------------------------------------

  /** There are no more codes of up to n bits than the numbers up to the last of them. */
  lemma {:induction false} FewCodes(c: Counts, n: nat)
    requires 1 <= n <= 16
    ensures Shorter(c, n) + c[n] <= EndCode(c, n)
  {
    if n > 1 { FewCodes(c, n - 1); }
  }

  lemma LastSize(c: Counts) returns (n: nat)
    requires Total(c) == 256 && Fits(c) && Shorter(c, 10) == 256
    ensures (n == 8 || n == 9) && HasCode(c, 255, n) && Shorter(c, n) + c[n] == 256 && c[10] == 0
  {
    n := SizeOf(c, 255);
    assert n <= 9;
    if n < 9 { ShorterMono(c, n + 1, 10); }
    ShorterMono(c, 11, 17);
    assert LengthFits(c, n);
    FewCodes(c, n);
    hide Total, Fits, Shorter, FirstCode, Pow2;
    if n < 8 {
      Pow2Mono(n, 7);
      Pow2Values();
    }
  }

  /** 256 short codes: the last has eight or nine bits, and the first code of ten bits would
      be right after it. */
  lemma LastCode(c: Counts) returns (n: nat, f: nat)
    requires Total(c) == 256 && Fits(c) && Shorter(c, 10) == 256
    ensures (n == 8 && f == 4) || (n == 9 && f == 2)
    ensures HasCode(c, 255, n) && FirstCode(c, 10) == (CodeOf(c, 255, n) + 1) * f && c[10] == 0
  {
    n := LastSize(c);
    f := if n == 8 then 4 else 2;
    hide Total, Fits;
    assert FirstCode(c, 10) == 2 * EndCode(c, 9);
    if n == 8 {
      assert c[9] == 0 && FirstCode(c, 9) == 2 * EndCode(c, 8);
    }
  }

  /** The first n + m bits of a stream, by the first n. */
  lemma MoreBits(v: nat, n: nat, m: nat)
    ensures Shl(Rev(v, n), m) <= Rev(v, n + m) < Shl(Rev(v, n) + 1, m)
  {
    RevSplit(v, n, m);
    RevBound(Shr(v, n), m);
    ShlAdd(Rev(v, n), 1, m);
  }

  lemma SmallShl(x: nat)
    ensures Shl(x, 1) == x * 2 && Shl(x, 2) == x * 4
  {
    assert Shl(x, 0) == x && Shl(x, 1) == 2 * Shl(x, 0) && Shl(x, 2) == 2 * Shl(x, 1);
  }

  /** The first ten bits of a stream that starts with the last code. */
  lemma TenBits(v: nat, n: nat, f: nat)
    requires (n == 8 && f == 4) || (n == 9 && f == 2)
    ensures Rev(v, n) * f <= Rev(v, 10) < (Rev(v, n) + 1) * f
  {
    hide *;
    var m := 10 - n;
    MoreBits(v, n, m);
    SmallShl(Rev(v, n));
    SmallShl(Rev(v, n) + 1);
  }

  /** The search ends at ten bits at once, with an index at or just before the last. */
  lemma SlowWrong(c: Counts, v: nat, n: nat, f: nat) returns (i: nat)
    requires (n == 8 && f == 4) || (n == 9 && f == 2)
    requires HasCode(c, 255, n) && Rev(v, n) == CodeOf(c, 255, n) && Shorter(c, 10) == 256 && c[10] == 0
    requires FirstCode(c, 10) == (CodeOf(c, 255, n) + 1) * f
    ensures 252 <= i < 256 && i == Rev(v, 10) + 256 - FirstCode(c, 10) && SlowLookup(c, Rev(v, 16)) == Symbol(i, 10)
  {
    TenBits(v, n, f);
    var w, word := Rev(v, 10), Rev(v, 16);
    i := w + 256 - FirstCode(c, 10);
    RevTop(v, 10, 16);
    assert Limit(c, 10) == Shl(FirstCode(c, 10), 6);
    hide Rev, FirstCode, Shorter, Limit, CodeOf;
    ShrLess(word, FirstCode(c, 10), 6);
    hide Shr, Shl;
    assert LimitFrom(c, word, 10) == 10;
  }

  /** A stream that starts with the code of symbol 255 is taken for another symbol, or at
      least for a code of ten bits. */
  lemma LookupWrong(c: Counts, v: nat, n: nat) returns (i: nat)
    requires Total(c) <= 256 && Fits(c) && !Accelerable(c) && Starts(c, 255, n, v)
    ensures n <= FAST_BITS && 252 <= i < 256 && i == Rev(v, 10) + 256 - FirstCode(c, 10)
    ensures Lookup(c, v) == Symbol(i, 10) && !Right(c, v, Lookup(c, v))
  {
    assert Total(c) == 256 && Shorter(c, 10) == 256 by { ShorterMono(c, 10, 17); }
    hide Shorter, Fits, FirstCode, Total, Rev, Shr, Shl;
    var m, f := LastCode(c);
    SizeUnique(c, 255, n);
    SizeUnique(c, 255, m);
    TopBits(v, n);
    EntryIs(c, 256, Rev(v, FAST_BITS), 255);
    i := SlowWrong(c, v, n, f);
    hide SlowLookup, FastEntry, SizeOf;
    assert Lookup(c, v) == Symbol(i, 10);
    if Starts(c, i, 10, v) {
      StartsUnique(c, 255, n, i, 10, v);
      assert false;
    }
  }

  /** The exact streams the tables are wrong for. */
  lemma RightUnlessMissed(c: Counts, v: nat)
    requires Total(c) <= 256 && Fits(c)
    ensures Right(c, v, Lookup(c, v)) <==> !Missed(c, v)
  {
    if Missed(c, v) {
      var n: nat :| Starts(c, 255, n, v);
      var i := LookupWrong(c, v, n);
    } else {
      LookupRight(c, v);
    }
  }

  /** The tables are the decoder of Annex C, for every stream, exactly when not all of 256
      symbols have codes of at most nine bits. */
  lemma CanonicalIff(c: Counts)
    requires Total(c) <= 256 && Fits(c)
    ensures (forall v: nat :: Right(c, v, Lookup(c, v))) <==> Accelerable(c)
  {
    if Accelerable(c) {
      forall v: nat ensures Right(c, v, Lookup(c, v)) {
        LookupRight(c, v);
      }
    } else {
      var n := SizeOf(c, 255);
      var v := Rev(CodeOf(c, 255, n), n);
      CodeRange(c, 255, n);
      RevRev(CodeOf(c, 255, n), n);
      LowFits(CodeOf(c, 255, n), n);
      assert Starts(c, 255, n, v);
      var i := LookupWrong(c, v, n);
    }
  }

  /** Whatever the stream, the index is within the table. */
  lemma LookupInTable(c: Counts, v: nat)
    requires Total(c) <= 256 && Fits(c)
    ensures Lookup(c, v).Symbol? ==> 0 <= Lookup(c, v).k < Total(c) && 1 <= Lookup(c, v).n <= 16
  {
    if Missed(c, v) {
      var n: nat :| Starts(c, 255, n, v);
      var i := LookupWrong(c, v, n);
    } else {
      LookupRight(c, v);
      var f := Lookup(c, v);
      if f.Symbol? { SizeUnique(c, f.k, f.n); }
    }
  }

  /** 255 symbols of eight bits and one of nine. */
  function LongLast(): Counts
  {
    [0, 0, 0, 0, 0, 0, 0, 0, 255, 1, 0, 0, 0, 0, 0, 0, 0]
  }

  lemma LongLastSums()
    ensures var c := LongLast(); Shorter(c, 9) == 255 && Shorter(c, 10) == Shorter(c, 17) == 256
  {
    var c := LongLast();
    assert Shorter(c, 8) == 0;
    assert Shorter(c, 10) == 256;
  }

  lemma LongLastCodes()
    ensures var c := LongLast(); FirstCode(c, 8) == 0 && FirstCode(c, 9) == 510 && FirstCode(c, 10) == 1022
  {
  }

  lemma LongLastFits()
    ensures Fits(LongLast())
  {
    hide Shorter, FirstCode, Pow2;
    LongLastCodes();
    Pow2Values();
    var c := LongLast();
    forall n | 1 <= n <= 16 ensures LengthFits(c, n) {
      assert c[n] > 0 ==> n == 8 || n == 9;
    }
  }

  /** The stream of one code and then zeros. */
  lemma CodeAndZeros(code: nat, n: nat) returns (v: nat)
    requires code < Pow2(n)
    ensures Rev(v, n) == code && Rev(v, n + 1) == 2 * code
  {
    hide *;
    v := Rev(code, n);
    RevRev(code, n);
    LowFits(code, n);
    RevBound(code, n);
    RevSplit(v, n, 1);
    ShlZero(n);
    Join(v, 0, n);
    SmallShl(code);
    NoBits();
  }

  lemma NoBits()
    ensures Rev(0, 1) == 0
  {
  }

  /** A table it fails for: there is a stream, the code of its last symbol and zeros after it,
      that is taken for ten bits of the symbol before. */
  lemma LookupMissesOne() returns (v: nat)
    ensures var c := LongLast();
            Total(c) == 256 && Fits(c) && Starts(c, 255, 9, v) && Lookup(c, v) == Symbol(254, 10)
  {
    hide Shorter, FirstCode, Rev, Fits, Lookup, Pow2;
    LongLastSums();
    LongLastCodes();
    LongLastFits();
    Pow2Values();
    v := CodeAndZeros(510, 9);
    var c := LongLast();
    assert Starts(c, 255, 9, v);
    var i := LookupWrong(c, v, 9);
  }
}
