/** `stbi__huffman`: the JPEG reader's tables for one prefix code (ITU-T T.81 Annex C). A
    symbol is known by its place k in the list sorted by code. */
module JpegHuffman {
  import opened BitMath
  import opened Canonical
  import opened ZCodes

  const FAST_BITS := 9
  const FAST_SIZE := 512

  // ---- the code of Annex C ------------------------------------------------------------

  function Total(c: Counts): nat
  {
    Shorter(c, 17)
  }

  /** Symbol k has a code of n bits. */
  predicate HasCode(c: Counts, k: nat, n: nat)
  {
    1 <= n <= 16 && Shorter(c, n) <= k < Shorter(c, n) + c[n]
  }

  function CodeOf(c: Counts, k: nat, n: nat): nat
    requires HasCode(c, k, n)
  {
    FirstCode(c, n) + (k - Shorter(c, n))
  }

  /** The bit stream v starts with the code of symbol k, most significant bit first. */
  predicate Starts(c: Counts, k: nat, n: nat, v: nat)
  {
    HasCode(c, k, n) && Rev(v, n) == CodeOf(c, k, n)
  }

  function SizeFrom(c: Counts, k: nat, n: nat): (s: nat)
    requires 1 <= n <= 16 && Shorter(c, n) <= k < Total(c)
    ensures HasCode(c, k, s)
    decreases 16 - n
  {
    if k < Shorter(c, n) + c[n] then n else SizeFrom(c, k, n + 1)
  }

  function SizeOf(c: Counts, k: nat): (s: nat)
    requires k < Total(c)
    ensures HasCode(c, k, s)
  {
    SizeFrom(c, k, 1)
  }

  lemma SizeUnique(c: Counts, k: nat, n: nat)
    requires HasCode(c, k, n)
    ensures k < Total(c) && SizeOf(c, k) == n
  {
    ShorterMono(c, n, 17);
    var s := SizeOf(c, k);
    if s < n {
      ShorterMono(c, s, n);
    } else if n < s {
      ShorterMono(c, n, s);
    }
  }

  lemma CodeRange(c: Counts, k: nat, n: nat)
    requires HasCode(c, k, n)
    ensures FirstCode(c, n) <= CodeOf(c, k, n) < EndCode(c, n)
    ensures Fits(c) ==> CodeOf(c, k, n) < Pow2(n)
  {
    assert Fits(c) ==> LengthFits(c, n);
  }

  /** A word starts with at most one code. */
  lemma WordUnique(c: Counts, word: nat, j: nat, m: nat, k: nat, n: nat)
    requires HasCode(c, j, m) && Shr(word, 16 - m) == CodeOf(c, j, m)
    requires HasCode(c, k, n) && Shr(word, 16 - n) == CodeOf(c, k, n)
    ensures j == k && m == n
  {
    CodeRange(c, j, m);
    CodeRange(c, k, n);
    LengthUnique(c, word, m, n);
  }

  /** The code is a prefix code: a stream starts with at most one symbol. */
  lemma StartsUnique(c: Counts, j: nat, m: nat, k: nat, n: nat, v: nat)
    requires Starts(c, j, m, v) && Starts(c, k, n, v)
    ensures j == k && m == n
  {
    RevTop(v, m, 16);
    RevTop(v, n, 16);
    WordUnique(c, Rev(v, 16), j, m, k, n);
  }

  // ---- the fast table -----------------------------------------------------------------

  /** The 9-bit word w starts with the code of symbol k. */
  predicate Hit(c: Counts, k: nat, w: nat)
    requires k < Total(c)
  {
    var n := SizeOf(c, k);
    n <= FAST_BITS && Shr(w, FAST_BITS - n) == CodeOf(c, k, n)
  }

  /** The entry for w when the first m symbols are in. */
  function FastEntry(c: Counts, m: nat, w: nat): nat
    requires m <= Total(c)
  {
    if m == 0 then 255 else if Hit(c, m - 1, w) then m - 1 else FastEntry(c, m - 1, w)
  }

  lemma HitUnique(c: Counts, j: nat, k: nat, w: nat)
    requires j < Total(c) && k < Total(c) && Hit(c, j, w) && Hit(c, k, w)
    ensures j == k
  {
    var m, n := SizeOf(c, j), SizeOf(c, k);
    ShlZero(7);
    Join(0, w, 7);
    ShrShr(Shl(w, 7), 7, FAST_BITS - m);
    ShrShr(Shl(w, 7), 7, FAST_BITS - n);
    WordUnique(c, Shl(w, 7), j, m, k, n);
  }

  lemma {:induction false} EntryHits(c: Counts, m: nat, w: nat)
    requires m <= Total(c) <= 256
    ensures var e := FastEntry(c, m, w); e == 255 || (e < 255 && e < m && Hit(c, e, w))
  {
    hide Hit, Total;
    if m != 0 {
      EntryHits(c, m - 1, w);
    }
  }

  lemma {:induction false} EntryIs(c: Counts, m: nat, w: nat, k: nat)
    requires k < m <= Total(c) && Hit(c, k, w)
    ensures FastEntry(c, m, w) == k
  {
    hide Hit, Total;
    if k < m - 1 {
      if Hit(c, m - 1, w) {
        HitUnique(c, k, m - 1, w);
      } else {
        EntryIs(c, m - 1, w, k);
      }
    }
  }

  /** Not all of 256 symbols have codes of at most 9 bits. If they have, the last of them
      is number 255, which the fast table takes for "not here". */
  predicate Accelerable(c: Counts)
  {
    Total(c) <= 255 || Shorter(c, 10) <= 255
  }

  /** The tables find symbol k where its code is. */
  predicate Findable(c: Counts, k: nat)
  {
    k < 255 || Accelerable(c)
  }

  lemma TopBits(v: nat, n: nat)
    requires n <= FAST_BITS
    ensures Shr(Rev(v, FAST_BITS), FAST_BITS - n) == Rev(v, n)
  {
    RevTop(v, n, FAST_BITS);
  }

  /** What the fast table says of a stream: the symbol it starts with, or that it starts
      with no code of up to 9 bits, unless that is the code of symbol 255. */
  lemma FastLookup(c: Counts, v: nat)
    requires Total(c) <= 256
    ensures var e := FastEntry(c, Total(c), Rev(v, FAST_BITS));
            if e < 255 then e < Total(c) && SizeOf(c, e) <= FAST_BITS && Starts(c, e, SizeOf(c, e), v)
            else forall k: nat, n: nat | n <= FAST_BITS && Starts(c, k, n, v) :: k == 255 && !Accelerable(c)
  {
    var w := Rev(v, FAST_BITS);
    EntryHits(c, Total(c), w);
    var e := FastEntry(c, Total(c), w);
    if e < 255 {
      TopBits(v, SizeOf(c, e));
    } else {
      forall k: nat, n: nat | n <= FAST_BITS && Starts(c, k, n, v) ensures k == 255 && !Accelerable(c) {
        SizeUnique(c, k, n);
        TopBits(v, n);
        EntryIs(c, Total(c), w, k);
        ShorterMono(c, n, 10);
      }
    }
  }

  // ---- the slow path ------------------------------------------------------------------

  /** A word between the limits starts with a code of that length. */
  lemma SymbolOfWord(c: Counts, word: nat, n: nat) returns (k: nat)
    requires 1 <= n <= 16 && Limit(c, n - 1) <= word < Limit(c, n)
    ensures HasCode(c, k, n) && Shr(word, 16 - n) == CodeOf(c, k, n)
    ensures k == Shr(word, 16 - n) + Shorter(c, n) - FirstCode(c, n) && k < Total(c)
  {
    FirstLimit(c, word, n);
    k := Shorter(c, n) + (Shr(word, 16 - n) - FirstCode(c, n));
    SizeUnique(c, k, n);
  }

  lemma {:induction false} CodeBelow(c: Counts, word: nat, s: nat) returns (k: nat, n: nat)
    requires s <= 16 && word < Limit(c, s)
    ensures n <= s && HasCode(c, k, n) && Shr(word, 16 - n) == CodeOf(c, k, n)
  {
    if word < Limit(c, s - 1) {
      k, n := CodeBelow(c, word, s - 1);
    } else {
      n := s;
      k := SymbolOfWord(c, word, s);
    }
  }

  /** A stream the fast table knows nothing of is past the limit of 9 bits. */
  lemma PastFast(c: Counts, v: nat)
    requires forall k: nat, n: nat | n <= FAST_BITS :: !Starts(c, k, n, v)
    ensures Limit(c, FAST_BITS) <= Rev(v, 16)
  {
    if Rev(v, 16) < Limit(c, FAST_BITS) {
      var k, n := CodeBelow(c, Rev(v, 16), FAST_BITS);
      RevTop(v, n, 16);
      assert Starts(c, k, n, v);
      assert false;
    }
  }

  /** A stream at or past a limit starts with no code up to that length. */
  lemma PastLimitNone(c: Counts, v: nat, s: nat, k: nat, n: nat)
    requires s <= 16 && Limit(c, s) <= Rev(v, 16) && n <= s
    ensures !Starts(c, k, n, v)
  {
    if Starts(c, k, n, v) {
      PastLimit(c, Rev(v, 16), s, n);
      RevTop(v, n, 16);
      CodeRange(c, k, n);
      assert false;
    }
  }

  class Huffman {
    const fast: array<nat>
    const code: array<nat>
    const values: array<byte>
    const size: array<nat>
    const maxcode: array<nat>
    const delta: array<int>
    ghost const Repr: set<object>

    constructor ()
      ensures Valid() && fresh(Repr)
    {
      var a, b, d := new nat[FAST_SIZE](_ => 0), new nat[256](_ => 0), new byte[256](_ => 0);
      var e, f, g := new nat[257](_ => 0), new nat[18](_ => 0), new int[17](_ => 0);
      fast, code, values := a, b, d;
      size, maxcode, delta := e, f, g;
      Repr := {a as object, b as object, d as object, e as object, f as object, g as object};
    }

    ghost predicate Valid()
    {
      && fast.Length == FAST_SIZE && code.Length == 256 && values.Length == 256
      && size.Length == 257 && maxcode.Length == 18 && delta.Length == 17
      && fast in Repr && code in Repr && values in Repr && size in Repr && maxcode in Repr && delta in Repr
      && fast != code && fast != size && fast != maxcode
      && code != size && code != maxcode && size != maxcode
      && (var nats: set<object> := {fast, code, size, maxcode};
          var v: object, d: object := values, delta;
          v !in nats && d !in nats && v != d)
    }

    ghost predicate SizesHold(c: Counts)
      reads size
      requires Valid()
    {
      && Total(c) <= 256 && size[Total(c)] == 0
      && forall k: nat | k < Total(c) :: size[k] == SizeOf(c, k)
    }

    ghost predicate CodesHold(c: Counts, m: nat)
      reads code
      requires Valid() && m <= Total(c) <= 256
    {
      forall k: nat | k < m :: code[k] == CodeOf(c, k, SizeOf(c, k))
    }

    ghost predicate LimitsHold(c: Counts, m: nat)
      reads maxcode, delta
      requires Valid() && m <= 17
    {
      forall n: nat | 1 <= n < m :: LimitsAt(c, n)
    }

    ghost predicate LimitsAt(c: Counts, n: nat)
      reads maxcode, delta
      requires Valid() && 1 <= n <= 16
    {
      maxcode[n] == Limit(c, n) && delta[n] == Shorter(c, n) - FirstCode(c, n)
    }

    ghost predicate FastHolds(c: Counts, m: nat)
      reads fast
      requires Valid() && m <= Total(c)
    {
      forall w: nat | w < FAST_SIZE :: fast[w] == FastEntry(c, m, w)
    }

    /** The tables hold the code with these counts. */
    ghost predicate Holds(c: Counts)
      reads Repr
    {
      && Valid() && Fits(c) && SizesHold(c) && CodesHold(c, Total(c))
      && LimitsHold(c, 17) && maxcode[17] == 0xFFFF_FFFF
      && FastHolds(c, Total(c))
    }

    /** `stbi__build_huffman`: succeeds exactly on the counts of at most 256 symbols that
        have a prefix code, and then holds that code. */
    method Build(count: Counts) returns (ok: bool)
      requires Valid()
      modifies fast, code, size, maxcode, delta
      ensures ok <==> Total(count) <= 256 && Fits(count)
      ensures ok ==> Holds(count)
    {
      ok := ListSizes(count);
      if ok {
        ok := AssignCodes(count);
      }
      if ok {
        SetSentinel(count);
        FillFast(count);
      }
    }

    /** The symbols follow the counts in the file. */
    method SetValues(ghost c: Counts, v: seq<byte>)
      requires Holds(c) && |v| == 256
      modifies values
      ensures Holds(c) && values[..] == v
    {
      forall i | 0 <= i < 256 {
        values[i] := v[i];
      }
    }

    method SetSentinel(c: Counts)
      requires Valid() && LimitsHold(c, 17)
      modifies maxcode
      ensures LimitsHold(c, 17) && maxcode[17] == 0xFFFF_FFFF
    {
      label Before:
      maxcode[17] := 0xFFFF_FFFF;
      forall n: nat | 1 <= n < 17 ensures LimitsAt(c, n) {
        assert old@Before(LimitsAt(c, n));
      }
    }

    method ListSizes(c: Counts) returns (ok: bool)
      requires Valid()
      modifies size
      ensures ok <==> Total(c) <= 256
      ensures ok ==> SizesHold(c)
    {
      hide SizeOf;
      var k: nat := 0;
      var n: nat := 1;
      ok := true;
      while n <= 16 && ok
        invariant 1 <= n <= 17
        invariant ok ==> k == Shorter(c, n) <= 256
        invariant ok ==> forall i: nat | i < k && i < Total(c) :: size[i] == SizeOf(c, i)
        invariant !ok ==> Total(c) > 256
        decreases 17 - n, ok
      {
        k, ok := ListSize(c, n, k);
        if ok {
          n := n + 1;
        }
      }
      if ok {
        size[k] := 0;
      }
    }

    method ListSize(c: Counts, n: nat, k0: nat) returns (k: nat, ok: bool)
      requires Valid() && 1 <= n <= 16 && k0 == Shorter(c, n) <= 256
      requires forall i: nat | i < k0 && i < Total(c) :: size[i] == SizeOf(c, i)
      modifies size
      ensures ok ==> k == Shorter(c, n + 1) <= 256
      ensures ok ==> forall i: nat | i < k && i < Total(c) :: size[i] == SizeOf(c, i)
      ensures !ok ==> Total(c) > 256
    {
      k, ok := k0, true;
      var j: nat := 0;
      while j < c[n] && ok
        invariant j <= c[n] && k == k0 + j
        invariant if ok then k <= 256 else k == 257
        invariant forall i: nat | i < k && i < Total(c) :: size[i] == SizeOf(c, i)
        decreases c[n] - j
      {
        SizeUnique(c, k, n);
        size[k] := n;
        k := k + 1;
        ok := k < 257;
        j := j + 1;
      }
      ShorterMono(c, n, 17);
    }

    /** Within the sorted list, size[k] is n exactly for the symbols of n bits. */
    lemma SizeAt(c: Counts, k: nat, n: nat)
      requires Valid() && SizesHold(c) && 1 <= n <= 16 && Shorter(c, n) <= k <= Shorter(c, n) + c[n]
      ensures k <= Total(c) && (size[k] == n <==> k < Shorter(c, n) + c[n])
    {
      ShorterMono(c, n, 17);
      if k < Shorter(c, n) + c[n] {
        SizeUnique(c, k, n);
      }
    }

    /** The first codes, limits and symbol offsets of each length. */
    method AssignCodes(c: Counts) returns (ok: bool)
      requires Valid() && SizesHold(c)
      modifies code, maxcode, delta
      ensures ok <==> Fits(c)
      ensures ok ==> CodesHold(c, Total(c)) && LimitsHold(c, 17)
    {
      hide SizeOf, Limit;
      var next, k: nat := 0, 0;
      var j: nat := 1;
      ok := true;
      while j <= 16 && ok
        invariant 1 <= j <= 17
        invariant ok ==> k == Shorter(c, j) <= Total(c)
        invariant ok && j <= 16 ==> next == FirstCode(c, j)
        invariant ok ==> CodesHold(c, k) && LimitsHold(c, j)
        invariant ok ==> forall n: nat | 1 <= n < j :: LengthFits(c, n)
        invariant !ok ==> j <= 16 && !LengthFits(c, j)
        decreases 17 - j, ok
      {
        ShorterMono(c, j, 17);
        var first := next;
        ok, next := CodesOfLength(c, j, k, next);
        if ok {
          StoreLimit(c, j, k, first);
          k := k + c[j];
          next := 2 * next;
          j := j + 1;
        }
      }
    }

    /** delta[j] and maxcode[j]. The code's own statements come before and after the codes
        of this length are given out. */
    method StoreLimit(c: Counts, j: nat, k: nat, first: nat)
      requires Valid() && 1 <= j <= 16 && k == Shorter(c, j) && first == FirstCode(c, j)
      requires LimitsHold(c, j)
      modifies maxcode, delta
      ensures LimitsHold(c, j + 1)
    {
      label Before:
      delta[j] := k - first;
      maxcode[j] := Shl(first + c[j], 16 - j);
      forall n: nat | 1 <= n < j + 1 ensures LimitsAt(c, n) {
        if n < j { assert old@Before(LimitsAt(c, n)); }
      }
    }

    method CodesOfLength(c: Counts, j: nat, k0: nat, first: nat) returns (ok: bool, next: nat)
      requires Valid() && SizesHold(c) && 1 <= j <= 16
      requires k0 == Shorter(c, j) && k0 + c[j] <= Total(c) && first == FirstCode(c, j)
      requires CodesHold(c, k0)
      modifies code
      ensures CodesHold(c, k0 + c[j])
      ensures ok <==> LengthFits(c, j)
      ensures next == EndCode(c, j)
    {
      hide Shorter, FirstCode, Pow2;
      var k := k0;
      next, ok := first, true;
      SizeAt(c, k, j);
      if size[k] == j {
        while size[k] == j
          invariant k0 <= k <= k0 + c[j] && next == first + (k - k0)
          invariant CodesHold(c, k) && (size[k] == j <==> k < k0 + c[j])
          decreases k0 + c[j] - k
        {
          SizeUnique(c, k, j);
          code[k] := next;
          k, next := k + 1, next + 1;
          SizeAt(c, k, j);
        }
        ok := next - 1 < Pow2(j);
      }
    }

    // ---- the fast table ---------------------------------------------------------------

    method FillFast(c: Counts)
      requires Valid() && Fits(c) && SizesHold(c) && CodesHold(c, Total(c))
      modifies fast
      ensures FastHolds(c, Total(c))
    {
      var x := 0;
      while x < FAST_SIZE
        invariant 0 <= x <= FAST_SIZE && forall w: nat | w < x :: fast[w] == 255
      {
        fast[x] := 255;
        x := x + 1;
      }
      hide SizeOf, FastEntry, Hit, CodeOf;
      assert FastHolds(c, 0) by { NoEntry(c); }
      var i: nat := 0;
      while i < Total(c)
        invariant i <= Total(c) && FastHolds(c, i)
      {
        EnterSymbol(c, i);
        i := i + 1;
      }
    }

    method EnterSymbol(c: Counts, i: nat)
      requires Valid() && Fits(c) && SizesHold(c) && CodesHold(c, Total(c)) && i < Total(c) && FastHolds(c, i)
      modifies fast
      ensures FastHolds(c, i + 1)
    {
      var s := size[i];
      assert HasCode(c, i, s);
      label Before:
      if s <= FAST_BITS {
        CodeRange(c, i, s);
        var first := Shl(code[i], FAST_BITS - s);
        var m := Pow2(FAST_BITS - s);
        EntriesInTable(code[i], s);
        var j := 0;
        while j < m
          invariant 0 <= j <= m
          invariant forall w: nat | w < FAST_SIZE ::
            fast[w] == if first <= w < first + j then i else old(fast[w])
        {
          fast[first + j] := i;
          j := j + 1;
        }
      }
      forall w: nat | w < FAST_SIZE ensures fast[w] == FastEntry(c, i + 1, w) {
        assert old(fast[w]) == FastEntry(c, i, w);
        HitInterval(c, i, w);
      }
    }
  }

  lemma NoEntry(c: Counts)
    ensures forall w: nat :: FastEntry(c, 0, w) == 255
  {
  }

  lemma EntriesInTable(code: nat, s: nat)
    requires s <= FAST_BITS && code < Pow2(s)
    ensures Shl(code, FAST_BITS - s) + Pow2(FAST_BITS - s) <= FAST_SIZE
  {
    ShlMono(code, Pow2(s), FAST_BITS - s);
    ShlShl(1, s, FAST_BITS - s);
    assert Pow2(FAST_BITS) == FAST_SIZE;
  }

  /** The words that start with a code are consecutive. */
  lemma HitInterval(c: Counts, k: nat, w: nat)
    requires k < Total(c)
    ensures var n := SizeOf(c, k);
            var code := CodeOf(c, k, n);
            Hit(c, k, w) <==>
              n <= FAST_BITS && Shl(code, FAST_BITS - n) <= w < Shl(code, FAST_BITS - n) + Pow2(FAST_BITS - n)
  {
    var n := SizeOf(c, k);
    if n <= FAST_BITS {
      var code := CodeOf(c, k, n);
      ShrLess(w, code, FAST_BITS - n);
      ShrLess(w, code + 1, FAST_BITS - n);
      ShlAdd(code, 1, FAST_BITS - n);
    }
  }

  // ---- symbols with their magnitude bits ----------------------------------------------

  /** The value of n magnitude bits (T.81 table F.1 and F.2.2.1): EXTEND. */
  function Extend(v: nat, n: nat): int
    requires n > 0
  {
    if v < Pow2(n - 1) then v - Pow2(n) + 1 else v
  }

  /** The magnitude bits as the table builder takes them out of a 9-bit word. */
  lemma MagnitudeBits(v: nat, n: nat, mag: nat, size: nat)
    requires n + mag <= size
    ensures Shr(Low(Shl(Rev(v, size), n), size), size - mag) == Rev(Shr(v, n), mag)
  {
    hide *;
    var y, m := Shr(v, n), size - n;
    RevSplit(v, n, m);
    ShlAdd(Shl(Rev(v, n), m), Rev(y, m), n);
    ShlShl(Rev(v, n), m, n);
    RevBound(y, m);
    ShlMono(Rev(y, m), Pow2(m), n);
    ShlShl(1, m, n);
    PowIsShl(m, n);
    Join(Shl(Rev(y, m), n), Rev(v, n), size);
    RevTop(y, mag, m);
    ShrShr(Shl(Rev(y, m), n), n, m - mag);
    ShlZero(n);
    Join0(Rev(y, m), n);
  }

  lemma PowIsShl(m: nat, n: nat)
    ensures Shl(Pow2(m), n) == Pow2(m + n)
  {
    ShlShl(1, m, n);
  }

  lemma Join0(x: nat, n: nat)
    ensures Shr(Shl(x, n), n) == x
  {
    Join(0, x, n);
  }
}
