/** `stbi__zhuffman`: the reader's decoding tables for one prefix code. Codes of up to 9
    bits are found in `fast`, longer ones through the limits in `maxcode`. */
module ZHuffmanTables {
  import opened BitMath
  import opened BitReversal
  import opened Canonical
  import opened ZCodes

  const FAST_BITS := 9
  const FAST_SIZE := 512
  const NSYMS := 288

  /** The fast-table entry of j, among the first m symbols: `(size << 9) | symbol` for a
      symbol of at most 9 bits whose code starts j, or 0. */
  function FastEntry(lens: Lengths, m: nat, j: nat): nat
    requires m <= |lens|
  {
    if m == 0 then 0
    else if lens[m - 1] <= FAST_BITS && Matches(lens, m - 1, j) then lens[m - 1] * FAST_SIZE + (m - 1)
    else FastEntry(lens, m - 1, j)
  }

  lemma {:induction false} FastEntryMeaning(lens: Lengths, m: nat, j: nat)
    requires m <= |lens| <= NSYMS
    ensures var e := FastEntry(lens, m, j);
            if e == 0 then forall i | 0 <= i < m && lens[i] <= FAST_BITS :: !Matches(lens, i, j)
            else var i := e % FAST_SIZE; i < m && Matches(lens, i, j) && lens[i] == e / FAST_SIZE <= FAST_BITS
  {
    if m != 0 {
      FastEntryMeaning(lens, m - 1, j);
    }
  }

  /** A short code is recognised by the low 9 bits of the stream. */
  lemma FastBitsSuffice(lens: Lengths, i: nat, v: nat)
    requires Used(lens, i) && lens[i] <= FAST_BITS
    ensures Matches(lens, i, Low(v, FAST_BITS)) <==> Matches(lens, i, v)
  {
    var n := lens[i];
    RevLow(v, n);
    RevLow(Low(v, FAST_BITS), n);
    LowLow(v, n, FAST_BITS - n);
  }

  ghost predicate FitsUpTo(c: Counts, n: nat)
  {
    forall s | 1 <= s <= 16 && s < n :: LengthFits(c, s)
  }

  lemma FitsAll(lens: Lengths)
    requires FitsUpTo(CountsOf(lens), 16)
    ensures Accepted(lens)
  {
    CountTooLong(lens, |lens|);
    assert LengthFits(CountsOf(lens), 16);
  }

  lemma NoneCounted(lens: Lengths)
    ensures forall n: nat :: Count(lens, n, 0) == 0
  {
  }

  lemma NoEntries(lens: Lengths)
    ensures forall j: nat :: FastEntry(lens, 0, j) == 0
  {
  }

  lemma OneMoreCounted(lens: Lengths, i: nat)
    requires i < |lens|
    ensures forall n: nat :: Count(lens, n, i + 1) == Count(lens, n, i) + if lens[i] == n then 1 else 0
    ensures lens[i] == 0 ==> forall j: nat :: FastEntry(lens, i + 1, j) == FastEntry(lens, i, j)
  {
  }

  class ZHuffman {
    const fast: array<nat>
    const firstcode: array<nat>
    const maxcode: array<nat>
    const firstsymbol: array<nat>
    const size: array<nat>
    const value: array<nat>
    ghost const Repr: set<object>

    constructor ()
      ensures Valid()
      ensures fresh(Repr)
    {
      var a, b, c := new nat[FAST_SIZE](_ => 0), new nat[16](_ => 0), new nat[17](_ => 0);
      var d, e, f := new nat[16](_ => 0), new nat[NSYMS](_ => 0), new nat[NSYMS](_ => 0);
      fast, firstcode, maxcode := a, b, c;
      firstsymbol, size, value := d, e, f;
      Repr := {a, b, c, d, e, f};
    }

    ghost predicate Valid()
    {
      && fast.Length == FAST_SIZE && firstcode.Length == 16 && maxcode.Length == 17
      && firstsymbol.Length == 16 && size.Length == NSYMS && value.Length == NSYMS
      && {fast, firstcode, maxcode, firstsymbol, size, value} <= Repr
      && fast != firstcode && fast != maxcode && fast != firstsymbol && fast != size && fast != value
      && firstcode != maxcode && firstcode != firstsymbol && firstcode != size && firstcode != value
      && maxcode != firstsymbol && maxcode != size && maxcode != value
      && firstsymbol != size && firstsymbol != value && size != value
    }

    ghost predicate SortedUpTo(lens: Lengths, m: nat)
      reads size, value
      requires Valid() && m <= |lens| <= NSYMS
    {
      forall i | 0 <= i < m && lens[i] > 0 ::
        (RankBound(lens, i); value[Rank(lens, i)] == i && size[Rank(lens, i)] == lens[i])
    }

    ghost predicate FastUpTo(lens: Lengths, m: nat)
      reads fast
      requires Valid() && m <= |lens|
    {
      forall j | 0 <= j < FAST_SIZE :: fast[j] == FastEntry(lens, m, j)
    }

    ghost predicate LimitsUpTo(c: Counts, n: nat)
      reads firstcode, maxcode, firstsymbol
      requires Valid() && n <= 16
    {
      forall s | 1 <= s < n :: LimitsAt(c, s)
    }

    ghost predicate LimitsAt(c: Counts, s: nat)
      reads firstcode, maxcode, firstsymbol
      requires Valid() && 1 <= s < 16
    {
      firstcode[s] == FirstCode(c, s) && maxcode[s] == Limit(c, s) && firstsymbol[s] == Shorter(c, s)
    }

    /** These tables hold the prefix code of `lens`. */
    ghost predicate Holds(lens: Lengths)
      reads Repr
    {
      && Valid()
      && |lens| <= NSYMS
      && Accepted(lens)
      && FastUpTo(lens, |lens|)
      && LimitsUpTo(CountsOf(lens), 16) && maxcode[16] == 0x10000
      && SortedUpTo(lens, |lens|)
    }

    /** `stbi__zbuild_huffman`: succeeds exactly on the length lists that have a prefix
        code, and then holds that code. */
    method Build(sizelist: Lengths) returns (ok: bool)
      requires Valid() && |sizelist| <= NSYMS
      modifies Repr
      ensures ok <==> Accepted(sizelist)
      ensures ok ==> Holds(sizelist)
    {
      ClearFast(sizelist);
      var sizes := CountSizes(sizelist);
      var next_code;
      ok, next_code := AssignCodes(sizelist, sizes);
      if !ok { return; }
      SetSentinel(sizelist);
      EnterAll(sizelist, next_code);
    }

    method SetSentinel(ghost lens: Lengths)
      requires Valid() && LimitsUpTo(CountsOf(lens), 16)
      modifies maxcode
      ensures LimitsUpTo(CountsOf(lens), 16) && maxcode[16] == 0x10000
    {
      label Before:
      maxcode[16] := 0x10000;
      forall s | 1 <= s < 16 ensures LimitsAt(CountsOf(lens), s) {
        assert old@Before(LimitsAt(CountsOf(lens), s));
      }
    }

    method ClearFast(ghost lens: Lengths)
      requires Valid()
      modifies fast
      ensures FastUpTo(lens, 0)
    {
      for i := 0 to FAST_SIZE
        invariant forall j | 0 <= j < i :: fast[j] == 0
      {
        fast[i] := 0;
      }
    }

    method EnterAll(sizelist: Lengths, first_code: seq<nat>)
      requires Valid() && |sizelist| <= NSYMS && Accepted(sizelist)
      requires LimitsUpTo(CountsOf(sizelist), 16) && FastUpTo(sizelist, 0)
      requires |first_code| == 17
      requires forall n | 1 <= n <= 15 :: first_code[n] == FirstCode(CountsOf(sizelist), n)
      modifies fast, size, value
      ensures FastUpTo(sizelist, |sizelist|) && SortedUpTo(sizelist, |sizelist|)
    {
      hide FirstCode, Count, Shorter, FastEntry;
      NoneCounted(sizelist);
      NoEntries(sizelist);
      var next_code := first_code;
      for i := 0 to |sizelist|
        invariant |next_code| == 17
        invariant forall n | 1 <= n <= 15 :: next_code[n] == FirstCode(CountsOf(sizelist), n) + Count(sizelist, n, i)
        invariant LimitsUpTo(CountsOf(sizelist), 16)
        invariant FastUpTo(sizelist, i) && SortedUpTo(sizelist, i)
      {
        var s := sizelist[i];
        OneMoreCounted(sizelist, i);
        if s != 0 {
          EnterSymbol(sizelist, i, next_code[s]);
          next_code := next_code[s := next_code[s] + 1];
        }
      }
    }

    static method CountSizes(sizelist: Lengths) returns (sizes: seq<nat>)
      ensures sizes == CountsOf(sizelist)
    {
      sizes := seq(17, _ => 0);
      for i := 0 to |sizelist|
        invariant |sizes| == 17
        invariant forall n | 0 <= n < 17 :: sizes[n] == Count(sizelist, n, i)
      {
        sizes := sizes[sizelist[i] := sizes[sizelist[i]] + 1];
      }
      sizes := sizes[0 := 0];
    }

    /** The first code of each length, with the limits used by the slow path. */
    method AssignCodes(ghost lens: Lengths, sizes: seq<nat>) returns (ok: bool, next_code: seq<nat>)
      requires Valid() && |lens| <= NSYMS && sizes == CountsOf(lens)
      modifies firstcode, maxcode, firstsymbol
      ensures ok <==> Accepted(lens)
      ensures ok ==> LimitsUpTo(sizes, 16)
      ensures |next_code| == 17
      ensures ok ==> forall n | 1 <= n <= 15 :: next_code[n] == FirstCode(sizes, n)
    {
      next_code := seq(17, _ => 0);
      ok := CheckSizes(sizes);
      if !ok { return; }
      var code, k := 0, 0;
      for i := 1 to 16
        invariant code == FirstCode(sizes, i) && k == Shorter(sizes, i)
        invariant FitsUpTo(sizes, i) && LimitsUpTo(sizes, i)
        invariant |next_code| == 17 && forall n | 1 <= n < i :: next_code[n] == FirstCode(sizes, n)
      {
        next_code := next_code[i := code];
        if sizes[i] != 0 {
          if code + sizes[i] - 1 >= Pow2(i) {
            assert !LengthFits(sizes, i);
            return false, next_code;
          }
        }
        StoreLength(sizes, i, code, k);
        code := 2 * (code + sizes[i]);
        k := k + sizes[i];
      }
      FitsAll(lens);
    }

    method StoreLength(sizes: Counts, i: nat, code: nat, k: nat)
      requires Valid() && 1 <= i < 16 && LimitsUpTo(sizes, i)
      requires code == FirstCode(sizes, i) && k == Shorter(sizes, i)
      modifies firstcode, maxcode, firstsymbol
      ensures LimitsUpTo(sizes, i + 1)
    {
      label Before:
      firstcode[i] := code;
      firstsymbol[i] := k;
      maxcode[i] := Shl(code + sizes[i], 16 - i); // preshift for the search
      forall s | 1 <= s < i + 1 ensures LimitsAt(sizes, s) {
        if s < i { assert old@Before(LimitsAt(sizes, s)); }
      }
    }

    static method CheckSizes(sizes: Counts) returns (ok: bool)
      ensures !ok ==> !Fits(sizes)
    {
      for i := 1 to 16 {
        if sizes[i] > Pow2(i) {
          assert !LengthFits(sizes, i);
          return false;
        }
      }
      ok := true;
    }

    /** One symbol into the sorted list and, if its code is short, into every fast entry
        that its code starts. */
    method EnterSymbol(lens: Lengths, i: nat, code: nat)
      requires Valid() && |lens| <= NSYMS && Accepted(lens)
      requires Used(lens, i) && code == Code(lens, i)
      requires LimitsUpTo(CountsOf(lens), 16)
      requires FastUpTo(lens, i) && SortedUpTo(lens, i)
      modifies fast, size, value
      ensures FastUpTo(lens, i + 1) && SortedUpTo(lens, i + 1)
    {
      StoreSorted(lens, i, code);
      if lens[i] <= FAST_BITS {
        FillFast(lens, i, code);
      }
    }

    method StoreSorted(lens: Lengths, i: nat, code: nat)
      requires Valid() && |lens| <= NSYMS
      requires Used(lens, i) && code == Code(lens, i)
      requires LimitsUpTo(CountsOf(lens), 16) && SortedUpTo(lens, i)
      modifies size, value
      ensures SortedUpTo(lens, i + 1)
    {
      hide CountsOf, FirstCode, Shorter, Count;
      var s := lens[i];
      assert LimitsAt(CountsOf(lens), s);
      var c := code - firstcode[s] + firstsymbol[s];
      RankBound(lens, i);
      assert c == Rank(lens, i);
      size[c] := s;
      value[c] := i;
      forall j | 0 <= j < i && lens[j] > 0
        ensures (RankBound(lens, j); value[Rank(lens, j)] == j && size[Rank(lens, j)] == lens[j])
      {
        RankBound(lens, j);
        if Rank(lens, j) == c { RankInjective(lens, i, j); }
      }
    }

    method FillFast(lens: Lengths, i: nat, code: nat)
      requires Valid() && |lens| <= NSYMS && Accepted(lens)
      requires Used(lens, i) && lens[i] <= FAST_BITS && code == Code(lens, i)
      requires FastUpTo(lens, i)
      modifies fast
      ensures FastUpTo(lens, i + 1)
    {
      hide FastEntry, Low, Shl, Rev, Code, Accepted, BitReverse;
      var s := lens[i];
      var fastv := s * FAST_SIZE + i; // (s << 9) | i, as i < 512
      assert fastv < 0x10000;
      var j := BitReverse(code, s);
      BitReverseIsRev(code, s);
      RevBound(code, s);
      ghost var t := 0;
      ShlZero(s);
      while j < FAST_SIZE
        invariant j == Rev(code, s) + Shl(t, s)
        invariant forall x | 0 <= x < FAST_SIZE ::
          fast[x] == if Low(x, s) == Rev(code, s) && x < j then fastv else FastEntry(lens, i, x)
        decreases FAST_SIZE - j
      {
        SameResidues(Rev(code, s), t, s);
        Join(Rev(code, s), t, s);
        fast[j] := fastv;
        ShlAdd(t, 1, s);
        j := j + Pow2(s);
        t := t + 1;
      }
      NewEntry(lens, i);
    }
  }

  /** The next symbol changes the entries that start with its packed code. */
  lemma NewEntry(lens: Lengths, i: nat)
    requires Accepted(lens) && Used(lens, i) && lens[i] <= FAST_BITS
    ensures forall x: nat :: FastEntry(lens, i + 1, x) ==
              if Low(x, lens[i]) == Rev(Code(lens, i), lens[i]) then lens[i] * FAST_SIZE + i else FastEntry(lens, i, x)
  {
    forall x: nat ensures FastEntry(lens, i + 1, x) ==
        if Low(x, lens[i]) == Rev(Code(lens, i), lens[i]) then lens[i] * FAST_SIZE + i else FastEntry(lens, i, x)
    {
      PackedCodeMatches(lens, i, x);
    }
  }

  lemma SameResidues(r: nat, t: nat, s: nat)
    requires r < Pow2(s)
    ensures forall x: nat | Low(x, s) == r :: x < r + Shl(t, s) + Pow2(s) <==> x <= r + Shl(t, s)
  {
    forall x: nat | Low(x, s) == r
      ensures x < r + Shl(t, s) + Pow2(s) <==> x <= r + Shl(t, s)
    {
      SameResidue(x, r, t, s);
    }
  }

  /** Of the words with the same low s bits, the next after r + t*2^s is 2^s away. */
  lemma SameResidue(x: nat, r: nat, t: nat, s: nat)
    requires Low(x, s) == r && r < Pow2(s)
    ensures x < r + Shl(t, s) + Pow2(s) <==> x <= r + Shl(t, s)
  {
    Split(x, s);
    var q := Shr(x, s);
    if q <= t {
      ShlMono(q, t, s);
    } else {
      ShlMono(t, q, s);
    }
  }
}
