/** The prefix code that a list of code lengths stands for (RFC 1951 section 3.2.2):
    symbol i has a code of lens[i] bits, 0 meaning that i is not used. */
module ZCodes {
  import opened BitMath
  import opened Canonical

  type Lengths = s: seq<nat> | forall i | 0 <= i < |s| :: s[i] <= 15

  /** How many of the first m symbols have a code of n bits. */
  function Count(lens: Lengths, n: nat, m: nat): (r: nat)
    requires m <= |lens|
    ensures r <= m
  {
    if m == 0 then 0 else Count(lens, n, m - 1) + if lens[m - 1] == n then 1 else 0
  }

  function CountsOf(lens: Lengths): Counts
  {
    seq(17, (n: nat) => if n == 0 then 0 else Count(lens, n, |lens|))
  }

  /** Section 3.2.2, step 3: codes of one length are consecutive, in symbol order. */
  function Code(lens: Lengths, i: nat): nat
    requires i < |lens| && lens[i] > 0
  {
    FirstCode(CountsOf(lens), lens[i]) + Count(lens, lens[i], i)
  }

  ghost predicate Accepted(lens: Lengths)
  {
    Fits(CountsOf(lens))
  }

  predicate Used(lens: Lengths, i: nat)
  {
    i < |lens| && lens[i] > 0
  }

  /** The bit stream v starts with the code of symbol i: its first lens[i] bits, taken
      most significant first as section 3.1.1 says, are that code. */
  predicate Matches(lens: Lengths, i: nat, v: nat)
  {
    Used(lens, i) && Rev(v, lens[i]) == Code(lens, i)
  }

  // ---- counting -----------------------------------------------------------------------

  lemma {:induction false} CountMono(lens: Lengths, n: nat, i: nat, m: nat)
    requires i <= m <= |lens|
    ensures Count(lens, n, i) <= Count(lens, n, m)
    ensures i < m && lens[i] == n ==> Count(lens, n, i) < Count(lens, n, m)
    decreases m
  {
    if i < m { CountMono(lens, n, i, m - 1); }
  }

  lemma CodeInRange(lens: Lengths, i: nat)
    requires Used(lens, i)
    ensures var c := CountsOf(lens); FirstCode(c, lens[i]) <= Code(lens, i) < EndCode(c, lens[i])
    ensures Accepted(lens) ==> Code(lens, i) < Pow2(lens[i])
  {
    CountMono(lens, lens[i], i, |lens|);
    assert Accepted(lens) ==> LengthFits(CountsOf(lens), lens[i]);
  }

  /** Symbol number r among those of n bits. */
  function {:induction false} Nth(lens: Lengths, n: nat, r: nat, m: nat): (i: nat)
    requires m <= |lens| && r < Count(lens, n, m)
    ensures i < m && lens[i] == n && Count(lens, n, i) == r
  {
    if lens[m - 1] == n && Count(lens, n, m - 1) == r then m - 1 else Nth(lens, n, r, m - 1)
  }

  /** The place of symbol i when symbols are sorted by code. */
  function Rank(lens: Lengths, i: nat): nat
    requires Used(lens, i)
  {
    Shorter(CountsOf(lens), lens[i]) + Count(lens, lens[i], i)
  }

  lemma {:induction false} ShorterMono(c: Counts, m: nat, n: nat)
    requires 1 <= m < n <= 17
    ensures Shorter(c, m) + c[m] <= Shorter(c, n)
    decreases n
  {
    if m < n - 1 { ShorterMono(c, m, n - 1); }
  }

  /** Of the first m symbols, how many have codes shorter than n. */
  function ShorterUpTo(lens: Lengths, n: nat, m: nat): nat
    requires 1 <= n && m <= |lens|
  {
    if n == 1 then 0 else ShorterUpTo(lens, n - 1, m) + Count(lens, n - 1, m)
  }

  lemma {:induction false} ShorterStep(lens: Lengths, n: nat, m: nat)
    requires 1 <= n && m < |lens|
    ensures ShorterUpTo(lens, n, m + 1) == ShorterUpTo(lens, n, m) + if 1 <= lens[m] < n then 1 else 0
  {
    if n != 1 { ShorterStep(lens, n - 1, m); }
  }

  lemma {:induction false} ShorterBound(lens: Lengths, n: nat, m: nat)
    requires 1 <= n && m <= |lens|
    ensures ShorterUpTo(lens, n, m) <= m
  {
    if m == 0 {
      ShorterNone(lens, n);
    } else {
      ShorterBound(lens, n, m - 1);
      ShorterStep(lens, n, m - 1);
    }
  }

  lemma {:induction false} ShorterNone(lens: Lengths, n: nat)
    requires 1 <= n
    ensures ShorterUpTo(lens, n, 0) == 0
  {
    if n != 1 { ShorterNone(lens, n - 1); }
  }

  lemma {:induction false} ShorterAll(lens: Lengths, n: nat)
    requires 1 <= n <= 17
    ensures Shorter(CountsOf(lens), n) == ShorterUpTo(lens, n, |lens|)
  {
    if n != 1 { ShorterAll(lens, n - 1); }
  }

  lemma TotalBound(lens: Lengths)
    ensures Shorter(CountsOf(lens), 17) <= |lens|
  {
    ShorterAll(lens, 17);
    ShorterBound(lens, 17, |lens|);
  }

  lemma RankBound(lens: Lengths, i: nat)
    requires Used(lens, i)
    ensures Rank(lens, i) < |lens|
  {
    CountMono(lens, lens[i], i, |lens|);
    ShorterMono(CountsOf(lens), lens[i], 17);
    TotalBound(lens);
  }

  lemma RankInjective(lens: Lengths, i: nat, j: nat)
    requires Used(lens, i) && Used(lens, j) && Rank(lens, i) == Rank(lens, j)
    ensures i == j
  {
    var c := CountsOf(lens);
    CountMono(lens, lens[i], i, |lens|);
    CountMono(lens, lens[j], j, |lens|);
    if lens[i] < lens[j] {
      ShorterMono(c, lens[i], lens[j]);
    } else if lens[j] < lens[i] {
      ShorterMono(c, lens[j], lens[i]);
    } else if i < j {
      CountMono(lens, lens[i], i, j);
    } else if j < i {
      CountMono(lens, lens[i], j, i);
    }
  }

  // ---- what makes the code decodable --------------------------------------------------

  /** A stream matches a symbol through its first 16 bits, most significant first. */
  lemma MatchesWord(lens: Lengths, i: nat, v: nat)
    requires Used(lens, i)
    ensures Matches(lens, i, v) <==> StartsCode(Rev(v, 16), Code(lens, i), lens[i])
  {
    RevTop(v, lens[i], 16);
  }

  /** At most one symbol matches: decoding is deterministic. */
  lemma MatchUnique(lens: Lengths, i: nat, j: nat, v: nat)
    requires Matches(lens, i, v) && Matches(lens, j, v)
    ensures i == j
  {
    MatchesWord(lens, i, v);
    MatchesWord(lens, j, v);
    CodeInRange(lens, i);
    CodeInRange(lens, j);
    LengthUnique(CountsOf(lens), Rev(v, 16), lens[i], lens[j]);
    if i < j {
      CountMono(lens, lens[i], i, j);
    } else if j < i {
      CountMono(lens, lens[i], j, i);
    }
  }

  /** No code is a prefix of another. */
  lemma PrefixFree(lens: Lengths, i: nat, j: nat)
    requires Accepted(lens) && Used(lens, i) && Used(lens, j) && i != j && lens[i] <= lens[j]
    ensures Shr(Code(lens, j), lens[j] - lens[i]) != Code(lens, i)
  {
    if Shr(Code(lens, j), lens[j] - lens[i]) == Code(lens, i) {
      var v := Rev(Code(lens, j), lens[j]);
      CodeInRange(lens, j);
      RevRev(Code(lens, j), lens[j]);
      LowFits(Code(lens, j), lens[j]);
      RevTop(v, lens[i], lens[j]);
      MatchUnique(lens, i, j, v);
    }
  }

  /** The code of a symbol, packed as section 3.1.1 says, followed by any bits, matches
      that symbol; and whatever matches it starts with that packed code. */
  lemma PackedCodeMatches(lens: Lengths, i: nat, v: nat)
    requires Accepted(lens) && Used(lens, i)
    ensures Matches(lens, i, v) <==> Low(v, lens[i]) == Rev(Code(lens, i), lens[i])
  {
    var n, x := lens[i], Code(lens, i);
    CodeInRange(lens, i);
    RevRev(v, n);
    RevRev(x, n);
    LowFits(x, n);
    RevLow(v, n);
  }

  /** A word between the limits of length s - 1 and s starts with the code of exactly the
      symbol found by counting from the first code of length s. */
  lemma WordToSymbol(lens: Lengths, v: nat, s: nat) returns (i: nat)
    requires 1 <= s <= 16
    requires Limit(CountsOf(lens), s - 1) <= Rev(v, 16) < Limit(CountsOf(lens), s)
    ensures Matches(lens, i, v) && lens[i] == s
    ensures Rank(lens, i) == Shr(Rev(v, 16), 16 - s) - FirstCode(CountsOf(lens), s) + Shorter(CountsOf(lens), s)
  {
    var c := CountsOf(lens);
    FirstLimit(c, Rev(v, 16), s);
    i := Nth(lens, s, Shr(Rev(v, 16), 16 - s) - FirstCode(c, s), |lens|);
    MatchesWord(lens, i, v);
  }

  /** A word past the limit of length s starts with no code of at most s bits. */
  lemma NoShortMatch(lens: Lengths, v: nat, s: nat, i: nat)
    requires 1 <= s <= 16 && Limit(CountsOf(lens), s) <= Rev(v, 16)
    requires Used(lens, i) && lens[i] <= s
    ensures !Matches(lens, i, v)
  {
    MatchesWord(lens, i, v);
    CodeInRange(lens, i);
    PastLimit(CountsOf(lens), Rev(v, 16), s, lens[i]);
  }

  // ---- the Kraft inequality -----------------------------------------------------------

  /** Each symbol of n bits takes 2^(15-n) of the 2^15 words of 15 bits. */
  function KraftSum(lens: Lengths, m: nat): nat
    requires m <= |lens|
  {
    if m == 0 then 0 else KraftSum(lens, m - 1) + if lens[m - 1] > 0 then Pow2(15 - lens[m - 1]) else 0
  }

  function KraftUpTo(lens: Lengths, m: nat, n: nat): nat
    requires m <= |lens| && n <= 15
  {
    if m == 0 then 0 else KraftUpTo(lens, m - 1, n) + if 1 <= lens[m - 1] <= n then Pow2(15 - lens[m - 1]) else 0
  }

  lemma {:induction false} KraftStep(lens: Lengths, m: nat, n: nat)
    requires m <= |lens| && 1 <= n <= 15
    ensures KraftUpTo(lens, m, n) == KraftUpTo(lens, m, n - 1) + Shl(Count(lens, n, m), 15 - n)
  {
    if m == 0 {
      ShlZero(15 - n);
    } else {
      KraftStep(lens, m - 1, n);
      ShlAdd(Count(lens, n, m - 1), 1, 15 - n);
    }
  }

  lemma {:induction false} KraftIsLimit(lens: Lengths, n: nat)
    requires n <= 15
    ensures 2 * KraftUpTo(lens, |lens|, n) == Limit(CountsOf(lens), n)
  {
    if n == 0 {
      KraftNone(lens, |lens|);
    } else {
      KraftIsLimit(lens, n - 1);
      KraftStep(lens, |lens|, n);
      LimitStep(CountsOf(lens), n);
    }
  }

  lemma {:induction false} KraftNone(lens: Lengths, m: nat)
    requires m <= |lens|
    ensures KraftUpTo(lens, m, 0) == 0
  {
    if m != 0 { KraftNone(lens, m - 1); }
  }

  lemma {:induction false} KraftAll(lens: Lengths, m: nat)
    requires m <= |lens|
    ensures KraftUpTo(lens, m, 15) == KraftSum(lens, m)
  {
    if m != 0 { KraftAll(lens, m - 1); }
  }

  lemma {:induction false} CountTooLong(lens: Lengths, m: nat)
    requires m <= |lens|
    ensures Count(lens, 16, m) == 0
  {
    if m != 0 { CountTooLong(lens, m - 1); }
  }

  /** A length list has a prefix code exactly when it satisfies the Kraft inequality. */
  lemma AcceptedIsKraft(lens: Lengths)
    ensures Accepted(lens) <==> KraftSum(lens, |lens|) <= Pow2(15)
  {
    var c := CountsOf(lens);
    KraftIsLimit(lens, 15);
    KraftAll(lens, |lens|);
    CountTooLong(lens, |lens|);
    LimitStep(c, 16);
    FitsIsKraft(c);
    Pow2Values();
  }
}
