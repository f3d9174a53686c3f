/** How `stbi_zlib_compress` finds matches: hash chains of earlier positions, the longest
    match in a chain, and the buckets of lengths and distances. */
module ZMatcher {
  import opened BitMath
  import opened LZ77
  import opened Deflate

  const ZHASH := 16384

  /** How far the data at p and at i agree, counting on from n; at most 258. */
  function AgreeFrom(data: seq<byte>, p: nat, i: nat, n: nat): (r: nat)
    requires p <= i && i + n <= |data| && n <= 258
    ensures n <= r <= 258 && i + r <= |data|
    decreases |data| - i - n
  {
    if i + n < |data| && n < 258 && data[p + n] == data[i + n] then AgreeFrom(data, p, i, n + 1) else n
  }

  /** The length of the match of position i with the earlier position p. */
  function MatchLength(data: seq<byte>, p: nat, i: nat): nat
    requires p <= i <= |data|
  {
    AgreeFrom(data, p, i, 0)
  }

  lemma Longer(s: seq<byte>, a: nat, b: nat, n: nat)
    requires n > 0 && a + n <= |s| && b + n <= |s| && s[a] == s[b] && s[a + 1..a + n] == s[b + 1..b + n]
    ensures s[a..a + n] == s[b..b + n]
  {
    assert s[a..a + n] == [s[a]] + s[a + 1..a + n];
    assert s[b..b + n] == [s[b]] + s[b + 1..b + n];
  }

  lemma {:induction false} AgreeMeaning(data: seq<byte>, p: nat, i: nat, n: nat, r: nat)
    requires p <= i && i + n <= |data| && n <= 258 && r == AgreeFrom(data, p, i, n)
    ensures data[p + n..p + r] == data[i + n..i + r]
    ensures i + r < |data| && r < 258 ==> data[p + r] != data[i + r]
    decreases |data| - i - n
  {
    if n < r {
      AgreeMeaning(data, p, i, n + 1, r);
      hide AgreeFrom;
      Longer(data, p + n, i + n, r - n);
    }
  }

  /** `stbiw__zlib_countm`. */
  method CountMatch(data: seq<byte>, p: nat, i: nat, limit: nat) returns (n: nat)
    requires p <= i && i + limit == |data|
    ensures n == MatchLength(data, p, i)
    ensures n <= limit && n <= 258 && data[p..p + n] == data[i..i + n]
    ensures n < limit && n < 258 ==> data[p + n] != data[i + n]
  {
    n := 0;
    while n < limit && n < 258
      invariant n <= limit && n <= 258
      invariant AgreeFrom(data, p, i, 0) == AgreeFrom(data, p, i, n)
      decreases limit - n
    {
      if data[p + n] != data[i + n] { break; }
      n := n + 1;
    }
    AgreeMeaning(data, p, i, 0, n);
  }

  /** Whatever two places agree in, up to 258 bytes, the match is no shorter. */
  lemma {:induction false} AgreeAtLeast(data: seq<byte>, p: nat, i: nat, n: nat, m: nat)
    requires p <= i && n <= m <= 258 && i + m <= |data| && data[p..p + m] == data[i..i + m]
    ensures AgreeFrom(data, p, i, n) >= m
    decreases m - n
  {
    if n < m {
      assert data[p..p + m][n] == data[i..i + m][n];
      AgreeAtLeast(data, p, i, n + 1, m);
    }
  }

  /** A match really repeats what lies that far back. */
  lemma MatchRepeats(data: seq<byte>, p: nat, i: nat, len: nat)
    requires p < i && i <= |data| && len <= MatchLength(data, p, i)
    ensures i + len <= |data| && CopyBack(data[..i], i - p, len) == data[..i + len]
  {
    AgreeMeaning(data, p, i, 0, MatchLength(data, p, i));
    var m, r, d := MatchLength(data, p, i), data[..i + len], i - p;
    forall k | i <= k < i + len ensures r[k] == r[k - d] {
      assert data[p..p + m][k - i] == data[i..i + m][k - i];
    }
    CopyBackUnique(data[..i], d, len, r);
  }

  /** `stbiw__zhash` on the three bytes at i, in 32-bit arithmetic. */
  function Mix(a: bv32, b: bv32, c: bv32): bv32
  {
    var hash := a + (b << 8) + (c << 16);
    var hash := hash ^ (hash << 3);
    var hash := hash + (hash >> 5);
    var hash := hash ^ (hash << 4);
    var hash := hash + (hash >> 17);
    var hash := hash ^ (hash << 25);
    hash + (hash >> 6)
  }

  function Hash(data: seq<byte>, i: nat): (h: nat)
    requires i + 3 <= |data|
    ensures h < ZHASH
  {
    var mix := Mix(data[i] as bv32, data[i + 1] as bv32, data[i + 2] as bv32);
    (mix & 0x3FFF) as bv14 as nat
  }

  /** Some values of the hash, before it is cut to fourteen bits. */
  lemma MixValues()
    ensures Mix(0x61, 0x62, 0x63) == 0x04EA_F783 && Mix(1, 2, 3) == 0xBA83_D8EA && Mix(0xFF, 0xFF, 0xFF) == 0xD603_1BBE
    ensures Mix(0, 0, 0) == 0
  {
  }

  /** A chain of positions before i, at most 2q of them. */
  predicate ChainOk(chain: seq<nat>, i: nat, q: nat)
  {
    |chain| <= 2 * q && forall k | 0 <= k < |chain| :: chain[k] < i
  }

  /** The best match for position i among the first n of a chain: at least 3 bytes, within
      the window, no other one in the window longer, and no later one as long. */
  ghost predicate BestOf(data: seq<byte>, chain: seq<nat>, n: nat, i: nat, found: bool, loc: nat, best: nat)
    requires n <= |chain| && i <= |data| && forall k | 0 <= k < |chain| :: chain[k] < i
  {
    && (found ==> loc < i < loc + 32768 && best == MatchLength(data, loc, i) && best >= 3 &&
                  LastBest(data, chain, n, i, loc, best))
    && (!found ==> best == 3)
    && (forall k | 0 <= k < n && i < chain[k] + 32768 ::
          MatchLength(data, chain[k], i) <= best && (!found ==> MatchLength(data, chain[k], i) < 3))
  }

  ghost predicate LastBest(data: seq<byte>, chain: seq<nat>, n: nat, i: nat, loc: nat, best: nat)
    requires n <= |chain| && i <= |data| && forall k | 0 <= k < |chain| :: chain[k] < i
  {
    exists m :: 0 <= m < n && chain[m] == loc && forall k | m < k < n
      && i < chain[k] + 32768 :: MatchLength(data, chain[k], i) < best
  }

  /** A longer match than `best` starts one byte later. */
  ghost predicate LongerLater(data: seq<byte>, chain: seq<nat>, i: nat, best: nat)
    requires i < |data| && forall k | 0 <= k < |chain| :: chain[k] <= i
  {
    exists k :: 0 <= k < |chain| && i < chain[k] + 32767 && MatchLength(data, chain[k], i + 1) > best
  }

  /** The rule for position i, with the chain of its own hash and that of the next byte: the
      best match, unless there is none or a longer one starts at the next byte. */
  ghost predicate Chosen(data: seq<byte>, chain: seq<nat>, next: seq<nat>, i: nat, found: bool, loc: nat, best: nat)
  {
    && i < |data| && (forall k | 0 <= k < |chain| :: chain[k] < i) && (forall k | 0 <= k < |next| :: next[k] <= i)
    && if found then BestOf(data, chain, |chain|, i, true, loc, best) && !LongerLater(data, next, i, best)
       else
         || (forall k | 0 <= k < |chain| && i < chain[k] + 32768 :: MatchLength(data, chain[k], i) < 3)
         || exists l, b :: BestOf(data, chain, |chain|, i, true, l, b) && LongerLater(data, next, i, b)
  }

  lemma Prefix(s: seq<byte>, a: nat, m: nat, r: nat)
    requires m <= r && a + r <= |s|
    ensures s[a..a + r][..m] == s[a..a + m]
  {
  }

  /** Position p starts m bytes that come again at i. */
  lemma AgreeBytes(data: seq<byte>, p: nat, i: nat, m: nat)
    requires p <= i && m <= 258 && i + m <= |data|
    ensures data[p..p + m] == data[i..i + m] <==> m <= MatchLength(data, p, i)
  {
    var r := MatchLength(data, p, i);
    AgreeMeaning(data, p, i, 0, r);
    if m <= r {
      Prefix(data, p, m, r);
      Prefix(data, i, m, r);
    } else if data[p..p + m] == data[i..i + m] {
      AgreeAtLeast(data, p, i, 0, m);
      assert false;
    }
  }

  /** The rule in terms of the data: a match that is chosen repeats bytes from within the window;
      no position of the chain in the window has a longer one, and no later one as long. */
  lemma ChosenMatch(data: seq<byte>, chain: seq<nat>, next: seq<nat>, i: nat, loc: nat, best: nat, k: nat, m: nat)
    returns (at: nat)
    requires Chosen(data, chain, next, i, true, loc, best)
    ensures at < |chain| && chain[at] == loc < i < loc + 32768 && 3 <= best <= 258 && i + best <= |data|
    ensures data[loc..loc + best] == data[i..i + best]
    ensures && k < |chain| && i < chain[k] + 32768 && m <= 258 && i + m <= |data|
            && (best < m || (best == m && at < k)) ==>
              data[chain[k]..chain[k] + m] != data[i..i + m]
  {
    hide MatchLength;
    at :| 0 <= at < |chain| && chain[at] == loc && forall k | at < k < |chain|
      && i < chain[k] + 32768 :: MatchLength(data, chain[k], i) < best;
    MatchFits(data, loc, i);
    AgreeBytes(data, loc, i, best);
    if k < |chain| && i < chain[k] + 32768 && m <= 258 && i + m <= |data| {
      AgreeBytes(data, chain[k], i, m);
    }
  }

  /** ... and none of the next chain has a longer one for the next byte. */
  lemma ChosenNow(data: seq<byte>, chain: seq<nat>, next: seq<nat>, i: nat, loc: nat, best: nat, k: nat, m: nat)
    requires Chosen(data, chain, next, i, true, loc, best)
    requires k < |next| && i < next[k] + 32767 && best < m <= 258 && i + 1 + m <= |data|
    ensures next[k] <= i && data[next[k]..next[k] + m] != data[i + 1..i + 1 + m]
  {
    hide MatchLength;
    AgreeBytes(data, next[k], i + 1, m);
  }

  /** A literal is chosen only if no position in the window has three bytes, or if some position
      of the next chain has a longer match for the next byte. */
  lemma ChosenLiteral(data: seq<byte>, chain: seq<nat>, next: seq<nat>, i: nat, loc: nat, best: nat, k: nat, m: nat)
    returns (l: nat)
    requires Chosen(data, chain, next, i, false, loc, best)
    requires k < |chain| && i < chain[k] + 32768 && 3 <= m <= 258 && i + m <= |data|
    requires chain[k] < i && data[chain[k]..chain[k] + m] == data[i..i + m]
    ensures l in next && i < l + 32767 && l <= i && i + 1 + m + 1 <= |data|
    ensures data[l..l + m + 1] == data[i + 1..i + 1 + m + 1]
  {
    hide MatchLength, LastBest;
    AgreeBytes(data, chain[k], i, m);
    var p, b :| BestOf(data, chain, |chain|, i, true, p, b) && LongerLater(data, next, i, b);
    assert m <= b;
    hide BestOf;
    var j :| 0 <= j < |next| && i < next[j] + 32767 && MatchLength(data, next[j], i + 1) > b;
    l := next[j];
    MatchFits(data, l, i + 1);
    AgreeBytes(data, l, i + 1, m + 1);
  }

  lemma MatchFits(data: seq<byte>, p: nat, i: nat)
    requires p <= i <= |data|
    ensures MatchLength(data, p, i) <= 258 && i + MatchLength(data, p, i) <= |data|
  {
  }

  /** A chain after position i is added; one of 2q entries first loses its older half. */
  function Pushed(chain: seq<nat>, i: nat, q: nat): seq<nat>
  {
    (if |chain| == 2 * q then chain[q..] else chain) + [i]
  }

  method FindMatch(data: seq<byte>, chain: seq<nat>, i: nat) returns (found: bool, loc: nat, best: nat)
    requires i <= |data| && forall k | 0 <= k < |chain| :: chain[k] < i
    ensures BestOf(data, chain, |chain|, i, found, loc, best)
  {
    found, loc, best := false, 0, 3;
    for j := 0 to |chain|
      invariant BestOf(data, chain, j, i, found, loc, best)
    {
      assert chain[..j + 1] == chain[..j] + [chain[j]];
      if chain[j] > i - 32768 {
        var d := CountMatch(data, chain[j], i, |data| - i);
        if d >= best {
          found, loc, best := true, chain[j], d;
        }
        assert found ==> LastBest(data, chain, j + 1, i, loc, best);
      }
    }
  }

  /** Lazy matching: is there a longer match one byte later? */
  method BetterLater(data: seq<byte>, chain: seq<nat>, i: nat, best: nat) returns (better: bool)
    requires i < |data| && forall k | 0 <= k < |chain| :: chain[k] <= i
    ensures better <==> LongerLater(data, chain, i, best)
  {
    for j := 0 to |chain|
      invariant forall k | 0 <= k < j && i < chain[k] + 32767 :: MatchLength(data, chain[k], i + 1) <= best
    {
      if chain[j] > i - 32767 {
        var e := CountMatch(data, chain[j], i + 1, |data| - i - 1);
        if e > best { return true; }
      }
    }
    better := false;
  }

  /** The hash table: for each hash the recent positions that had it, oldest first. */
  class HashTable {
    const chains: array<seq<nat>>

    constructor ()
      ensures Valid() && fresh(chains) && forall q :: Earlier(0, q)
      ensures forall h: nat | h < ZHASH :: chains[h] == []
    {
      chains := new seq<nat>[ZHASH](_ => []);
    }

    predicate Valid()
    {
      chains.Length == ZHASH
    }

    /** Every position in the table is before i, and every chain has at most 2q. */
    ghost predicate Earlier(i: nat, q: nat)
      reads chains
    {
      forall h | 0 <= h < chains.Length :: ChainOk(chains[h], i, q)
    }

    lemma EarlierMono(i: nat, j: nat, q: nat)
      requires Earlier(i, q) && i <= j
      ensures Earlier(j, q)
    {
    }

    /** Add position i. */
    method Insert(h: nat, i: nat, q: nat)
      requires Valid() && h < ZHASH && q > 0 && Earlier(i, q)
      modifies chains
      ensures Earlier(i + 1, q)
      ensures chains[h] == Pushed(old(chains[h]), i, q)
      ensures chains[h] == (if |old(chains[h])| == 2 * q then old(chains[h])[q..] else old(chains[h])) + [i]
      ensures forall k | 0 <= k < ZHASH && k != h :: chains[k] == old(chains[k])
    {
      assert ChainOk(chains[h], i, q);
      if |chains[h]| == 2 * q {
        chains[h] := chains[h][q..];
      }
      chains[h] := chains[h] + [i];
      forall k | 0 <= k < chains.Length ensures ChainOk(chains[k], i + 1, q) {
        if k != h { assert ChainOk(old(chains[k]), i, q); }
      }
    }
  }
}
