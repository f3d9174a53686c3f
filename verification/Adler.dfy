/** Adler-32: the writer's deferred reductions against the definition in RFC 1950 section
    2.2, which reduces after every byte. */
module Adler {
  import opened BitMath

  const BASE := 65521

  datatype Sums = Sums(s1: nat, s2: nat)

  /** Section 2.2, over the first n bytes: s1 is the sum of the bytes, s2 the sum of the
      s1 values, both modulo 65521, starting from 1 and 0. */
  function AdlerOf(data: seq<byte>, n: nat): (s: Sums)
    requires n <= |data|
    ensures s.s1 < BASE && s.s2 < BASE
  {
    if n == 0 then Sums(1, 0)
    else
      var p := AdlerOf(data, n - 1);
      var s1 := (p.s1 + data[n - 1]) % BASE;
      Sums(s1, (p.s2 + s1) % BASE)
  }

  /** The sum of the first n bytes. */
  function SumOf(data: seq<byte>, n: nat): nat
    requires n <= |data|
  {
    if n == 0 then 0 else SumOf(data, n - 1) + data[n - 1]
  }

  /** The sum of the first n bytes with the weights m, m - 1, m - 2 and so on. */
  function WeightedSum(data: seq<byte>, m: nat, n: nat): nat
    requires n <= m && n <= |data|
  {
    if n == 0 then 0 else WeightedSum(data, m, n - 1) + (m - (n - 1)) * data[n - 1]
  }

  lemma {:induction false} HeavierSum(data: seq<byte>, m: nat, n: nat)
    requires n <= m && n <= |data|
    ensures WeightedSum(data, m + 1, n) == WeightedSum(data, m, n) + SumOf(data, n)
  {
    if n != 0 { HeavierSum(data, m, n - 1); }
  }

  /** Section 2.2 in closed form. */
  lemma {:induction false} AdlerSums(data: seq<byte>, n: nat, a: nat, b: nat)
    requires n <= |data| && a == 1 + SumOf(data, n) && b == n + WeightedSum(data, n, n)
    ensures AdlerOf(data, n) == Sums(a % 65521, b % 65521)
    decreases n
  {
    if n == 0 {
      NoBytes(data);
    } else {
      HeavierSum(data, n - 1, n - 1);
      LastByte(data, n);
      hide *;
      AdlerSums(data, n - 1, a - data[n - 1], b - a);
      SumsStep(data, n, a - data[n - 1], b - a, a, b);
    }
  }

  lemma NoBytes(data: seq<byte>)
    ensures AdlerOf(data, 0) == Sums(1, 0) && SumOf(data, 0) == 0 && WeightedSum(data, 0, 0) == 0
  {
  }

  lemma SumsStep(data: seq<byte>, n: nat, a: nat, b: nat, a': nat, b': nat)
    requires 0 < n <= |data| && a' == a + data[n - 1] && b' == b + a'
    requires a % BASE == AdlerOf(data, n - 1).s1 && b % BASE == AdlerOf(data, n - 1).s2
    ensures a' % BASE == AdlerOf(data, n).s1 && b' % BASE == AdlerOf(data, n).s2
  {
    AdlerStep(data, n - 1, a, b);
  }

  lemma LastByte(data: seq<byte>, n: nat)
    requires 0 < n <= |data|
    ensures SumOf(data, n) == SumOf(data, n - 1) + data[n - 1]
    ensures WeightedSum(data, n, n) == WeightedSum(data, n, n - 1) + data[n - 1]
  {
  }

  /** Reducing later does not change the result. */
  lemma LateReduction(a: nat, b: nat, x: nat, y: nat)
    requires a % BASE == x && b % BASE == y
    ensures (a + b) % BASE == (x + y) % BASE
  {
    var p, q := a / BASE, b / BASE;
    assert a + b == x + y + BASE * (p + q);
  }

  /** The most that s2 can reach in one block of n bytes from reduced sums. */
  function S2Bound(n: nat): nat
  {
    if n == 0 then 65520 else S2Bound(n - 1) + 65520 + 255 * n
  }

  lemma {:induction false} S2BoundClosed(n: nat)
    ensures 2 * S2Bound(n) == 131040 + 131040 * n + 255 * (n * n + n)
  {
    if n != 0 {
      S2BoundClosed(n - 1);
      assert (n - 1) * (n - 1) + (n - 1) == n * n - n;
    }
  }

  lemma {:induction false} S2BoundMono(m: nat, n: nat)
    requires m <= n
    ensures S2Bound(m) <= S2Bound(n)
    decreases n
  {
    if m < n { S2BoundMono(m, n - 1); }
  }

  lemma NoOverflow(n: nat)
    requires n <= 5552
    ensures S2Bound(n) < 0x1_0000_0000
  {
    S2BoundMono(n, 5552);
    S2BoundClosed(5552);
  }

  lemma AdlerStep(data: seq<byte>, n: nat, s1: nat, s2: nat)
    requires n < |data| && s1 % BASE == AdlerOf(data, n).s1 && s2 % BASE == AdlerOf(data, n).s2
    ensures (s1 + data[n]) % BASE == AdlerOf(data, n + 1).s1
    ensures (s2 + (s1 + data[n])) % BASE == AdlerOf(data, n + 1).s2
  {
    var p := AdlerOf(data, n);
    LateReduction(s1, data[n], p.s1, data[n]);
    LateReduction(s2, s1 + data[n], p.s2, AdlerOf(data, n + 1).s1);
  }

  /** The checksum loops of `stbi_zlib_compress`: first the odd bytes, then blocks of 5552,
      with one reduction a block. The 32-bit sums never overflow. */
  method Adler32(data: seq<byte>) returns (s1: nat, s2: nat)
    ensures Sums(s1, s2) == AdlerOf(data, |data|)
    ensures s1 == (1 + SumOf(data, |data|)) % 65521
    ensures s2 == (|data| + WeightedSum(data, |data|, |data|)) % 65521
  {
    s1, s2 := 1, 0;
    var blocklen := |data| % 5552;
    var j := 0;
    while j < |data|
      invariant j <= |data| && Sums(s1, s2) == AdlerOf(data, j)
      invariant blocklen == 5552 || (j == 0 && blocklen == |data| % 5552)
      invariant blocklen == 5552 ==> (|data| - j) % 5552 == 0
      decreases |data| - j, 5552 - blocklen
    {
      BlockFits(|data| - j, blocklen);
      s1, s2 := AdlerBlock(data, j, blocklen, s1, s2);
      j := j + blocklen;
      blocklen := 5552;
    }
    AdlerSums(data, |data|, 1 + SumOf(data, |data|), |data| + WeightedSum(data, |data|, |data|));
  }

  /** The odd bytes, or a full block, can be taken, and full blocks remain. */
  lemma BlockFits(left: nat, blocklen: nat)
    requires left > 0 && (blocklen == left % 5552 || (blocklen == 5552 && left % 5552 == 0))
    ensures blocklen <= left && (left - blocklen) % 5552 == 0
  {
    var q := left / 5552;
    assert left == 5552 * q + left % 5552;
  }

  /** How far the sums can be after i bytes of a block. */
  predicate Bounded(i: nat, s1: nat, s2: nat)
  {
    s1 <= 65520 + 255 * i && s2 <= S2Bound(i)
  }

  lemma BlockStarts(s1: nat, s2: nat)
    requires s1 < BASE && s2 < BASE
    ensures Bounded(0, s1, s2) && s1 % BASE == s1 && s2 % BASE == s2
  {
  }

  lemma BoundedNext(i: nat, s1: nat, s2: nat, b: byte)
    requires i < 5552 && Bounded(i, s1, s2)
    ensures Bounded(i + 1, s1 + b, s2 + (s1 + b)) && s1 + b < 0x1_0000_0000 && s2 + (s1 + b) < 0x1_0000_0000
  {
    assert S2Bound(i + 1) == S2Bound(i) + 65520 + 255 * (i + 1);
    hide S2Bound;
    NoOverflow(i + 1);
  }

  method AdlerBlock(data: seq<byte>, j: nat, n: nat, a: nat, b: nat) returns (s1: nat, s2: nat)
    requires n <= 5552 && j + n <= |data| && Sums(a, b) == AdlerOf(data, j)
    ensures Sums(s1, s2) == AdlerOf(data, j + n)
  {
    hide AdlerOf, S2Bound;
    s1, s2 := a, b;
    BlockStarts(a, b);
    for i := 0 to n
      invariant s1 % BASE == AdlerOf(data, j + i).s1 && s2 % BASE == AdlerOf(data, j + i).s2
      invariant Bounded(i, s1, s2)
    {
      AdlerStep(data, j + i, s1, s2);
      BoundedNext(i, s1, s2, data[j + i]);
      s1 := s1 + data[j + i];
      s2 := s2 + s1;
      assert s1 < 0x1_0000_0000 && s2 < 0x1_0000_0000;
    }
    s1, s2 := s1 % BASE, s2 % BASE;
  }

  /** The checksum as it is stored, most significant byte first. */
  function AdlerBytes(s: Sums): seq<byte>
    requires s.s1 < BASE && s.s2 < BASE
  {
    [s.s2 / 256, s.s2 % 256, s.s1 / 256, s.s1 % 256]
  }

  /** The checksum of the data as section 2.2 stores it, most significant byte first. */
  method Trailer(data: seq<byte>) returns (trailer: seq<byte>)
    ensures trailer == AdlerBytes(AdlerOf(data, |data|))
    ensures |trailer| == 4 &&
            ((trailer[0] as int * 256 + trailer[1]) * 256 + trailer[2]) * 256 + trailer[3] ==
            (|data| + WeightedSum(data, |data|, |data|)) % 65521 * 65536 + (1 + SumOf(data, |data|)) % 65521
  {
    hide AdlerOf, SumOf, WeightedSum;
    var s1, s2 := Adler32(data);
    trailer := [(s2 / 256) % 256, s2 % 256, (s1 / 256) % 256, s1 % 256];
  }
}
