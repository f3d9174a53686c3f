/** Canonical prefix codes, given only by how many codes there are of each length
    (RFC 1951 section 3.2.2; ITU-T T.81 Annex C assigns the same codes). A code of
    length n is looked at through the interval of 16-bit words that start with it:
    `Base(c, n)` is where the codes of length n begin and `Limit(c, n)` where they end. */
module Canonical {
  import opened BitMath

  /** c[n] codes of length n, for n in 1..16; c[0] is not used. */
  type Counts = c: seq<nat> | |c| == 17 witness seq(17, _ => 0)

  /** Section 3.2.2, step 2: the numerically smallest code of each length. */
  function FirstCode(c: Counts, n: nat): nat
    requires 1 <= n <= 16
  {
    if n == 1 then 0 else 2 * (FirstCode(c, n - 1) + c[n - 1])
  }

  function EndCode(c: Counts, n: nat): nat
    requires 1 <= n <= 16
  {
    FirstCode(c, n) + c[n]
  }

  /** How many codes are shorter than n. */
  function Shorter(c: Counts, n: nat): nat
    requires 1 <= n <= 17
  {
    if n == 1 then 0 else Shorter(c, n - 1) + c[n - 1]
  }

  function Base(c: Counts, n: nat): nat
    requires 1 <= n <= 16
  {
    Shl(FirstCode(c, n), 16 - n)
  }

  function Limit(c: Counts, n: nat): nat
    requires n <= 16
  {
    if n == 0 then 0 else Shl(EndCode(c, n), 16 - n)
  }

  ghost predicate LengthFits(c: Counts, n: nat)
    requires 1 <= n <= 16
  {
    c[n] > 0 ==> EndCode(c, n) <= Pow2(n)
  }

  /** The codes of every length in use fit that many bits. */
  ghost predicate Fits(c: Counts)
  {
    forall n | 1 <= n <= 16 :: LengthFits(c, n)
  }

  lemma LimitStep(c: Counts, n: nat)
    requires 1 <= n <= 16
    ensures Base(c, n) == Limit(c, n - 1)
    ensures Limit(c, n) == Limit(c, n - 1) + Shl(c[n], 16 - n)
  {
    if n == 1 {
      ShlZero(15);
    } else {
      var e := EndCode(c, n - 1);
      assert Shl(e, 1) == 2 * e by { assert Shl(e, 0) == e; }
      ShlShl(e, 1, 16 - n);
    }
    ShlAdd(FirstCode(c, n), c[n], 16 - n);
  }

  lemma {:induction false} LimitMono(c: Counts, m: nat, n: nat)
    requires m <= n <= 16
    ensures Limit(c, m) <= Limit(c, n)
    decreases n
  {
    if m < n {
      LimitMono(c, m, n - 1);
      LimitStep(c, n);
    }
  }

  /** A code count fits when, and only when, its intervals stay within 16 bits: this is
      the Kraft inequality, weighted by 2^16. */
  lemma FitsIsKraft(c: Counts)
    ensures Fits(c) <==> Limit(c, 16) <= Pow2(16)
  {
    if Fits(c) {
      LimitBounded(c, 16);
    }
    if Limit(c, 16) <= Pow2(16) {
      forall n | 1 <= n <= 16 ensures LengthFits(c, n) {
        LimitMono(c, n, 16);
        TooManyCodes(c, n);
      }
    }
  }

  lemma TooManyCodes(c: Counts, n: nat)
    requires 1 <= n <= 16 && Limit(c, n) <= Pow2(16)
    ensures EndCode(c, n) <= Pow2(n)
  {
    if EndCode(c, n) > Pow2(n) {
      ShlMono(Pow2(n), EndCode(c, n), 16 - n);
      ShlShl(1, n, 16 - n);
    }
  }

  lemma PowerShl(n: nat, m: nat)
    ensures Shl(Pow2(n), m) == Pow2(n + m)
  {
    ShlShl(1, n, m);
  }

  lemma {:induction false} LimitBounded(c: Counts, n: nat)
    requires Fits(c) && n <= 16
    ensures Limit(c, n) <= Pow2(16)
  {
    hide Shl, Pow2, FirstCode;
    if n != 0 {
      LimitStep(c, n);
      assert LengthFits(c, n);
      if c[n] == 0 {
        LimitBounded(c, n - 1);
        ShlZero(16 - n);
      } else {
        ShlMono(EndCode(c, n), Pow2(n), 16 - n);
        PowerShl(n, 16 - n);
      }
    }
  }

  /** The words that start with code x of length n. */
  ghost predicate StartsCode(k: nat, x: nat, n: nat)
    requires n <= 16
  {
    Shr(k, 16 - n) == x
  }

  /** The words that start with some code of length n are those from Base to Limit. */
  lemma CodeInterval(c: Counts, k: nat, n: nat)
    requires 1 <= n <= 16
    ensures FirstCode(c, n) <= Shr(k, 16 - n) < EndCode(c, n) <==> Base(c, n) <= k < Limit(c, n)
  {
    ShrLess(k, FirstCode(c, n), 16 - n);
    ShrLess(k, EndCode(c, n), 16 - n);
  }

  /** No word starts with codes of two different lengths. */
  lemma LengthUnique(c: Counts, k: nat, m: nat, n: nat)
    requires 1 <= m <= 16 && 1 <= n <= 16
    requires FirstCode(c, m) <= Shr(k, 16 - m) < EndCode(c, m)
    requires FirstCode(c, n) <= Shr(k, 16 - n) < EndCode(c, n)
    ensures m == n
  {
    CodeInterval(c, k, m);
    CodeInterval(c, k, n);
    LimitStep(c, m);
    LimitStep(c, n);
    if m < n {
      LimitMono(c, m, n - 1);
    } else if n < m {
      LimitMono(c, n, m - 1);
    }
  }

  /** The first limit above a word names the length of the code it starts with. */
  lemma FirstLimit(c: Counts, k: nat, s: nat)
    requires 1 <= s <= 16
    requires Limit(c, s - 1) <= k < Limit(c, s)
    ensures FirstCode(c, s) <= Shr(k, 16 - s) < EndCode(c, s)
  {
    LimitStep(c, s);
    CodeInterval(c, k, s);
  }

  /** No code of length at most s starts a word that no limit up to s exceeds. */
  lemma PastLimit(c: Counts, k: nat, s: nat, n: nat)
    requires 1 <= n <= s <= 16 && Limit(c, s) <= k
    ensures !(FirstCode(c, n) <= Shr(k, 16 - n) < EndCode(c, n))
  {
    CodeInterval(c, k, n);
    LimitMono(c, n, s);
  }
}
