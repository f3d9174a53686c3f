/** The fixed codes (RFC 1951 section 3.2.6) in closed form. */
module FixedCode {
  import opened BitMath
  import opened Canonical
  import opened ZCodes
  import opened Deflate
  import opened DeflateStream

  /** How many of the first m symbols have a code of n bits. */
  function CountBelow(n: nat, m: nat): nat
  {
    if n == 8 then (if m <= 144 then m else if m <= 280 then 144 else m - 136)
    else if n == 9 then (if m <= 144 then 0 else if m <= 256 then m - 144 else 112)
    else if n == 7 then (if m <= 256 then 0 else if m <= 280 then m - 256 else 24)
    else 0
  }

  lemma {:induction false} LengthCount(n: nat, m: nat)
    requires m <= 288
    ensures Count(FixedCodes().ll, n, m) == CountBelow(n, m)
  {
    if m != 0 { LengthCount(n, m - 1); }
  }

  lemma {:induction false} DistanceCount(n: nat, m: nat)
    requires m <= 32
    ensures Count(FixedCodes().dl, n, m) == if n == 5 then m else 0
  {
    if m != 0 { DistanceCount(n, m - 1); }
  }

  lemma {:induction false} LengthFirst(n: nat)
    requires 1 <= n <= 16
    ensures n <= 7 ==> FirstCode(CountsOf(FixedCodes().ll), n) == 0
    ensures n == 8 ==> FirstCode(CountsOf(FixedCodes().ll), n) == 48
    ensures n == 9 ==> FirstCode(CountsOf(FixedCodes().ll), n) == 400
  {
    if n > 1 {
      LengthFirst(n - 1);
      LengthCount(n - 1, 288);
    }
  }

  lemma {:induction false} DistanceFirst(n: nat)
    requires 1 <= n <= 16
    ensures n <= 5 ==> FirstCode(CountsOf(FixedCodes().dl), n) == 0
  {
    if n > 1 {
      DistanceFirst(n - 1);
      DistanceCount(n - 1, 32);
    }
  }

  /** The codes that the writer has built in are those of the fixed code. */
  lemma LengthCode(i: nat)
    requires i < 288
    ensures Used(FixedCodes().ll, i) && |FixedCodes().ll| == 288
    ensures FixedCodes().ll[i] == if i <= 143 then 8 else if i <= 255 then 9 else if i <= 279 then 7 else 8
    ensures Code(FixedCodes().ll, i) ==
            if i <= 143 then 0x30 + i else if i <= 255 then 0x190 + i - 144 else if i <= 279 then i - 256
              else 0xC0 + i - 280
  {
    LengthFirst(FixedLength(i));
    LengthCount(FixedLength(i), i);
  }

  lemma DistanceCode(i: nat)
    requires i < 32
    ensures |FixedCodes().dl| == 32 && Used(FixedCodes().dl, i) && FixedCodes().dl[i] == 5
      && Code(FixedCodes().dl, i) == i
  {
    DistanceFirst(5);
    DistanceCount(5, i);
  }

  lemma FixedAccepted()
    ensures CodesAccepted(FixedCodes())
  {
    var c := FixedCodes();
    var a, b := CountsOf(c.ll), CountsOf(c.dl);
    Pow2Values();
    forall n | 1 <= n <= 16 ensures LengthFits(a, n) {
      LengthCount(n, 288);
      LengthFirst(n);
    }
    forall n | 1 <= n <= 16 ensures LengthFits(b, n) {
      DistanceCount(n, 32);
      DistanceFirst(n);
    }
  }
}
