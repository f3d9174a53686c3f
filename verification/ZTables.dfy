/** The length and distance tables that the reader and the writer each have, and that they
    are those of RFC 1951 section 3.2.5. */
module ZTables {
  import opened BitMath
  import opened Deflate

  // The tables of the reader, entry by entry.

  /** `stbi__zlength_base`. */
  function ZLengthBase(i: nat): nat
  {
    match i
    case 0 => 3 case 1 => 4 case 2 => 5 case 3 => 6 case 4 => 7 case 5 => 8 case 6 => 9 case 7 => 10
    case 8 => 11 case 9 => 13 case 10 => 15 case 11 => 17 case 12 => 19 case 13 => 23 case 14 => 27 case 15 => 31
    case 16 => 35 case 17 => 43 case 18 => 51 case 19 => 59 case 20 => 67 case 21 => 83 case 22 => 99 case 23 => 115
    case 24 => 131 case 25 => 163 case 26 => 195 case 27 => 227 case 28 => 258
    case _ => 0
  }

  /** `stbi__zlength_extra`. */
  function ZLengthExtra(i: nat): nat
  {
    match i
    case 0 => 0 case 1 => 0 case 2 => 0 case 3 => 0 case 4 => 0 case 5 => 0 case 6 => 0 case 7 => 0
    case 8 => 1 case 9 => 1 case 10 => 1 case 11 => 1 case 12 => 2 case 13 => 2 case 14 => 2 case 15 => 2
    case 16 => 3 case 17 => 3 case 18 => 3 case 19 => 3 case 20 => 4 case 21 => 4 case 22 => 4 case 23 => 4
    case 24 => 5 case 25 => 5 case 26 => 5 case 27 => 5 case 28 => 0
    case _ => 0
  }

  /** `stbi__zdist_base`. */
  function ZDistBase(i: nat): nat
  {
    match i
    case 0 => 1 case 1 => 2 case 2 => 3 case 3 => 4 case 4 => 5 case 5 => 7 case 6 => 9 case 7 => 13
    case 8 => 17 case 9 => 25 case 10 => 33 case 11 => 49 case 12 => 65 case 13 => 97 case 14 => 129 case 15 => 193
    case 16 => 257 case 17 => 385 case 18 => 513 case 19 => 769 case 20 => 1025 case 21 => 1537 case 22 => 2049
      case 23 => 3073
    case 24 => 4097 case 25 => 6145 case 26 => 8193 case 27 => 12289 case 28 => 16385 case 29 => 24577
    case _ => 0
  }

  /** `stbi__zdist_extra`. */
  function ZDistExtra(i: nat): nat
  {
    match i
    case 0 => 0 case 1 => 0 case 2 => 0 case 3 => 0 case 4 => 1 case 5 => 1 case 6 => 2 case 7 => 2
    case 8 => 3 case 9 => 3 case 10 => 4 case 11 => 4 case 12 => 5 case 13 => 5 case 14 => 6 case 15 => 6
    case 16 => 7 case 17 => 7 case 18 => 8 case 19 => 8 case 20 => 9 case 21 => 9 case 22 => 10 case 23 => 10
    case 24 => 11 case 25 => 11 case 26 => 12 case 27 => 12 case 28 => 13 case 29 => 13
    case _ => 0
  }

  /** The tables hold the bases and extra bits of section 3.2.5. */
  method LengthEntry(i: nat) returns (base: nat, extra: nat)
    requires i < 29
    ensures base == LengthBase(i) && extra == LengthExtra(i)
  {
    base, extra := ZLengthBase(i), ZLengthExtra(i);
    LengthBases(i);
  }

  function SmallPow2(n: nat): nat
  {
    match n
    case 0 => 1 case 1 => 2 case 2 => 4 case 3 => 8 case 4 => 16 case 5 => 32 case 6 => 64
    case 7 => 128 case 8 => 256 case 9 => 512 case 10 => 1024 case 11 => 2048 case 12 => 4096 case _ => 8192
  }

  lemma SmallPow2IsPow2(n: nat)
    requires n <= 13
    ensures SmallPow2(n) == Pow2(n)
  {
    Pow2Values();
  }

  lemma LengthStep(i: nat)
    requires i < 29
    ensures ZLengthExtra(i) == LengthExtra(i)
    ensures 0 < i < 28 ==> ZLengthBase(i) == ZLengthBase(i - 1) + SmallPow2(ZLengthExtra(i - 1))
  {
  }

  lemma {:induction false} LengthBases(i: nat)
    requires i < 29
    ensures ZLengthBase(i) == LengthBase(i) && ZLengthExtra(i) == LengthExtra(i)
  {
    LengthStep(i);
    if 0 < i < 28 {
      LengthBases(i - 1);
      SmallPow2IsPow2(ZLengthExtra(i - 1));
    }
  }

  method DistEntry(i: nat) returns (base: nat, extra: nat)
    requires i < 30
    ensures base == DistBase(i) && extra == DistExtra(i)
  {
    base, extra := ZDistBase(i), ZDistExtra(i);
    DistBases(i);
  }

  lemma DistStep(i: nat)
    requires i < 30
    ensures ZDistExtra(i) == DistExtra(i)
    ensures 0 < i ==> ZDistBase(i) == ZDistBase(i - 1) + SmallPow2(ZDistExtra(i - 1))
  {
  }

  lemma {:induction false} DistBases(i: nat)
    requires i < 30
    ensures ZDistBase(i) == DistBase(i) && ZDistExtra(i) == DistExtra(i)
  {
    DistStep(i);
    if 0 < i {
      DistBases(i - 1);
      SmallPow2IsPow2(ZDistExtra(i - 1));
    }
  }

  // The tables of the writer, which end with the first length or distance too large.

  /** `lengthc`. */
  function Lengthc(i: nat): nat
  {
    match i
    case 0 => 3 case 1 => 4 case 2 => 5 case 3 => 6 case 4 => 7 case 5 => 8 case 6 => 9 case 7 => 10
    case 8 => 11 case 9 => 13 case 10 => 15 case 11 => 17 case 12 => 19 case 13 => 23 case 14 => 27 case 15 => 31
    case 16 => 35 case 17 => 43 case 18 => 51 case 19 => 59 case 20 => 67 case 21 => 83 case 22 => 99 case 23 => 115
    case 24 => 131 case 25 => 163 case 26 => 195 case 27 => 227 case 28 => 258 case 29 => 259
    case _ => 0
  }

  /** `lengtheb`. */
  function Lengtheb(i: nat): nat
  {
    match i
    case 0 => 0 case 1 => 0 case 2 => 0 case 3 => 0 case 4 => 0 case 5 => 0 case 6 => 0 case 7 => 0
    case 8 => 1 case 9 => 1 case 10 => 1 case 11 => 1 case 12 => 2 case 13 => 2 case 14 => 2 case 15 => 2
    case 16 => 3 case 17 => 3 case 18 => 3 case 19 => 3 case 20 => 4 case 21 => 4 case 22 => 4 case 23 => 4
    case 24 => 5 case 25 => 5 case 26 => 5 case 27 => 5 case 28 => 0
    case _ => 0
  }

  /** `distc`. */
  function Distc(i: nat): nat
  {
    match i
    case 0 => 1 case 1 => 2 case 2 => 3 case 3 => 4 case 4 => 5 case 5 => 7 case 6 => 9 case 7 => 13
    case 8 => 17 case 9 => 25 case 10 => 33 case 11 => 49 case 12 => 65 case 13 => 97 case 14 => 129 case 15 => 193
    case 16 => 257 case 17 => 385 case 18 => 513 case 19 => 769 case 20 => 1025 case 21 => 1537 case 22 => 2049
      case 23 => 3073
    case 24 => 4097 case 25 => 6145 case 26 => 8193 case 27 => 12289 case 28 => 16385 case 29 => 24577 case 30 => 32768
    case _ => 0
  }

  /** `disteb`. */
  function Disteb(i: nat): nat
  {
    match i
    case 0 => 0 case 1 => 0 case 2 => 0 case 3 => 0 case 4 => 1 case 5 => 1 case 6 => 2 case 7 => 2
    case 8 => 3 case 9 => 3 case 10 => 4 case 11 => 4 case 12 => 5 case 13 => 5 case 14 => 6 case 15 => 6
    case 16 => 7 case 17 => 7 case 18 => 8 case 19 => 8 case 20 => 9 case 21 => 9 case 22 => 10 case 23 => 10
    case 24 => 11 case 25 => 11 case 26 => 12 case 27 => 12 case 28 => 13 case 29 => 13
    case _ => 0
  }

  lemma SameTables(i: nat)
    ensures i < 29 ==> Lengthc(i) == ZLengthBase(i) && Lengtheb(i) == ZLengthExtra(i)
    ensures i < 30 ==> Distc(i) == ZDistBase(i) && Disteb(i) == ZDistExtra(i)
  {
  }

  lemma WriterLengths(i: nat)
    requires i < 29
    ensures Lengthc(i) == LengthBase(i) && Lengtheb(i) == LengthExtra(i)
  {
    hide Lengthc, Lengtheb, ZLengthBase, ZLengthExtra;
    SameTables(i);
    LengthBases(i);
  }

  lemma WriterDistances(i: nat)
    requires i < 30
    ensures Distc(i) == DistBase(i) && Disteb(i) == DistExtra(i)
  {
    hide Distc, Disteb, ZDistBase, ZDistExtra;
    SameTables(i);
    DistBases(i);
  }

  /** The lengths of bucket k; 258 has a symbol of its own. */
  ghost predicate InLengthBucket(k: nat, best: nat)
  {
    k < 29 && LengthBase(k) <= best && (k < 28 ==> best < LengthBase(k + 1))
  }

  ghost predicate InDistBucket(k: nat, d: nat)
  {
    k < 30 && DistBase(k) <= d && d - DistBase(k) < Pow2(DistExtra(k))
  }

  /** The bucket of a match length: found by the linear search, it is the only one whose
      range of extra bits starts at or below the length and ends above it, apart from
      length 258, which has a symbol of its own. */
  method LengthBucket(best: nat) returns (j: nat)
    requires 3 <= best <= 258
    ensures InLengthBucket(j, best) && best - LengthBase(j) < Pow2(LengthExtra(j))
    ensures forall k: nat | InLengthBucket(k, best) :: k == j
  {
    j := 0;
    WriterLengths(0);
    while best > Lengthc(j + 1) - 1
      invariant j < 29 && LengthBase(j) <= best
      decreases 29 - j
    {
      assert Lengthc(29) == 259;
      j := j + 1;
      WriterLengths(j);
    }
    if j < 28 { WriterLengths(j + 1); }
    LengthRange(j, best);
    LengthUnique(j, best);
  }

  lemma LengthUnique(j: nat, best: nat)
    requires InLengthBucket(j, best)
    ensures forall k: nat | InLengthBucket(k, best) :: k == j
  {
    forall k: nat | InLengthBucket(k, best) ensures k == j {
      if j < 28 && j < k { LengthMono(j + 1, k); }
      if k < 28 && k < j { LengthMono(k + 1, j); }
    }
  }

  lemma LengthRange(j: nat, best: nat)
    requires j < 29 && LengthBase(j) <= best <= 258 && (j < 28 ==> best < LengthBase(j + 1))
    ensures best - LengthBase(j) < Pow2(LengthExtra(j))
  {
    LengthBases(j);
    SmallPow2IsPow2(LengthExtra(j));
  }

  lemma {:induction false} LengthMono(i: nat, j: nat)
    requires i <= j < 29
    ensures LengthBase(i) <= LengthBase(j)
    decreases j
  {
    if i < j {
      LengthMono(i, j - 1);
      if j == 28 { LastLength(j - 1); }
    }
  }

  lemma LastLength(i: nat)
    requires i == 27
    ensures LengthBase(i) == 227
  {
    hide LengthBase, LengthExtra;
    LengthBases(i);
  }

  /** The bucket of a match distance. */
  method DistBucket(d: nat) returns (j: nat)
    requires 1 <= d <= 32767
    ensures InDistBucket(j, d)
    ensures forall k: nat | InDistBucket(k, d) :: k == j
  {
    j := 0;
    WriterDistances(0);
    while d > Distc(j + 1) - 1
      invariant j < 30 && DistBase(j) <= d
      decreases 30 - j
    {
      assert Distc(30) == 32768;
      j := j + 1;
      WriterDistances(j);
    }
    if j < 29 { WriterDistances(j + 1); }
    DistRange(j, d);
    DistUnique(j, d);
  }

  lemma DistRange(j: nat, d: nat)
    requires j < 30 && DistBase(j) <= d <= 32767 && (j < 29 ==> d < DistBase(j + 1))
    ensures d - DistBase(j) < Pow2(DistExtra(j))
  {
    if j == 29 { LastDistance(j); }
  }

  lemma LastDistance(i: nat)
    requires i == 29
    ensures DistBase(i) == 24577 && Pow2(DistExtra(i)) == 8192
  {
    hide DistBase, Pow2;
    DistBases(i);
    SmallPow2IsPow2(DistExtra(i));
  }

  lemma DistUnique(j: nat, d: nat)
    requires InDistBucket(j, d)
    ensures forall k: nat | InDistBucket(k, d) :: k == j
  {
    forall k: nat | InDistBucket(k, d) ensures k == j {
      DistOrder(j, k);
      DistOrder(k, j);
    }
  }

  lemma {:induction false} DistOrder(i: nat, j: nat)
    requires i < 30 && j < 30
    ensures i < j ==> DistBase(i) + Pow2(DistExtra(i)) <= DistBase(j)
    decreases j
  {
    if i < j - 1 { DistOrder(i, j - 1); }
  }
}
