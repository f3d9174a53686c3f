/** The format of RFC 1951 read off without the functions that define it here: which code a
    symbol has, what a token stands for, and what each bit of a block says. */
module DeflateFormat {
  import opened BitMath
  import opened Canonical
  import opened LZ77
  import opened ZCodes
  import opened Deflate
  import opened DeflateStream

  // ---- codes (section 3.2.2) ----------------------------------------------------------

  lemma {:induction false} NoneBetween(lens: Lengths, n: nat, a: nat, b: nat)
    requires a <= b <= |lens| && forall k | a <= k < b :: lens[k] != n
    ensures Count(lens, n, b) == Count(lens, n, a)
    decreases b
  {
    if a < b { NoneBetween(lens, n, a, b - 1); }
  }

  lemma {:induction false} Doubling(c: Counts, n: nat, m: nat)
    requires 1 <= n < m <= 16 && forall s | n < s < m :: c[s] == 0
    ensures FirstCode(c, m) == Shl(EndCode(c, n), m - n)
  {
    if n + 1 < m {
      Doubling(c, n, m - 1);
    } else {
      assert Shl(EndCode(c, n), 1) == 2 * EndCode(c, n);
    }
  }

  lemma {:induction false} ZeroUpTo(c: Counts, m: nat)
    requires 1 <= m <= 16 && forall s | 1 <= s < m :: c[s] == 0
    ensures FirstCode(c, m) == 0
  {
    if m > 1 { ZeroUpTo(c, m - 1); }
  }

  /** Rules of section 3.2.2: the first of the shortest codes is all zeros, ... */
  lemma ShortestCode(lens: Lengths, i: nat)
    requires Used(lens, i)
    requires forall k | 0 <= k < |lens| && lens[k] > 0 :: lens[k] >= lens[i] && (k < i ==> lens[k] > lens[i])
    ensures Code(lens, i) == 0
  {
    var c := CountsOf(lens);
    forall s | 1 <= s < lens[i] ensures c[s] == 0 { NoneBetween(lens, s, 0, |lens|); }
    ZeroUpTo(c, lens[i]);
    NoneBetween(lens, lens[i], 0, i);
  }

  /** ... codes of one length are consecutive, in the order of their symbols, ... */
  lemma NextCode(lens: Lengths, i: nat, j: nat)
    requires Used(lens, i) && i < j && Used(lens, j) && lens[i] == lens[j]
    requires forall k | i < k < j :: lens[k] != lens[i]
    ensures Code(lens, j) == Code(lens, i) + 1
  {
    NoneBetween(lens, lens[i], i + 1, j);
  }

  /** ... and the first code of the next length follows the last one of this, with zeros at its end. */
  lemma LongerCode(lens: Lengths, i: nat, j: nat)
    requires Used(lens, i) && Used(lens, j) && lens[i] < lens[j]
    requires forall k | 0 <= k < |lens| :: !(lens[i] < lens[k] < lens[j])
    requires (forall k | i < k < |lens| :: lens[k] != lens[i]) && (forall k | 0 <= k < j :: lens[k] != lens[j])
    ensures Code(lens, j) == (Code(lens, i) + 1) * Pow2(lens[j] - lens[i])
  {
    var c, n, m := CountsOf(lens), lens[i], lens[j];
    forall s | n < s < m ensures c[s] == 0 { NoneBetween(lens, s, 0, |lens|); }
    Doubling(c, n, m);
    NoneBetween(lens, n, i + 1, |lens|);
    NoneBetween(lens, m, 0, j);
    Arithmetic(EndCode(c, n), m - n);
  }

  // ---- tokens (section 3.2.5) ---------------------------------------------------------

  lemma {:induction false} LengthStart(i: nat)
    requires i <= 8
    ensures LengthBase(i) == 3 + i
  {
    if i != 0 { LengthStart(i - 1); }
  }

  /** The lengths of one symbol follow those of the symbol before it. */
  lemma LengthNext(g: nat, r: nat)
    requires 2 <= g <= 6 && r < 4 && 4 * g + r < 27
    ensures LengthBase(4 * g + r + 1) == LengthBase(4 * g + r) + Pow2(g - 1)
  {
    assert (4 * g + r) / 4 == g;
  }

  lemma Twice(n: nat)
    requires n > 0
    ensures Pow2(n) == 2 * Pow2(n - 1)
  {
  }

  /** The four symbols of a group of lengths. */
  lemma {:induction false} LengthGroup(g: nat, r: nat)
    requires 2 <= g <= 6 && r < 4
    ensures LengthBase(4 * g + r) == 3 + (4 + r) * Pow2(g - 1)
  {
    hide *;
    if r != 0 {
      LengthGroup(g, r - 1);
      LengthNext(g, r - 1);
      assert (3 + r) * Pow2(g - 1) + Pow2(g - 1) == (4 + r) * Pow2(g - 1);
    } else if g == 2 {
      LengthStart(8);
      Pow2Values();
    } else {
      LengthGroup(g - 1, 3);
      LengthNext(g - 1, 3);
      Twice(g - 1);
    }
  }

  lemma {:induction false} DistStart(i: nat)
    requires i <= 4
    ensures DistBase(i) == 1 + i
  {
    if i != 0 { DistStart(i - 1); }
  }

  lemma DistNext(g: nat, r: nat)
    requires 2 <= g <= 14 && r < 2 && 2 * g + r < 29
    ensures DistBase(2 * g + r + 1) == DistBase(2 * g + r) + Pow2(g - 1)
  {
    assert (2 * g + r) / 2 == g;
  }

  /** The two symbols of a group of distances. */
  lemma {:induction false} DistGroup(g: nat, r: nat)
    requires 2 <= g <= 14 && r < 2
    ensures DistBase(2 * g + r) == 1 + (2 + r) * Pow2(g - 1)
  {
    hide *;
    if r != 0 {
      DistGroup(g, 0);
      DistNext(g, 0);
    } else if g == 2 {
      DistStart(4);
      Pow2Values();
    } else {
      DistGroup(g - 1, 1);
      DistNext(g - 1, 1);
      Twice(g - 1);
    }
  }

  /** The lengths of length symbol i, with the value x of its extra bits. */
  lemma LengthRule(i: nat, x: nat)
    requires i < 29 && x < Pow2(LengthExtra(i))
    ensures LengthExtra(i) == if i < 8 || i == 28 then 0 else i / 4 - 1
    ensures LengthBase(i) + x == if i < 8 then 3 + i else if i < 28 then 3 + (4 + i % 4) * Pow2(i / 4 - 1) + x else 258
  {
    Pow2Values();
    hide LengthBase, Pow2;
    if i < 8 {
      LengthStart(i);
    } else if i < 28 {
      LengthGroup(i / 4, i % 4);
    } else {
      LengthLast();
    }
  }

  lemma LengthLast()
    ensures LengthBase(28) == 258
  {
  }

  /** The distances of distance symbol j. */
  lemma DistRule(j: nat, x: nat)
    requires j < 30 && x < Pow2(DistExtra(j))
    ensures DistExtra(j) == if j < 4 then 0 else j / 2 - 1
    ensures DistBase(j) + x == if j < 4 then 1 + j else 1 + (2 + j % 2) * Pow2(j / 2 - 1) + x
  {
    Pow2Values();
    hide DistBase, Pow2;
    if j < 4 { DistStart(j); } else { DistGroup(j / 2, j % 2); }
  }

  /** What a token stands for, by the rules of section 3.2.5: a literal is one more byte; a
      match repeats the bytes `d` back. */
  lemma TokenMeans(out: seq<byte>, t: Token)
    requires Reaches(t, |out|)
    ensures t.Literal? ==> Expand1(out, t) == out + [t.b]
    ensures t.Match? ==>
              var i, j, r := t.lsym - 257, t.dsym, Expand1(out, t);
              var n := if i < 8 then 3 + i else if i < 28 then 3 + (4 + i % 4) * Pow2(i / 4 - 1) + t.lextra else 258;
              var d := if j < 4 then 1 + j else 1 + (2 + j % 2) * Pow2(j / 2 - 1) + t.dextra;
              && |r| == |out| + n && r[..|out|] == out && 1 <= d <= |out|
              && forall k | |out| <= k < |r| :: r[k] == r[k - d]
  {
    hide LengthBase, DistBase, Pow2, CopyBack;
    if t.Match? {
      LengthRule(t.lsym - 257, t.lextra);
      DistRule(t.dsym, t.dextra);
      CopyBackPeriodic(out, Distance(t), Length(t));
    }
  }

  // ---- dynamic codes and blocks -------------------------------------------------------

  /** The repetitions of section 3.2.7. */
  lemma OpMeans(sofar: Lengths, op: LenOp)
    requires OpFits(sofar, op)
    ensures OpExtra(op.sym) == if op.sym < 16 then 0 else if op.sym == 16 then 2 else if op.sym == 17 then 3 else 7
    ensures op.sym < 16 ==> OpLens(sofar, op) == sofar + [op.sym]
    ensures op.sym == 16 ==> OpLens(sofar, op) == sofar + seq(3 + op.x, _ => sofar[|sofar| - 1])
    ensures op.sym == 17 ==> OpLens(sofar, op) == sofar + seq(3 + op.x, _ => 0)
    ensures op.sym == 18 ==> OpLens(sofar, op) == sofar + seq(11 + op.x, _ => 0)
  {
  }

  lemma {:induction false} BytesSay(data: seq<byte>, v: nat, i: nat)
    requires StartsWith(v, ByteFields(data)) && i < |data|
    ensures data[i] == Low(Shr(v, 8 * i), 8)
  {
    if i != 0 {
      BytesSay(data[1..], Shr(v, 8), i - 1);
      ShrShr(v, 8, 8 * (i - 1));
    }
  }

  /** What the three bits of a block say (section 3.2.3). */
  lemma BlockSays(st: State, b: Block)
    requires BlockNext(st, b)
    ensures st.v % 2 == if b.final then 1 else 0
    ensures st.v / 2 % 4 == if b.body.Stored? then 0 else if b.body.Fixed? then 1 else 2
  {
    Arithmetic(st.v, 1);
    Arithmetic(Shr(st.v, 1), 2);
    Pow2Values();
  }

  /** A stored block (section 3.2.4): it starts at the next byte boundary. */
  lemma StoredSays(st: State, b: Block)
    requires BlockNext(st, b) && b.body.Stored?
    ensures var data, n := b.body.data, Align(st.p + 3);
            var v := Shr(st.v, 3 + n);
            && (st.p + 3 + n) % 8 == 0
            && |data| == Low(v, 16) && 0xFFFF - |data| == Low(Shr(v, 16), 16)
            && (forall i: nat | i < |data| :: data[i] == Low(Shr(v, 32 + 8 * i), 8))
            && AfterBlock(st, b) == State(st.p + 3 + n + 32 + 8 * |data|, st.out + data, Shr(v, 32 + 8 * |data|))
  {
    hide Low, Shr, StartsWith, StoredFields, ByteFields, BitsOf, AllCoded, CodesAccepted;
    var data, n := b.body.data, Align(st.p + 3);
    var v := Shr(st.v, 3 + n);
    StoredAt(st.p + 3, b.body.pad, data, Shr(st.v, 3));
    ShrShr(st.v, 3, n);
    ShrShr(v, 32, 8 * |data|);
    forall i: nat | i < |data| ensures data[i] == Low(Shr(v, 32 + 8 * i), 8) {
      BytesSay(data, Shr(v, 32), i);
      ShrShr(v, 32, 8 * i);
    }
  }

  /** A block with fixed codes: its tokens follow the three bits. */
  lemma FixedSays(st: State, b: Block)
    requires BlockNext(st, b) && b.body.Fixed?
    ensures var c, ts := FixedCodes(), b.body.ts;
            && BlockAt(c, ts, st.out, Shr(st.v, 3))
            && AfterBlock(st, b).p == st.p + 3 + BitsOf(BlockFields(c, ts))
            && AfterBlock(st, b).out == Expand(st.out, ts)
            && AfterBlock(st, b).v == Shr(st.v, 3 + BitsOf(BlockFields(c, ts)))
  {
    hide FixedCodes, StartsWith, BlockFields, BitsOf, AllReach, Expand, Shr;
    ShrShr(st.v, 3, BitsOf(BlockFields(FixedCodes(), b.body.ts)));
  }

  /** A block with a description: this follows the three bits, and then the tokens in its codes. */
  lemma DynamicSays(st: State, b: Block, n: nat, m: nat)
    requires BlockNext(st, b) && b.body.Dynamic?
    requires BodyFits(b.body, st.out) && n == BitsOf(HeaderFields(b.body.h))
    requires m == BitsOf(BlockFields(HeaderCodes(b.body.h), b.body.ts))
    ensures HeaderFits(b.body.h) && StartsWith(Shr(st.v, 3), HeaderFields(b.body.h))
    ensures BlockAt(HeaderCodes(b.body.h), b.body.ts, st.out, Shr(st.v, 3 + n))
    ensures AfterBlock(st, b) == State(st.p + 3 + n + m, Expand(st.out, b.body.ts), Shr(st.v, 3 + n + m))
  {
    hide StartsWith, BlockFields, HeaderFields, BitsOf, AllReach, Expand, Shr, HeaderCodes;
    var h, ts := b.body.h, b.body.ts;
    ConcatSplit(Shr(st.v, 3), HeaderFields(h), BlockFields(HeaderCodes(h), ts), BodyFields(b.body, st.p + 3, st.out));
    ShrShr(st.v, 3, n);
    ShrShr(st.v, 3, n + m);
  }
}
