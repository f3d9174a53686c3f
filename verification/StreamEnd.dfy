/** How far a stream may reach past the input that holds it, in the zeros that the reader
    adds there. */
module StreamEnd {
  import opened BitMath
  import opened ZCodes
  import opened Deflate
  import opened DeflateStream

  /** Only zeros are left after `total` bits. */
  ghost predicate Ends(p: nat, v: nat, total: nat)
  {
    if p <= total then v < Pow2(total - p) else v == 0
  }

  lemma ShrEnds(p: nat, v: nat, n: nat, total: nat)
    requires Ends(p, v, total)
    ensures Ends(p + n, Shr(v, n), total)
  {
    hide Shr, Pow2;
    if p > total {
      LowFits(0, n);
    } else if p + n <= total {
      JoinMore(v, 0, total - p, n);
      ShlZero(total - p);
      ShlZero(total - p - n);
    } else {
      LowFits(v, total - p);
      ShrShr(v, total - p, p + n - total);
      LowFits(0, p + n - total);
    }
  }

  lemma StartEnds(input: seq<byte>, parse_header: bool)
    ensures var st := StreamStart(input, parse_header); Ends(st.p, st.v, 8 * |input|)
  {
    LEBound(input);
    if parse_header && |input| >= 2 { LEBound(input[2..]); }
  }

  lemma BlockEnds(st: State, b: Block, total: nat)
    requires BlockNext(st, b) && Ends(st.p, st.v, total)
    ensures var st' := AfterBlock(st, b); Ends(st'.p, st'.v, total)
  {
    hide Ends, BodyFields, BodyOut, BitsOf, StartsWith, Shr;
    ShrEnds(st.p, st.v, 3, total);
    var st3 := AfterBits(st, 3);
    ShrEnds(st3.p, st3.v, BitsOf(BodyFields(b.body, st3.p, st3.out)), total);
  }

  lemma {:induction false} BlocksEnd(st: State, bs: seq<Block>, total: nat)
    requires BlocksNext(st, bs) && Ends(st.p, st.v, total)
    ensures var st' := AfterBlocks(st, bs); Ends(st'.p, st'.v, total)
    decreases |bs|
  {
    hide BlockNext, AfterBlock, Ends;
    if |bs| > 0 {
      var n := |bs| - 1;
      BlocksEnd(st, bs[..n], total);
      BlockEnds(AfterBlocks(st, bs[..n]), bs[n], total);
    }
  }

  /** Every block of a stream that an input holds starts within the input. */
  lemma BlocksInside(input: seq<byte>, parse_header: bool, d: seq<byte>, bs: seq<Block>, i: nat)
    requires HoldsStream(input, parse_header, d, bs) && i < |bs|
    ensures BlocksNext(StreamStart(input, parse_header), bs[..i])
    ensures AfterBlocks(StreamStart(input, parse_header), bs[..i]).p < 8 * |input|
  {
    hide BlockNext;
    var st := StreamStart(input, parse_header);
    StartEnds(input, parse_header);
    BlocksPrefix(st, bs, i);
    BlocksEnd(st, bs[..i], 8 * |input|);
    var here := AfterBlocks(st, bs[..i]);
    if here.v == 0 { NoBlockInZeros(here, bs[i]); }
  }

  // ---- tokens -------------------------------------------------------------------------

  lemma TokenBits(c: Codes, t: Token)
    requires CodesAccepted(c) && Coded(c, t)
    ensures BitsOf(TokenFields(c, t)) <= 48
  {
    hide BitsOf;
    if t.Match? {
      MatchFieldsAt(c, t, 0);
    } else {
      FirstSymbol(c, t, 0);
    }
  }

  lemma NextToken(c: Codes, ts: seq<Token>, v: nat)
    requires CodesAccepted(c) && AllCoded(c, ts) && Used(c.ll, END_OF_BLOCK) && StartsWith(v, BlockFields(c, ts))
    ensures |ts| == 0 ==> BitsOf(BlockFields(c, ts)) <= 15 && Matches(c.ll, END_OF_BLOCK, v)
    ensures |ts| > 0 ==>
              var k := BitsOf(TokenFields(c, ts[0]));
              && k <= 48 && Matches(c.ll, TokenSymbol(ts[0]), v) && TokenSymbol(ts[0]) != END_OF_BLOCK
              && BitsOf(BlockFields(c, ts)) == k + BitsOf(BlockFields(c, ts[1..]))
              && StartsWith(Shr(v, k), BlockFields(c, ts[1..]))
  {
    hide BitsOf, StartsWith, Shr, Matches, Symbol;
    if |ts| == 0 {
      var f := Symbol(c.ll, END_OF_BLOCK);
      assert BlockFields(c, ts) == [f];
      OneField(v, f);
      EndMatches(c, v);
    } else {
      var a, b := TokenFields(c, ts[0]), BlockFields(c, ts[1..]);
      assert BlockFields(c, ts) == a + b;
      ConcatSplit(v, a, b, a + b);
      TokenBits(c, ts[0]);
      FirstSymbol(c, ts[0], v);
    }
  }

  lemma EndMatches(c: Codes, v: nat)
    requires CodesAccepted(c) && Used(c.ll, END_OF_BLOCK)
    ensures Symbol(c.ll, END_OF_BLOCK).n <= 15
    ensures Matches(c.ll, END_OF_BLOCK, v) <==>
              Low(v, Symbol(c.ll, END_OF_BLOCK).n) == Symbol(c.ll, END_OF_BLOCK).v
  {
    SymbolMatches(c.ll, END_OF_BLOCK, v);
  }

  /** Where only zeros are left, a block can only end: any other token would be followed by
      itself for ever. */
  lemma {:induction false} EndMatchesZeros(c: Codes, ts: seq<Token>)
    requires CodesAccepted(c) && AllCoded(c, ts) && Used(c.ll, END_OF_BLOCK) && StartsWith(0, BlockFields(c, ts))
    ensures Matches(c.ll, END_OF_BLOCK, 0) && |ts| == 0
    decreases |ts|
  {
    hide StartsWith, BlockFields, Matches, BitsOf;
    NextToken(c, ts, 0);
    if |ts| > 0 {
      LowFits(0, BitsOf(TokenFields(c, ts[0])));
      EndMatchesZeros(c, ts[1..]);
      MatchUnique(c.ll, TokenSymbol(ts[0]), END_OF_BLOCK, 0);
      assert false;
    }
  }

  /** Tokens end at most 62 bits after the last bit that is set: one token of at most 48
      bits may begin before, and then the end code follows. */
  lemma {:induction false} TokensEnd(c: Codes, ts: seq<Token>, p: nat, v: nat, total: nat)
    requires CodesAccepted(c) && AllCoded(c, ts) && Used(c.ll, END_OF_BLOCK) && StartsWith(v, BlockFields(c, ts))
    requires Ends(p, v, total)
    ensures if p <= total then p + BitsOf(BlockFields(c, ts)) <= total + 62 else BitsOf(BlockFields(c, ts)) <= 15
    decreases |ts|
  {
    hide StartsWith, BlockFields, Matches, BitsOf, Shr;
    NextToken(c, ts, v);
    if v == 0 {
      EndMatchesZeros(c, ts);
    } else if |ts| > 0 {
      var k := BitsOf(TokenFields(c, ts[0]));
      ShrEnds(p, v, k, total);
      TokensEnd(c, ts[1..], p + k, Shr(v, k), total);
    }
  }

  // ---- the last block -----------------------------------------------------------------

  /** Where the tokens of a block begin. */
  ghost function TokensStart(st: State, b: Block): nat
  {
    match b.body
    case Dynamic(h, _) => if HeaderFits(h) then st.p + 3 + BitsOf(HeaderFields(h)) else st.p
    case _ => st.p + 3
  }

  /** A last block that is stored ends within the input. Any other ends at most 62 bits past it,
      or if its code lengths are already past it, at most 15 bits after these. */
  ghost predicate NearEnd(input: seq<byte>, parse_header: bool, bs: seq<Block>)
    requires StreamNext(StreamStart(input, parse_header), bs)
  {
    var start, n, total := StreamStart(input, parse_header), |bs| - 1, 8 * |input|;
    var st, end := AfterBlocks(start, bs[..n]), AfterBlocks(start, bs).p;
    if bs[n].body.Stored? then end <= total
    else if TokensStart(st, bs[n]) <= total then end <= total + 62
    else end <= TokensStart(st, bs[n]) + 15
  }

  lemma TokensNear(st: State, b: Block, total: nat)
    requires BlockNext(st, b) && !b.body.Stored? && Ends(st.p, st.v, total)
    ensures var q, end := TokensStart(st, b), AfterBlock(st, b).p;
            if q <= total then end <= total + 62 else end <= q + 15
  {
    hide StartsWith, BitsOf, BlockFields, HeaderFields, Shr, Ends, AllReach, Expand;
    var st3 := AfterBits(st, 3);
    ShrEnds(st.p, st.v, 3, total);
    if b.body.Fixed? {
      TokensEnd(FixedCodes(), b.body.ts, st3.p, st3.v, total);
    } else {
      var h, ts := b.body.h, b.body.ts;
      ConcatSplit(st3.v, HeaderFields(h), BlockFields(HeaderCodes(h), ts), BodyFields(b.body, st3.p, st3.out));
      var k := BitsOf(HeaderFields(h));
      ShrEnds(st3.p, st3.v, k, total);
      TokensEnd(HeaderCodes(h), ts, st3.p + k, Shr(st3.v, k), total);
    }
  }

  /** Of a number of fewer than 32 bits, bits 16 to 31 are not all set. */
  lemma ShortWord(v: nat, n: nat)
    requires v < Pow2(n) && n < 32
    ensures Low(Shr(v, 16), 16) != 0xFFFF
  {
    hide Shr, Low, Pow2;
    Pow2Mono(n, 31);
    TopHalf(v);
    LowFits(Shr(v, 16), 16);
    Pow2Values();
  }

  lemma TopHalf(v: nat)
    requires v < Pow2(31)
    ensures Shr(v, 16) < Pow2(15) < Pow2(16)
  {
    hide Shr;
    ShlZero(31);
    ShlZero(15);
    JoinMore(v, 0, 31, 16);
  }

  /** The lengths of an empty stored block are within the input, for the second is not zero. */
  lemma EmptyInside(st: State, b: Block, total: nat)
    requires BlockNext(st, b) && b.body.Stored? && b.body.data == [] && Ends(st.p, st.v, total)
    ensures AfterBlock(st, b).p <= total
  {
    hide StartsWith, BitsOf, StoredFields, Shr, Low, Align, Pow2;
    var st3 := AfterBits(st, 3);
    ShrEnds(st.p, st.v, 3, total);
    StoredAt(st3.p, b.body.pad, [], st3.v);
    var p2, v2 := st3.p + Align(st3.p), Shr(st3.v, Align(st3.p));
    ShrEnds(st3.p, st3.v, Align(st3.p), total);
    Pow2Values();
    if p2 + 32 > total {
      ShortWord(v2, if p2 <= total then total - p2 else 0);
      assert false;
    }
  }

  /** What the inflater accepts ends near the input. */
  lemma EndsNear(input: seq<byte>, parse_header: bool, d: seq<byte>, bs: seq<Block>)
    requires HoldsStream(input, parse_header, d, bs)
    requires bs[|bs| - 1].body.Stored? && bs[|bs| - 1].body.data != [] ==> Complete(input, parse_header, bs)
    ensures NearEnd(input, parse_header, bs)
  {
    hide BodyFields, StartsWith, TokensStart, BodyOut, BitsOf, Ends, Low, Shr;
    var start, n, total := StreamStart(input, parse_header), |bs| - 1, 8 * |input|;
    StartEnds(input, parse_header);
    BlocksPrefix(start, bs, n);
    BlocksEnd(start, bs[..n], total);
    var st := AfterBlocks(start, bs[..n]);
    assert AfterBlocks(start, bs) == AfterBlock(st, bs[n]);
    if !bs[n].body.Stored? {
      TokensNear(st, bs[n], total);
    } else if bs[n].body.data == [] {
      EmptyInside(st, bs[n], total);
    }
  }
}
