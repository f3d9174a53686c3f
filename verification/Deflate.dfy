/** The compressed format of RFC 1951, written as a list of bit fields. Both the inflater
    and the compressor are proved against this description. */
module Deflate {
  import opened BitMath
  import opened ZCodes
  import opened LZ77

  /** n bits holding v, least significant bit first. */
  datatype Field = Field(v: nat, n: nat)

  function BitsOf(fs: seq<Field>): nat
  {
    if |fs| == 0 then 0 else fs[0].n + BitsOf(fs[1..])
  }

  function ValueOf(fs: seq<Field>): nat
  {
    if |fs| == 0 then 0 else fs[0].v + Shl(ValueOf(fs[1..]), fs[0].n)
  }

  predicate StartsWith(v: nat, fs: seq<Field>)
  {
    |fs| == 0 || (Low(v, fs[0].n) == fs[0].v && StartsWith(Shr(v, fs[0].n), fs[1..]))
  }

  ghost predicate FieldsFit(fs: seq<Field>)
  {
    forall i | 0 <= i < |fs| :: fs[i].v < Pow2(fs[i].n)
  }

  lemma {:induction false} BitsConcat(a: seq<Field>, b: seq<Field>)
    ensures BitsOf(a + b) == BitsOf(a) + BitsOf(b)
  {
    if |a| == 0 {
      assert a + b == b;
    } else {
      assert (a + b)[1..] == a[1..] + b;
      BitsConcat(a[1..], b);
    }
  }

  lemma {:induction false} ValueConcat(a: seq<Field>, b: seq<Field>)
    ensures ValueOf(a + b) == ValueOf(a) + Shl(ValueOf(b), BitsOf(a))
  {
    if |a| == 0 {
      assert a + b == b;
    } else {
      assert (a + b)[1..] == a[1..] + b;
      ValueConcat(a[1..], b);
      ShlAdd(ValueOf(a[1..]), Shl(ValueOf(b), BitsOf(a[1..])), a[0].n);
      ShlShl(ValueOf(b), BitsOf(a[1..]), a[0].n);
    }
  }

  lemma {:induction false} StartsWithConcat(v: nat, a: seq<Field>, b: seq<Field>)
    ensures StartsWith(v, a + b) <==> StartsWith(v, a) && StartsWith(Shr(v, BitsOf(a)), b)
  {
    if |a| == 0 {
      assert a + b == b;
    } else {
      assert (a + b)[1..] == a[1..] + b;
      StartsWithConcat(Shr(v, a[0].n), a[1..], b);
      ShrShr(v, a[0].n, BitsOf(a[1..]));
    }
  }

  lemma ConcatSplit(v: nat, a: seq<Field>, b: seq<Field>, ab: seq<Field>)
    requires ab == a + b
    ensures BitsOf(ab) == BitsOf(a) + BitsOf(b)
    ensures Shr(v, BitsOf(ab)) == Shr(Shr(v, BitsOf(a)), BitsOf(b))
    ensures StartsWith(v, ab) <==> StartsWith(v, a) && StartsWith(Shr(v, BitsOf(a)), b)
  {
    StartsWithConcat(v, a, b);
    BitsConcat(a, b);
    ShrShr(v, BitsOf(a), BitsOf(b));
  }

  lemma {:induction false} ValueBound(fs: seq<Field>)
    requires FieldsFit(fs)
    ensures ValueOf(fs) < Pow2(BitsOf(fs))
  {
    if |fs| != 0 {
      ValueBound(fs[1..]);
      ShlMono(ValueOf(fs[1..]), Pow2(BitsOf(fs[1..])), fs[0].n);
      ShlShl(1, BitsOf(fs[1..]), fs[0].n);
    }
  }

  lemma FirstField(v: nat, fs: seq<Field>)
    requires |fs| > 0
    ensures BitsOf(fs) == fs[0].n + BitsOf(fs[1..]) && ValueOf(fs) == fs[0].v + Shl(ValueOf(fs[1..]), fs[0].n)
    ensures StartsWith(v, fs) <==> Low(v, fs[0].n) == fs[0].v && StartsWith(Shr(v, fs[0].n), fs[1..])
  {
  }

  lemma NoField(rest: nat, fs: seq<Field>)
    requires |fs| == 0
    ensures BitsOf(fs) == 0 && ValueOf(fs) == 0 && StartsWith(0 + Shl(rest, 0), fs) && Shr(0 + Shl(rest, 0), 0) == rest
  {
  }

  /** Written fields are read back, whatever follows them. */
  lemma {:induction false} WrittenIsRead(fs: seq<Field>, rest: nat)
    requires FieldsFit(fs)
    ensures StartsWith(ValueOf(fs) + Shl(rest, BitsOf(fs)), fs)
    ensures Shr(ValueOf(fs) + Shl(rest, BitsOf(fs)), BitsOf(fs)) == rest
  {
    hide BitsOf, ValueOf, StartsWith, Shl, Shr, Low;
    if |fs| == 0 {
      NoField(rest, fs);
    } else {
      var f, t, v := fs[0], fs[1..], ValueOf(fs) + Shl(rest, BitsOf(fs));
      var n, tv := BitsOf(t), ValueOf(t) + Shl(rest, BitsOf(t));
      FirstField(v, fs);
      ShlAdd(ValueOf(t), Shl(rest, n), f.n);
      ShlShl(rest, n, f.n);
      Join(f.v, tv, f.n);
      WrittenIsRead(t, rest);
      ShrShr(v, f.n, n);
    }
  }

  // ---- symbols and tokens (section 3.2.5) ---------------------------------------------

  /** Number of extra bits of length symbol 257 + i: after the first eight, each group of
      four symbols has one bit more than the last; 285 stands for 258 alone. */
  function LengthExtra(i: nat): (n: nat)
    requires i < 29
    ensures n <= 5
  {
    if i < 8 || i == 28 then 0 else i / 4 - 1
  }

  /** Smallest length of symbol 257 + i: where the previous symbol's lengths end. */
  function LengthBase(i: nat): (n: nat)
    requires i < 29
    ensures n >= 3
  {
    if i == 0 then 3 else if i == 28 then 258 else LengthBase(i - 1) + Pow2(LengthExtra(i - 1))
  }

  /** Number of extra bits of distance symbol i. */
  function DistExtra(i: nat): (n: nat)
    requires i < 30
    ensures n <= 13
  {
    if i < 4 then 0 else i / 2 - 1
  }

  /** Smallest distance of symbol i: where the previous symbol's distances end. */
  function DistBase(i: nat): (n: nat)
    requires i < 30
    ensures n >= 1
  {
    if i == 0 then 1 else DistBase(i - 1) + Pow2(DistExtra(i - 1))
  }

  const END_OF_BLOCK := 256

  /** A literal byte, or a match: the length symbol with its extra bits and the distance
      symbol with its extra bits. */
  datatype Token =
    | Literal(b: byte)
    | Match(lsym: nat, lextra: nat, dsym: nat, dextra: nat)

  predicate TokenFormed(t: Token)
  {
    t.Literal? ||
    (&& 257 <= t.lsym < 286 && t.dsym < 30
     && t.lextra < Pow2(LengthExtra(t.lsym - 257)) && t.dextra < Pow2(DistExtra(t.dsym)))
  }

  function Length(t: Token): (n: nat)
    requires TokenFormed(t)
    ensures n >= 1
  {
    if t.Literal? then 1 else LengthBase(t.lsym - 257) + t.lextra
  }

  function Distance(t: Token): (d: nat)
    requires TokenFormed(t) && t.Match?
    ensures d >= 1
  {
    DistBase(t.dsym) + t.dextra
  }

  function Symbol(lens: Lengths, i: nat): Field
    requires Used(lens, i)
  {
    Field(Rev(Code(lens, i), lens[i]), lens[i])
  }

  /** The codes for literals and lengths, and for distances, that a block uses. */
  datatype Codes = Codes(ll: Lengths, dl: Lengths)

  /** A token that the codes can express. */
  predicate Coded(c: Codes, t: Token)
  {
    && TokenFormed(t)
    && (t.Literal? ==> Used(c.ll, t.b))
    && (t.Match? ==> Used(c.ll, t.lsym) && Used(c.dl, t.dsym))
  }

  function TokenFields(c: Codes, t: Token): seq<Field>
    requires Coded(c, t)
  {
    match t
    case Literal(b) => [Symbol(c.ll, b)]
    case Match(lsym, lextra, dsym, dextra) =>
      [Symbol(c.ll, lsym), Field(lextra, LengthExtra(lsym - 257)),
       Symbol(c.dl, dsym), Field(dextra, DistExtra(dsym))]
  }

  predicate AllCoded(c: Codes, ts: seq<Token>)
  {
    forall i | 0 <= i < |ts| :: Coded(c, ts[i])
  }

  function TokensFields(c: Codes, ts: seq<Token>): seq<Field>
    requires AllCoded(c, ts)
  {
    if |ts| == 0 then [] else TokenFields(c, ts[0]) + TokensFields(c, ts[1..])
  }

  lemma {:induction false} TokensFieldsConcat(c: Codes, a: seq<Token>, b: seq<Token>)
    requires AllCoded(c, a) && AllCoded(c, b)
    ensures AllCoded(c, a + b) && TokensFields(c, a + b) == TokensFields(c, a) + TokensFields(c, b)
  {
    if |a| == 0 {
      assert a + b == b;
    } else {
      assert (a + b)[1..] == a[1..] + b;
      TokensFieldsConcat(c, a[1..], b);
    }
  }

  /** The token reaches back no further than n bytes. */
  predicate Reaches(t: Token, n: nat)
  {
    TokenFormed(t) && (t.Match? ==> Distance(t) <= n)
  }

  /** The bytes a token stands for, after `out`. */
  function Expand1(out: seq<byte>, t: Token): (r: seq<byte>)
    requires Reaches(t, |out|)
    ensures |r| == |out| + Length(t)
  {
    if t.Literal? then out + [t.b] else CopyBack(out, Distance(t), Length(t))
  }

  predicate AllReach(ts: seq<Token>, out: seq<byte>)
    decreases |ts|
  {
    |ts| == 0 || (Reaches(ts[0], |out|) && AllReach(ts[1..], Expand1(out, ts[0])))
  }

  function Expand(out: seq<byte>, ts: seq<Token>): seq<byte>
    requires AllReach(ts, out)
    decreases |ts|
  {
    if |ts| == 0 then out else Expand(Expand1(out, ts[0]), ts[1..])
  }

  lemma {:induction false} ExpandConcat(out: seq<byte>, a: seq<Token>, b: seq<Token>)
    requires AllReach(a, out)
    ensures AllReach(a + b, out) <==> AllReach(b, Expand(out, a))
    ensures AllReach(a + b, out) ==> Expand(out, a + b) == Expand(Expand(out, a), b)
    decreases |a|
  {
    if |a| == 0 {
      assert a + b == b;
    } else {
      assert (a + b)[1..] == a[1..] + b;
      ExpandConcat(Expand1(out, a[0]), a[1..], b);
    }
  }

  /** Tokens only add to the output. */
  lemma {:induction false} ExpandGrows(out: seq<byte>, ts: seq<Token>)
    requires AllReach(ts, out)
    ensures out <= Expand(out, ts) && |Expand(out, ts)| >= |out| + |ts|
    decreases |ts|
  {
    if |ts| != 0 {
      var out1 := Expand1(out, ts[0]);
      ExpandGrows(out1, ts[1..]);
      if ts[0].Match? { CopyBackPeriodic(out, Distance(ts[0]), Length(ts[0])); }
      assert out == out1[..|out|];
    }
  }

  // ---- a compressed block -------------------------------------------------------------

  function BlockFields(c: Codes, ts: seq<Token>): seq<Field>
    requires AllCoded(c, ts) && Used(c.ll, END_OF_BLOCK)
  {
    TokensFields(c, ts) + [Symbol(c.ll, END_OF_BLOCK)]
  }

  /** The stream v starts with a block of these tokens, which make sense after `out`. */
  ghost predicate BlockAt(c: Codes, ts: seq<Token>, out: seq<byte>, v: nat)
  {
    && AllCoded(c, ts) && Used(c.ll, END_OF_BLOCK)
    && AllReach(ts, out)
    && StartsWith(v, BlockFields(c, ts))
  }

  ghost predicate CodesAccepted(c: Codes)
  {
    Accepted(c.ll) && Accepted(c.dl)
  }

  lemma SymbolMatches(lens: Lengths, i: nat, v: nat)
    requires Accepted(lens) && Used(lens, i)
    ensures Symbol(lens, i).v < Pow2(Symbol(lens, i).n)
    ensures Matches(lens, i, v) <==> Low(v, Symbol(lens, i).n) == Symbol(lens, i).v
  {
    RevBound(Code(lens, i), lens[i]);
    PackedCodeMatches(lens, i, v);
  }

  lemma TwoFields(v: nat, f: Field, g: Field)
    ensures StartsWith(v, [f, g]) <==> Low(v, f.n) == f.v && Low(Shr(v, f.n), g.n) == g.v
    ensures BitsOf([f, g]) == f.n + g.n
  {
    OneField(Shr(v, f.n), g);
    assert [f, g][1..] == [g];
  }

  lemma FourFields(v: nat, f: Field, g: Field, h: Field, i: Field)
    ensures var v2 := Shr(v, f.n); var v3 := Shr(v2, g.n); var v4 := Shr(v3, h.n);
            && BitsOf([f, g, h, i]) == f.n + g.n + h.n + i.n
            && Shr(v, f.n + g.n + h.n + i.n) == Shr(v4, i.n)
            && (StartsWith(v, [f, g, h, i]) <==>
                  Low(v, f.n) == f.v && Low(v2, g.n) == g.v && Low(v3, h.n) == h.v && Low(v4, i.n) == i.v)
  {
    assert [f, g, h, i] == [f, g] + [h, i];
    BitsConcat([f, g], [h, i]);
    StartsWithConcat(v, [f, g], [h, i]);
    TwoFields(v, f, g);
    ShrShr(v, f.n, g.n);
    TwoFields(Shr(v, f.n + g.n), h, i);
    ShrShr(Shr(v, f.n + g.n), h.n, i.n);
    ShrShr(v, f.n + g.n, h.n + i.n);
  }

  /** StartsWith for the fields of a match, spelt out. */
  lemma MatchFieldsAt(c: Codes, t: Token, v: nat)
    requires CodesAccepted(c) && Coded(c, t) && t.Match?
    ensures var n1, n2, n3, n4 := c.ll[t.lsym], LengthExtra(t.lsym - 257), c.dl[t.dsym], DistExtra(t.dsym);
            var v2 := Shr(v, n1); var v3 := Shr(v2, n2); var v4 := Shr(v3, n3);
            && BitsOf(TokenFields(c, t)) == n1 + n2 + n3 + n4
            && Shr(v, n1 + n2 + n3 + n4) == Shr(v4, n4)
            && (StartsWith(v, TokenFields(c, t)) <==>
                  Matches(c.ll, t.lsym, v) && Low(v2, n2) == t.lextra && Matches(c.dl, t.dsym, v3)
                    && Low(v4, n4) == t.dextra)
  {
    hide BitsOf, StartsWith, Shr, Low, Matches, Rev, Code, Pow2;
    var fs := TokenFields(c, t);
    assert fs == [fs[0], fs[1], fs[2], fs[3]];
    FourFields(v, fs[0], fs[1], fs[2], fs[3]);
    SymbolMatches(c.ll, t.lsym, v);
    SymbolMatches(c.dl, t.dsym, Shr(Shr(v, fs[0].n), fs[1].n));
  }

  lemma OneField(v: nat, f: Field)
    ensures StartsWith(v, [f]) <==> Low(v, f.n) == f.v
    ensures BitsOf([f]) == f.n && ValueOf([f]) == f.v
  {
    ShlZero(f.n);
  }

  /** Two tokens read from the same stream are the same token. */
  lemma TokenUnique(c: Codes, t: Token, u: Token, v: nat)
    requires CodesAccepted(c) && Coded(c, t) && Coded(c, u)
    requires StartsWith(v, TokenFields(c, t)) && StartsWith(v, TokenFields(c, u))
    ensures t == u
  {
    FirstSymbol(c, t, v);
    FirstSymbol(c, u, v);
    MatchUnique(c.ll, TokenSymbol(t), TokenSymbol(u), v);
    if t.Match? && u.Match? {
      MatchFieldsAt(c, t, v);
      MatchFieldsAt(c, u, v);
      MatchUnique(c.dl, t.dsym, u.dsym, Shr(Shr(v, c.ll[t.lsym]), LengthExtra(t.lsym - 257)));
    }
  }

  /** A match read from v has the length symbol that v starts with, and so on. */
  lemma MatchAt(c: Codes, u: Token, z: nat, v: nat)
    requires CodesAccepted(c) && Coded(c, u) && StartsWith(v, TokenFields(c, u))
    requires 257 <= z < 286 && Matches(c.ll, z, v)
    ensures var v2 := Shr(v, c.ll[z]); var n2 := LengthExtra(z - 257); var v3 := Shr(v2, n2);
            && u.Match? && u.lsym == z && u.lextra == Low(v2, n2) && Matches(c.dl, u.dsym, v3)
            && BitsOf(TokenFields(c, u)) >= c.ll[z] + n2
  {
    FirstSymbol(c, u, v);
    MatchUnique(c.ll, TokenSymbol(u), z, v);
    MatchFieldsAt(c, u, v);
  }

  function TokenSymbol(t: Token): nat
  {
    if t.Literal? then t.b else t.lsym
  }

  lemma FirstSymbol(c: Codes, t: Token, v: nat)
    requires CodesAccepted(c) && Coded(c, t)
    ensures TokenSymbol(t) != END_OF_BLOCK
    ensures StartsWith(v, TokenFields(c, t)) ==> Matches(c.ll, TokenSymbol(t), v)
    ensures t.Literal? ==> BitsOf(TokenFields(c, t)) == c.ll[t.b]
    ensures t.Literal? ==> (StartsWith(v, TokenFields(c, t)) <==> Matches(c.ll, t.b, v))
  {
    SymbolMatches(c.ll, TokenSymbol(t), v);
    if t.Literal? { OneField(v, Symbol(c.ll, t.b)); }
  }

  lemma TokensSplit(c: Codes, ts: seq<Token>, v: nat)
    requires |ts| != 0 && AllCoded(c, ts)
    ensures var fs, k := TokensFields(c, ts[1..]), BitsOf(TokenFields(c, ts[0]));
            && BitsOf(TokensFields(c, ts)) == k + BitsOf(fs)
            && Shr(v, BitsOf(TokensFields(c, ts))) == Shr(Shr(v, k), BitsOf(fs))
            && (StartsWith(v, TokensFields(c, ts))
                <==> StartsWith(v, TokenFields(c, ts[0])) && StartsWith(Shr(v, k), fs))
  {
    ConcatSplit(v, TokenFields(c, ts[0]), TokensFields(c, ts[1..]), TokensFields(c, ts));
  }

  lemma BlockEnd(c: Codes, v: nat)
    requires CodesAccepted(c) && Used(c.ll, END_OF_BLOCK)
    ensures StartsWith(v, BlockFields(c, [])) <==> Matches(c.ll, 256, v)
    ensures BitsOf(BlockFields(c, [])) == c.ll[256]
  {
    assert BlockFields(c, []) == [Symbol(c.ll, END_OF_BLOCK)];
    OneField(v, Symbol(c.ll, END_OF_BLOCK));
    SymbolMatches(c.ll, END_OF_BLOCK, v);
  }

  /** The first token of a block, and the block after it. */
  lemma BlockSplit(c: Codes, ts: seq<Token>, v: nat)
    requires AllCoded(c, ts) && Used(c.ll, END_OF_BLOCK) && |ts| != 0
    ensures var k := BitsOf(TokenFields(c, ts[0]));
            && BitsOf(BlockFields(c, ts)) == k + BitsOf(BlockFields(c, ts[1..]))
            && (StartsWith(v, BlockFields(c, ts)) <==>
                  StartsWith(v, TokenFields(c, ts[0])) && StartsWith(Shr(v, k), BlockFields(c, ts[1..])))
  {
    assert BlockFields(c, ts) == TokenFields(c, ts[0]) + BlockFields(c, ts[1..]);
    ConcatSplit(v, TokenFields(c, ts[0]), BlockFields(c, ts[1..]), BlockFields(c, ts));
  }

  /** A block and a token read from the same place: the block starts with that token. */
  lemma FirstInBlock(c: Codes, t: Token, ts: seq<Token>, v: nat)
    requires CodesAccepted(c) && Coded(c, t) && StartsWith(v, TokenFields(c, t))
    requires AllCoded(c, ts) && Used(c.ll, END_OF_BLOCK) && StartsWith(v, BlockFields(c, ts))
    ensures |ts| != 0 && ts[0] == t
  {
    FirstSymbol(c, t, v);
    if |ts| == 0 {
      assert ts == [];
      BlockEnd(c, v);
      MatchUnique(c.ll, TokenSymbol(t), END_OF_BLOCK, v);
      assert false;
    } else {
      BlockSplit(c, ts, v);
      TokenUnique(c, t, ts[0], v);
    }
  }

  /** What a block that starts at v0 must contain after the tokens `done` already read
      from it: they are its first tokens, and its next token, or its end, comes next. */
  lemma {:induction false} NextInBlock(c: Codes, done: seq<Token>, ts: seq<Token>, out: seq<byte>, v0: nat)
    requires CodesAccepted(c)
    requires AllCoded(c, done) && AllReach(done, out) && StartsWith(v0, TokensFields(c, done))
    requires BlockAt(c, ts, out, v0)
    ensures done <= ts
    ensures BlockAt(c, ts[|done|..], Expand(out, done), Shr(v0, BitsOf(TokensFields(c, done))))
    ensures BitsOf(BlockFields(c, ts)) == BitsOf(TokensFields(c, done)) + BitsOf(BlockFields(c, ts[|done|..]))
    decreases |done|
  {
    if |done| == 0 {
      assert ts[0..] == ts;
    } else {
      var v1 := Shr(v0, BitsOf(TokenFields(c, done[0])));
      TokensSplit(c, done, v0);
      FirstInBlock(c, done[0], ts, v0);
      BlockSplit(c, ts, v0);
      NextInBlock(c, done[1..], ts[1..], Expand1(out, done[0]), v1);
      PrefixCons(done, ts);
    }
  }

  /** A block starts with a symbol: its end, or that of its first token. */
  lemma SymbolInBlock(c: Codes, ts: seq<Token>, out: seq<byte>, v: nat) returns (z: nat)
    requires CodesAccepted(c) && BlockAt(c, ts, out, v)
    ensures Matches(c.ll, z, v) && z < 286
    ensures z == END_OF_BLOCK <==> |ts| == 0
    ensures |ts| == 0 ==> BitsOf(BlockFields(c, ts)) == c.ll[z]
    ensures |ts| != 0 ==>
              && z == TokenSymbol(ts[0]) && Reaches(ts[0], |out|)
              && StartsWith(v, TokenFields(c, ts[0]))
              && BitsOf(BlockFields(c, ts)) >= BitsOf(TokenFields(c, ts[0]))
              && |Expand(out, ts)| >= |out| + Length(ts[0])
  {
    if |ts| == 0 {
      assert ts == [];
      BlockEnd(c, v);
      z := END_OF_BLOCK;
    } else {
      z := TokenSymbol(ts[0]);
      BlockSplit(c, ts, v);
      FirstSymbol(c, ts[0], v);
      ExpandGrows(Expand1(out, ts[0]), ts[1..]);
    }
  }

  /** Reading one more token. */
  lemma TokenAppended(c: Codes, ts: seq<Token>, t: Token, out: seq<byte>, v0: nat)
    requires AllCoded(c, ts) && AllReach(ts, out) && StartsWith(v0, TokensFields(c, ts))
    requires Coded(c, t) && Reaches(t, |Expand(out, ts)|)
    requires StartsWith(Shr(v0, BitsOf(TokensFields(c, ts))), TokenFields(c, t))
    ensures AllCoded(c, ts + [t]) && AllReach(ts + [t], out) && StartsWith(v0, TokensFields(c, ts + [t]))
    ensures BitsOf(TokensFields(c, ts + [t])) == BitsOf(TokensFields(c, ts)) + BitsOf(TokenFields(c, t))
    ensures Shr(v0, BitsOf(TokensFields(c, ts + [t]))) ==
            Shr(Shr(v0, BitsOf(TokensFields(c, ts))), BitsOf(TokenFields(c, t)))
    ensures Expand(out, ts + [t]) == Expand1(Expand(out, ts), t)
  {
    ExpandConcat(out, ts, [t]);
    TokensFieldsConcat(c, ts, [t]);
    assert TokensFields(c, [t]) == TokenFields(c, t) by {
      assert TokensFields(c, [t][1..]) == [];
    }
    ConcatSplit(v0, TokensFields(c, ts), TokenFields(c, t), TokensFields(c, ts + [t]));
  }

  /** Reading the end of the block. */
  lemma EndAppended(c: Codes, ts: seq<Token>, out: seq<byte>, v0: nat)
    requires CodesAccepted(c)
    requires AllCoded(c, ts) && AllReach(ts, out) && StartsWith(v0, TokensFields(c, ts))
    requires Matches(c.ll, END_OF_BLOCK, Shr(v0, BitsOf(TokensFields(c, ts))))
    ensures BlockAt(c, ts, out, v0)
    ensures BitsOf(BlockFields(c, ts)) == BitsOf(TokensFields(c, ts)) + c.ll[END_OF_BLOCK]
    ensures Shr(v0, BitsOf(BlockFields(c, ts))) == Shr(Shr(v0, BitsOf(TokensFields(c, ts))), c.ll[END_OF_BLOCK])
  {
    var v := Shr(v0, BitsOf(TokensFields(c, ts)));
    BlockEnd(c, v);
    OneField(v, Symbol(c.ll, END_OF_BLOCK));
    SymbolMatches(c.ll, END_OF_BLOCK, v);
    ConcatSplit(v0, TokensFields(c, ts), [Symbol(c.ll, END_OF_BLOCK)], BlockFields(c, ts));
  }
}
