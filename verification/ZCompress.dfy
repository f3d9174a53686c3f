/** `stbi_zlib_compress`: greedy matching with one byte of look-ahead, fixed Huffman codes,
    and stored blocks when that would be shorter. */
module ZCompress {
  import opened BitMath
  import opened ZCodes
  import opened Deflate
  import opened DeflateStream
  import opened FixedCode
  import opened ZTables
  import opened ZMatcher
  import opened ZWriter
  import opened Adler

  // ---- tokens -------------------------------------------------------------------------

  /** `stbiw__zlib_huffb`. */
  method EmitLiteral(w: BitWriter, b: byte)
    requires w.Valid()
    modifies w
    ensures w.Valid() && Coded(FixedCodes(), Literal(b))
    ensures w.fields == old(w.fields) + TokenFields(FixedCodes(), Literal(b))
    ensures w.out[..2] == old(w.out)[..2]
  {
    w.AddSymbol(b);
  }

  /** A match of `best` bytes at distance d. */
  method EmitMatch(w: BitWriter, best: nat, d: nat) returns (ghost t: Token)
    requires w.Valid() && 3 <= best <= 258 && 1 <= d <= 32767
    modifies w
    ensures w.Valid() && t.Match? && Coded(FixedCodes(), t) && Length(t) == best && Distance(t) == d
    ensures w.fields == old(w.fields) + TokenFields(FixedCodes(), t)
    ensures w.out[..2] == old(w.out)[..2]
  {
    hide FixedCodes;
    var j := LengthBucket(best);
    WriterLengths(j);
    var k := DistBucket(d);
    WriterDistances(k);
    t := Match(j + 257, best - LengthBase(j), k, d - DistBase(k));
    WriteMatch(w, t, j, best - Lengthc(j), k, d - Distc(k));
  }

  method WriteMatch(w: BitWriter, ghost t: Token, j: nat, x: nat, k: nat, y: nat)
    requires w.Valid() && j < 29 && k < 30 && t == Match(j + 257, x, k, y) && TokenFormed(t)
    requires Lengtheb(j) == LengthExtra(j) && Disteb(k) == DistExtra(k)
    modifies w
    ensures w.Valid() && Coded(FixedCodes(), t) && w.fields == old(w.fields) + TokenFields(FixedCodes(), t)
    ensures w.out[..2] == old(w.out)[..2]
  {
    hide BitsOf, ValueOf, LE, Shl, FieldsFit, Pow2;
    hide FixedCodes, Lengtheb, Disteb;
    w.AddSymbol(j + 257);
    w.AddExtra(x, Lengtheb(j));
    w.AddDistance(k);
    w.AddExtra(y, Disteb(k));
    ghost var fs := TokenFields(FixedCodes(), t);
    assert fs == [fs[0]] + [fs[1]] + [fs[2]] + [fs[3]];
  }

  /** The data up to i, and the match or literal there, is the data up to the next place. */
  lemma LiteralExpands(data: seq<byte>, i: nat)
    requires i < |data|
    ensures Expand1(data[..i], Literal(data[i])) == data[..i + 1]
  {
  }

  lemma MatchExpands(data: seq<byte>, p: nat, i: nat, t: Token)
    requires p < i <= |data| && t.Match? && TokenFormed(t)
    requires Distance(t) == i - p && Length(t) == MatchLength(data, p, i)
    ensures i + Length(t) <= |data|
    ensures Expand1(data[..i], t) == data[..i + Length(t)]
  {
    MatchRepeats(data, p, i, Length(t));
  }

  /** The token written at i is the one the rule asks for, and takes the place up to i'. */
  ghost predicate TokenChosen(data: seq<byte>, chain: seq<nat>, next: seq<nat>, i: nat, i': nat, t: Token)
  {
    if t.Match? then
      && TokenFormed(t) && 3 <= Length(t) <= 258 && 1 <= Distance(t) <= 32767 && Distance(t) <= i
      && i' == i + Length(t) && Chosen(data, chain, next, i, true, i - Distance(t), Length(t))
    else
      i < |data| && t == Literal(data[i]) && i' == i + 1 && Chosen(data, chain, next, i, false, 0, 0)
  }

  /** The match found, or the literal at i. */
  method WriteToken(data: seq<byte>, i: nat, found: bool, loc: nat, best: nat, w: BitWriter)
    returns (i': nat, ghost t: Token)
    requires i < |data| && w.Valid()
    requires found ==> loc < i < loc + 32768 && best == MatchLength(data, loc, i) && 3 <= best <= 258
    modifies w
    ensures w.Valid() && w.out[..2] == old(w.out)[..2]
    ensures i < i' <= |data| && Reaches(t, i) && Expand1(data[..i], t) == data[..i']
    ensures Coded(FixedCodes(), t) && w.fields == old(w.fields) + TokenFields(FixedCodes(), t)
    ensures if found then t.Match? && Length(t) == best && Distance(t) == i - loc && i' == i + best
            else t == Literal(data[i]) && i' == i + 1
  {
    hide FixedCodes, BitsOf, ValueOf, LE, Shl, FieldsFit, Pow2, TokenFields;
    if found {
      t := EmitMatch(w, best, i - loc);
      MatchExpands(data, loc, i, t);
      i' := i + best;
    } else {
      EmitLiteral(w, data[i]);
      t := Literal(data[i]);
      LiteralExpands(data, i);
      i' := i + 1;
    }
  }

  /** One round of the main loop: the token written stands for the data from i to i'. */
  method Round(data: seq<byte>, i: nat, q: nat, w: BitWriter, table: HashTable) returns (i': nat, ghost t: Token)
    requires i + 3 < |data| && q > 0
    requires w.Valid() && table.Valid() && table.Earlier(i, q)
    modifies w, table.chains
    ensures w.Valid() && table.Earlier(i', q)
    ensures i' <= |data|
      && TokenChosen(data, old(table.chains[Hash(data, i)]), table.chains[Hash(data, i + 1)], i, i', t)
    ensures table.chains[Hash(data, i)] == Pushed(old(table.chains[Hash(data, i)]), i, q)
    ensures forall k | 0 <= k < ZHASH && k != Hash(data, i) :: table.chains[k] == old(table.chains[k])
    ensures w.out[..2] == old(w.out)[..2]
    ensures Reaches(t, i) && Expand1(data[..i], t) == data[..i']
    ensures Coded(FixedCodes(), t) && w.fields == old(w.fields) + TokenFields(FixedCodes(), t)
  {
    hide FixedCodes, Chosen, Hash, Pushed, BitsOf, ValueOf, LE, Shl, FieldsFit, Pow2, TokenFields, Expand1, MatchLength;
    var found, loc, best := Search(data, i, q, table);
    i', t := WriteToken(data, i, found, loc, best, w);
    if !found { NotFound(data, old(table.chains[Hash(data, i)]), table.chains[Hash(data, i + 1)], i, loc, best); }
    table.EarlierMono(i + 1, i', q);
  }

  lemma NotFound(data: seq<byte>, chain: seq<nat>, next: seq<nat>, i: nat, loc: nat, best: nat)
    requires Chosen(data, chain, next, i, false, loc, best)
    ensures Chosen(data, chain, next, i, false, 0, 0)
  {
  }

  /** The match to use at i, if any: the best one in the chain, unless a longer one starts
      at the next byte. Position i is entered into the table either way. */
  method Search(data: seq<byte>, i: nat, q: nat, table: HashTable) returns (found: bool, loc: nat, best: nat)
    requires i + 3 < |data| && q > 0
    requires table.Valid() && table.Earlier(i, q)
    modifies table.chains
    ensures table.Earlier(i + 1, q)
    ensures found ==> loc < i < loc + 32768 && best == MatchLength(data, loc, i) && 3 <= best <= 258
    ensures Chosen(data, old(table.chains[Hash(data, i)]), table.chains[Hash(data, i + 1)], i, found, loc, best)
    ensures table.chains[Hash(data, i)] == Pushed(old(table.chains[Hash(data, i)]), i, q)
    ensures forall k | 0 <= k < ZHASH && k != Hash(data, i) :: table.chains[k] == old(table.chains[k])
  {
    hide Hash, Pushed;
    var h := Hash(data, i);
    assert ChainOk(table.chains[h], i, q);
    var chain := table.chains[h];
    found, loc, best := FindMatch(data, chain, i);
    table.Insert(h, i, q);
    var h' := Hash(data, i + 1);
    assert ChainOk(table.chains[h'], i + 1, q);
    if found {
      assert BestOf(data, chain, |chain|, i, true, loc, best);
      var better := BetterLater(data, table.chains[h'], i, best);
      if better { found := false; }
    }
  }

  // ---- the whole run ------------------------------------------------------------------

  ghost predicate Hashed(data: seq<byte>, starts: seq<nat>)
  {
    forall k | 0 <= k < |starts| :: starts[k] + 3 < |data|
  }

  /** The chain of a hash when these positions have been entered into the table, in this order. */
  ghost function ChainOf(data: seq<byte>, starts: seq<nat>, h: nat, q: nat): seq<nat>
    requires Hashed(data, starts)
  {
    if |starts| == 0 then []
    else
      var n := |starts| - 1;
      var chain := ChainOf(data, starts[..n], h, q);
      if Hash(data, starts[n]) == h then Pushed(chain, starts[n], q) else chain
  }

  /** Token k starts where the one before it ends, and is the one the rule asks for when only the
      starts of the tokens up to it are in the table; the last one ends at i. */
  ghost predicate ParsedAt(data: seq<byte>, q: nat, starts: seq<nat>, ts: seq<Token>, i: nat, k: nat)
    requires Hashed(data, starts) && k < |ts| == |starts|
  {
    var s, e := starts[k], if k + 1 < |starts| then starts[k + 1] else i;
    && (k == 0 ==> s == 0)
    && TokenChosen(data, ChainOf(data, starts[..k], Hash(data, s), q),
                   ChainOf(data, starts[..k + 1], Hash(data, s + 1), q),
                   s, e, ts[k])
  }

  /** The tokens of the data up to i. */
  ghost predicate Parsed(data: seq<byte>, q: nat, starts: seq<nat>, ts: seq<Token>, i: nat)
  {
    && |starts| == |ts| && Hashed(data, starts) && (ts == [] ==> i == 0)
    && forall k: nat | k < |ts| :: ParsedAt(data, q, starts, ts, i, k)
  }

  lemma ParsedNext(data: seq<byte>, q: nat, starts: seq<nat>, ts: seq<Token>, i: nat, t: Token, i': nat)
    requires Parsed(data, q, starts, ts, i) && i + 3 < |data|
    requires Hashed(data, starts + [i])
    requires TokenChosen(data, ChainOf(data, starts, Hash(data, i), q),
                         ChainOf(data, starts + [i], Hash(data, i + 1), q),
                         i, i', t)
    ensures Parsed(data, q, starts + [i], ts + [t], i')
  {
    hide TokenChosen, ChainOf, Hash;
    var starts', ts' := starts + [i], ts + [t];
    forall k: nat | k < |ts'| ensures ParsedAt(data, q, starts', ts', i', k) {
      if k < |ts| {
        assert ParsedAt(data, q, starts, ts, i, k);
        assert starts'[..k] == starts[..k] && starts'[..k + 1] == starts[..k + 1];
      } else {
        assert starts'[..k] == starts && starts'[..k + 1] == starts';
      }
    }
  }

  /** The hash table holds the chains. */
  ghost predicate InTable(chains: seq<seq<nat>>, data: seq<byte>, starts: seq<nat>, q: nat)
  {
    && |chains| == ZHASH && Hashed(data, starts)
    && forall h: nat | h < ZHASH :: chains[h] == ChainOf(data, starts, h, q)
  }

  lemma ChainNext(data: seq<byte>, starts: seq<nat>, i: nat, h: nat, q: nat)
    requires Hashed(data, starts) && i + 3 < |data|
    ensures Hashed(data, starts + [i])
    ensures ChainOf(data, starts + [i], h, q) ==
            if Hash(data, i) == h then Pushed(ChainOf(data, starts, h, q), i, q) else ChainOf(data, starts, h, q)
  {
    hide Hash, Pushed;
    assert (starts + [i])[..|starts|] == starts;
  }

  lemma TableNext(was: seq<seq<nat>>, now: seq<seq<nat>>, data: seq<byte>, starts: seq<nat>, i: nat, q: nat)
    requires InTable(was, data, starts, q) && i + 3 < |data| && |now| == ZHASH
    requires now[Hash(data, i)] == Pushed(was[Hash(data, i)], i, q)
    requires forall h | 0 <= h < ZHASH && h != Hash(data, i) :: now[h] == was[h]
    ensures InTable(now, data, starts + [i], q)
  {
    hide Hash, Pushed, ChainOf, Hashed;
    ChainNext(data, starts, i, 0, q);
    forall h: nat | h < ZHASH ensures now[h] == ChainOf(data, starts + [i], h, q) {
      ChainNext(data, starts, i, h, q);
    }
  }

  /** One more token, chosen from the table as it was and as it is with position i in it. */
  lemma RunNext(was: seq<seq<nat>>, now: seq<seq<nat>>, data: seq<byte>, q: nat, starts: seq<nat>, ts: seq<Token>,
                i: nat, t: Token, i': nat)
    requires InTable(was, data, starts, q) && Parsed(data, q, starts, ts, i) && i + 3 < |data| && |now| == ZHASH
    requires now[Hash(data, i)] == Pushed(was[Hash(data, i)], i, q)
    requires forall h | 0 <= h < ZHASH && h != Hash(data, i) :: now[h] == was[h]
    requires TokenChosen(data, was[Hash(data, i)], now[Hash(data, i + 1)], i, i', t)
    ensures InTable(now, data, starts + [i], q) && Parsed(data, q, starts + [i], ts + [t], i')
  {
    hide Hash, Pushed, ChainOf, Hashed, TokenChosen, Parsed;
    TableNext(was, now, data, starts, i, q);
    ParsedNext(data, q, starts, ts, i, t, i');
  }

  lemma NothingParsed(data: seq<byte>, q: nat, chains: seq<seq<nat>>)
    requires |chains| == ZHASH && forall h: nat | h < ZHASH :: chains[h] == []
    ensures InTable(chains, data, [], q) && Parsed(data, q, [], [], 0)
  {
  }

  /** The fixed-code block: header bits, tokens, end of block. */
  method WriteTokens(data: seq<byte>, quality: int, w: BitWriter)
    returns (ghost ts: seq<Token>, ghost starts: seq<nat>, ghost i: nat)
    requires w.Valid() && w.fields == []
    modifies w
    ensures w.Valid() && w.out[..2] == old(w.out)[..2]
    ensures |starts| <= |ts| && i <= |data| <= i + 3
    ensures Parsed(data, if quality < 5 then 5 else quality, starts, ts[..|starts|], i)
    ensures ts[|starts|..] == Literals(data[i..])
    ensures CodedFits(FixedCodes(), ts, []) && Expand([], ts) == data
    ensures w.fields == [Field(1, 1), Field(1, 2)] + BlockFields(FixedCodes(), ts)
  {
    hide BitsOf, ValueOf, LE, Shl, FieldsFit, Pow2, Expand, Parsed, Literals, WroteUpTo;
    LengthCode(END_OF_BLOCK);
    hide FixedCodes;
    FixedAccepted();
    var q := if quality < 5 then 5 else quality;
    Pow2Values();
    w.Add(1, 1); // BFINAL = 1
    w.Add(1, 2); // BTYPE = 1, fixed codes
    var at;
    ghost var before;
    at, before, starts := WriteMatches(data, q, w);
    SameCount(data, q, starts, before, at);
    i := at;
    ts := WriteRest(data, at, before, w);
    EndWritten(data, ts, w.fields);
    w.AddSymbol(256); // end of block
  }

  lemma SameCount(data: seq<byte>, q: nat, starts: seq<nat>, ts: seq<Token>, i: nat)
    requires Parsed(data, q, starts, ts, i)
    ensures |starts| == |ts|
  {
    hide ParsedAt;
  }

  lemma EndWritten(data: seq<byte>, ts: seq<Token>, fs: seq<Field>)
    requires WroteUpTo(data, |data|, ts, fs) && Used(FixedCodes().ll, END_OF_BLOCK)
    ensures AllCoded(FixedCodes(), ts) && AllReach(ts, []) && Expand([], ts) == data
    ensures fs + [Symbol(FixedCodes().ll, END_OF_BLOCK)] == [Field(1, 1), Field(1, 2)] + BlockFields(FixedCodes(), ts)
  {
    hide FixedCodes;
    assert data[..|data|] == data;
    var e := [Symbol(FixedCodes().ll, END_OF_BLOCK)];
    assert [Field(1, 1), Field(1, 2)] + TokensFields(FixedCodes(), ts) + e ==
           [Field(1, 1), Field(1, 2)] + (TokensFields(FixedCodes(), ts) + e);
  }

  function Literals(data: seq<byte>): seq<Token>
  {
    seq(|data|, k requires 0 <= k < |data| => Literal(data[k]))
  }

  /** The main loop, up to the last three bytes. */
  method WriteMatches(data: seq<byte>, q: nat, w: BitWriter)
    returns (i: nat, ghost ts: seq<Token>, ghost starts: seq<nat>)
    requires w.Valid() && w.fields == [Field(1, 1), Field(1, 2)] && q > 0
    modifies w
    ensures w.Valid() && w.out[..2] == old(w.out)[..2]
    ensures i <= |data| <= i + 3 && WroteUpTo(data, i, ts, w.fields)
    ensures Parsed(data, q, starts, ts, i)
  {
    hide FixedCodes, WroteUpTo, TokenChosen, Hash, Pushed, Parsed, InTable, FieldsFit, BitsOf, ValueOf, LE, Shl, Pow2,
      TokenFields, TokensFields, Expand1, Coded, Reaches;
    var table := new HashTable();
    ts, starts := [], [];
    i := 0;
    NothingWritten(data, w.fields);
    NothingParsed(data, q, table.chains[..]);
    while i + 3 < |data|
      invariant w.Valid() && table.Valid() && fresh(table.chains) && table.Earlier(i, q)
      invariant w.out[..2] == old(w.out)[..2]
      invariant i <= |data| && WroteUpTo(data, i, ts, w.fields)
      invariant Parsed(data, q, starts, ts, i) && InTable(table.chains[..], data, starts, q)
      decreases |data| - i
    {
      ghost var t;
      ghost var k, fs, was := i, w.fields, table.chains[..];
      i, t := Round(data, i, q, w, table);
      RunNext(was, table.chains[..], data, q, starts, ts, k, t, i);
      TokenWritten(data, k, i, ts, t, fs, w.fields);
      ts, starts := ts + [t], starts + [k];
    }
  }

  lemma NothingWritten(data: seq<byte>, fs: seq<Field>)
    requires fs == [Field(1, 1), Field(1, 2)]
    ensures WroteUpTo(data, 0, [], fs)
  {
  }

  /** The final bytes, as literals. */
  method WriteRest(data: seq<byte>, start: nat, ghost before: seq<Token>, w: BitWriter) returns (ghost ts: seq<Token>)
    requires w.Valid() && start <= |data| && WroteUpTo(data, start, before, w.fields)
    modifies w
    ensures w.Valid() && w.out[..2] == old(w.out)[..2]
    ensures WroteUpTo(data, |data|, ts, w.fields)
    ensures |ts| >= |before| && ts[..|before|] == before && ts[|before|..] == Literals(data[start..])
  {
    hide FixedCodes, WroteUpTo, Literals, FieldsFit, BitsOf, ValueOf, LE, Shl, Pow2, TokenFields, TokensFields, Expand1,
      Coded;
    ts := before;
    ghost var rest := [];
    LiteralsNext(data, start, start);
    for i := start to |data|
      invariant w.Valid() && w.out[..2] == old(w.out)[..2]
      invariant WroteUpTo(data, i, ts, w.fields) && ts == before + rest && rest == Literals(data[start..i])
    {
      ghost var fs := w.fields;
      EmitLiteral(w, data[i]);
      LiteralExpands(data, i);
      TokenWritten(data, i, i + 1, ts, Literal(data[i]), fs, w.fields);
      LiteralsNext(data, start, i);
      ts, rest := ts + [Literal(data[i])], rest + [Literal(data[i])];
    }
  }

  lemma LiteralsNext(data: seq<byte>, start: nat, i: nat)
    requires start <= i <= |data|
    ensures i == start ==> Literals(data[start..i]) == []
    ensures i < |data| ==> Literals(data[start..i + 1]) == Literals(data[start..i]) + [Literal(data[i])]
    ensures data[start..|data|] == data[start..]
  {
    assert i < |data| ==> data[start..i + 1] == data[start..i] + [data[i]];
  }

  /** The tokens written so far stand for the data up to i. */
  ghost predicate WroteUpTo(data: seq<byte>, i: nat, ts: seq<Token>, fs: seq<Field>)
    requires i <= |data|
  {
    && AllCoded(FixedCodes(), ts) && AllReach(ts, []) && Expand([], ts) == data[..i]
    && fs == [Field(1, 1), Field(1, 2)] + TokensFields(FixedCodes(), ts)
  }

  lemma TokenWritten(data: seq<byte>, i: nat, i': nat, ts: seq<Token>, t: Token, was: seq<Field>, fs: seq<Field>)
    requires i <= i' <= |data| && WroteUpTo(data, i, ts, was)
    requires Coded(FixedCodes(), t) && Reaches(t, i) && Expand1(data[..i], t) == data[..i']
    requires fs == was + TokenFields(FixedCodes(), t)
    ensures WroteUpTo(data, i', ts + [t], fs)
  {
    hide FixedCodes, TokensFields, TokenFields, Expand, AllReach, Coded, Expand1, Reaches;
    var before := data[..i];
    OneToken(t, before);
    ExpandConcat([], ts, [t]);
    TokensFieldsConcat(FixedCodes(), ts, [t]);
    var h, a := [Field(1, 1), Field(1, 2)], TokensFields(FixedCodes(), ts);
    assert h + a + TokenFields(FixedCodes(), t) == h + (a + TokenFields(FixedCodes(), t));
  }

  lemma OneToken(t: Token, out: seq<byte>)
    requires Coded(FixedCodes(), t) && Reaches(t, |out|)
    ensures AllCoded(FixedCodes(), [t]) && TokensFields(FixedCodes(), [t]) == TokenFields(FixedCodes(), t)
    ensures AllReach([t], out) && Expand(out, [t]) == Expand1(out, t)
  {
    hide FixedCodes, Expand1, Reaches;
    assert [t][1..] == [];
    assert TokensFields(FixedCodes(), []) == [];
  }

  // ---- stored blocks ------------------------------------------------------------------

  const MAX_STORED := 32767

  function StoredHeader(n: nat, final: bool): seq<byte>
    requires n < 0x10000
  {
    [if final then 1 else 0, n % 256, n / 256, 255 - n % 256, 255 - n / 256]
  }

  /** The stored form of the data: blocks of at most 32767 bytes. */
  function StoredStream(data: seq<byte>): seq<byte>
    decreases |data|
  {
    if |data| == 0 then []
    else
      var n := if |data| > MAX_STORED then MAX_STORED else |data|;
      StoredHeader(n, |data| == n) + data[..n] + StoredStream(data[n..])
  }

  lemma {:induction false} StoredSize(data: seq<byte>)
    ensures |StoredStream(data)| == |data| + ((|data| + 32766) / 32767) * 5
    decreases |data|
  {
    if |data| != 0 {
      var n := if |data| > MAX_STORED then MAX_STORED else |data|;
      StoredSize(data[n..]);
    }
  }

  method StoreBlocks(data: seq<byte>, header: seq<byte>) returns (out: seq<byte>)
    ensures out == header + StoredStream(data)
  {
    out := header;
    var j := 0;
    while j < |data|
      invariant j <= |data| && out + StoredStream(data[j..]) == header + StoredStream(data)
    {
      var blocklen := |data| - j;
      if blocklen > MAX_STORED { blocklen := MAX_STORED; }
      ghost var rest := data[j..];
      assert rest[..blocklen] == data[j..j + blocklen] && rest[blocklen..] == data[j + blocklen..];
      ghost var tail := StoredStream(data[j + blocklen..]);
      var head := StoredHeader(blocklen, |data| - j == blocklen);
      assert StoredStream(rest) == head + data[j..j + blocklen] + tail;
      assert out + (head + data[j..j + blocklen] + tail) == (out + head + data[j..j + blocklen]) + tail;
      out := out + head + data[j..j + blocklen];
      j := j + blocklen;
    }
  }

  /** A stored block at a byte boundary is read back. */
  lemma StoredReads(st: State, final: bool, chunk: seq<byte>, rest: seq<byte>)
    requires |chunk| < 0x10000 && st.p % 8 == 0
    requires st.v == LE(StoredHeader(|chunk|, final) + chunk + rest)
    ensures BlockNext(st, Block(final, Stored(0, chunk)))
    ensures AfterBlock(st, Block(final, Stored(0, chunk))) == State(st.p + 8 * (5 + |chunk|), st.out + chunk, LE(rest))
  {
    var n := |chunk|;
    var head := StoredHeader(n, final);
    var x := LE(head[1..] + (chunk + rest));
    assert (head + chunk + rest)[1..] == head[1..] + (chunk + rest);
    HeaderBits(st.v, if final then 1 else 0, x);
    LenBits(n, head[1..], chunk + rest);
    LEConcat(chunk, rest);
    StoredParts(st, final, chunk, x, LE(rest));
  }

  lemma StoredParts(st: State, final: bool, chunk: seq<byte>, x: nat, rest: nat)
    requires |chunk| < 0x10000 && st.p % 8 == 0
    requires Low(st.v, 1) == (if final then 1 else 0) && Low(Shr(st.v, 1), 2) == 0
    requires Low(Shr(st.v, 3), 5) == 0 && Shr(Shr(st.v, 3), 5) == x
    requires Low(x, 16) == |chunk| && Low(Shr(x, 16), 16) == 0xFFFF - |chunk|
    requires Shr(x, 32) == LE(chunk) + Shl(rest, 8 * |chunk|)
    ensures BlockNext(st, Block(final, Stored(0, chunk)))
    ensures AfterBlock(st, Block(final, Stored(0, chunk))) == State(st.p + 8 * (5 + |chunk|), st.out + chunk, rest)
  {
    AlignHeader(st.p);
    StoredBody(AfterBits(st, 3), chunk, x, rest);
    hide BodyNext, AfterBody;
  }

  lemma StoredBody(st: State, chunk: seq<byte>, x: nat, rest: nat)
    requires |chunk| < 0x10000 && Align(st.p) == 5
    requires Low(st.v, 5) == 0 && Shr(st.v, 5) == x
    requires Low(x, 16) == |chunk| && Low(Shr(x, 16), 16) == 0xFFFF - |chunk|
    requires Shr(x, 32) == LE(chunk) + Shl(rest, 8 * |chunk|)
    ensures BodyNext(st, Stored(0, chunk))
    ensures AfterBody(st, Stored(0, chunk)) == State(st.p + 37 + 8 * |chunk|, st.out + chunk, rest)
  {
    BytesAt(chunk, rest);
    StoredAt(st.p, 0, chunk, st.v);
  }

  lemma AlignHeader(p: nat)
    requires p % 8 == 0
    ensures Align(p + 3) == 5
  {
  }

  /** The first byte of a stored block: final bit, two zero bits and five bits of padding. */
  lemma HeaderBits(v: nat, f: nat, x: nat)
    requires f <= 1 && v == f + 256 * x
    ensures Low(v, 1) == f && Low(Shr(v, 1), 2) == 0
    ensures Low(Shr(v, 3), 5) == 0 && Shr(Shr(v, 3), 5) == x
  {
    hide Shl, Shr, Low, Pow2;
    Shl8(x);
    Pow2Values();
    JoinMore(f, x, 8, 1);
    LowFits(f, 1);
    JoinMore(0, x, 7, 2);
    LowFits(0, 2);
    JoinMore(f, x, 8, 3);
    LowFits(f, 3);
    Join(0, x, 5);
  }

  lemma LenBits(n: nat, head: seq<byte>, rest: seq<byte>)
    requires n < 0x10000 && head == [n % 256, n / 256, 255 - n % 256, 255 - n / 256]
    ensures var x := LE(head + rest);
            Low(x, 16) == n && Low(Shr(x, 16), 16) == 0xFFFF - n && Shr(x, 32) == LE(rest)
  {
    hide *;
    LEConcat(head, rest);
    LEBound(head);
    LenWord(n, head);
    Words(n, 0xFFFF - n, LE(rest), LE(head));
  }

  /** Two bytes, the low one first. */
  lemma TwoBytes(s: seq<byte>)
    requires |s| == 2
    ensures LE(s) == s[0] as int + 256 * s[1] as int
  {
    assert LE(s[1..]) == s[1];
  }

  lemma LenWord(n: nat, head: seq<byte>)
    requires n < 0x10000 && head == [n % 256, n / 256, 255 - n % 256, 255 - n / 256]
    ensures LE(head) == n + Shl(0xFFFF - n, 16)
  {
    hide LE, Shl;
    var a, b := head[..2], head[2..];
    assert head == a + b;
    LEConcat(a, b);
    TwoBytes(a);
    TwoBytes(b);
  }

  /** A number of 16 bits, another, and what comes after them. */
  lemma Words(a: nat, b: nat, r: nat, w: nat)
    requires a < 0x10000 && b < 0x10000 && w == a + Shl(b, 16) && w < Pow2(32)
    ensures var x := w + Shl(r, 32); Low(x, 16) == a && Low(Shr(x, 16), 16) == b && Shr(x, 32) == r
  {
    hide *;
    Pow2Values();
    Join(w, r, 32);
    JoinMore(w, r, 32, 16);
    Join(a, b, 16);
    Join(b, r, 16);
  }

  /** The stored form of non-empty data is a stream that expands to it. */
  lemma {:induction false} StoredStreamReads(data: seq<byte>, st: State, rest: seq<byte>) returns (bs: seq<Block>)
    requires |data| > 0 && st.p % 8 == 0 && st.v == LE(StoredStream(data) + rest)
    ensures StreamNext(st, bs)
    ensures AfterBlocks(st, bs) == State(st.p + 8 * |StoredStream(data)|, st.out + data, LE(rest))
    decreases |data|
  {
    hide BlockNext, AfterBlock;
    var n := if |data| > MAX_STORED then MAX_STORED else |data|;
    var final := |data| == n;
    var b := Block(final, Stored(0, data[..n]));
    var tail := StoredStream(data[n..]) + rest;
    assert StoredStream(data) + rest == StoredHeader(n, final) + data[..n] + tail;
    StoredReads(st, final, data[..n], tail);
    if final {
      bs := [b];
      BlocksCons(st, b, []);
      assert tail == rest && data[..n] == data;
    } else {
      var cs := StoredStreamReads(data[n..], AfterBlock(st, b), rest);
      BlocksCons(st, b, cs);
      bs := [b] + cs;
      assert st.out + data[..n] + data[n..] == st.out + data;
    }
  }

  // ---- the whole compressor -----------------------------------------------------------

  /** DEFLATE with a 32K window, FLEVEL 1. */
  const ZLIB_HEADER: seq<byte> := [0x78, 0x5E]

  /** How long the stored form of n bytes is, with the header; the code computes it with `int`. */
  function StoredLength(n: nat): nat
  {
    n + 2 + (n + 32766) / 32767 * 5
  }

  /** `stbi_zlib_compress`: for non-empty data, a zlib stream that expands to the data,
      followed by its Adler-32 checksum, and never longer than the stored form. For empty
      data it is not a stream at all: the stored form, chosen as shorter, has no block. */
  method Compress(data: seq<byte>, quality: int) returns (z: seq<byte>)
    requires StoredLength(|data|) <= 0x7FFF_FFFF
    ensures |data| > 0 ==> exists bs :: HoldsStream(z, true, data, bs) && Complete(z, true, bs)
    ensures |data| == 0 ==> z == [0x78, 0x5E, 0, 0, 0, 1]
    ensures 6 <= |z| <= |data| + 6 + (|data| + 32766) / 32767 * 5
    ensures z[|z| - 4..] == AdlerBytes(AdlerOf(data, |data|))
    ensures var n, t := |data|, z[|z| - 4..];
            ((t[0] as int * 256 + t[1]) * 256 + t[2]) * 256 + t[3] ==
            (n + WeightedSum(data, n, n)) % 65521 * 65536 + (1 + SumOf(data, n)) % 65521
    ensures z[..2] == [0x78, 0x5E]
  {
    hide FixedCodes, CodedFits, StoredStream, HoldsStream, Complete, AdlerOf, SumOf, WeightedSum, LE, ValueOf;
    ghost var ts, zeros, fs;
    var out;
    out, ts, zeros, fs := CompressedForm(data, quality);
    var stored := |out| > StoredLength(|data|);
    if stored {
      out := StoreBlocks(data, out[..2]);
    }
    StoredSize(data);
    EmptyStored();
    var trailer := Trailer(data);
    z := out + trailer;
    assert z[|z| - 4..] == trailer;
    if |data| > 0 {
      if stored {
        StoredHolds(data, z, trailer);
      } else {
        TokensHold(data, ts, zeros, fs, out[2..], trailer, z);
      }
    }
  }

  lemma EmptyStored()
    ensures StoredStream([]) == [] && AdlerBytes(AdlerOf([], 0)) == [0, 0, 0, 1]
  {
  }

  /** The header and the fixed-code block, padded to a byte boundary. */
  method CompressedForm(data: seq<byte>, quality: int)
    returns (out: seq<byte>, ghost ts: seq<Token>, ghost zeros: seq<Field>, ghost fs: seq<Field>)
    ensures |out| > 2 && out[..2] == ZLIB_HEADER && out == ZLIB_HEADER + out[2..]
    ensures CodedFits(FixedCodes(), ts, []) && Expand([], ts) == data
    ensures fs == [Field(1, 1), Field(1, 2)] + BlockFields(FixedCodes(), ts) + zeros && FieldsFit(fs)
    ensures 8 * |out[2..]| == BitsOf(fs) && LE(out[2..]) == ValueOf(fs)
  {
    hide FixedCodes, CodedFits;
    var w := new BitWriter(ZLIB_HEADER);
    ghost var starts, i;
    ts, starts, i := WriteTokens(data, quality, w);
    zeros := w.PadToByte();
    fs := w.fields;
    out := w.out;
    NotEmpty(out[2..], fs, ts, zeros);
  }

  /** The header bits alone fill a byte. */
  lemma NotEmpty(s: seq<byte>, fs: seq<Field>, ts: seq<Token>, zeros: seq<Field>)
    requires CodedFits(FixedCodes(), ts, [])
    requires fs == [Field(1, 1), Field(1, 2)] + BlockFields(FixedCodes(), ts) + zeros && 8 * |s| == BitsOf(fs)
    ensures |s| > 0
  {
    hide FixedCodes;
    BitsConcat([Field(1, 1), Field(1, 2)] + BlockFields(FixedCodes(), ts), zeros);
    BitsConcat([Field(1, 1), Field(1, 2)], BlockFields(FixedCodes(), ts));
    TwoFields(0, Field(1, 1), Field(1, 2));
  }

  lemma StoredHolds(data: seq<byte>, z: seq<byte>, trailer: seq<byte>)
    requires |data| > 0 && |trailer| == 4 && z == ZLIB_HEADER + StoredStream(data) + trailer
    ensures exists bs :: HoldsStream(z, true, data, bs) && Complete(z, true, bs)
  {
    hide *;
    var s := StoredStream(data);
    HeaderRead(s, z, trailer);
    var bs := StoredStreamReads(data, StreamStart(z, true), trailer);
    Holds(data, z, trailer, bs);
  }

  /** Behind the header the stream is at a byte boundary and has no output. */
  lemma HeaderRead(s: seq<byte>, z: seq<byte>, trailer: seq<byte>)
    requires |trailer| == 4 && z == ZLIB_HEADER + s + trailer
    ensures |z| > 2 && z[..2] == ZLIB_HEADER && 16 + 8 * |s| == 8 * (|z| - 4)
    ensures var st := StreamStart(z, true); st.p == 16 && st.out == [] && st.v == LE(s + trailer)
    ensures forall data: seq<byte> :: StreamStart(z, true).out + data == data
  {
    hide LE;
    DropHead(ZLIB_HEADER, s, trailer);
  }

  lemma Holds(data: seq<byte>, z: seq<byte>, trailer: seq<byte>, bs: seq<Block>)
    requires |z| > 2 && z[..2] == ZLIB_HEADER && |trailer| == 4
    requires StreamNext(StreamStart(z, true), bs)
    requires AfterBlocks(StreamStart(z, true), bs).out == data
    requires AfterBlocks(StreamStart(z, true), bs).p <= 8 * (|z| - 4)
    ensures HoldsStream(z, true, data, bs) && Complete(z, true, bs)
  {
    hide StreamNext, AfterBlocks;
    assert z[0] == z[..2][0] && z[1] == z[..2][1];
  }

  lemma TokensHold(data: seq<byte>, ts: seq<Token>, zeros: seq<Field>, fs: seq<Field>, s: seq<byte>,
                   trailer: seq<byte>, z: seq<byte>)
    requires CodedFits(FixedCodes(), ts, []) && Expand([], ts) == data
    requires fs == [Field(1, 1), Field(1, 2)] + BlockFields(FixedCodes(), ts) + zeros && FieldsFit(fs)
    requires 8 * |s| == BitsOf(fs) && LE(s) == ValueOf(fs)
    requires |trailer| == 4 && z == ZLIB_HEADER + s + trailer && |s| > 0
    ensures exists bs :: HoldsStream(z, true, data, bs) && Complete(z, true, bs)
  {
    hide FixedCodes, BlockNext, AfterBlock, StreamNext, AfterBlocks, StartsWith, CodedFits;
    DropHead(ZLIB_HEADER, s, trailer);
    LEConcat(s, trailer);
    WrittenIsRead(fs, LE(trailer));
    var b := Block(true, Fixed(ts));
    TokensNext(StreamStart(z, true), ts, zeros, fs);
    OneBlock(StreamStart(z, true), b);
    Holds(data, z, trailer, [b]);
  }

  lemma OneBlock(st: State, b: Block)
    requires BlockNext(st, b) && b.final
    ensures StreamNext(st, [b]) && AfterBlocks(st, [b]) == AfterBlock(st, b)
  {
    hide BlockNext, AfterBlock;
    BlocksCons(st, b, []);
    assert [b] + [] == [b];
  }

  lemma TokensNext(st: State, ts: seq<Token>, zeros: seq<Field>, fs: seq<Field>)
    requires CodedFits(FixedCodes(), ts, []) && st.out == []
    requires fs == [Field(1, 1), Field(1, 2)] + BlockFields(FixedCodes(), ts) + zeros
    requires StartsWith(st.v, fs)
    ensures BlockNext(st, Block(true, Fixed(ts)))
    ensures AfterBlock(st, Block(true, Fixed(ts))).p <= st.p + BitsOf(fs)
    ensures AfterBlock(st, Block(true, Fixed(ts))).out == Expand([], ts)
  {
    hide FixedCodes;
    var a, b := [Field(1, 1), Field(1, 2)], BlockFields(FixedCodes(), ts);
    StartsWithConcat(st.v, a + b, zeros);
    StartsWithConcat(st.v, a, b);
    TwoFields(st.v, a[0], a[1]);
    BitsConcat(a + b, zeros);
    BitsConcat(a, b);
  }
}
