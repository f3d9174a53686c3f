/** Stored blocks, dynamic code descriptions and whole streams (RFC 1951 sections 3.2.3,
    3.2.4 and 3.2.7), again as lists of bit fields. */
module DeflateStream {
  import opened BitMath
  import opened ZCodes
  import opened Deflate

  // ---- stored blocks ------------------------------------------------------------------

  function ByteFields(data: seq<byte>): seq<Field>
  {
    if |data| == 0 then [] else [Field(data[0], 8)] + ByteFields(data[1..])
  }

  /** Bits to skip to the next byte boundary. */
  function Align(p: nat): (n: nat)
    ensures n < 8
  {
    (8 - p % 8) % 8
  }

  /** A stored block that begins, after its three header bits, at bit position p. */
  function StoredFields(p: nat, pad: nat, data: seq<byte>): seq<Field>
    requires |data| < 0x10000
  {
    [Field(pad, Align(p)), Field(|data|, 16), Field(0xFFFF - |data|, 16)] + ByteFields(data)
  }

  lemma FirstByteField(data: seq<byte>, v: nat)
    requires |data| != 0
    ensures BitsOf(ByteFields(data)) == 8 + BitsOf(ByteFields(data[1..]))
    ensures StartsWith(v, ByteFields(data)) <==> Low(v, 8) == data[0] && StartsWith(Shr(v, 8), ByteFields(data[1..]))
  {
    assert ByteFields(data)[1..] == ByteFields(data[1..]);
    hide Low, Shr;
  }

  lemma NoBytes(rest: nat)
    ensures LE([]) + Shl(rest, 0) == rest && Shr(rest, 0) == rest
    ensures ByteFields([]) == [] && BitsOf([]) == 0 && StartsWith(rest, [])
  {
  }

  /** The first byte of a stream of bytes, and the stream of the others. */
  lemma ByteThenRest(data: seq<byte>, rest: nat)
    requires |data| != 0
    ensures LE(data) + Shl(rest, 8 * |data|) == data[0] + Shl(LE(data[1..]) + Shl(rest, 8 * |data[1..]|), 8)
  {
    assert LE(data) == data[0] + 256 * LE(data[1..]);
    hide *;
    ShlShl(rest, 8 * |data[1..]|, 8);
    ShlAdd(LE(data[1..]), Shl(rest, 8 * |data[1..]|), 8);
    Shl8(LE(data[1..]));
  }

  lemma {:induction false} BytesAt(data: seq<byte>, rest: nat)
    ensures StartsWith(LE(data) + Shl(rest, 8 * |data|), ByteFields(data))
    ensures Shr(LE(data) + Shl(rest, 8 * |data|), 8 * |data|) == rest
    ensures BitsOf(ByteFields(data)) == 8 * |data|
  {
    hide *;
    if |data| == 0 {
      assert data == [];
      NoBytes(rest);
    } else {
      var t := LE(data[1..]) + Shl(rest, 8 * |data[1..]|);
      var v := LE(data) + Shl(rest, 8 * |data|);
      BytesAt(data[1..], rest);
      ByteThenRest(data, rest);
      Pow2Values();
      Join(data[0], t, 8);
      ShrShr(v, 8, 8 * |data[1..]|);
      FirstByteField(data, v);
    }
  }

  lemma {:induction false} BytesUnique(a: seq<byte>, b: seq<byte>, v: nat)
    requires |a| == |b| && StartsWith(v, ByteFields(a)) && StartsWith(v, ByteFields(b))
    ensures a == b
  {
    if |a| != 0 {
      BytesUnique(a[1..], b[1..], Shr(v, 8));
    }
  }

  lemma {:induction false} ByteBits(data: seq<byte>)
    ensures BitsOf(ByteFields(data)) == 8 * |data|
  {
    if |data| != 0 { ByteBits(data[1..]); }
  }

  /** The fields of a stored block, spelt out. */
  lemma StoredAt(p: nat, pad: nat, data: seq<byte>, v: nat)
    requires |data| < 0x10000
    ensures var v2 := Shr(v, Align(p)); var v3 := Shr(v2, 32);
            && BitsOf(StoredFields(p, pad, data)) == Align(p) + 32 + 8 * |data|
            && Shr(v, BitsOf(StoredFields(p, pad, data))) == Shr(v3, 8 * |data|)
            && (StartsWith(v, StoredFields(p, pad, data)) <==>
                  Low(v, Align(p)) == pad && Low(v2, 16) == |data| && Low(Shr(v2, 16), 16) == 0xFFFF - |data|
                  && StartsWith(v3, ByteFields(data)))
  {
    hide Shr, Low, BitsOf, StartsWith;
    var f, g, h := Field(pad, Align(p)), Field(|data|, 16), Field(0xFFFF - |data|, 16);
    ByteBits(data);
    ThreeFields(v, f, g, h);
    ConcatSplit(v, [f, g, h], ByteFields(data), StoredFields(p, pad, data));
    ShrShr(v, Align(p) + 32, 8 * |data|);
    ShrShr(v, Align(p), 32);
  }

  lemma ThreeFields(v: nat, f: Field, g: Field, h: Field)
    ensures StartsWith(v, [f, g, h]) <==>
              Low(v, f.n) == f.v && Low(Shr(v, f.n), g.n) == g.v && Low(Shr(Shr(v, f.n), g.n), h.n) == h.v
    ensures BitsOf([f, g, h]) == f.n + g.n + h.n
    ensures Shr(v, f.n + g.n + h.n) == Shr(Shr(Shr(v, f.n), g.n), h.n)
  {
    assert [f, g, h][1..] == [g, h];
    TwoFields(Shr(v, f.n), g, h);
    ShrShr(v, f.n, g.n);
    ShrShr(v, f.n + g.n, h.n);
  }

  // ---- dynamic codes ------------------------------------------------------------------

  /** One step of the compressed list of code lengths: a length, or a repetition. */
  datatype LenOp = LenOp(sym: nat, x: nat)

  function OpExtra(sym: nat): (n: nat)
    ensures n <= 7
  {
    if sym == 16 then 2 else if sym == 17 then 3 else if sym == 18 then 7 else 0
  }

  predicate OpCoded(cl: Lengths, op: LenOp)
  {
    op.sym < 19 && Used(cl, op.sym) && op.x < Pow2(OpExtra(op.sym))
  }

  function OpFields(cl: Lengths, op: LenOp): seq<Field>
    requires OpCoded(cl, op)
  {
    [Symbol(cl, op.sym), Field(op.x, OpExtra(op.sym))]
  }

  function OpCount(op: LenOp): (n: nat)
    ensures n >= 1
  {
    if op.sym < 16 then 1 else if op.sym == 18 then 11 + op.x else 3 + op.x
  }

  /** 16 repeats the previous length, 17 and 18 repeat a length of 0. */
  function OpLens(sofar: Lengths, op: LenOp): (r: Lengths)
    requires op.sym == 16 ==> |sofar| > 0
    ensures |r| == |sofar| + OpCount(op)
  {
    var n := if op.sym < 16 then op.sym else if op.sym == 16 then sofar[|sofar| - 1] else 0;
    sofar + seq(OpCount(op), _ => n)
  }

  predicate OpFits(sofar: Lengths, op: LenOp)
  {
    op.sym < 19 && (op.sym == 16 ==> |sofar| > 0)
  }

  predicate OpsFit(ops: seq<LenOp>, sofar: Lengths)
    decreases |ops|
  {
    |ops| == 0 || (OpFits(sofar, ops[0]) && OpsFit(ops[1..], OpLens(sofar, ops[0])))
  }

  function OpsLens(sofar: Lengths, ops: seq<LenOp>): (r: Lengths)
    requires OpsFit(ops, sofar)
    decreases |ops|
  {
    if |ops| == 0 then sofar else OpsLens(OpLens(sofar, ops[0]), ops[1..])
  }

  predicate OpsCoded(cl: Lengths, ops: seq<LenOp>)
  {
    forall i | 0 <= i < |ops| :: OpCoded(cl, ops[i])
  }

  function OpsFields(cl: Lengths, ops: seq<LenOp>): seq<Field>
    requires OpsCoded(cl, ops)
  {
    if |ops| == 0 then [] else OpFields(cl, ops[0]) + OpsFields(cl, ops[1..])
  }

  lemma FirstOpFields(cl: Lengths, ops: seq<LenOp>)
    requires OpsCoded(cl, ops)
    ensures OpsFields(cl, ops) == if ops == [] then [] else OpFields(cl, ops[0]) + OpsFields(cl, ops[1..])
  {
  }

  lemma {:induction false} OpsFieldsConcat(cl: Lengths, a: seq<LenOp>, b: seq<LenOp>)
    requires OpsCoded(cl, a) && OpsCoded(cl, b)
    ensures OpsCoded(cl, a + b) && OpsFields(cl, a + b) == OpsFields(cl, a) + OpsFields(cl, b)
  {
    hide OpsFields, OpFields, OpCoded;
    FirstOpFields(cl, a);
    if a == [] {
      assert a + b == b;
    } else {
      assert (a + b)[1..] == a[1..] + b && (a + b)[0] == a[0];
      OpsFieldsConcat(cl, a[1..], b);
      FirstOpFields(cl, a + b);
    }
  }

  lemma {:induction false} OpsLensConcat(sofar: Lengths, a: seq<LenOp>, b: seq<LenOp>)
    requires OpsFit(a, sofar)
    ensures OpsFit(a + b, sofar) <==> OpsFit(b, OpsLens(sofar, a))
    ensures OpsFit(a + b, sofar) ==> OpsLens(sofar, a + b) == OpsLens(OpsLens(sofar, a), b)
    decreases |a|
  {
    if |a| == 0 {
      assert a + b == b;
    } else {
      assert (a + b)[1..] == a[1..] + b;
      OpsLensConcat(OpLens(sofar, a[0]), a[1..], b);
    }
  }

  lemma {:induction false} OpsLensGrow(sofar: Lengths, ops: seq<LenOp>)
    requires OpsFit(ops, sofar)
    ensures |OpsLens(sofar, ops)| >= |sofar| + |ops|
    decreases |ops|
  {
    if |ops| != 0 { OpsLensGrow(OpLens(sofar, ops[0]), ops[1..]); }
  }

  /** The stream v starts with a full list of `total` code lengths. */
  ghost predicate OpsAt(cl: Lengths, ops: seq<LenOp>, sofar: Lengths, total: nat, v: nat)
  {
    && OpsCoded(cl, ops) && OpsFit(ops, sofar)
    && |OpsLens(sofar, ops)| == total
    && StartsWith(v, OpsFields(cl, ops))
  }

  lemma OpAt(cl: Lengths, op: LenOp, v: nat)
    requires Accepted(cl) && OpCoded(cl, op)
    ensures StartsWith(v, OpFields(cl, op)) <==>
              Matches(cl, op.sym, v) && Low(Shr(v, cl[op.sym]), OpExtra(op.sym)) == op.x
    ensures BitsOf(OpFields(cl, op)) == cl[op.sym] + OpExtra(op.sym)
  {
    TwoFields(v, Symbol(cl, op.sym), Field(op.x, OpExtra(op.sym)));
    SymbolMatches(cl, op.sym, v);
  }

  lemma OpUnique(cl: Lengths, a: LenOp, b: LenOp, v: nat)
    requires Accepted(cl) && OpCoded(cl, a) && OpCoded(cl, b)
    requires StartsWith(v, OpFields(cl, a)) && StartsWith(v, OpFields(cl, b))
    ensures a == b
  {
    OpAt(cl, a, v);
    OpAt(cl, b, v);
    MatchUnique(cl, a.sym, b.sym, v);
  }

  lemma OpsSplit(cl: Lengths, ops: seq<LenOp>, v: nat)
    requires |ops| != 0 && OpsCoded(cl, ops)
    ensures var fs, k := OpsFields(cl, ops[1..]), BitsOf(OpFields(cl, ops[0]));
            && BitsOf(OpsFields(cl, ops)) == k + BitsOf(fs)
            && Shr(v, BitsOf(OpsFields(cl, ops))) == Shr(Shr(v, k), BitsOf(fs))
            && (StartsWith(v, OpsFields(cl, ops)) <==> StartsWith(v, OpFields(cl, ops[0])) && StartsWith(Shr(v, k), fs))
  {
    ConcatSplit(v, OpFields(cl, ops[0]), OpsFields(cl, ops[1..]), OpsFields(cl, ops));
  }

  lemma FirstOp(cl: Lengths, done: seq<LenOp>, ops: seq<LenOp>, sofar: Lengths, total: nat, v: nat)
    requires Accepted(cl) && |done| != 0 && OpsFit(done, sofar) && |OpsLens(sofar, done)| <= total
    requires OpsCoded(cl, done) && OpsFit(done, sofar) && StartsWith(v, OpsFields(cl, done))
    requires OpsAt(cl, ops, sofar, total, v)
    ensures |ops| != 0 && done[0] == ops[0]
    ensures var k := BitsOf(OpFields(cl, done[0]));
            && StartsWith(Shr(v, k), OpsFields(cl, done[1..]))
            && OpsAt(cl, ops[1..], OpLens(sofar, ops[0]), total, Shr(v, k))
            && BitsOf(OpsFields(cl, done)) == k + BitsOf(OpsFields(cl, done[1..]))
            && BitsOf(OpsFields(cl, ops)) == k + BitsOf(OpsFields(cl, ops[1..]))
            && Shr(v, BitsOf(OpsFields(cl, done))) == Shr(Shr(v, k), BitsOf(OpsFields(cl, done[1..])))
  {
    OpsSplit(cl, done, v);
    OpsLensGrow(sofar, done);
    OpsSplit(cl, ops, v);
    OpUnique(cl, done[0], ops[0], v);
  }

  /** A list read so far is the start of any full list at the same place. */
  lemma {:induction false} NextOp(cl: Lengths, done: seq<LenOp>, ops: seq<LenOp>, sofar: Lengths, total: nat, v0: nat)
    requires Accepted(cl) && OpsFit(done, sofar) && |OpsLens(sofar, done)| <= total
    requires OpsCoded(cl, done) && OpsFit(done, sofar) && StartsWith(v0, OpsFields(cl, done))
    requires OpsAt(cl, ops, sofar, total, v0)
    ensures done <= ops
    ensures OpsAt(cl, ops[|done|..], OpsLens(sofar, done), total, Shr(v0, BitsOf(OpsFields(cl, done))))
    ensures BitsOf(OpsFields(cl, ops)) == BitsOf(OpsFields(cl, done)) + BitsOf(OpsFields(cl, ops[|done|..]))
    decreases |done|
  {
    if |done| == 0 {
      assert ops[0..] == ops;
    } else {
      FirstOp(cl, done, ops, sofar, total, v0);
      NextOp(cl, done[1..], ops[1..], OpLens(sofar, done[0]), total, Shr(v0, BitsOf(OpFields(cl, done[0]))));
      PrefixCons(done, ops);
    }
  }

  /** What a full list must start with. */
  lemma OpInList(cl: Lengths, ops: seq<LenOp>, sofar: Lengths, total: nat, v: nat)
    requires Accepted(cl) && |sofar| < total && OpsAt(cl, ops, sofar, total, v)
    ensures |ops| != 0 && OpCoded(cl, ops[0]) && OpFits(sofar, ops[0]) && |sofar| + OpCount(ops[0]) <= total
    ensures Matches(cl, ops[0].sym, v) && ops[0].x == Low(Shr(v, cl[ops[0].sym]), OpExtra(ops[0].sym))
    ensures BitsOf(OpsFields(cl, ops)) >= cl[ops[0].sym]
  {
    OpsSplit(cl, ops, v);
    OpAt(cl, ops[0], v);
    OpsLensGrow(OpLens(sofar, ops[0]), ops[1..]);
  }

  lemma OpAppended(cl: Lengths, ops: seq<LenOp>, op: LenOp, sofar: Lengths, v0: nat)
    requires OpsCoded(cl, ops) && OpsFit(ops, sofar) && StartsWith(v0, OpsFields(cl, ops))
    requires OpCoded(cl, op) && OpFits(OpsLens(sofar, ops), op)
    requires StartsWith(Shr(v0, BitsOf(OpsFields(cl, ops))), OpFields(cl, op))
    ensures OpsCoded(cl, ops + [op]) && OpsFit(ops + [op], sofar) && StartsWith(v0, OpsFields(cl, ops + [op]))
    ensures BitsOf(OpsFields(cl, ops + [op])) == BitsOf(OpsFields(cl, ops)) + BitsOf(OpFields(cl, op))
    ensures Shr(v0, BitsOf(OpsFields(cl, ops + [op]))) ==
            Shr(Shr(v0, BitsOf(OpsFields(cl, ops))), BitsOf(OpFields(cl, op)))
    ensures OpsLens(sofar, ops + [op]) == OpLens(OpsLens(sofar, ops), op)
  {
    OpsLensConcat(sofar, ops, [op]);
    OpsFieldsConcat(cl, ops, [op]);
    assert OpsFields(cl, [op]) == OpFields(cl, op) by {
      assert OpsFields(cl, [op][1..]) == [];
    }
    ConcatSplit(v0, OpsFields(cl, ops), OpFields(cl, op), OpsFields(cl, ops + [op]));
  }

  /** The order in which the code length code lengths are stored. */
  function Dezigzag(i: nat): (r: nat)
    requires i < 19
    ensures r < 19
  {
    match i
    case 0 => 16 case 1 => 17 case 2 => 18 case 3 => 0 case 4 => 8 case 5 => 7 case 6 => 9
    case 7 => 6 case 8 => 10 case 9 => 5 case 10 => 11 case 11 => 4 case 12 => 12 case 13 => 3
    case 14 => 13 case 15 => 2 case 16 => 14 case 17 => 1 case _ => 15
  }

  lemma DezigzagInjective(i: nat, j: nat)
    requires i < 19 && j < 19 && Dezigzag(i) == Dezigzag(j)
    ensures i == j
  {
  }

  function ClFields(cl: Lengths, n: nat): seq<Field>
    requires |cl| == 19 && n <= 19
  {
    if n == 0 then [] else ClFields(cl, n - 1) + [Field(cl[Dezigzag(n - 1)], 3)]
  }

  /** The description of the codes of a dynamic block (section 3.2.7). */
  datatype Header = Header(hlit: nat, hdist: nat, hclen: nat, cl: Lengths, ops: seq<LenOp>)

  function Total(h: Header): nat
  {
    h.hlit + h.hdist
  }

  ghost predicate HeaderShape(h: Header)
  {
    && 257 <= h.hlit <= 288 && 1 <= h.hdist <= 32 && 4 <= h.hclen <= 19
    && |h.cl| == 19
    && (forall i | 0 <= i < 19 :: h.cl[i] < 8)
    && (forall i: nat | h.hclen <= i < 19 :: h.cl[Dezigzag(i)] == 0)
    && Accepted(h.cl)
    && OpsCoded(h.cl, h.ops) && OpsFit(h.ops, []) && |OpsLens([], h.ops)| == Total(h)
  }

  function HeaderCodes(h: Header): Codes
    requires OpsFit(h.ops, []) && |OpsLens([], h.ops)| == Total(h)
  {
    var lens := OpsLens([], h.ops);
    Codes(lens[..h.hlit], lens[h.hlit..])
  }

  ghost predicate HeaderFits(h: Header)
  {
    HeaderShape(h) && CodesAccepted(HeaderCodes(h))
  }

  function CountFields(h: Header): seq<Field>
    requires h.hlit >= 257 && h.hdist >= 1 && h.hclen >= 4
  {
    [Field(h.hlit - 257, 5), Field(h.hdist - 1, 5), Field(h.hclen - 4, 4)]
  }

  function HeaderFields(h: Header): seq<Field>
    requires 257 <= h.hlit && 1 <= h.hdist && 4 <= h.hclen <= 19 && |h.cl| == 19 && OpsCoded(h.cl, h.ops)
  {
    CountFields(h) + (ClFields(h.cl, h.hclen) + OpsFields(h.cl, h.ops))
  }

  lemma {:induction false} ClBits(cl: Lengths, n: nat)
    requires |cl| == 19 && n <= 19
    ensures BitsOf(ClFields(cl, n)) == 3 * n
  {
    if n != 0 {
      ClBits(cl, n - 1);
      BitsConcat(ClFields(cl, n - 1), [Field(cl[Dezigzag(n - 1)], 3)]);
      OneField(0, Field(cl[Dezigzag(n - 1)], 3));
    }
  }

  lemma ClStep(cl: Lengths, n: nat, v: nat)
    requires |cl| == 19 && n < 19
    ensures StartsWith(v, ClFields(cl, n + 1)) <==>
              StartsWith(v, ClFields(cl, n)) && Low(Shr(v, 3 * n), 3) == cl[Dezigzag(n)]
  {
    ClBits(cl, n);
    StartsWithConcat(v, ClFields(cl, n), [Field(cl[Dezigzag(n)], 3)]);
    OneField(Shr(v, 3 * n), Field(cl[Dezigzag(n)], 3));
  }

  lemma {:induction false} ClUnique(a: Lengths, b: Lengths, n: nat, v: nat)
    requires |a| == |b| == 19 && n <= 19
    requires StartsWith(v, ClFields(a, n)) && StartsWith(v, ClFields(b, n))
    ensures forall i: nat | i < n :: a[Dezigzag(i)] == b[Dezigzag(i)]
  {
    if n != 0 {
      ClStep(a, n - 1, v);
      ClStep(b, n - 1, v);
      ClUnique(a, b, n - 1, v);
    }
  }

  /** The order of section 3.2.7: the three repetitions and 0 come first, and then the
      lengths from 8 outwards. */
  lemma DezigzagOrder(k: nat)
    ensures Dezigzag(0) == 16 && Dezigzag(1) == 17 && Dezigzag(2) == 18 && Dezigzag(3) == 0
    ensures k < 15 ==> Dezigzag(4 + k) == if k % 2 == 0 then 8 + k / 2 else 7 - k / 2
  {
  }

  /** Where the code length of symbol s is stored. */
  lemma DezigzagOnto(s: nat) returns (k: nat)
    requires s < 19
    ensures k == if s >= 16 then s - 16 else if s == 0 then 3 else if s >= 8 then 2 * s - 12 else 19 - 2 * s
    ensures k < 19 && Dezigzag(k) == s
  {
    k := if s >= 16 then s - 16 else if s == 0 then 3 else if s >= 8 then 2 * s - 12 else 19 - 2 * s;
  }

  lemma {:induction false} ClAt(cl: Lengths, n: nat, v: nat)
    requires |cl| == 19 && n <= 19
    ensures StartsWith(v, ClFields(cl, n)) <==> forall k: nat | k < n :: cl[Dezigzag(k)] == Low(Shr(v, 3 * k), 3)
  {
    if n != 0 {
      ClAt(cl, n - 1, v);
      ClStep(cl, n - 1, v);
    }
  }

  /** The three parts of a code description. */
  lemma HeaderAt(h: Header, v: nat)
    requires HeaderShape(h)
    ensures var v2 := Shr(v, 14); var v3 := Shr(v2, 3 * h.hclen);
            && BitsOf(HeaderFields(h)) == 14 + 3 * h.hclen + BitsOf(OpsFields(h.cl, h.ops))
            && Shr(v, BitsOf(HeaderFields(h))) == Shr(v3, BitsOf(OpsFields(h.cl, h.ops)))
            && (StartsWith(v, HeaderFields(h)) <==>
                  Low(v, 5) == h.hlit - 257 && Low(Shr(v, 5), 5) == h.hdist - 1
                    && Low(Shr(Shr(v, 5), 5), 4) == h.hclen - 4
                  && StartsWith(v2, ClFields(h.cl, h.hclen))
                  && StartsWith(v3, OpsFields(h.cl, h.ops)))
  {
    var a, b, c := CountFields(h), ClFields(h.cl, h.hclen), OpsFields(h.cl, h.ops);
    ThreeFields(v, a[0], a[1], a[2]);
    ClBits(h.cl, h.hclen);
    ConcatSplit(v, a, b + c, HeaderFields(h));
    ConcatSplit(Shr(v, 14), b, c, b + c);
  }

  /** What a description says, bit by bit: the three counts, and for every symbol s of the
      code length code the three bits at its place, or 0 past the last length stored. The
      listed lengths are those of the literals and lengths, and then of the distances. */
  lemma HeaderSays(h: Header, v: nat)
    requires HeaderShape(h) && StartsWith(v, HeaderFields(h))
    ensures h.hlit == 257 + Low(v, 5) && h.hdist == 1 + Low(Shr(v, 5), 5) && h.hclen == 4 + Low(Shr(v, 10), 4)
    ensures forall s: nat | s < 19 ::
              h.cl[s] == var k := if s >= 16 then s - 16 else if s == 0 then 3 else if s >= 8 then 2 * s - 12
                                  else 19 - 2 * s;
              if k < h.hclen then Low(Shr(v, 14 + 3 * k), 3) else 0
    ensures HeaderCodes(h) == Codes(OpsLens([], h.ops)[..h.hlit], OpsLens([], h.ops)[h.hlit..])
  {
    hide Shr, Low, StartsWith, HeaderFields, ClFields, OpsFields, BitsOf;
    HeaderAt(h, v);
    ClAt(h.cl, h.hclen, Shr(v, 14));
    ShrShr(v, 5, 5);
    forall s: nat | s < 19
      ensures h.cl[s] == var k := if s >= 16 then s - 16 else if s == 0 then 3 else if s >= 8 then 2 * s - 12
                                  else 19 - 2 * s;
              if k < h.hclen then Low(Shr(v, 14 + 3 * k), 3) else 0
    {
      var k := DezigzagOnto(s);
      ShrShr(v, 14, 3 * k);
    }
  }

  /** A stream describes at most one pair of codes. */
  lemma HeaderUnique(h: Header, k: Header, v: nat)
    requires HeaderShape(h) && HeaderShape(k)
    requires StartsWith(v, HeaderFields(h)) && StartsWith(v, HeaderFields(k))
    ensures h == k
  {
    HeaderAt(h, v);
    HeaderAt(k, v);
    var v2 := Shr(v, 14);
    SameCl(h, k, v2);
    var v3 := Shr(v2, 3 * h.hclen);
    OpsUnique(h.cl, h.ops, k.ops, Total(h), Total(k), v3);
  }

  lemma OpsUnique(cl: Lengths, a: seq<LenOp>, b: seq<LenOp>, m: nat, n: nat, v: nat)
    requires Accepted(cl) && OpsAt(cl, a, [], m, v) && OpsAt(cl, b, [], n, v) && m == n
    ensures a == b
  {
    NextOp(cl, a, b, [], m, v);
    NextOp(cl, b, a, [], m, v);
  }

  lemma SameCl(h: Header, k: Header, v: nat)
    requires HeaderShape(h) && HeaderShape(k) && h.hclen == k.hclen
    requires StartsWith(v, ClFields(h.cl, h.hclen)) && StartsWith(v, ClFields(k.cl, k.hclen))
    ensures h.cl == k.cl
  {
    ClUnique(h.cl, k.cl, h.hclen, v);
    forall j: nat | j < 19 ensures h.cl[j] == k.cl[j] {
      var i := DezigzagOnto(j);
    }
  }

  // ---- streams of blocks --------------------------------------------------------------

  /** The fixed code of section 3.2.6. */
  function FixedLength(i: nat): nat
  {
    if i <= 143 then 8 else if i <= 255 then 9 else if i <= 279 then 7 else 8
  }

  function FixedCodes(): Codes
  {
    Codes(seq(288, (i: nat) => FixedLength(i)), seq(32, _ => 5))
  }

  datatype Body =
    | Stored(pad: nat, data: seq<byte>)
    | Fixed(ts: seq<Token>)
    | Dynamic(h: Header, ts: seq<Token>)

  datatype Block = Block(final: bool, body: Body)

  /** The position in the stream, in bits, the output so far and the rest of the stream. */
  datatype State = State(p: nat, out: seq<byte>, v: nat)

  ghost predicate CodedFits(c: Codes, ts: seq<Token>, out: seq<byte>)
  {
    CodesAccepted(c) && AllCoded(c, ts) && Used(c.ll, END_OF_BLOCK) && AllReach(ts, out)
  }

  ghost predicate BodyFits(b: Body, out: seq<byte>)
  {
    match b
    case Stored(pad, data) => |data| < 0x10000
    case Fixed(ts) => CodedFits(FixedCodes(), ts, out)
    case Dynamic(h, ts) => HeaderFits(h) && CodedFits(HeaderCodes(h), ts, out)
  }

  ghost function BodyFields(b: Body, p: nat, out: seq<byte>): seq<Field>
    requires BodyFits(b, out)
  {
    match b
    case Stored(pad, data) => StoredFields(p, pad, data)
    case Fixed(ts) => BlockFields(FixedCodes(), ts)
    case Dynamic(h, ts) => HeaderFields(h) + BlockFields(HeaderCodes(h), ts)
  }

  ghost function BodyOut(b: Body, out: seq<byte>): seq<byte>
    requires BodyFits(b, out)
  {
    if b.Stored? then out + b.data else Expand(out, b.ts)
  }

  function BodyType(b: Body): nat
  {
    match b
    case Stored(_, _) => 0
    case Fixed(_) => 1
    case Dynamic(_, _) => 2
  }

  /** This block body comes next, and where the stream is after it. */
  ghost predicate BodyNext(st: State, b: Body)
  {
    BodyFits(b, st.out) && StartsWith(st.v, BodyFields(b, st.p, st.out))
  }

  ghost function AfterBody(st: State, b: Body): State
    requires BodyFits(b, st.out)
  {
    var n := BitsOf(BodyFields(b, st.p, st.out));
    State(st.p + n, BodyOut(b, st.out), Shr(st.v, n))
  }

  /** The same with the three bits in front of the body. */
  ghost predicate BlockNext(st: State, b: Block)
  {
    && Low(st.v, 1) == (if b.final then 1 else 0)
    && Low(Shr(st.v, 1), 2) == BodyType(b.body)
    && BodyNext(AfterBits(st, 3), b.body)
  }

  function AfterBits(st: State, n: nat): State
  {
    State(st.p + n, st.out, Shr(st.v, n))
  }

  ghost function AfterBlock(st: State, b: Block): State
    requires BodyFits(b.body, st.out)
  {
    AfterBody(AfterBits(st, 3), b.body)
  }

  /** The blocks `bs`, of which only the last may be final, come next. */
  ghost predicate BlocksNext(st: State, bs: seq<Block>)
    decreases |bs|, 0
  {
    |bs| == 0 ||
    (var n := |bs| - 1;
     && BlocksNext(st, bs[..n])
     && (n > 0 ==> !bs[n - 1].final)
     && BlockNext(AfterBlocks(st, bs[..n]), bs[n]))
  }

  ghost function AfterBlocks(st: State, bs: seq<Block>): State
    requires BlocksNext(st, bs)
    decreases |bs|, 1
  {
    if |bs| == 0 then st else AfterBlock(AfterBlocks(st, bs[..|bs| - 1]), bs[|bs| - 1])
  }

  /** A complete stream. */
  ghost predicate StreamNext(st: State, bs: seq<Block>)
  {
    BlocksNext(st, bs) && |bs| > 0 && bs[|bs| - 1].final
  }

  lemma TokensUnique(c: Codes, a: seq<Token>, b: seq<Token>, out: seq<byte>, v: nat)
    requires CodesAccepted(c) && BlockAt(c, a, out, v) && BlockAt(c, b, out, v)
    ensures a == b
  {
    StartsWithConcat(v, TokensFields(c, a), [Symbol(c.ll, END_OF_BLOCK)]);
    StartsWithConcat(v, TokensFields(c, b), [Symbol(c.ll, END_OF_BLOCK)]);
    NextInBlock(c, a, b, out, v);
    NextInBlock(c, b, a, out, v);
  }

  /** At most one block comes next. */
  lemma BlockUnique(st: State, a: Block, b: Block)
    requires BlockNext(st, a) && BlockNext(st, b)
    ensures a == b
  {
    var st' := AfterBits(st, 3);
    match a.body
    case Stored(pad, data) =>
      StoredAt(st'.p, pad, data, st'.v);
      StoredAt(st'.p, b.body.pad, b.body.data, st'.v);
      BytesUnique(data, b.body.data, Shr(Shr(st'.v, Align(st'.p)), 32));
    case Fixed(ts) =>
      TokensUnique(FixedCodes(), ts, b.body.ts, st'.out, st'.v);
    case Dynamic(h, ts) =>
      var k, us := b.body.h, b.body.ts;
      StartsWithConcat(st'.v, HeaderFields(h), BlockFields(HeaderCodes(h), ts));
      StartsWithConcat(st'.v, HeaderFields(k), BlockFields(HeaderCodes(k), us));
      HeaderUnique(h, k, st'.v);
      TokensUnique(HeaderCodes(h), ts, us, st'.out, Shr(st'.v, BitsOf(HeaderFields(h))));
  }

  lemma {:induction false} BlocksPrefix(st: State, bs: seq<Block>, n: nat)
    requires BlocksNext(st, bs) && n <= |bs|
    ensures BlocksNext(st, bs[..n])
    ensures 0 < n < |bs| ==> !bs[n - 1].final
    ensures n < |bs| ==> BlockNext(AfterBlocks(st, bs[..n]), bs[n])
    decreases |bs|
  {
    hide BlockNext, AfterBlock;
    if n == |bs| {
      assert bs[..n] == bs;
    } else {
      var m := |bs| - 1;
      BlocksPrefix(st, bs[..m], n);
      assert bs[..m][..n] == bs[..n];
    }
  }

  /** The blocks read so far are the first blocks of any other reading of the stream. */
  lemma {:induction false} SameBlocks(st: State, a: seq<Block>, b: seq<Block>)
    requires |a| == |b| && BlocksNext(st, a) && BlocksNext(st, b)
    ensures a == b
    decreases |a|
  {
    hide BlockNext, AfterBlock;
    if |a| != 0 {
      var m := |a| - 1;
      SameBlocks(st, a[..m], b[..m]);
      BlockUnique(AfterBlocks(st, a[..m]), a[m], b[m]);
      assert a == a[..m] + [a[m]] && b == b[..m] + [b[m]];
    }
  }

  /** Reading on never takes back bits or output. */
  lemma {:induction false} BlocksGrow(st: State, bs: seq<Block>, n: nat)
    requires BlocksNext(st, bs) && n <= |bs|
    ensures BlocksNext(st, bs[..n])
    ensures AfterBlocks(st, bs[..n]).p <= AfterBlocks(st, bs).p
    ensures |AfterBlocks(st, bs[..n]).out| <= |AfterBlocks(st, bs).out|
    decreases |bs|
  {
    hide BlockNext, AfterBlock;
    if n == |bs| {
      assert bs[..n] == bs;
    } else {
      var m := |bs| - 1;
      BlocksGrow(st, bs[..m], n);
      assert bs[..m][..n] == bs[..n];
      BlockGrows(AfterBlocks(st, bs[..m]), bs[m]);
    }
  }

  lemma BlockGrows(st: State, b: Block)
    requires BlockNext(st, b)
    ensures st.p <= AfterBlock(st, b).p && |st.out| <= |AfterBlock(st, b).out|
  {
    if !b.body.Stored? { ExpandGrows(st.out, b.body.ts); }
  }

  /** No block starts where only zeros are left. */
  lemma NoBlockInZeros(st: State, b: Block)
    requires st.v == 0
    ensures !BlockNext(st, b)
  {
    if BlockNext(st, b) {
      LowFits(0, 1);
      LowFits(0, 2);
      LowFits(0, 3);
      LowFits(0, 16);
      var n := Align(st.p + 3);
      LowFits(0, n);
      StoredAt(st.p + 3, b.body.pad, b.body.data, 0);
      assert false;
    }
  }

  /** A block leaves a smaller stream. */
  lemma BlockShrinks(st: State, b: Block)
    requires BlockNext(st, b)
    ensures AfterBlock(st, b).v < st.v
  {
    if st.v == 0 { NoBlockInZeros(st, b); }
    assert Shr(st.v, 3) == Shr(st.v / 2, 2);
  }

  /** A stream can be read in one way only. */
  lemma StreamUnique(st: State, a: seq<Block>, b: seq<Block>)
    requires StreamNext(st, a) && StreamNext(st, b)
    ensures a == b
  {
    hide BlockNext, AfterBlock;
    if |a| < |b| {
      BlocksPrefix(st, b, |a|);
      SameBlocks(st, a, b[..|a|]);
      assert false;
    } else if |b| < |a| {
      BlocksPrefix(st, a, |b|);
      SameBlocks(st, b, a[..|b|]);
      assert false;
    } else {
      SameBlocks(st, a, b);
    }
  }

  /** A block, and a stream after it. */
  lemma {:induction false} BlocksCons(st: State, b: Block, bs: seq<Block>)
    requires BlockNext(st, b) && BlocksNext(AfterBlock(st, b), bs)
    requires |bs| > 0 ==> !b.final
    ensures BlocksNext(st, [b] + bs) && AfterBlocks(st, [b] + bs) == AfterBlocks(AfterBlock(st, b), bs)
    decreases |bs|
  {
    hide BlockNext, AfterBlock;
    var r := [b] + bs;
    if |bs| == 0 {
      assert r == [b] && r[..0] == [];
    } else {
      var m := |bs| - 1;
      BlocksCons(st, b, bs[..m]);
      assert r[..|r| - 1] == [b] + bs[..m] && r[|r| - 1] == bs[m];
      assert m > 0 ==> r[|r| - 2] == bs[m - 1];
    }
  }

  // ---- the zlib format (RFC 1950 section 2.2) -----------------------------------------

  /** A two-byte header that is not at the very end, checks modulo 31, names no preset
      dictionary and says deflate. */
  predicate HeaderOk(input: seq<byte>)
  {
    && |input| > 2
    && (input[0] as int * 256 + input[1]) % 31 == 0
    && (input[1] / 32) % 2 == 0
    && input[0] % 16 == 8
  }

  /** Where the blocks of an input start. */
  function StreamStart(input: seq<byte>, parse_header: bool): State
  {
    if parse_header && |input| >= 2 then State(16, [], LE(input[2..])) else State(0, [], LE(input))
  }

  /** The input holds a stream that expands to `data`. */
  ghost predicate HoldsStream(input: seq<byte>, parse_header: bool, data: seq<byte>, bs: seq<Block>)
  {
    && (parse_header ==> HeaderOk(input))
    && StreamNext(StreamStart(input, parse_header), bs)
    && data == AfterBlocks(StreamStart(input, parse_header), bs).out
  }

  /** The stream ends within the input. */
  ghost predicate Complete(input: seq<byte>, parse_header: bool, bs: seq<Block>)
    requires StreamNext(StreamStart(input, parse_header), bs)
  {
    8 * |input| - AfterBlocks(StreamStart(input, parse_header), bs).p >= 0
  }

  /** Whatever an input expands to, it expands to one thing only. */
  lemma ExpansionUnique(input: seq<byte>, parse_header: bool, d: seq<byte>, bs: seq<Block>, e: seq<byte>,
                        cs: seq<Block>)
    requires HoldsStream(input, parse_header, d, bs) && HoldsStream(input, parse_header, e, cs)
    ensures bs == cs && d == e
  {
    StreamUnique(StreamStart(input, parse_header), bs, cs);
  }
}
