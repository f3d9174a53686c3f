/** Writer and reader together. */
module ZlibRoundTrip {
  import opened BitMath
  import opened ZCodes
  import opened Deflate
  import opened DeflateStream
  import opened FixedCode
  import opened Inflate
  import opened StreamEnd
  import opened ZCompress

  /** Whatever stream an input holds, reading it gives that expansion, if the stream ends within the
      input and the expansion fits; the converse is `ZlibDecode`'s own contract. */
  lemma DecodedIs(input: seq<byte>, data: seq<byte>, bs: seq<Block>, ok: bool, d: seq<byte>)
    requires HoldsStream(input, true, data, bs) && Complete(input, true, bs) && |data| <= 0x8000_0000
    requires ok ==> exists cs :: HoldsStream(input, true, d, cs)
    requires !ok ==> forall cs, e | HoldsStream(input, true, e, cs) :: !Complete(input, true, cs) || |e| > 0x8000_0000
    ensures ok && d == data
  {
    hide HoldsStream, Complete;
    if ok {
      var cs :| HoldsStream(input, true, d, cs);
      ExpansionUnique(input, true, data, bs, d, cs);
    }
  }

  /** What `Compress` makes of no data: the header bits of a stored block, but then lengths
      0 and 1 that do not check. */
  lemma EmptyFails(bs: seq<Block>, d: seq<byte>)
    ensures !HoldsStream([0x78, 0x5E, 0, 0, 0, 1], true, d, bs)
  {
    var z: seq<byte> := [0x78, 0x5E, 0, 0, 0, 1];
    if HoldsStream(z, true, d, bs) {
      var st := StreamStart(z, true);
      BlocksPrefix(st, bs, 0);
      assert bs[..0] == [];
      EmptyValue(z);
      NoEmptyBlock(st, bs[0]);
      assert false;
    }
  }

  lemma EmptyValue(z: seq<byte>)
    requires z == [0x78, 0x5E, 0, 0, 0, 1]
    ensures StreamStart(z, true) == State(16, [], Pow2(24))
  {
    var s := z[2..];
    assert s[1..][1..][1..] == [1] && s[0] == 0 && s[1..][0] == 0 && s[1..][1..][0] == 0;
    assert LE([1]) == 1;
    assert LE(s[1..][1..]) == 256;
    assert LE(s[1..]) == 65536;
    assert LE(s) == 0x100_0000;
    Pow2Values();
  }

  lemma EmptyHeader(v: nat, x: nat)
    requires v == 256 * x && x == Shl(1, 16)
    ensures Low(Shr(v, 1), 2) == 0 && Shr(Shr(v, 3), 5) == x && Low(x, 16) == 0 && Low(Shr(x, 16), 16) == 1
  {
    hide *;
    HeaderBits(v, 0, x);
    PowPositive(16);
    Join(0, 1, 16);
    LowFits(1, 16);
  }

  lemma PowPositive(n: nat)
    ensures 0 < Pow2(n) && (n == 16 ==> 1 < Pow2(n))
  {
    Pow2Values();
  }

  lemma NoEmptyBlock(st: State, b: Block)
    requires st.p == 16 && st.v == Pow2(24)
    ensures !BlockNext(st, b)
  {
    hide Shl, Shr, Low, Pow2, BodyNext, Align, BodyType;
    var x := Shl(1, 16);
    TwentyFour(x);
    EmptyHeader(st.v, x);
    AlignHeader(st.p);
    if BlockNext(st, b) {
      StoredType(b.body);
      NoEmptyBody(AfterBits(st, 3), x, b.body);
      assert false;
    }
  }

  lemma TwentyFour(x: nat)
    requires x == Shl(1, 16)
    ensures Pow2(24) == 256 * x
  {
    Pow2Values();
  }

  lemma StoredType(b: Body)
    ensures BodyType(b) == 0 <==> b.Stored?
  {
  }

  lemma NoEmptyBody(st: State, x: nat, b: Body)
    requires Align(st.p) == 5 && Shr(st.v, 5) == x && Low(x, 16) == 0 && Low(Shr(x, 16), 16) == 1
    requires b.Stored?
    ensures !BodyNext(st, b)
  {
    if BodyNext(st, b) {
      StoredAt(st.p, b.pad, b.data, st.v);
      assert false;
    }
  }

  // ---- streams that zeros complete ----------------------------------------------------

  /** A zlib header and the first bits of a block with the fixed codes, and no more: the zeros
      after the input are its end code, seven bits of which five are in the input. */
  lemma TruncatedHolds()
    ensures var z, bs := [0x78, 0x9C, 3], [Block(true, Fixed([]))];
            HoldsStream(z, true, [], bs) && !Complete(z, true, bs) && NearEnd(z, true, bs)
  {
    hide *;
    var z: seq<byte> := [0x78, 0x9C, 3];
    var st, b := StreamStart(z, true), Block(true, Fixed([]));
    TruncatedStart(z);
    TruncatedBlock(st, b);
    OneBlock(st, b);
    TruncatedStream(z, b);
    EndsNear(z, true, [], [b]);
  }

  lemma TruncatedStart(z: seq<byte>)
    requires z == [0x78, 0x9C, 3]
    ensures StreamStart(z, true) == State(16, [], 3) && HeaderOk(z)
  {
    assert z[2..] == [3];
    assert LE([3]) == 3;
  }

  lemma TruncatedBlock(st: State, b: Block)
    requires st == State(16, [], 3) && b == Block(true, Fixed([]))
    ensures BlockNext(st, b) && AfterBlock(st, b) == State(26, [], 0)
  {
    hide BodyNext, AfterBody, Low, Shr;
    ThreeBits();
    EndInZeros(AfterBits(st, 3), b.body);
  }

  lemma TruncatedStream(z: seq<byte>, b: Block)
    requires |z| == 3 && HeaderOk(z) && StreamNext(StreamStart(z, true), [b])
    requires AfterBlocks(StreamStart(z, true), [b]) == State(26, [], 0)
    ensures HoldsStream(z, true, [], [b]) && !Complete(z, true, [b])
  {
    hide BlocksNext, AfterBlocks;
  }

  lemma ThreeBits()
    ensures Low(3, 1) == 1 && Low(Shr(3, 1), 2) == 1 && Shr(3, 3) == 0
  {
    assert Shr(3, 1) == 1;
  }

  lemma EndSymbol()
    ensures CodesAccepted(FixedCodes()) && Used(FixedCodes().ll, END_OF_BLOCK)
    ensures Symbol(FixedCodes().ll, END_OF_BLOCK) == Field(0, 7)
  {
    hide FixedCodes, Code, Accepted, Rev;
    FixedAccepted();
    LengthCode(END_OF_BLOCK);
    RevZero(7);
  }

  lemma EndInZeros(st: State, b: Body)
    requires st.v == 0 && st.out == [] && b == Fixed([])
    ensures BodyNext(st, b) && AfterBody(st, b) == State(st.p + 7, [], 0)
  {
    hide FixedCodes, Symbol, StartsWith, BitsOf, Low, Shr, Pow2, CodesAccepted, Used;
    EndSymbol();
    var f := Symbol(FixedCodes().ll, END_OF_BLOCK);
    assert BlockFields(FixedCodes(), []) == [f];
    LowFits(0, 7);
    OneField(0, f);
  }

  /** A stored block whose bytes are all missing: the input holds it, with zeros for bytes, but what
      ends so far past the input is not accepted. */
  lemma StoredMissing(n: nat)
    requires 1 <= n < 0x10000
    ensures var z, d := StoredHeader(n, true), seq(n, _ => 0); var bs := [Block(true, Stored(0, d))];
            HoldsStream(z, false, d, bs) && !NearEnd(z, false, bs)
  {
    var z, d := StoredHeader(n, true), seq(n, _ => 0 as byte);
    var st, b := StreamStart(z, false), Block(true, Stored(0, d));
    ZeroBytes(n);
    LEConcat(z, d);
    ShlZero(8 * |z|);
    assert z + d + [] == z + d;
    StoredReads(st, true, d, []);
    hide BodyNext, AfterBody, Low, Shr, LE;
    OneBlock(st, b);
    assert [b][..0] == [] && [] + d == d;
  }

  lemma {:induction false} ZeroBytes(n: nat)
    ensures LE(seq(n, _ => 0 as byte)) == 0
  {
    if n > 0 {
      var d := seq(n, _ => 0 as byte);
      assert d[1..] == seq(n - 1, _ => 0 as byte);
      ZeroBytes(n - 1);
    }
  }

  // ---- the round trip -----------------------------------------------------------------

  /** Inflating what `stbi_zlib_compress` wrote gives back exactly the data, for every
      quality and every initial size of the output buffer, if and only if there was data. */
  method RoundTrip(data: seq<byte>, quality: int, initial_size: nat) returns (ok: bool, d: seq<byte>)
    requires StoredLength(|data|) <= 0x7FFF_FFFF && 0 < initial_size <= 0x7FFF_FFFF
    ensures ok <==> |data| > 0
    ensures ok ==> d == data
  {
    hide StreamNext, AfterBlocks;
    var z := Compress(data, quality);
    ok, d := ZlibDecode(z, initial_size, true);
    if |data| > 0 {
      ghost var bs :| HoldsStream(z, true, data, bs) && Complete(z, true, bs);
      DecodedIs(z, data, bs, ok, d);
    } else if ok {
      ghost var bs :| HoldsStream(z, true, d, bs);
      EmptyFails(bs, d);
      assert false;
    }
  }
}
