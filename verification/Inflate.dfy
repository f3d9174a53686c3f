/** The inflater: `stbi__parse_zlib` and the block parsers below it. */
module Inflate {
  import opened BitMath
  import opened ZCodes
  import opened ZHuffmanTables
  import opened BitReservoir
  import opened LZ77
  import opened Deflate
  import opened DeflateStream
  import opened StreamEnd
  import opened FixedCode
  import opened ZTables

  datatype Step = Failed | Ended | More

  class Inflater {
    const bits: BitReader
    const out: OutputBuffer
    const z_length: ZHuffman
    const z_distance: ZHuffman

    constructor (input: seq<byte>, initial_size: nat, expandable: bool)
      requires expandable ==> initial_size > 0
      requires initial_size <= 0x7FFF_FFFF
      ensures Valid() && fresh(bits) && fresh(out) && fresh(out.buf) && fresh(z_length.Repr) && fresh(z_distance.Repr)
      ensures bits.input == input && bits.pos == 0 && bits.num_bits == 0 && bits.pad == 0 && !bits.hit_zeof_once
      ensures bits.Rest() == LE(input) && Contents() == [] && out.buf.Length == initial_size
        && out.z_expandable == expandable
    {
      bits := new BitReader(input);
      assert input[0..] == input;
      out := new OutputBuffer(initial_size, expandable);
      z_length := new ZHuffman();
      z_distance := new ZHuffman();
    }

    ghost predicate Valid()
      reads bits, out
    {
      && bits.Valid() && out.Valid()
      && z_length.Valid() && z_distance.Valid()
      && z_length.Repr !! z_distance.Repr
      && bits !in z_length.Repr && out !in z_length.Repr && out.buf !in z_length.Repr
      && bits !in z_distance.Repr && out !in z_distance.Repr && out.buf !in z_distance.Repr
    }

    ghost function Contents(): seq<byte>
      reads bits, out, out.buf
      requires Valid()
    {
      out.Contents()
    }

    /** The tables hold the codes of the current block. */
    ghost predicate HasCodes(c: Codes)
      reads z_length.Repr, z_distance.Repr
    {
      z_length.Holds(c.ll) && z_distance.Holds(c.dl)
    }

    /** Nothing but the limits of the input and of the output buffer keeps a field list
        of `n` bits that yields `size` bytes from being read: it must end within the input
        and fit half the address space. */
    ghost predicate Room(left: int, n: nat, size: nat)
    {
      left - n >= 0 && out.z_expandable && size <= 0x8000_0000
    }

    /** The fields of a match after its length symbol z. It fails only when no match
        comes next, or for want of input. */
    method ReadMatch(ghost c: Codes, z: nat, ghost v: nat) returns (ok: bool, ghost t: Token, len: nat, dist: nat)
      requires bits.Valid() && HasCodes(c)
      requires 257 <= z < 286 && Matches(c.ll, z, v) && bits.Rest() == Shr(v, c.ll[z])
      modifies bits
      ensures bits.Valid()
      ensures ok ==> t.Match? && Coded(c, t) && StartsWith(v, TokenFields(c, t))
      ensures ok ==> len == Length(t) && dist == Distance(t)
      ensures ok ==> bits.Rest() == Shr(v, BitsOf(TokenFields(c, t)))
      ensures ok ==> bits.Taken() == old(bits.Taken()) - c.ll[z] + BitsOf(TokenFields(c, t))
      ensures !ok ==> forall u | Coded(c, u) && StartsWith(v, TokenFields(c, u)) ::
                        old(bits.Left()) + c.ll[z] - BitsOf(TokenFields(c, u)) < 0
    {
      hide StartsWith, TokenFields, BitsOf, Coded, Matches, Shr, Low;
      ok, t, dist := false, Literal(0), 0;
      ghost var v2 := bits.Rest();
      var extra;
      len, extra := LengthEntry(z - 257);
      var lextra := ReceiveExtra(extra);
      len := len + lextra;
      ghost var v3, left3 := bits.Rest(), bits.Left();
      var d := bits.Decode(z_distance, c.dl);
      if d < 0 || d >= 30 {
        NoMatchFollows(c, z, v, d, left3);
      } else {
        ghost var v4 := bits.Rest();
        dist, extra := DistEntry(d);
        var dextra := ReceiveExtra(extra);
        dist := dist + dextra;
        ok, t := true, Match(z, lextra, d, dextra);
        MatchRead(c, t, v, v2, v3, v4);
      }
    }

    static lemma MatchRead(c: Codes, t: Token, v: nat, v2: nat, v3: nat, v4: nat)
      requires CodesAccepted(c) && t.Match? && 257 <= t.lsym < 286 && t.dsym < 30
      requires Matches(c.ll, t.lsym, v) && v2 == Shr(v, c.ll[t.lsym])
      requires t.lextra == Low(v2, LengthExtra(t.lsym - 257)) && v3 == Shr(v2, LengthExtra(t.lsym - 257))
      requires Matches(c.dl, t.dsym, v3) && v4 == Shr(v3, c.dl[t.dsym])
      requires t.dextra == Low(v4, DistExtra(t.dsym))
      ensures Coded(c, t) && StartsWith(v, TokenFields(c, t))
      ensures BitsOf(TokenFields(c, t)) ==
              c.ll[t.lsym] + LengthExtra(t.lsym - 257) + c.dl[t.dsym] + DistExtra(t.dsym)
      ensures Shr(v, BitsOf(TokenFields(c, t))) == Shr(v4, DistExtra(t.dsym))
    {
      Split(v2, LengthExtra(t.lsym - 257));
      Split(v4, DistExtra(t.dsym));
      MatchFieldsAt(c, t, v);
    }

    /** No match at v: its distance symbol is missing, or is not a distance symbol. */
    static lemma NoMatchFollows(c: Codes, z: nat, v: nat, d: int, left3: int)
      requires CodesAccepted(c) && 257 <= z < 286 && Matches(c.ll, z, v)
      requires var v3 := Shr(Shr(v, c.ll[z]), LengthExtra(z - 257));
               if d < 0 then left3 < 0 || forall i: nat | Used(c.dl, i) :: !Matches(c.dl, i, v3)
               else d >= 30 && Matches(c.dl, d, v3)
      ensures forall u | Coded(c, u) && StartsWith(v, TokenFields(c, u)) ::
                left3 + LengthExtra(z - 257) + c.ll[z] - BitsOf(TokenFields(c, u)) < 0
    {
      forall u | Coded(c, u) && StartsWith(v, TokenFields(c, u))
        ensures left3 + LengthExtra(z - 257) + c.ll[z] - BitsOf(TokenFields(c, u)) < 0
      {
        MatchAt(c, u, z, v);
        if d >= 0 { MatchUnique(c.dl, d, u.dsym, Shr(Shr(v, c.ll[z]), LengthExtra(z - 257))); }
      }
    }

    method ReceiveExtra(n: nat) returns (k: nat)
      requires bits.Valid() && n <= 13
      modifies bits
      ensures bits.Valid()
      ensures k == Low(old(bits.Rest()), n) && k < Pow2(n)
      ensures bits.Rest() == Shr(old(bits.Rest()), n) && bits.Taken() == old(bits.Taken()) + n
    {
      k := 0;
      if n != 0 {
        k := bits.Receive(n);
      }
    }

    /** No block that starts at v, after `before`, leaves the room it needs. */
    ghost predicate NoRoom(c: Codes, before: seq<byte>, v: nat, left: int)
    {
      forall ts | BlockAt(c, ts, before, v) ::
        !Room(left, BitsOf(BlockFields(c, ts)), |Expand(before, ts)|)
    }

    /** One round of the loop of `stbi__parse_huffman_block`: a literal, a match or the
        end of the block. It fails only when no block was there, or for want of room. */
    method ReadToken(ghost c: Codes) returns (step: Step, ghost t: Token)
      requires Valid() && HasCodes(c)
      modifies bits, out, out.buf
      ensures Valid() && HasCodes(c) && (out.buf == old(out.buf) || fresh(out.buf))
      ensures step.More? ==>
                && Coded(c, t) && Reaches(t, |old(Contents())|) && StartsWith(old(bits.Rest()), TokenFields(c, t))
                && bits.Rest() == Shr(old(bits.Rest()), BitsOf(TokenFields(c, t)))
                && bits.Taken() == old(bits.Taken()) + BitsOf(TokenFields(c, t))
                && Contents() == Expand1(old(Contents()), t)
      ensures step.More? ==> out.zout > old(out.zout)
      ensures step.Ended? ==>
                && Matches(c.ll, END_OF_BLOCK, old(bits.Rest()))
                && bits.Rest() == Shr(old(bits.Rest()), c.ll[END_OF_BLOCK])
                && bits.Taken() == old(bits.Taken()) + c.ll[END_OF_BLOCK]
                && Contents() == old(Contents())
      ensures step.Failed? ==> NoRoom(c, old(Contents()), old(bits.Rest()), old(bits.Left()))
    {
      hide StartsWith, BitsOf, Shr, NoRoom;
      assert z_length.Holds(c.ll) && CodesAccepted(c);
      hide HasCodes;
      ghost var v, before, left := bits.Rest(), Contents(), bits.Left();
      step, t := Failed, Literal(0);
      var z := bits.Decode(z_length, c.ll);
      if z < 256 {
        if z < 0 {
          NoSymbol(c, before, v, left);
        } else {
          var ok := out.Put(z);
          t := Literal(z);
          FirstSymbol(c, t, v);
          if ok { step := More; } else { NoSpace(c, t, before, v, left); }
        }
      } else if z == 256 {
        if bits.hit_zeof_once && bits.num_bits < 16 {
          EndTooLate(c, before, v, left);
        } else {
          step := Ended;
        }
      } else {
        step, t := FinishMatch(c, z, before, v, left);
      }
    }

    /** The length symbol z, which is no literal and not the end, has been read. */
    method FinishMatch(ghost c: Codes, z: nat, ghost before: seq<byte>, ghost v: nat, ghost left: int)
      returns (step: Step, ghost t: Token)
      requires Valid() && HasCodes(c)
      requires 257 <= z && Matches(c.ll, z, v) && bits.Rest() == Shr(v, c.ll[z])
      requires before == Contents() && left == bits.Left() + c.ll[z]
      modifies bits, out, out.buf
      ensures Valid() && HasCodes(c) && (out.buf == old(out.buf) || fresh(out.buf))
      ensures step.More? || step.Failed?
      ensures step.More? ==>
                && Coded(c, t) && Reaches(t, |before|) && StartsWith(v, TokenFields(c, t))
                && bits.Rest() == Shr(v, BitsOf(TokenFields(c, t)))
                && bits.Taken() == old(bits.Taken()) - c.ll[z] + BitsOf(TokenFields(c, t))
                && Contents() == Expand1(before, t)
      ensures step.Failed? ==> NoRoom(c, before, v, left)
    {
      hide StartsWith, TokenFields, BitsOf, Shr, Low, NoRoom;
      assert CodesAccepted(c);
      hide HasCodes;
      step, t := Failed, Literal(0);
      if z >= 286 {
        WrongSymbol(c, z, before, v, left);
      } else {
        var ok, m, len, dist := ReadMatch(c, z, v);
        if !ok {
          NoMatch(c, z, before, v, left);
        } else {
          t := m;
          if out.zout < dist {
            TooFar(c, t, before, v, left);
          } else {
            ok := CopyMatch(t, dist, len);
            if ok { step := More; } else { NoSpace(c, t, before, v, left); }
          }
        }
      }
    }

    method CopyMatch(ghost t: Token, dist: nat, len: nat) returns (ok: bool)
      requires Valid() && t.Match? && Reaches(t, |Contents()|)
      requires dist == Distance(t) && len == Length(t)
      modifies out, out.buf
      ensures Valid() && (out.buf == old(out.buf) || fresh(out.buf))
      ensures ok ==> Contents() == Expand1(old(Contents()), t)
      ensures !ok ==> !out.z_expandable || |old(Contents())| + Length(t) > 0x8000_0000
    {
      ok := out.Repeat(dist, len);
    }

    // Why each failure means that no block was there, or that there was no room for it.

    lemma NoSymbol(c: Codes, before: seq<byte>, v: nat, left: int)
      requires CodesAccepted(c)
      requires left < 0 || forall i: nat | Used(c.ll, i) :: !Matches(c.ll, i, v)
      ensures NoRoom(c, before, v, left)
    {
      forall ts | BlockAt(c, ts, before, v)
        ensures !Room(left, BitsOf(BlockFields(c, ts)), |Expand(before, ts)|)
      {
        var z := SymbolInBlock(c, ts, before, v);
      }
    }

    lemma WrongSymbol(c: Codes, z: nat, before: seq<byte>, v: nat, left: int)
      requires CodesAccepted(c) && Matches(c.ll, z, v) && z >= 286
      ensures NoRoom(c, before, v, left)
    {
      forall ts ensures !BlockAt(c, ts, before, v) {
        if BlockAt(c, ts, before, v) {
          var y := SymbolInBlock(c, ts, before, v);
          MatchUnique(c.ll, y, z, v);
          assert false;
        }
      }
    }

    lemma EndTooLate(c: Codes, before: seq<byte>, v: nat, left: int)
      requires CodesAccepted(c) && Matches(c.ll, END_OF_BLOCK, v) && left - c.ll[END_OF_BLOCK] < 0
      ensures NoRoom(c, before, v, left)
    {
      forall ts | BlockAt(c, ts, before, v)
        ensures !Room(left, BitsOf(BlockFields(c, ts)), |Expand(before, ts)|)
      {
        var y := SymbolInBlock(c, ts, before, v);
        MatchUnique(c.ll, y, END_OF_BLOCK, v);
      }
    }

    lemma NoMatch(c: Codes, z: nat, before: seq<byte>, v: nat, left: int)
      requires CodesAccepted(c) && 257 <= z && Matches(c.ll, z, v)
      requires forall u | Coded(c, u) && StartsWith(v, TokenFields(c, u)) :: left - BitsOf(TokenFields(c, u)) < 0
      ensures NoRoom(c, before, v, left)
    {
      forall ts | BlockAt(c, ts, before, v)
        ensures !Room(left, BitsOf(BlockFields(c, ts)), |Expand(before, ts)|)
      {
        var y := SymbolInBlock(c, ts, before, v);
        MatchUnique(c.ll, y, z, v);
        assert Coded(c, ts[0]);
      }
    }

    lemma TooFar(c: Codes, t: Token, before: seq<byte>, v: nat, left: int)
      requires CodesAccepted(c) && Coded(c, t) && StartsWith(v, TokenFields(c, t)) && !Reaches(t, |before|)
      ensures NoRoom(c, before, v, left)
    {
      forall ts ensures !BlockAt(c, ts, before, v) {
        if BlockAt(c, ts, before, v) {
          FirstInBlock(c, t, ts, v);
          assert false;
        }
      }
    }

    lemma NoSpace(c: Codes, t: Token, before: seq<byte>, v: nat, left: int)
      requires CodesAccepted(c) && Coded(c, t) && StartsWith(v, TokenFields(c, t))
      requires !out.z_expandable || |before| + Length(t) > 0x8000_0000
      ensures NoRoom(c, before, v, left)
    {
      forall ts | BlockAt(c, ts, before, v)
        ensures !Room(left, BitsOf(BlockFields(c, ts)), |Expand(before, ts)|)
      {
        FirstInBlock(c, t, ts, v);
        var y := SymbolInBlock(c, ts, before, v);
      }
    }

    /** No room after some tokens is no room from the start. */
    lemma NoRoomEarlier(c: Codes, ts: seq<Token>, before: seq<byte>, v0: nat, left0: int)
      requires CodesAccepted(c)
      requires AllCoded(c, ts) && AllReach(ts, before) && StartsWith(v0, TokensFields(c, ts))
      requires var k := BitsOf(TokensFields(c, ts));
               NoRoom(c, Expand(before, ts), Shr(v0, k), left0 - k)
      ensures NoRoom(c, before, v0, left0)
    {
      forall us | BlockAt(c, us, before, v0)
        ensures !Room(left0, BitsOf(BlockFields(c, us)), |Expand(before, us)|)
      {
        NextInBlock(c, ts, us, before, v0);
        var rest := us[|ts|..];
        assert us == ts + rest;
        ExpandConcat(before, ts, rest);
      }
    }

    /** `stbi__parse_huffman_block`: reads the tokens up to the end of the block. It fails
        only when no block was there, or for want of room. */
    method ParseHuffmanBlock(ghost c: Codes) returns (ok: bool, ghost ts: seq<Token>)
      requires Valid() && HasCodes(c)
      modifies bits, out, out.buf
      ensures Valid() && (out.buf == old(out.buf) || fresh(out.buf))
      ensures ok ==>
                && BlockAt(c, ts, old(Contents()), old(bits.Rest()))
                && bits.Rest() == Shr(old(bits.Rest()), BitsOf(BlockFields(c, ts)))
                && bits.Taken() == old(bits.Taken()) + BitsOf(BlockFields(c, ts))
                && Contents() == Expand(old(Contents()), ts)
      ensures !ok ==> NoRoom(c, old(Contents()), old(bits.Rest()), old(bits.Left()))
    {
      assert CodesAccepted(c);
      hide HasCodes;
      ghost var v0, before, left0 := bits.Rest(), Contents(), bits.Left();
      ts := [];
      var step := More;
      while step.More?
        invariant Valid() && HasCodes(c) && (out.buf == old(out.buf) || fresh(out.buf))
        invariant AllCoded(c, ts) && AllReach(ts, before) && StartsWith(v0, TokensFields(c, ts))
        invariant step.More? ==>
                    && bits.Rest() == Shr(v0, BitsOf(TokensFields(c, ts)))
                    && bits.Left() == left0 - BitsOf(TokensFields(c, ts))
                    && Contents() == Expand(before, ts)
        invariant step.Ended? ==>
                    && BlockAt(c, ts, before, v0)
                    && bits.Rest() == Shr(v0, BitsOf(BlockFields(c, ts)))
                    && bits.Left() == left0 - BitsOf(BlockFields(c, ts))
                    && Contents() == Expand(before, ts)
        invariant step.Failed? ==> NoRoom(c, before, v0, left0)
        decreases step.More?, UINT_MAX - out.zout
      {
        ghost var t;
        step, t := ReadToken(c);
        if step.More? {
          TokenAppended(c, ts, t, before, v0);
          ts := ts + [t];
        } else if step.Ended? {
          EndAppended(c, ts, before, v0);
        } else {
          NoRoomEarlier(c, ts, before, v0, left0);
        }
      }
      ok := step.Ended?;
    }

    /** Where the reader is: bits taken, output and the rest of the stream. */
    ghost function Here(): State
      reads bits, out, out.buf
      requires Valid()
    {
      State(bits.Taken(), Contents(), bits.Rest())
    }

    /** No body of this type that comes next leaves the room it needs. */
    ghost predicate NoBody(st: State, kind: nat, left: int)
    {
      forall b | BodyType(b) == kind && BodyNext(st, b) ::
        !Room(left, BitsOf(BodyFields(b, st.p, st.out)), |BodyOut(b, st.out)|)
    }

    /** `stbi__parse_uncompressed_block`. It fails only when no stored block was there, or
        for want of room. */
    method ParseUncompressedBlock() returns (ok: bool, ghost b: Body)
      requires Valid() && bits.num_bits <= 30
      modifies bits, out, out.buf
      ensures Valid() && (out.buf == old(out.buf) || fresh(out.buf))
      ensures ok ==> b.Stored? && BodyNext(old(Here()), b) && Here() == AfterBody(old(Here()), b)
      ensures ok ==> b.data == [] || bits.Left() >= 0
      ensures !ok ==> NoBody(old(Here()), 0, old(bits.Left()))
    {
      hide BodyNext, AfterBody, NoBody, Shr, Low, LE;
      ghost var st, left := Here(), bits.Left();
      ghost var pad := Discard();
      ghost var v2 := bits.Rest();
      var header := bits.ReadFourBytes();
      HeaderNumbers(header, v2);
      var len := header[1] as int * 256 + header[0];
      var nlen := header[3] as int * 256 + header[2];
      ok, b := false, Stored(0, []);
      if nlen != 0xFFFF - len { // len ^ 0xffff, as len < 0x10000
        NotStored(st, v2, len, nlen, left);
      } else {
        ghost var data;
        ok, data := CopyStored(len);
        if ok {
          b := Stored(pad, data);
          StoredRead(st, v2, pad, data, len, bits.Rest());
        } else {
          NoStored(st, v2, len, left);
        }
      }
    }

    /** The bytes of a stored block, from the input to the output. */
    method CopyStored(len: nat) returns (ok: bool, ghost data: seq<byte>)
      requires Valid() && bits.num_bits == 0
      modifies bits, out, out.buf
      ensures Valid() && (out.buf == old(out.buf) || fresh(out.buf))
      ensures ok ==>
                && |data| == len && Contents() == old(Contents()) + data
                && old(bits.Rest()) == LE(data) + Shl(bits.Rest(), 8 * len)
                && bits.Taken() == old(bits.Taken()) + 8 * len && (len == 0 || bits.Left() >= 0)
      ensures !ok ==> old(bits.Left()) < 8 * len || !out.z_expandable || |old(Contents())| + len > 0x8000_0000
    {
      ok, data := false, [];
      if bits.pos + len <= |bits.input| {
        data := bits.input[bits.pos..bits.pos + len];
        ok := out.Append(bits.input[bits.pos..bits.pos + len]);
        if ok { bits.TakeBytes(len); }
      }
    }

    /** To the next byte boundary. */
    method Discard() returns (ghost pad: nat)
      requires bits.Valid() && bits.num_bits <= 30
      modifies bits
      ensures bits.Valid() && bits.num_bits % 8 == 0 && bits.num_bits <= 24
      ensures pad == Low(old(bits.Rest()), Align(old(bits.Taken())))
      ensures bits.Rest() == Shr(old(bits.Rest()), Align(old(bits.Taken())))
      ensures bits.Taken() == old(bits.Taken()) + Align(old(bits.Taken()))
    {
      pad := 0;
      AlignIs(bits.pos + bits.pad, bits.num_bits);
      if bits.num_bits % 8 != 0 {
        AlignZero(bits.Taken());
        pad := bits.Receive(bits.num_bits % 8);
        AlignIs(bits.pos + bits.pad, bits.num_bits);
        Below32(bits.num_bits);
      }
    }

    static lemma AlignZero(p: nat)
      ensures Align(p + Align(p)) == 0
    {
    }

    static lemma Below32(n: nat)
      requires n < 32 && n % 8 == 0
      ensures n <= 24
    {
    }

    static lemma AlignIs(t: nat, n: nat)
      requires n <= 8 * t
      ensures Align(8 * t - n) == n % 8
    {
    }

    static lemma HeaderNumbers(header: seq<byte>, v: nat)
      requires |header| == 4 && LE(header) == Low(v, 32)
      ensures Low(v, 16) == header[1] as int * 256 + header[0]
      ensures Low(Shr(v, 16), 16) == header[3] as int * 256 + header[2]
    {
      var a, b := header[..2], header[2..];
      assert header == a + b;
      LEConcat(a, b);
      LETwo(a);
      LETwo(b);
      LowLow(v, 16, 16);
      LEBound(a);
      Join(LE(a), LE(b), 16);
    }

    static lemma LETwo(a: seq<byte>)
      requires |a| == 2
      ensures LE(a) == a[1] as int * 256 + a[0]
    {
      assert LE(a[1..]) == a[1] + 256 * LE(a[1..][1..]);
    }

    // Why each failure means that no stored block was there, or no room for it.

    lemma NotStored(st: State, v2: nat, len: nat, nlen: nat, left: int)
      requires v2 == Shr(st.v, Align(st.p)) && Low(v2, 16) == len && Low(Shr(v2, 16), 16) == nlen
      requires nlen != 0xFFFF - len
      ensures NoBody(st, 0, left)
    {
      forall b | BodyType(b) == 0 ensures !BodyNext(st, b) {
        if BodyNext(st, b) {
          StoredAt(st.p, b.pad, b.data, st.v);
          assert false;
        }
      }
    }

    lemma NoStored(st: State, v2: nat, len: nat, left: int)
      requires v2 == Shr(st.v, Align(st.p)) && Low(v2, 16) == len
      requires left - Align(st.p) - 32 < 8 * len || !out.z_expandable || |st.out| + len > 0x8000_0000
      ensures NoBody(st, 0, left)
    {
      forall b | BodyType(b) == 0 && BodyNext(st, b)
        ensures !Room(left, BitsOf(BodyFields(b, st.p, st.out)), |BodyOut(b, st.out)|)
      {
        StoredAt(st.p, b.pad, b.data, st.v);
      }
    }

    lemma StoredRead(st: State, v2: nat, pad: nat, data: seq<byte>, len: nat, rest: nat)
      requires len < 0x10000 && |data| == len && pad == Low(st.v, Align(st.p)) && v2 == Shr(st.v, Align(st.p))
      requires Low(v2, 16) == len && Low(Shr(v2, 16), 16) == 0xFFFF - len
      requires Shr(v2, 32) == LE(data) + Shl(rest, 8 * len)
      ensures BodyNext(st, Stored(pad, data))
      ensures AfterBody(st, Stored(pad, data)) == State(st.p + Align(st.p) + 32 + 8 * len, st.out + data, rest)
    {
      hide StartsWith, ByteFields, LE, Shl, Shr, Low, BitsOf;
      StoredAt(st.p, pad, data, st.v);
      BytesAt(data, rest);
    }

    // ---- dynamic codes ----------------------------------------------------------------

    /** The code lengths of the code length code, in their storage order. */
    method ReadClLengths(hclen: nat) returns (cl: Lengths)
      requires bits.Valid() && hclen <= 19
      modifies bits
      ensures bits.Valid() && |cl| == 19 && (forall i | 0 <= i < 19 :: cl[i] < 8)
      ensures forall i: nat | hclen <= i < 19 :: cl[Dezigzag(i)] == 0
      ensures StartsWith(old(bits.Rest()), ClFields(cl, hclen))
      ensures bits.Rest() == Shr(old(bits.Rest()), 3 * hclen) && bits.Taken() == old(bits.Taken()) + 3 * hclen
    {
      cl := seq(19, _ => 0);
      ghost var v := bits.Rest();
      for i := 0 to hclen
        invariant bits.Valid() && |cl| == 19 && (forall j | 0 <= j < 19 :: cl[j] < 8)
        invariant forall j: nat | i <= j < 19 :: cl[Dezigzag(j)] == 0
        invariant StartsWith(v, ClFields(cl, i))
        invariant bits.Rest() == Shr(v, 3 * i) && bits.Taken() == old(bits.Taken()) + 3 * i
      {
        var s := bits.Receive(3);
        cl := ClReadStep(cl, s, i, v);
      }
    }

    static method ClReadStep(cl: Lengths, s: nat, i: nat, ghost v: nat) returns (b: Lengths)
      requires |cl| == 19 && i < 19 && StartsWith(v, ClFields(cl, i))
      requires s == Low(Shr(v, 3 * i), 3) && s < Pow2(3)
      requires forall j: nat | i <= j < 19 :: cl[Dezigzag(j)] == 0
      requires forall j | 0 <= j < 19 :: cl[j] < 8
      ensures b == cl[Dezigzag(i) := s] && StartsWith(v, ClFields(b, i + 1))
      ensures forall j: nat | i + 1 <= j < 19 :: b[Dezigzag(j)] == 0
      ensures forall j | 0 <= j < 19 :: b[j] < 8
      ensures Shr(Shr(v, 3 * i), 3) == Shr(v, 3 * (i + 1))
    {
      Pow2Values();
      b := cl[Dezigzag(i) := s];
      ClKept(cl, b, i, i);
      ClStep(b, i, v);
      ShrShr(v, 3 * i, 3);
      LaterZero(cl, b, i);
    }

    static lemma LaterZero(a: Lengths, b: Lengths, i: nat)
      requires |a| == |b| == 19 && i < 19
      requires forall k | 0 <= k < 19 && k != Dezigzag(i) :: a[k] == b[k]
      requires forall j: nat | i <= j < 19 :: a[Dezigzag(j)] == 0
      ensures forall j: nat | i + 1 <= j < 19 :: b[Dezigzag(j)] == 0
    {
      forall j: nat | i + 1 <= j < 19 ensures b[Dezigzag(j)] == 0 {
        if Dezigzag(j) == Dezigzag(i) { DezigzagInjective(i, j); }
      }
    }

    /** A later entry does not change the fields of the earlier ones. */
    static lemma {:induction false} ClKept(a: Lengths, b: Lengths, i: nat, n: nat)
      requires |a| == |b| == 19 && n <= i < 19
      requires forall k | 0 <= k < 19 && k != Dezigzag(i) :: a[k] == b[k]
      ensures ClFields(a, n) == ClFields(b, n)
    {
      if n != 0 {
        ClKept(a, b, i, n - 1);
        if Dezigzag(n - 1) == Dezigzag(i) { DezigzagInjective(n - 1, i); }
      }
    }

    /** No full list of lengths comes next, or it runs into the end of the input. */
    static ghost predicate NoList(cl: Lengths, sofar: Lengths, total: nat, v: nat, left: int)
    {
      forall ops | OpsAt(cl, ops, sofar, total, v) :: left - BitsOf(OpsFields(cl, ops)) < 0
    }

    /** One step of the list of code lengths. */
    method ReadOp(z: ZHuffman, cl: Lengths, sofar: Lengths, total: nat)
      returns (ok: bool, lens: Lengths, ghost op: LenOp)
      requires bits.Valid() && z.Holds(cl) && |cl| == 19 && |sofar| < total
      modifies bits
      ensures bits.Valid()
      ensures ok ==>
                && OpCoded(cl, op) && OpFits(sofar, op) && |lens| <= total
                  && StartsWith(old(bits.Rest()), OpFields(cl, op))
                && lens == OpLens(sofar, op)
                && bits.Rest() == Shr(old(bits.Rest()), BitsOf(OpFields(cl, op)))
                && bits.Taken() == old(bits.Taken()) + BitsOf(OpFields(cl, op))
      ensures !ok ==> NoList(cl, sofar, total, old(bits.Rest()), old(bits.Left()))
    {
      ghost var v, left := bits.Rest(), bits.Left();
      ok, lens, op := false, sofar, LenOp(0, 0);
      var c := bits.Decode(z, cl);
      if c < 0 || c >= 19 {
        NoOp(cl, sofar, total, v, left);
      } else {
        var x := ReceiveExtra(OpExtra(c));
        var o := LenOp(c, x);
        op := o;
        OpRead(cl, o, v);
        if (c == 16 && |sofar| == 0) || total - |sofar| < OpCount(o) {
          BadOp(cl, o, sofar, total, v, left);
        } else {
          ok := true;
          lens := OpLens(sofar, o);
        }
      }
    }

    static lemma OpRead(cl: Lengths, op: LenOp, v: nat)
      requires Accepted(cl) && op.sym < 19 && Matches(cl, op.sym, v)
      requires op.x == Low(Shr(v, cl[op.sym]), OpExtra(op.sym))
      ensures OpCoded(cl, op) && StartsWith(v, OpFields(cl, op))
      ensures BitsOf(OpFields(cl, op)) == cl[op.sym] + OpExtra(op.sym)
      ensures Shr(v, BitsOf(OpFields(cl, op))) == Shr(Shr(v, cl[op.sym]), OpExtra(op.sym))
    {
      Split(Shr(v, cl[op.sym]), OpExtra(op.sym));
      OpAt(cl, op, v);
      ShrShr(v, cl[op.sym], OpExtra(op.sym));
    }

    static lemma NoOp(cl: Lengths, sofar: Lengths, total: nat, v: nat, left: int)
      requires Accepted(cl) && |sofar| < total
      requires left < 0 || forall i: nat | Used(cl, i) :: !Matches(cl, i, v)
      ensures NoList(cl, sofar, total, v, left)
    {
      forall ops | OpsAt(cl, ops, sofar, total, v)
        ensures left - BitsOf(OpsFields(cl, ops)) < 0
      {
        OpInList(cl, ops, sofar, total, v);
      }
    }

    static lemma BadOp(cl: Lengths, op: LenOp, sofar: Lengths, total: nat, v: nat, left: int)
      requires Accepted(cl) && |sofar| < total
      requires OpCoded(cl, op) && StartsWith(v, OpFields(cl, op))
        && !(OpFits(sofar, op) && |sofar| + OpCount(op) <= total)
      ensures NoList(cl, sofar, total, v, left)
    {
      forall ops ensures !OpsAt(cl, ops, sofar, total, v) {
        if OpsAt(cl, ops, sofar, total, v) {
          OpInList(cl, ops, sofar, total, v);
          OpsSplit(cl, ops, v);
          OpUnique(cl, op, ops[0], v);
          assert false;
        }
      }
    }

    static lemma NoOps(cl: Lengths, v: nat)
      ensures OpsCoded(cl, []) && OpsFit([], []) && OpsLens([], []) == []
      ensures StartsWith(v, OpsFields(cl, [])) && BitsOf(OpsFields(cl, [])) == 0 && Shr(v, 0) == v
    {
    }

    /** The code lengths of both codes, as one list. */
    method ReadLens(z: ZHuffman, cl: Lengths, total: nat) returns (ok: bool, lens: Lengths, ghost ops: seq<LenOp>)
      requires bits.Valid() && z.Holds(cl) && |cl| == 19
      modifies bits
      ensures bits.Valid()
      ensures ok ==>
                && OpsAt(cl, ops, [], total, old(bits.Rest())) && lens == OpsLens([], ops)
                && bits.Rest() == Shr(old(bits.Rest()), BitsOf(OpsFields(cl, ops)))
                && bits.Taken() == old(bits.Taken()) + BitsOf(OpsFields(cl, ops))
      ensures !ok ==> NoList(cl, [], total, old(bits.Rest()), old(bits.Left()))
    {
      hide StartsWith, OpsFields, BitsOf, Shr, OpsLens, OpsFit, OpsCoded, NoList;
      ghost var v0, left0 := bits.Rest(), bits.Left();
      ok, lens, ops := true, [], [];
      NoOps(cl, v0);
      while ok && |lens| < total
        invariant bits.Valid() && z.Holds(cl)
        invariant OpsCoded(cl, ops) && OpsFit(ops, []) && StartsWith(v0, OpsFields(cl, ops))
        invariant ok ==>
                    && lens == OpsLens([], ops) && |lens| <= total
                    && bits.Rest() == Shr(v0, BitsOf(OpsFields(cl, ops)))
                    && bits.Left() == left0 - BitsOf(OpsFields(cl, ops))
        invariant !ok ==> NoList(cl, [], total, v0, left0)
        decreases ok, total - |lens|
      {
        ghost var op;
        var sofar := lens;
        ok, lens, op := ReadOp(z, cl, sofar, total);
        if ok {
          OpAppended(cl, ops, op, [], v0);
          ops := ops + [op];
        } else {
          NoListEarlier(cl, ops, total, v0, left0);
        }
      }
      if ok && |lens| != total {
        assert false;
      }
    }

    static lemma NoListEarlier(cl: Lengths, ops: seq<LenOp>, total: nat, v0: nat, left0: int)
      requires Accepted(cl) && OpsFit(ops, []) && |OpsLens([], ops)| <= total
      requires OpsCoded(cl, ops) && OpsFit(ops, []) && StartsWith(v0, OpsFields(cl, ops))
      requires var k := BitsOf(OpsFields(cl, ops));
               NoList(cl, OpsLens([], ops), total, Shr(v0, k), left0 - k)
      ensures NoList(cl, [], total, v0, left0)
    {
      forall us | OpsAt(cl, us, [], total, v0)
        ensures left0 - BitsOf(OpsFields(cl, us)) < 0
      {
        NextOp(cl, ops, us, [], total, v0);
      }
    }

    /** No code description comes next, or it runs into the end of the input. */
    static ghost predicate NoHeader(v: nat, left: int)
    {
      forall k | HeaderFits(k) && StartsWith(v, HeaderFields(k)) :: left - BitsOf(HeaderFields(k)) < 0
    }

    /** `stbi__compute_huffman_codes`: reads the description of the codes and builds both
        tables. It fails only when no description was there, or at the end of the input. */
    method ComputeHuffmanCodes() returns (ok: bool, ghost h: Header)
      requires Valid()
      modifies bits, z_length.Repr, z_distance.Repr
      ensures Valid() && Contents() == old(Contents())
      ensures ok ==>
                && HeaderFits(h) && HasCodes(HeaderCodes(h)) && StartsWith(old(bits.Rest()), HeaderFields(h))
                && bits.Rest() == Shr(old(bits.Rest()), BitsOf(HeaderFields(h)))
                && bits.Taken() == old(bits.Taken()) + BitsOf(HeaderFields(h))
      ensures ok ==> var v := old(bits.Rest());
                     h.hlit == 257 + Low(v, 5) && h.hdist == 1 + Low(Shr(v, 5), 5) && h.hclen == 4 + Low(Shr(v, 10), 4)
      ensures ok ==> forall s: nat | s < 19 ::
                       h.cl[s] == var k := if s >= 16 then s - 16 else if s == 0 then 3
                                           else if s >= 8 then 2 * s - 12 else 19 - 2 * s;
                       if k < h.hclen then Low(Shr(old(bits.Rest()), 14 + 3 * k), 3) else 0
      ensures !ok ==> NoHeader(old(bits.Rest()), old(bits.Left()))
    {
      ghost var v, left := bits.Rest(), bits.Left();
      var lens, hlit;
      ok, h, lens, hlit := ReadHeader();
      if ok {
        HeaderAt(h, v);
        HeaderSays(h, v);
        ok := BuildCodes(lens, hlit, h);
        if !ok { OtherHeader(h, v, left); }
      }
    }

    method BuildCodes(lens: Lengths, hlit: nat, ghost h: Header) returns (ok: bool)
      requires Valid() && HeaderShape(h) && hlit == h.hlit && lens == OpsLens([], h.ops)
      modifies z_length.Repr, z_distance.Repr
      ensures Valid()
      ensures ok <==> HeaderFits(h)
      ensures ok ==> HasCodes(HeaderCodes(h))
    {
      ok := z_length.Build(lens[..hlit]);
      if ok { ok := z_distance.Build(lens[hlit..]); }
    }

    static lemma OtherHeader(h: Header, v: nat, left: int)
      requires HeaderShape(h) && StartsWith(v, HeaderFields(h)) && !HeaderFits(h)
      ensures NoHeader(v, left)
    {
      forall k ensures !(HeaderFits(k) && StartsWith(v, HeaderFields(k))) {
        if HeaderFits(k) && StartsWith(v, HeaderFields(k)) {
          HeaderUnique(h, k, v);
          assert false;
        }
      }
    }

    /** The description up to the list of code lengths. */
    method ReadHeader() returns (ok: bool, ghost h: Header, lens: Lengths, hlit: nat)
      requires bits.Valid()
      modifies bits
      ensures bits.Valid()
      ensures ok ==>
                && HeaderShape(h) && hlit == h.hlit && lens == OpsLens([], h.ops)
                && StartsWith(old(bits.Rest()), HeaderFields(h))
                && bits.Rest() == Shr(old(bits.Rest()), BitsOf(HeaderFields(h)))
                && bits.Taken() == old(bits.Taken()) + BitsOf(HeaderFields(h))
      ensures !ok ==> NoHeader(old(bits.Rest()), old(bits.Left()))
    {
      hide StartsWith, HeaderFields, BitsOf, Shr, NoHeader, Low;
      ghost var v, left := bits.Rest(), bits.Left();
      var hdist, hclen;
      hlit, hdist, hclen := ReadCounts();
      var cl := ReadClLengths(hclen);
      ghost var v3 := bits.Rest();
      var z := new ZHuffman();
      ok := z.Build(cl);
      ghost var h0 := Header(hlit, hdist, hclen, cl, []);
      h := h0;
      lens := [];
      if !ok {
        BadClCode(h0, v, left);
      } else {
        ghost var ops;
        ok, lens, ops := ReadLens(z, cl, hlit + hdist);
        if ok {
          h := Header(hlit, hdist, hclen, cl, ops);
          HeaderRead(h0, h, v, v3);
        } else {
          BadList(h0, v3, v, left);
        }
      }
    }

    static lemma HeaderRead(h0: Header, h: Header, v: nat, v3: nat)
      requires CountsAt(h0, v) && Accepted(h0.cl) && (forall i | 0 <= i < 19 :: h0.cl[i] < 8)
      requires v3 == Shr(Shr(v, 14), 3 * h0.hclen) && OpsAt(h0.cl, h.ops, [], Total(h0), v3)
      requires h == h0.(ops := h.ops)
      ensures HeaderShape(h) && StartsWith(v, HeaderFields(h))
      ensures BitsOf(HeaderFields(h)) == 14 + 3 * h.hclen + BitsOf(OpsFields(h.cl, h.ops))
      ensures Shr(v, BitsOf(HeaderFields(h))) == Shr(v3, BitsOf(OpsFields(h.cl, h.ops)))
    {
      HeaderAt(h, v);
    }

    method ReadCounts() returns (hlit: nat, hdist: nat, hclen: nat)
      requires bits.Valid()
      modifies bits
      ensures bits.Valid()
      ensures 257 <= hlit <= 288 && 1 <= hdist <= 32 && 4 <= hclen <= 19
      ensures Low(old(bits.Rest()), 5) == hlit - 257
      ensures Low(Shr(old(bits.Rest()), 5), 5) == hdist - 1
      ensures Low(Shr(Shr(old(bits.Rest()), 5), 5), 4) == hclen - 4
      ensures bits.Rest() == Shr(old(bits.Rest()), 14) && bits.Taken() == old(bits.Taken()) + 14
    {
      hide Shr, Low, Pow2;
      ghost var v := bits.Rest();
      Pow2Values();
      var a := bits.Receive(5);
      var b := bits.Receive(5);
      var c := bits.Receive(4);
      hlit, hdist, hclen := a + 257, b + 1, c + 4;
      ShrShr(v, 5, 5);
      ShrShr(v, 10, 4);
    }

    /** The counts and code length lengths of any description at v are those of h. */
    static lemma SameCounts(h: Header, k: Header, v: nat)
      requires CountsAt(h, v)
      requires HeaderShape(k) && StartsWith(v, HeaderFields(k))
      ensures h.hlit == k.hlit && h.hdist == k.hdist && h.hclen == k.hclen && h.cl == k.cl
    {
      hide StartsWith, HeaderFields, ClFields, OpsFields, BitsOf, Shr, Low;
      HeaderAt(k, v);
      ClUnique(h.cl, k.cl, h.hclen, Shr(v, 14));
      forall j: nat | j < 19 ensures h.cl[j] == k.cl[j] {
        var i := DezigzagOnto(j);
      }
    }

    static ghost predicate CountsAt(h: Header, v: nat)
    {
      && 257 <= h.hlit <= 288 && 1 <= h.hdist <= 32 && 4 <= h.hclen <= 19 && |h.cl| == 19
      && (forall i: nat | h.hclen <= i < 19 :: h.cl[Dezigzag(i)] == 0)
      && Low(v, 5) == h.hlit - 257 && Low(Shr(v, 5), 5) == h.hdist - 1 && Low(Shr(Shr(v, 5), 5), 4) == h.hclen - 4
      && StartsWith(Shr(v, 14), ClFields(h.cl, h.hclen))
    }

    static lemma BadClCode(h: Header, v: nat, left: int)
      requires CountsAt(h, v) && !Accepted(h.cl)
      ensures NoHeader(v, left)
    {
      forall k ensures !(HeaderFits(k) && StartsWith(v, HeaderFields(k))) {
        if HeaderFits(k) && StartsWith(v, HeaderFields(k)) {
          SameCounts(h, k, v);
          assert false;
        }
      }
    }

    static lemma BadList(h: Header, v3: nat, v: nat, left: int)
      requires CountsAt(h, v) && v3 == Shr(Shr(v, 14), 3 * h.hclen)
      requires NoList(h.cl, [], Total(h), v3, left - 14 - 3 * h.hclen)
      ensures NoHeader(v, left)
    {
      forall k | HeaderFits(k) && StartsWith(v, HeaderFields(k))
        ensures left - BitsOf(HeaderFields(k)) < 0
      {
        SameCounts(h, k, v);
        HeaderAt(k, v);
        ListSize(h.cl, k.ops, Total(h), Total(k), v3, left - 14 - 3 * h.hclen);
      }
    }

    static lemma ListSize(cl: Lengths, ops: seq<LenOp>, m: nat, n: nat, v: nat, left: int)
      requires m == n && NoList(cl, [], m, v, left) && OpsAt(cl, ops, [], n, v)
      ensures left - BitsOf(OpsFields(cl, ops)) < 0
    {
    }

    // ---- blocks and streams -----------------------------------------------------------

    /** A block with the fixed codes. */
    method ParseFixed() returns (ok: bool, ghost b: Body)
      requires Valid()
      modifies bits, out, out.buf, z_length.Repr, z_distance.Repr
      ensures Valid() && (out.buf == old(out.buf) || fresh(out.buf))
      ensures ok ==> b.Fixed? && BodyNext(old(Here()), b) && Here() == AfterBody(old(Here()), b)
      ensures !ok ==> NoBody(old(Here()), 1, old(bits.Left()))
    {
      hide FixedCodes, BodyNext, AfterBody, NoBody, NoRoom, BlockAt, BitsOf, BlockFields, HasCodes, CodesAccepted;
      ghost var st, left := Here(), bits.Left();
      b := Fixed([]);
      ok := BuildFixed();
      if ok {
        ghost var ts;
        ok, ts := ParseHuffmanBlock(FixedCodes());
        b := Fixed(ts);
        FixedAccepted();
        if ok { FixedRead(st, ts); } else { NoFixed(st, left); }
      } else {
        FixedAccepted();
        assert false;
      }
    }

    static lemma FixedRead(st: State, ts: seq<Token>)
      requires CodesAccepted(FixedCodes()) && BlockAt(FixedCodes(), ts, st.out, st.v)
      ensures BodyNext(st, Fixed(ts))
      ensures var n := BitsOf(BlockFields(FixedCodes(), ts));
              AfterBody(st, Fixed(ts)) == State(st.p + n, Expand(st.out, ts), Shr(st.v, n))
    {
    }

    method BuildFixed() returns (ok: bool)
      requires Valid()
      modifies z_length.Repr, z_distance.Repr
      ensures Valid() && Here() == old(Here())
      ensures ok ==> HasCodes(FixedCodes())
      ensures !ok ==> !CodesAccepted(FixedCodes())
    {
      var c := FixedCodes();
      ok := z_length.Build(c.ll);
      if ok { ok := z_distance.Build(c.dl); }
    }

    lemma NoFixed(st: State, left: int)
      requires NoRoom(FixedCodes(), st.out, st.v, left)
      ensures NoBody(st, 1, left)
    {
      forall b | BodyType(b) == 1 && BodyNext(st, b)
        ensures !Room(left, BitsOf(BodyFields(b, st.p, st.out)), |BodyOut(b, st.out)|)
      {
        assert BlockAt(FixedCodes(), b.ts, st.out, st.v);
      }
    }

    /** A block that describes its own codes. */
    method ParseDynamic() returns (ok: bool, ghost b: Body)
      requires Valid()
      modifies bits, out, out.buf, z_length.Repr, z_distance.Repr
      ensures Valid() && (out.buf == old(out.buf) || fresh(out.buf))
      ensures ok ==> b.Dynamic? && BodyNext(old(Here()), b) && Here() == AfterBody(old(Here()), b)
      ensures !ok ==> NoBody(old(Here()), 2, old(bits.Left()))
    {
      ghost var st, left := Here(), bits.Left();
      ghost var h;
      ok, h := ComputeHuffmanCodes();
      b := Fixed([]);
      if ok {
        ghost var ts;
        ok, ts := ParseHuffmanBlock(HeaderCodes(h));
        if ok {
          b := Dynamic(h, ts);
          DynamicRead(st, h, ts);
        } else {
          NoDynamic(st, h, left);
        }
      } else {
        NoCodes(st, left);
      }
    }

    static lemma DynamicRead(st: State, h: Header, ts: seq<Token>)
      requires HeaderFits(h) && StartsWith(st.v, HeaderFields(h))
      requires BlockAt(HeaderCodes(h), ts, st.out, Shr(st.v, BitsOf(HeaderFields(h))))
      ensures BodyNext(st, Dynamic(h, ts))
      ensures BitsOf(BodyFields(Dynamic(h, ts), st.p, st.out)) ==
              BitsOf(HeaderFields(h)) + BitsOf(BlockFields(HeaderCodes(h), ts))
      ensures Shr(st.v, BitsOf(BodyFields(Dynamic(h, ts), st.p, st.out))) ==
              Shr(Shr(st.v, BitsOf(HeaderFields(h))), BitsOf(BlockFields(HeaderCodes(h), ts)))
    {
      ConcatSplit(st.v, HeaderFields(h), BlockFields(HeaderCodes(h), ts), BodyFields(Dynamic(h, ts), st.p, st.out));
    }

    lemma NoCodes(st: State, left: int)
      requires NoHeader(st.v, left)
      ensures NoBody(st, 2, left)
    {
      forall b | BodyType(b) == 2 && BodyNext(st, b)
        ensures !Room(left, BitsOf(BodyFields(b, st.p, st.out)), |BodyOut(b, st.out)|)
      {
        ConcatSplit(st.v, HeaderFields(b.h), BlockFields(HeaderCodes(b.h), b.ts), BodyFields(b, st.p, st.out));
      }
    }

    lemma NoDynamic(st: State, h: Header, left: int)
      requires HeaderFits(h) && StartsWith(st.v, HeaderFields(h))
      requires var k := BitsOf(HeaderFields(h));
               NoRoom(HeaderCodes(h), st.out, Shr(st.v, k), left - k)
      ensures NoBody(st, 2, left)
    {
      forall b | BodyType(b) == 2 && BodyNext(st, b)
        ensures !Room(left, BitsOf(BodyFields(b, st.p, st.out)), |BodyOut(b, st.out)|)
      {
        ConcatSplit(st.v, HeaderFields(b.h), BlockFields(HeaderCodes(b.h), b.ts), BodyFields(b, st.p, st.out));
        HeaderUnique(h, b.h, st.v);
        assert BlockAt(HeaderCodes(h), b.ts, st.out, Shr(st.v, BitsOf(HeaderFields(h))));
      }
    }

    /** One block after its three header bits. */
    method ParseBody(kind: nat) returns (ok: bool, ghost b: Body)
      requires Valid() && bits.num_bits <= 30
      modifies bits, out, out.buf, z_length.Repr, z_distance.Repr
      ensures Valid() && (out.buf == old(out.buf) || fresh(out.buf))
      ensures ok ==> BodyType(b) == kind && BodyNext(old(Here()), b) && Here() == AfterBody(old(Here()), b)
      ensures ok && b.Stored? ==> b.data == [] || bits.Left() >= 0
      ensures !ok ==> NoBody(old(Here()), kind, old(bits.Left()))
    {
      if kind == 0 {
        ok, b := ParseUncompressedBlock();
      } else if kind == 1 {
        ok, b := ParseFixed();
      } else if kind == 2 {
        ok, b := ParseDynamic();
      } else {
        ok, b := false, Stored(0, []);
      }
    }

    /** A stream can be read to its end `st`: it lies within the input, and the output fits
        half the address space. */
    ghost predicate RoomAt(st: State)
    {
      8 * |bits.input| - st.p >= 0 && out.z_expandable && |st.out| <= 0x8000_0000
    }

    /** One block with its header bits. */
    method ParseBlock() returns (ok: bool, final: bool, ghost b: Block)
      requires Valid()
      modifies bits, out, out.buf, z_length.Repr, z_distance.Repr
      ensures Valid() && (out.buf == old(out.buf) || fresh(out.buf))
      ensures ok ==> BlockNext(old(Here()), b) && Here() == AfterBlock(old(Here()), b) && final == b.final
      ensures ok && b.body.Stored? ==> b.body.data == [] || bits.Left() >= 0
      ensures !ok ==> forall b | BlockNext(old(Here()), b) :: !RoomAt(AfterBlock(old(Here()), b))
    {
      hide StartsWith, BodyFields, BitsOf, Low, Shr, Pow2;
      ghost var st := Here();
      var f := bits.Receive(1);
      var kind := bits.Receive(2);
      Pow2Values();
      ShrShr(st.v, 1, 2);
      ghost var st', left := Here(), bits.Left();
      assert st' == AfterBits(st, 3);
      ghost var body;
      ok, body := ParseBody(kind);
      final := f == 1;
      b := Block(final, body);
      if !ok {
        forall b | BlockNext(st, b) ensures !RoomAt(AfterBlock(st, b)) {
          assert BodyNext(st', b.body) && BodyType(b.body) == kind;
        }
      }
    }

    /** The blocks of a stream, up to the final one. What is accepted is a stream of RFC 1951, if
        zeros follow the input; it is expanded as it says, and stored bytes are not taken from these
        zeros. Every stream that ends within the input is accepted, save for want of room. */
    method ParseBlocks() returns (ok: bool, ghost bs: seq<Block>)
      requires Valid()
      modifies bits, out, out.buf, z_length.Repr, z_distance.Repr
      ensures Valid() && (out.buf == old(out.buf) || fresh(out.buf))
      ensures ok ==> StreamNext(old(Here()), bs) && Here() == AfterBlocks(old(Here()), bs)
      ensures ok && bs[|bs| - 1].body.Stored? ==> bs[|bs| - 1].body.data == [] || bits.Left() >= 0
      ensures !ok ==> forall cs | StreamNext(old(Here()), cs) :: !RoomAt(AfterBlocks(old(Here()), cs))
    {
      hide BlockNext, AfterBlock;
      ghost var st := Here();
      bs := [];
      ok := true;
      var final := false;
      while ok && !final
        invariant Valid() && (out.buf == old(out.buf) || fresh(out.buf))
        invariant BlocksNext(st, bs)
        invariant ok ==> Here() == AfterBlocks(st, bs)
        invariant ok ==> (final <==> |bs| > 0 && bs[|bs| - 1].final)
        invariant ok && final && bs[|bs| - 1].body.Stored? ==> bs[|bs| - 1].body.data == [] || bits.Left() >= 0
        invariant !ok ==> forall cs | StreamNext(st, cs) :: !RoomAt(AfterBlocks(st, cs))
        decreases ok, bits.Rest()
      {
        ghost var b;
        ghost var here := Here();
        ok, final, b := ParseBlock();
        if ok {
          BlockShrinks(here, b);
          BlockAppended(st, bs, b);
          bs := bs + [b];
        } else {
          NoStream(st, bs);
        }
      }
    }

    static lemma BlockAppended(st: State, bs: seq<Block>, b: Block)
      requires BlocksNext(st, bs) && (|bs| > 0 ==> !bs[|bs| - 1].final) && BlockNext(AfterBlocks(st, bs), b)
      ensures BlocksNext(st, bs + [b]) && AfterBlocks(st, bs + [b]) == AfterBlock(AfterBlocks(st, bs), b)
    {
      hide BlockNext, AfterBlock;
      assert (bs + [b])[..|bs|] == bs;
    }

    /** When no next block can be read, no stream can. */
    lemma NoStream(st: State, bs: seq<Block>)
      requires BlocksNext(st, bs) && (|bs| > 0 ==> !bs[|bs| - 1].final)
      requires forall b | BlockNext(AfterBlocks(st, bs), b) :: !RoomAt(AfterBlock(AfterBlocks(st, bs), b))
      ensures forall cs | StreamNext(st, cs) :: !RoomAt(AfterBlocks(st, cs))
    {
      hide BlockNext, AfterBlock;
      forall cs | StreamNext(st, cs) ensures !RoomAt(AfterBlocks(st, cs)) {
        var n := |bs|;
        if |cs| <= n {
          BlocksPrefix(st, bs, |cs|);
          SameBlocks(st, cs, bs[..|cs|]);
          assert false;
        } else {
          BlocksPrefix(st, cs, n);
          SameBlocks(st, cs[..n], bs);
          BlocksGrow(st, cs, n + 1);
          BlockAppended(st, bs, cs[n]);
          assert cs[..n + 1] == bs + [cs[n]];
        }
      }
    }

    /** `stbi__parse_zlib_header` (RFC 1950 section 2.2). */
    method ParseZlibHeader() returns (ok: bool)
      requires Valid() && bits.pos == 0 && bits.num_bits == 0 && bits.pad == 0 && !bits.hit_zeof_once
      modifies bits
      ensures Valid() && Contents() == old(Contents())
      ensures ok <==> HeaderOk(bits.input)
      ensures ok <==> && |bits.input| > 2 && (256 * bits.input[0] as int + bits.input[1]) % 31 == 0
                      && bits.input[1] / 32 % 2 == 0 && bits.input[0] % 16 == 8
      ensures ok ==> Here() == State(16, Contents(), LE(bits.input[2..]))
    {
      assert bits.code_buffer == 0;
      var cmf := bits.Get8();
      var cm := cmf % 16;
      var flg := bits.Get8();
      if bits.AtEnd() {
        ok := false;
      } else if (cmf as int * 256 + flg) % 31 != 0 {
        ok := false;
      } else if (flg / 32) % 2 != 0 {
        ok := false;
      } else {
        ok := cm == 8;
      }
    }
  }

  /** `stbi_zlib_decode_malloc_guesssize_headerflag`. What is accepted is a stream of RFC 1950
      and RFC 1951, if zeros follow the input; it ends near the input, and the result is its
      expansion. Every stream is accepted that ends within the input and expands to at most 2^31
      bytes. */
  method ZlibDecode(input: seq<byte>, initial_size: nat, parse_header: bool) returns (ok: bool, data: seq<byte>)
    requires 0 < initial_size <= 0x7FFF_FFFF
    ensures ok ==> exists bs :: HoldsStream(input, parse_header, data, bs) && NearEnd(input, parse_header, bs)
    ensures !ok ==> forall bs, d | HoldsStream(input, parse_header, d, bs) ::
                      !Complete(input, parse_header, bs) || |d| > 0x8000_0000
  {
    hide StreamNext, AfterBlocks;
    var z := new Inflater(input, initial_size, true);
    data := [];
    ok := true;
    if parse_header {
      ok := z.ParseZlibHeader();
    }
    if ok {
      ghost var start := z.Here();
      assert start == StreamStart(input, parse_header);
      ghost var bs;
      ok, bs := z.ParseBlocks();
      if ok {
        data := z.out.buf[..z.out.zout];
        assert HoldsStream(input, parse_header, data, bs);
        EndsNear(input, parse_header, data, bs);
      }
    }
  }
}
