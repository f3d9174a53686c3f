/** `stbi__zbuf`, input side: a reservoir of at most 32 bits in front of the unread bytes.
    The bits still to be read are one number, `Rest()`: the reservoir, then the unread
    bytes, then zeros for ever. */
module BitReservoir {
  import opened BitMath
  import opened BitReversal
  import opened Canonical
  import opened ZCodes
  import opened ZHuffmanTables

  class BitReader {
    const input: seq<byte>
    var pos: nat
    var num_bits: nat
    var hit_zeof_once: bool
    var code_buffer: nat
    /** How many zero bytes past the end of the input have been supplied. */
    ghost var pad: nat

    constructor (input: seq<byte>)
      ensures Valid() && this.input == input
      ensures pos == 0 && num_bits == 0 && pad == 0 && !hit_zeof_once
    {
      this.input := input;
      pos, num_bits, hit_zeof_once, code_buffer, pad := 0, 0, false, 0, 0;
    }

    ghost predicate Valid()
      reads this
    {
      && pos <= |input|
      && num_bits <= 32
      && code_buffer < Pow2(num_bits)
      && num_bits <= 8 * (pos + pad)
      && (pad > 0 || hit_zeof_once ==> pos == |input|)
      && (hit_zeof_once ==> pad >= 2)
    }

    ghost function Rest(): nat
      reads this
      requires pos <= |input|
    {
      code_buffer + Shl(LE(input[pos..]), num_bits)
    }

    /** How many bits have been read. */
    ghost function Taken(): nat
      reads this
      requires Valid()
    {
      8 * (pos + pad) - num_bits
    }

    /** How many bits of the input are left; negative once zeros have been read. */
    ghost function Left(): int
      reads this
      requires Valid()
    {
      8 * |input| - Taken()
    }

    /** `stbi__zeof`. */
    predicate AtEnd()
      reads this
    {
      pos >= |input|
    }

    /** `stbi__zget8`: the next byte, or 0 at the end. */
    method Get8() returns (b: byte)
      requires Valid()
      modifies `pos, `pad
      ensures pos <= |input| && (pad > 0 || hit_zeof_once ==> pos == |input|) && pad >= old(pad)
      ensures pos + pad == old(pos + pad) + 1
      ensures old(LE(input[pos..])) == b + 256 * LE(input[pos..])
      ensures if old(pos) < |input| then pos == old(pos) + 1 && pad == old(pad) && b == input[old(pos)]
              else pos == old(pos) && b == 0
    {
      if AtEnd() {
        pad := pad + 1;
        b := 0;
      } else {
        b := input[pos];
        assert input[pos..][1..] == input[pos + 1..];
        pos := pos + 1;
      }
    }

    /** `stbi__fill_bits`. The guard against a reservoir with stray high bits never fires. */
    method FillBits()
      requires Valid() && num_bits <= 24
      modifies `pos, `pad, `num_bits, `code_buffer
      ensures Valid() && 25 <= num_bits
      ensures Rest() == old(Rest()) && Taken() == old(Taken())
      ensures pad == old(pad) || pos == |input|
    {
      var more := true;
      while more
        invariant Valid() && (more <==> num_bits <= 24)
        invariant Rest() == old(Rest()) && Taken() == old(Taken())
        decreases 32 - num_bits
      {
        if code_buffer >= Pow2(num_bits) {
          assert false;
        }
        FillByte();
        more := num_bits <= 24;
      }
    }

    method FillByte()
      requires Valid() && num_bits <= 24
      modifies `pos, `pad, `num_bits, `code_buffer
      ensures Valid() && num_bits == old(num_bits) + 8
      ensures Rest() == old(Rest()) && Taken() == old(Taken())
    {
      hide Shl, LE;
      ghost var l := LE(input[pos..]);
      var b := Get8();
      ghost var l' := LE(input[pos..]);
      assert Shl(l, num_bits) == Shl(b, num_bits) + Shl(l', num_bits + 8) by {
        Shl8(l');
        ShlAdd(b, 256 * l', num_bits);
        ShlShl(l', 8, num_bits);
      }
      assert Shl(b, num_bits) + Pow2(num_bits) <= Pow2(num_bits + 8) by {
        ShlMono(b, 256, num_bits);
        Pow2Values();
        ShlShl(1, 8, num_bits);
      }
      code_buffer := code_buffer + Shl(b, num_bits);
      num_bits := num_bits + 8;
    }

    /** `code_buffer >>= n, num_bits -= n`. */
    method Drop(n: nat)
      requires Valid() && n <= num_bits
      modifies `num_bits, `code_buffer
      ensures Valid() && num_bits == old(num_bits) - n
      ensures code_buffer == Shr(old(code_buffer), n)
      ensures Rest() == Shr(old(Rest()), n) && Taken() == old(Taken()) + n
    {
      JoinMore(code_buffer, LE(input[pos..]), num_bits, n);
      code_buffer := Shr(code_buffer, n);
      num_bits := num_bits - n;
    }

    /** `stbi__zreceive`: the next n bits, least significant first. */
    method Receive(n: nat) returns (k: nat)
      requires Valid() && n <= 25
      modifies `pos, `pad, `num_bits, `code_buffer
      ensures Valid()
      ensures k == Low(old(Rest()), n) && k < Pow2(n)
      ensures num_bits + n <= 32
      ensures Rest() == Shr(old(Rest()), n) && Taken() == old(Taken()) + n
    {
      if num_bits < n {
        FillBits();
      }
      k := Low(code_buffer, n);
      JoinMore(code_buffer, LE(input[pos..]), num_bits, n);
      Split(code_buffer, n);
      Drop(n);
    }

    /** The bytes already in the reservoir, of which there are at most three. */
    method DrainBytes() returns (header: seq<byte>)
      requires Valid() && num_bits % 8 == 0 && num_bits <= 24
      modifies `num_bits, `code_buffer
      ensures Valid() && num_bits == 0 && |header| <= 3
      ensures old(Rest()) == LE(header) + Shl(Rest(), 8 * |header|)
      ensures Taken() == old(Taken()) + 8 * |header|
    {
      header := [];
      ghost var k := num_bits / 8;
      while num_bits > 0
        invariant Valid() && |header| <= k && num_bits == 8 * (k - |header|)
        invariant old(Rest()) == LE(header) + Shl(Rest(), 8 * |header|)
        invariant Taken() == old(Taken()) + 8 * |header|
      {
        ghost var r := Rest();
        var b := LowByte();
        Drop(8);
        PushByte(header, r, b, Rest());
        header := header + [b];
      }
    }

    method LowByte() returns (b: byte)
      requires Valid() && num_bits >= 8
      ensures b == Low(Rest(), 8)
    {
      JoinMore(code_buffer, LE(input[pos..]), num_bits, 8);
      Split(code_buffer, 8);
      Pow2Values();
      b := Low(code_buffer, 8);
    }

    /** The four header bytes of a stored block: first those in the reservoir, then unread
        ones. The check for a negative bit count never fires. */
    method ReadFourBytes() returns (header: seq<byte>)
      requires Valid() && num_bits % 8 == 0 && num_bits <= 24
      modifies `pos, `pad, `num_bits, `code_buffer
      ensures Valid() && num_bits == 0 && |header| == 4
      ensures LE(header) == Low(old(Rest()), 32) && Rest() == Shr(old(Rest()), 32)
      ensures Taken() == old(Taken()) + 32
    {
      hide LE, Shl, Low, Shr, Pow2;
      header := DrainBytes();
      if num_bits < 0 {
        assert false;
      }
      while |header| < 4
        invariant Valid() && num_bits == 0 && |header| <= 4
        invariant old(Rest()) == LE(header) + Shl(Rest(), 8 * |header|)
        invariant Taken() == old(Taken()) + 8 * |header|
      {
        ghost var r := Rest();
        var b := NextByte();
        PushByte(header, r, b, Rest());
        header := header + [b];
      }
      LEBound(header);
      Join(LE(header), Rest(), 32);
    }

    /** `stbi__zget8` with the reservoir empty. */
    method NextByte() returns (b: byte)
      requires Valid() && num_bits == 0
      modifies `pos, `pad
      ensures Valid() && num_bits == 0
      ensures b == Low(old(Rest()), 8) && Rest() == Shr(old(Rest()), 8)
      ensures Taken() == old(Taken()) + 8
    {
      assert code_buffer == 0;
      b := Get8();
      Pow2Values();
      Shl8(LE(input[pos..]));
      Join(b, LE(input[pos..]), 8);
    }

    /** Bytes taken straight from the input, with the reservoir empty. */
    method TakeBytes(len: nat)
      requires Valid() && num_bits == 0 && pos + len <= |input|
      modifies `pos
      ensures Valid() && pos == old(pos) + len && num_bits == 0
      ensures old(Rest()) == LE(input[old(pos)..pos]) + Shl(Rest(), 8 * len)
      ensures Taken() == old(Taken()) + 8 * len
    {
      assert input[pos..] == input[pos..pos + len] + input[pos + len..];
      LEConcat(input[pos..pos + len], input[pos + len..]);
      assert code_buffer == 0;
      pos := pos + len;
    }

    /** `stbi__zhuffman_decode`: the symbol whose code comes next, or -1. It fails only if
        no code of the table comes next or bits past the input have been consumed. */
    method Decode(z: ZHuffman, ghost lens: Lengths) returns (sym: int)
      requires Valid() && z.Holds(lens)
      modifies `pos, `pad, `num_bits, `code_buffer, `hit_zeof_once
      ensures Valid()
      ensures sym >= 0 ==> Matches(lens, sym, old(Rest()))
      ensures sym >= 0 ==> Rest() == Shr(old(Rest()), lens[sym]) && Taken() == old(Taken()) + lens[sym]
      ensures sym < 0 ==> sym == -1 &&
                          (old(Left()) < 0 || forall i: nat | Used(lens, i) :: !Matches(lens, i, old(Rest())))
    {
      var more := Refill();
      if !more { return -1; }
      FastBits();
      var b := z.fast[Low(code_buffer, FAST_BITS)];
      FastEntryMeaning(lens, |lens|, Low(code_buffer, FAST_BITS));
      if b != 0 {
        sym := b % FAST_SIZE;
        FastBitsSuffice(lens, sym, Rest());
        Drop(b / FAST_SIZE);
      } else {
        forall i: nat | Used(lens, i) && lens[i] <= FAST_BITS ensures !Matches(lens, i, Rest()) {
          FastBitsSuffice(lens, i, Rest());
        }
        sym := DecodeSlowPath(z, lens);
      }
    }

    /** At least 16 bits into the reservoir; at the end of the input this is done once, with
        implicit zero bits. To need them a second time, some must have been consumed. */
    method Refill() returns (ok: bool)
      requires Valid()
      modifies `pos, `pad, `num_bits, `code_buffer, `hit_zeof_once
      ensures Valid() && Rest() == old(Rest()) && Taken() == old(Taken())
      ensures ok ==> num_bits >= 16
      ensures !ok ==> old(Left()) < 0
    {
      if num_bits < 16 {
        if AtEnd() {
          if !hit_zeof_once {
            Pad16();
            hit_zeof_once := true;
          } else {
            return false;
          }
        } else {
          FillBits();
        }
      }
      ok := true;
    }

    /** Sixteen implicit zero bits. */
    method Pad16()
      requires Valid() && AtEnd() && num_bits < 16
      modifies `pad, `num_bits
      ensures Valid() && num_bits == old(num_bits) + 16 && pad >= 2
      ensures Rest() == old(Rest()) && Taken() == old(Taken())
    {
      assert input[pos..] == [];
      ShlZero(num_bits);
      ShlZero(num_bits + 16);
      Pow2Mono(num_bits, num_bits + 16);
      pad := pad + 2;
      num_bits := num_bits + 16;
    }

    lemma FastBits()
      requires Valid() && num_bits >= 16
      ensures Low(code_buffer, FAST_BITS) == Low(Rest(), FAST_BITS) < FAST_SIZE
      ensures Rev(code_buffer, 16) == Rev(Rest(), 16)
    {
      hide Shl, Low, Rev, LE;
      JoinMore(code_buffer, LE(input[pos..]), num_bits, FAST_BITS);
      JoinMore(code_buffer, LE(input[pos..]), num_bits, 16);
      Split(code_buffer, FAST_BITS);
      Pow2Values();
      RevLow(code_buffer, 16);
      RevLow(Rest(), 16);
    }

    /** `stbi__zhuffman_decode_slowpath`: search the limits for the code length. The two
        checks on the symbol found never fail. */
    method DecodeSlowPath(z: ZHuffman, ghost lens: Lengths) returns (sym: int)
      requires Valid() && z.Holds(lens) && num_bits >= 16
      requires forall i: nat | Used(lens, i) && lens[i] <= FAST_BITS :: !Matches(lens, i, Rest())
      modifies `num_bits, `code_buffer
      ensures Valid()
      ensures sym >= 0 ==> Matches(lens, sym, old(Rest()))
      ensures sym >= 0 ==> Rest() == Shr(old(Rest()), lens[sym]) && Taken() == old(Taken()) + lens[sym]
      ensures sym < 0 ==> sym == -1 && forall i: nat | Used(lens, i) :: !Matches(lens, i, old(Rest()))
    {
      hide Shr, Shl, Rev, Limit, Matches, Rank, Pow2;
      var k := BitReverse(code_buffer, 16);
      BitReverseIsRev(code_buffer, 16);
      FastBits();
      PastFastLimit(lens, Rest());
      RevBound(Rest(), 16);
      Pow2Values();
      var s := FAST_BITS + 1;
      while k >= z.maxcode[s]
        invariant FAST_BITS < s <= 16
        invariant Limit(CountsOf(lens), s - 1) <= k
        decreases 16 - s
      {
        assert s < 16 ==> z.LimitsAt(CountsOf(lens), s);
        s := s + 1;
      }
      if s >= 16 {
        forall i: nat | Used(lens, i) ensures !Matches(lens, i, Rest()) {
          NoShortMatch(lens, Rest(), 15, i);
        }
        return -1;
      }
      assert z.LimitsAt(CountsOf(lens), s);
      ghost var i := WordToSymbol(lens, Rest(), s);
      RankBound(lens, i);
      var b := Shr(k, 16 - s) - z.firstcode[s] + z.firstsymbol[s];
      assert b == Rank(lens, i);
      if b >= NSYMS {
        assert false;
      }
      if z.size[b] != s {
        assert false;
      }
      Drop(s);
      sym := z.value[b];
    }
  }

  /** With no fast match, the word is past the limit of the 9-bit codes. */
  lemma PastFastLimit(lens: Lengths, v: nat)
    requires forall i: nat | Used(lens, i) && lens[i] <= FAST_BITS :: !Matches(lens, i, v)
    ensures Limit(CountsOf(lens), FAST_BITS) <= Rev(v, 16)
  {
    var c, k := CountsOf(lens), Rev(v, 16);
    if k < Limit(c, FAST_BITS) {
      var s := FAST_BITS;
      while k < Limit(c, s - 1)
        invariant 1 <= s <= FAST_BITS && k < Limit(c, s)
        decreases s
      {
        s := s - 1;
      }
      var i := WordToSymbol(lens, v, s);
      assert false;
    }
  }
}
