/** The bit writer of `stbi_zlib_compress`: `out`, `bitbuf` and `bitcount`, with the macros
    that add codes to them. */
module ZWriter {
  import opened BitMath
  import opened BitReversal
  import opened ZCodes
  import opened Deflate
  import opened DeflateStream
  import opened FixedCode

  class BitWriter {
    var out: seq<byte>
    var bitbuf: nat
    var bitcount: nat
    /** The fields written after the two header bytes. */
    ghost var fields: seq<Field>

    constructor (header: seq<byte>)
      requires |header| == 2
      ensures Valid() && out == header && bitcount == 0 && fields == []
    {
      out, bitbuf, bitcount, fields := header, 0, 0, [];
    }

    /** The bytes and the pending bits are the fields written so far. */
    ghost predicate Valid()
      reads this
    {
      && 2 <= |out|
      && bitcount < 8
      && bitbuf < Pow2(bitcount)
      && FieldsFit(fields)
      && 8 * |out[2..]| + bitcount == BitsOf(fields)
      && LE(out[2..]) + Shl(bitbuf, 8 * |out[2..]|) == ValueOf(fields)
    }

    /** `stbiw__zlib_add`: the low bits of bitbuf are free above bitcount, so that the
        bitwise or is a sum. */
    method Add(code: nat, codebits: nat)
      requires Valid() && code < Pow2(codebits) && codebits <= 24
      modifies this
      ensures Valid() && fields == old(fields) + [Field(code, codebits)]
      ensures out[..2] == old(out)[..2]
    {
      hide LE, ValueOf, Shl, Pow2, BitsOf, FieldsFit;
      ghost var f := Field(code, codebits);
      FieldAppended(fields, f, out[2..], bitbuf, bitcount);
      fields := fields + [f];
      bitbuf := bitbuf + Shl(code, bitcount);
      bitcount := bitcount + codebits;
      Flush();
    }

    /** `stbiw__zlib_flushf`. */
    method Flush()
      requires 2 <= |out| && bitcount <= 32 && bitbuf < Pow2(bitcount)
      requires FieldsFit(fields) && 8 * |out[2..]| + bitcount == BitsOf(fields)
      requires LE(out[2..]) + Shl(bitbuf, 8 * |out[2..]|) == ValueOf(fields)
      modifies `out, `bitbuf, `bitcount
      ensures Valid() && out[..2] == old(out)[..2]
    {
      hide Shl, Low, Shr, LE, BitsOf, ValueOf, FieldsFit, Pow2;
      while bitcount >= 8
        invariant 2 <= |out| && bitbuf < Pow2(bitcount) && out[..2] == old(out)[..2]
        invariant 8 * |out[2..]| + bitcount == BitsOf(fields)
        invariant LE(out[2..]) + Shl(bitbuf, 8 * |out[2..]|) == ValueOf(fields)
      {
        Split(bitbuf, 8);
        Pow2Values();
        var b: byte := Low(bitbuf, 8);
        PushByte(out[2..], bitbuf, b, Shr(bitbuf, 8));
        JoinMore(bitbuf, 0, bitcount, 8);
        assert (out + [b])[2..] == out[2..] + [b];
        out := out + [b];
        bitbuf := Shr(bitbuf, 8);
        bitcount := bitcount - 8;
      }
    }

    static lemma FieldAppended(fs: seq<Field>, f: Field, s: seq<byte>, bitbuf: nat, bitcount: nat)
      requires FieldsFit(fs) && f.v < Pow2(f.n) && bitbuf < Pow2(bitcount)
      requires 8 * |s| + bitcount == BitsOf(fs) && LE(s) + Shl(bitbuf, 8 * |s|) == ValueOf(fs)
      ensures FieldsFit(fs + [f]) && BitsOf(fs + [f]) == BitsOf(fs) + f.n
      ensures LE(s) + Shl(bitbuf + Shl(f.v, bitcount), 8 * |s|) == ValueOf(fs + [f])
      ensures bitbuf + Shl(f.v, bitcount) < Pow2(bitcount + f.n)
    {
      hide Shl, LE, ValueOf;
      OneField(0, f);
      BitsConcat(fs, [f]);
      ValueConcat(fs, [f]);
      ShlAdd(bitbuf, Shl(f.v, bitcount), 8 * |s|);
      ShlShl(f.v, bitcount, 8 * |s|);
      ShlMono(f.v, Pow2(f.n), bitcount);
      ShlShl(1, f.n, bitcount);
    }

    /** A field of no bits is written by doing nothing. */
    ghost method AddEmpty()
      requires Valid()
      modifies `fields
      ensures Valid() && fields == old(fields) + [Field(0, 0)]
    {
      FieldAppended(fields, Field(0, 0), out[2..], bitbuf, bitcount);
      ShlZero(bitcount);
      fields := fields + [Field(0, 0)];
    }

    /** Extra bits, if the symbol has any. */
    method AddExtra(x: nat, n: nat)
      requires Valid() && x < Pow2(n) && n <= 13
      modifies this
      ensures Valid() && fields == old(fields) + [Field(x, n)]
      ensures out[..2] == old(out)[..2]
    {
      if n != 0 {
        Add(x, n);
      } else {
        AddEmpty();
      }
    }

    /** `stbiw__zlib_huffa`: codes are packed most significant bit first. */
    method AddCode(code: nat, codebits: nat)
      requires Valid() && codebits <= 16
      modifies this
      ensures Valid() && fields == old(fields) + [Field(Rev(code, codebits), codebits)]
      ensures out[..2] == old(out)[..2]
    {
      var r := BitRev(code, codebits);
      RevBound(code, codebits);
      Add(r, codebits);
    }

    /** `stbiw__zlib_huff`: the literal/length symbol n in the fixed code. */
    method AddSymbol(n: nat)
      requires Valid() && n < 288
      modifies this
      ensures Valid() && Used(FixedCodes().ll, n) && fields == old(fields) + [Symbol(FixedCodes().ll, n)]
      ensures out[..2] == old(out)[..2]
    {
      hide Rev, BitsOf, ValueOf, LE, Shl, FieldsFit, Pow2;
      hide FixedCodes, Code;
      LengthCode(n);
      var code, codebits;
      if n <= 143 {
        code, codebits := 0x30 + n, 8;
      } else if n <= 255 {
        code, codebits := 0x190 + n - 144, 9;
      } else if n <= 279 {
        code, codebits := 0 + n - 256, 7;
      } else {
        code, codebits := 0xC0 + n - 280, 8;
      }
      AddCode(code, codebits);
    }

    /** The distance symbol n: five bits, most significant first. */
    method AddDistance(n: nat)
      requires Valid() && n < 30
      modifies this
      ensures Valid() && Used(FixedCodes().dl, n) && fields == old(fields) + [Symbol(FixedCodes().dl, n)]
      ensures out[..2] == old(out)[..2]
    {
      hide FixedCodes, Code;
      DistanceCode(n);
      AddCode(n, 5);
    }

    /** Zero bits up to a byte boundary. */
    method PadToByte() returns (ghost zeros: seq<Field>)
      requires Valid()
      modifies this
      ensures Valid() && fields == old(fields) + zeros
      ensures 8 * |out[2..]| == BitsOf(fields) && LE(out[2..]) == ValueOf(fields)
      ensures out[..2] == old(out)[..2]
    {
      hide BitsOf, ValueOf, LE, Shl, FieldsFit, Pow2;
      zeros := [];
      while bitcount != 0
        invariant Valid() && fields == old(fields) + zeros && out[..2] == old(out)[..2]
        decreases (8 - bitcount) % 8
      {
        AddZero();
        zeros := zeros + [Field(0, 1)];
      }
      Aligned();
    }

    /** At a byte boundary the bytes hold every field. */
    lemma Aligned()
      requires Valid() && bitcount == 0
      ensures 8 * |out[2..]| == BitsOf(fields) && LE(out[2..]) == ValueOf(fields)
    {
      ShlZero(8 * |out[2..]|);
    }

    method AddZero()
      requires Valid() && bitcount != 0
      modifies this
      ensures Valid() && fields == old(fields) + [Field(0, 1)] && out[..2] == old(out)[..2]
      ensures bitcount == (old(bitcount) + 1) % 8
    {
      hide LE, ValueOf, Shl;
      Pow2Values();
      ghost var n := BitsOf(fields);
      BitsConcat(fields, [Field(0, 1)]);
      OneField(0, Field(0, 1));
      ghost var k := |out[2..]|;
      Add(0, 1);
      assert 8 * |out[2..]| + bitcount == 8 * k + old(bitcount) + 1;
    }
  }
}
