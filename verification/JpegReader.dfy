/** `stbi__jpeg`, entropy-coded segments: a 32-bit buffer filled from byte-stuffed data
    (ITU-T T.81 sections B.1.1.5 and F.2.2.5). As in the inflater the bits still to be read
    are one number, `Rest()`, first bit lowest; a byte is read from its top bit down. */
module JpegReader {
  import opened BitMath
  import opened Canonical
  import opened JpegHuffman
  import opened JpegLookup

  // ---- byte stuffing ------------------------------------------------------------------

  function SkipFill(s: seq<byte>): (t: seq<byte>)
    ensures |t| <= |s|
  {
    if |s| > 0 && s[0] == 0xFF then SkipFill(s[1..]) else s
  }

  /** The data bytes of an entropy-coded segment: FF 00 stands for FF, fill bytes FF are
      skipped, and a marker ends it. */
  function Data(s: seq<byte>): seq<byte>
    decreases |s|
  {
    if s == [] then []
    else if s[0] != 0xFF then [s[0]] + Data(s[1..])
    else
      var t := SkipFill(s[1..]);
      if t == [] then [0xFF] else if t[0] == 0 then [0xFF] + Data(t[1..]) else []
  }

  /** The bits of a byte string, each byte from its top bit down. */
  function Msb(d: seq<byte>): nat
  {
    if |d| == 0 then 0 else Rev(d[0], 8) + 256 * Msb(d[1..])
  }

  // ---- the buffer, most significant bit first -----------------------------------------

  /** Reversing n bits in a wider word leaves them at its top. */
  lemma RevWiden(w: nat, n: nat, m: nat)
    requires w < Pow2(n)
    ensures Rev(w, n + m) == Shl(Rev(w, n), m)
  {
    RevSplit(w, n, m);
    LowFits(w, n);
    RevZero(m);
  }

  lemma RevTwice(w: nat, n: nat)
    requires w < Pow2(n)
    ensures Rev(Rev(w, n), n) == w
  {
    RevRev(w, n);
    LowFits(w, n);
  }

  lemma PowerSum(m: nat, n: nat)
    ensures Shl(Pow2(m), n) == Pow2(m + n)
  {
    ShlShl(1, m, n);
  }

  const WORD := 0x1_0000_0000

  /** The 32-bit buffer taken from its other end, so that the first bit is lowest. */
  function Flip(x: nat): nat
  {
    Rev(x, 32)
  }

  lemma WordSize() returns (size: nat)
    ensures size == 32 && Pow2(size) == WORD
  {
    Pow2Values();
    size := 32;
  }

  lemma ByteSize() returns (size: nat)
    ensures size == 8 && Pow2(size) == 256
  {
    size := 8;
  }

  lemma FlipRev(x: nat, size: nat)
    requires size == 32
    ensures Flip(x) == Rev(x, size)
  {
  }

  lemma FlipFlip(x: nat)
    requires x < WORD
    ensures Flip(Flip(x)) == x && Flip(x) < WORD
  {
    hide *;
    var size := WordSize();
    FlipRev(x, size);
    FlipRev(Flip(x), size);
    RevTwice(x, size);
    RevBound(x, size);
  }

  /** k bits of v put after the n bits of w, in a buffer of `size` bits read from its top. */
  lemma AppendBits(w: nat, n: nat, v: nat, k: nat, m: nat, size: nat)
    requires w < Pow2(n) && v < Pow2(k) && n + k + m == size
    ensures var x := w + Shl(Rev(v, k), n);
            x < Pow2(n + k) && Rev(x, size) == Rev(w, size) + Shl(v, m)
  {
    hide *;
    var r := Rev(v, k);
    RevBound(v, k);
    RevTwice(v, k);
    var x := w + Shl(r, n);
    ShlMono(r, Pow2(k), n);
    PowerSum(k, n);
    RevSplit(x, n, m + k);
    Join(w, r, n);
    RevLow(x, n);
    RevWiden(r, k, m);
    RevWiden(w, n, m + k);
  }

  /** Shifting the buffer up drops the first s bits. */
  lemma DropBits(x: nat, s: nat, size: nat)
    requires x < Pow2(size) && s <= size
    ensures Rev(Shr(x, s), size) == Low(Shl(Rev(x, size), s), size)
  {
    hide *;
    var y, m := Shr(x, s), size - s;
    var a, b := Rev(x, s), Rev(y, m);
    RevSplit(x, s, m);
    ShlAdd(Shl(a, m), b, s);
    ShlShl(a, m, s);
    RevBound(y, m);
    ShlMono(b, Pow2(m), s);
    PowerSum(m, s);
    Join(Shl(b, s), a, size);
    ShrLess(x, Pow2(m), s);
    RevWiden(y, m, s);
  }

  /** `code_buffer |= b << (24 - n)`: byte b follows n bits. */
  lemma BufferAppend(w: nat, b: byte, n: nat, m: nat)
    requires w < Pow2(n) && n + m == 24
    ensures var x := w + Shl(Rev(b, 8), n);
            x < Pow2(n + 8) && Flip(x) == Flip(w) + Shl(b, m)
  {
    hide *;
    var eight := ByteSize();
    var size := WordSize();
    FlipRev(w + Shl(Rev(b, eight), n), size);
    FlipRev(w, size);
    AppendBits(w, n, b, eight, m, size);
  }

  /** `code_buffer <<= s` drops the first s bits. */
  lemma BufferDrop(x: nat, s: nat)
    requires x < WORD && s <= 32
    ensures Flip(Shr(x, s)) == Low(Shl(Flip(x), s), 32)
  {
    hide *;
    var size := WordSize();
    FlipRev(x, size);
    FlipRev(Shr(x, s), size);
    DropBits(x, s, size);
  }

  /** The top k bits of the buffer are the first k bits of the stream, if k bits are there
      or nothing follows. */
  lemma BufferPeek(x: nat, rest: nat, n: nat, k: nat, drop: nat)
    requires x < Pow2(n) && k + drop == 32 && (k <= n || rest == 0)
    ensures Shr(Flip(x), drop) == Rev(x + Shl(rest, n), k)
  {
    hide *;
    var size := WordSize();
    FlipRev(x, size);
    RevTop(x, k, size);
    if k <= n {
      JoinMore(x, rest, n, k);
      RevLow(x, k);
      RevLow(x + Shl(rest, n), k);
    } else {
      ShlZero(n);
    }
  }

  class JpegStream {
    var input: seq<byte>
    var code_buffer: nat
    var code_bits: int
    var marker: byte
    var nomore: bool

    constructor (input: seq<byte>)
      ensures Valid() && Rest() == Msb(Data(input)) && Left() == 8 * |Data(input)|
    {
      this.input := input;
      code_buffer, code_bits, marker, nomore := 0, 0, 0xFF, false;
      new;
      var size := WordSize();
      FlipRev(0, size);
      hide Flip, Rev;
      RevZero(size);
    }

    /** The data bytes not yet in the buffer. */
    ghost function Ahead(): seq<byte>
      reads this
    {
      if nomore then [] else Data(input)
    }

    ghost predicate Valid()
      reads this
    {
      0 <= code_bits <= 32 && code_buffer < WORD && Flip(code_buffer) < Pow2(code_bits)
    }

    ghost function Rest(): nat
      reads this
      requires Valid()
    {
      Flip(code_buffer) + Shl(Msb(Ahead()), code_bits)
    }

    /** How many bits there are at least before the marker. */
    ghost function Left(): nat
      reads this
      requires Valid()
    {
      code_bits + 8 * |Ahead()|
    }

    method Get8() returns (b: byte)
      modifies `input
      ensures if old(input) == [] then b == 0 && input == [] else b == old(input)[0] && input == old(input)[1..]
    {
      if input == [] {
        b := 0;
      } else {
        b := input[0];
        input := input[1..];
      }
    }

    /** The next data byte, unless a marker comes. Past the marker and past the end of the
        input there are zeros. */
    method NextByte() returns (b: byte, found: bool)
      modifies `input, `marker, `nomore
      ensures found ==> nomore == old(nomore)
      ensures found ==> if old(Ahead()) == [] then b == 0 && Ahead() == []
                        else b == old(Ahead())[0] && Ahead() == old(Ahead())[1..]
      ensures !found ==> old(Ahead()) == [] && Ahead() == [] && nomore && !old(nomore)
    {
      found := true;
      if nomore {
        b := 0;
      } else {
        b := Get8();
        if b == 0xFF {
          ghost var t := input;
          var c := Get8();
          while c == 0xFF
            invariant !nomore
            invariant c == 0xFF ==> SkipFill(t) == SkipFill(input)
            invariant c != 0xFF ==> SkipFill(t) == [c] + input || (SkipFill(t) == [] && c == 0 && input == [])
            decreases |input|, c
          {
            c := Get8();
          }
          assert ([c] + input)[1..] == input;
          if c != 0 {
            marker, nomore, found := c, true, false;
          }
        }
      }
    }

    /** `stbi__grow_buffer_unsafe`: at least 25 bits, or all there are before the marker. */
    method Grow()
      requires Valid() && code_bits <= 24
      modifies this
      ensures Valid() && Rest() == old(Rest()) && Left() >= old(Left())
      ensures code_bits > 24 || Ahead() == []
    {
      hide Flip, Shl, Msb, Data, Pow2;
      var more := true;
      while more
        invariant Valid() && Rest() == old(Rest()) && Left() >= old(Left())
        invariant if more then code_bits <= 24 else code_bits > 24 || Ahead() == []
        decreases more, 32 - code_bits
      {
        ghost var d, w := Ahead(), Flip(code_buffer);
        var b, found := NextByte();
        if found {
          AppendByte(code_buffer, w, code_bits, b, d, Ahead());
          code_buffer := code_buffer + Shl(b, 24 - code_bits);
          code_bits := code_bits + 8;
          more := code_bits <= 24;
        } else {
          more := false;
        }
      }
    }

    /** The first k bits of the stream, as the decoder sees them after growing. */
    lemma Peek(k: nat, drop: nat)
      requires Valid() && k + drop == 32 && (k <= code_bits || Ahead() == [])
      ensures Shr(code_buffer, drop) == Rev(Rest(), k)
    {
      hide Flip, Rev, Shr, Shl, Pow2, Data;
      FlipFlip(code_buffer);
      assert Ahead() == [] ==> Msb(Ahead()) == 0;
      BufferPeek(Flip(code_buffer), Msb(Ahead()), code_bits, k, drop);
    }

    /** `code_buffer <<= n; code_bits -= n`. */
    method Drop(n: nat)
      requires Valid() && n <= code_bits
      modifies `code_buffer, `code_bits
      ensures Valid() && code_bits == old(code_bits) - n
      ensures Rest() == Shr(old(Rest()), n) && Left() == old(Left()) - n
    {
      hide Flip, Shr, Low, Shl, Msb, Data, Pow2;
      BitsDropped(code_buffer, code_bits, Msb(Ahead()), n);
      code_buffer := Low(Shl(code_buffer, n), 32);
      code_bits := code_bits - n;
    }

    /** `stbi__jpeg_huff_decode`, for every table that was accepted: what the tables lead to
        is returned, if its bits are there; that is the symbol whose code the stream starts
        with, complete before the marker, unless the fast table misses it. */
    method HuffDecode(h: Huffman, ghost c: Counts) returns (r: int, ghost k: nat, ghost n: nat)
      requires Valid() && h.Holds(c)
      modifies this
      ensures r < 256 && Looked(Lookup(c, old(Rest())), h.values[..], old(Left()), r, k, n)
      ensures r >= 0 ==> Valid() && Rest() == Shr(old(Rest()), n) && Left() + n >= old(Left())
      ensures !Missed(c, old(Rest())) ==> Decoded(c, h.values[..], old(Rest()), old(Left()), r, k, n)
    {
      hide Starts, Fits, Limit, Shl, Shr, Rev, Msb, Data, Flip, Decoded, FastEntry, SizeOf, Lookup, SlowLookup, Missed,
        Pow2;
      ghost var v, left := Rest(), Left();
      if code_bits < 16 {
        Grow();
      }
      Peek(9, 23);
      LookupCases(c, v);
      RevBound(v, 9);
      Pow2Values();
      var e := h.fast[Shr(code_buffer, 23)];
      if e < 255 {
        r, k, n := TakeFast(h, c, e, v, left);
      } else {
        r, k, n := SlowDecode(h, c, v, left);
      }
      LookedDecoded(c, h.values[..], v, left, r, k, n);
    }

    /** `stbi__extend_receive`: n magnitude bits, if they come before the marker. */
    method ExtendReceive(n: nat) returns (r: int)
      requires Valid() && 1 <= n <= 15
      modifies this
      ensures Valid()
      ensures || (r == Extend(Rev(old(Rest()), n), n) && Rest() == Shr(old(Rest()), n) && Left() + n >= old(Left()))
              || (n > old(Left()) && r == 0 && Rest() == old(Rest()) && Left() >= old(Left()))
    {
      if code_bits < n {
        Grow();
      }
      if code_bits < n {
        return 0;
      }
      Peek(1, 31);
      Peek(n, 32 - n);
      ghost var v := Rest();
      FirstBit(v, n);
      hide Shl, Shr, Msb, Data, Flip, Rev, Pow2;
      var sgn := Shr(code_buffer, 31);
      var k := Shr(code_buffer, 32 - n);
      Drop(n);
      r := k + if sgn == 0 then 1 - Pow2(n) else 0;
    }

    method TakeFast(h: Huffman, ghost c: Counts, e: nat, ghost v: nat, ghost left: nat)
      returns (r: int, ghost k: nat, ghost n: nat)
      requires Valid() && h.Holds(c) && v == Rest() && left <= Left() && (code_bits >= 16 || Ahead() == [])
      requires e < Total(c)
      modifies `code_buffer, `code_bits
      ensures Looked(Symbol(e, SizeOf(c, e)), h.values[..], left, r, k, n)
      ensures r >= 0 ==> Valid() && Rest() == Shr(v, n) && Left() + n >= left
    {
      hide Shl, Shr, Msb, Data, Flip;
      k, n := e, h.size[e];
      if h.size[e] > code_bits {
        r := -1;
      } else {
        Drop(h.size[e]);
        r := h.values[e];
      }
    }

    /** The search through the limits, for codes of more than 9 bits. */
    method SlowDecode(h: Huffman, ghost c: Counts, ghost v: nat, ghost left: nat)
      returns (r: int, ghost k: nat, ghost n: nat)
      requires Valid() && h.Holds(c) && v == Rest() && left <= Left() && (code_bits >= 16 || Ahead() == [])
      requires Lookup(c, v) == SlowLookup(c, Rev(v, 16))
      modifies `code_buffer, `code_bits
      ensures Looked(Lookup(c, v), h.values[..], left, r, k, n)
      ensures r >= 0 ==> Valid() && Rest() == Shr(v, n) && Left() + n >= left
    {
      hide Shl, Shr, Msb, Data, Flip, Rev, Starts, Fits, Lookup, Limit, Total;
      Peek(16, 16);
      HalfWord(v);
      LookupInTable(c, v);
      var s := FindLength(h, c, Shr(code_buffer, 16));
      k, n, r := 0, s, -1;
      if s == 17 {
        code_bits := code_bits - 16;
      } else {
        k := Lookup(c, v).k;
        r := TakeSlow(h, c, s, v, left, k);
      }
    }

    /** A code of s bits was found. The check of the symbol's index never fires; the assertion
        on its code holds when the symbol is the one the stream starts with. */
    method TakeSlow(h: Huffman, ghost c: Counts, s: nat, ghost v: nat, ghost left: nat, ghost k: nat) returns (r: int)
      requires Valid() && h.Holds(c) && v == Rest() && left <= Left() && (code_bits >= 16 || Ahead() == [])
      requires FAST_BITS < s <= 16 && k < Total(c) && Lookup(c, v) == Symbol(k, s)
      requires k == Shr(Rev(v, 16), 16 - s) + Shorter(c, s) - FirstCode(c, s)
      modifies `code_buffer, `code_bits
      ensures r == h.values[k] || (r == -1 && s > left)
      ensures r >= 0 ==> Valid() && Rest() == Shr(v, s) && Left() + s >= left
    {
      hide Shl, Shr, Msb, Data, Flip, Rev, Low, Limit, Fits, Lookup, Missed, SizeOf, CodeOf, FastEntry, FirstCode,
        Shorter;
      if s > code_bits {
        r := -1;
      } else {
        Peek(s, 32 - s);
        FirstBits(v, s);
        assert h.LimitsAt(c, s);
        if !Missed(c, v) { AsCoded(c, v, k, s); }
        var i := Low(Shr(code_buffer, 32 - s), s) + h.delta[s];
        if i < 0 || i >= 256 {
          assert false;
        }
        assert !Missed(c, v) ==> Low(Shr(code_buffer, 32 - h.size[i]), h.size[i]) == h.code[i];
        Drop(s);
        r := h.values[i];
      }
    }
  }

  lemma HalfWord(v: nat)
    ensures Rev(v, 16) < 65536
  {
    Pow2Values();
    RevBound(v, 16);
  }

  lemma FirstBits(v: nat, s: nat)
    requires s <= 16
    ensures Shr(Rev(v, 16), 16 - s) == Rev(v, s) == Low(Rev(v, s), s)
  {
    RevTop(v, s, 16);
    RevBound(v, s);
    LowFits(Rev(v, s), s);
  }

  /** A symbol that is found where it is has the length and the code found. */
  lemma AsCoded(c: Counts, v: nat, k: nat, s: nat)
    requires Total(c) <= 256 && !Missed(c, v) && Lookup(c, v) == Symbol(k, s)
    ensures HasCode(c, k, s) && k < Total(c) && SizeOf(c, k) == s && Rev(v, s) == CodeOf(c, k, s)
  {
    LookupRight(c, v);
    SizeUnique(c, k, s);
  }

  lemma LookupCases(c: Counts, v: nat)
    requires Total(c) <= 256
    ensures var e := FastEntry(c, Total(c), Rev(v, FAST_BITS));
            if e < 255 then e < Total(c) && Lookup(c, v) == Symbol(e, SizeOf(c, e))
            else Lookup(c, v) == SlowLookup(c, Rev(v, 16))
  {
    EntryHits(c, Total(c), Rev(v, FAST_BITS));
  }

  /** The sign of a magnitude is its first bit. */
  lemma FirstBit(v: nat, n: nat)
    requires n > 0
    ensures Rev(v, 1) < 2 && (Rev(v, 1) == 0 <==> Rev(v, n) < Pow2(n - 1))
  {
    RevSplit(v, 1, n - 1);
    RevBound(v, 1);
    RevBound(Shr(v, 1), n - 1);
    ShlZero(n - 1);
    assert Rev(v, 1) == v % 2;
  }

  /** What decoding one symbol from stream v, of which `left` bits are sure to be there, may
      return: the symbol whose code v starts with, or an error if there is none. */
  ghost predicate Decoded(c: Counts, values: seq<byte>, v: nat, left: nat, r: int, k: nat, n: nat)
  {
    if r >= 0 then Starts(c, k, n, v) && k < |values| && r == values[k]
    else forall j: nat, m: nat | m <= left :: !Starts(c, j, m, v)
  }

  /** What decoding one symbol does when the tables lead to f: it returns that symbol, or an
      error if there is none or its bits may not be there. */
  ghost predicate Looked(f: Found, values: seq<byte>, left: nat, r: int, k: nat, n: nat)
  {
    if r >= 0 then f == Symbol(k, n) && k < |values| && r == values[k]
    else r == -1 && (f == Nothing || (f.Symbol? && f.n > left))
  }

  /** On a stream that is not missed, that is decoding. */
  lemma LookedDecoded(c: Counts, values: seq<byte>, v: nat, left: nat, r: int, k: nat, n: nat)
    requires Total(c) <= 256 && Looked(Lookup(c, v), values, left, r, k, n)
    ensures !Missed(c, v) ==> Decoded(c, values, v, left, r, k, n)
  {
    if !Missed(c, v) {
      LookupRight(c, v);
      var f := Lookup(c, v);
      if r < 0 && f.Symbol? { TooLong(c, values, v, left, f.k, f.n); }
    }
  }

  /** On one that is, decoding fails or drops ten bits for a shorter code. */
  lemma LookedMissed(c: Counts, values: seq<byte>, v: nat, left: nat, r: int, k: nat, n: nat)
    requires Total(c) <= 256 && Fits(c) && Missed(c, v) && Looked(Lookup(c, v), values, left, r, k, n)
    ensures r == -1 || (n == 10 && exists m: nat :: m <= 9 && Starts(c, 255, m, v))
  {
    var m: nat :| Starts(c, 255, m, v);
    var i := LookupWrong(c, v, m);
  }

  lemma TooLong(c: Counts, values: seq<byte>, v: nat, left: nat, k: nat, n: nat)
    requires Starts(c, k, n, v) && n > left
    ensures Decoded(c, values, v, left, -1, k, n)
  {
    forall j: nat, m: nat | m <= left ensures !Starts(c, j, m, v) {
      if Starts(c, j, m, v) {
        StartsUnique(c, j, m, k, n, v);
        assert false;
      }
    }
  }

  /** The first limit above the word, from 10 bits on. */
  method FindLength(h: Huffman, ghost c: Counts, temp: nat) returns (s: nat)
    requires h.Holds(c) && temp < 65536
    ensures FAST_BITS < s <= 17 && s == LimitFrom(c, temp, FAST_BITS + 1)
  {
    hide Limit;
    s := FAST_BITS + 1;
    while !(temp < h.maxcode[s])
      invariant FAST_BITS < s <= 17 && LimitFrom(c, temp, s) == LimitFrom(c, temp, FAST_BITS + 1)
      decreases 17 - s
    {
      assert s <= 16 ==> h.LimitsAt(c, s);
      s := s + 1;
    }
    assert s <= 16 ==> h.LimitsAt(c, s);
  }

  /** Dropping the first n bits. */
  lemma BitsDropped(buffer: nat, bits: nat, ahead: nat, n: nat)
    requires buffer < WORD && Flip(buffer) < Pow2(bits) && n <= bits <= 32
    ensures var buffer' := Low(Shl(buffer, n), 32);
            && buffer' < WORD && Flip(buffer') < Pow2(bits - n)
            && Shr(Flip(buffer) + Shl(ahead, bits), n) == Flip(buffer') + Shl(ahead, bits - n)
  {
    hide *;
    var x := Flip(buffer);
    FlipFlip(buffer);
    BufferDrop(x, n);
    JoinMore(x, ahead, bits, n);
    var size := WordSize();
    Split(Shl(buffer, n), size);
    ShrShrink(x, n);
    FlipFlip(Shr(x, n));
  }

  lemma ShrShrink(x: nat, n: nat)
    ensures Shr(x, n) <= x
  {
  }

  /** What one byte more does to the buffer. */
  lemma AppendByte(buffer: nat, w: nat, n: nat, b: byte, d: seq<byte>, d': seq<byte>)
    requires buffer < WORD && w == Flip(buffer) && w < Pow2(n) && n <= 24
    requires if d == [] then b == 0 && d' == [] else b == d[0] && d' == d[1..]
    ensures var buffer' := buffer + Shl(b, 24 - n);
            && buffer' < WORD && Flip(buffer') < Pow2(n + 8)
            && Flip(buffer') + Shl(Msb(d'), n + 8) == w + Shl(Msb(d), n)
  {
    hide *;
    var eight := ByteSize();
    var size := WordSize();
    AppendValue(w, n, b, d, d');
    FlipFlip(buffer);
    BufferAppend(w, b, n, 24 - n);
    var x := w + Shl(Rev(b, eight), n);
    Pow2Mono(n + eight, size);
    FlipFlip(x);
  }

  lemma AppendValue(w: nat, n: nat, b: byte, d: seq<byte>, d': seq<byte>)
    requires if d == [] then b == 0 && d' == [] else b == d[0] && d' == d[1..]
    ensures w + Shl(Rev(b, 8), n) + Shl(Msb(d'), n + 8) == w + Shl(Msb(d), n)
  {
    hide *;
    var eight := ByteSize();
    MsbStep(b, d, d');
    ShlAdd(Rev(b, eight), 256 * Msb(d'), n);
    Shl8(Msb(d'));
    ShlShl(Msb(d'), eight, n);
  }

  lemma MsbStep(b: byte, d: seq<byte>, d': seq<byte>)
    requires if d == [] then b == 0 && d' == [] else b == d[0] && d' == d[1..]
    ensures Msb(d) == Rev(b, 8) + 256 * Msb(d')
  {
    RevZero(8);
  }
}
