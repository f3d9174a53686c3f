/** `Base64`: encoding with optional line breaks, and two decoders (RFC 4648 section 4).
    Text is a sequence of ASCII codes. */
module Base64 {
  import opened BitMath

  const PAD: byte := 61
  const LF: byte := 10
  const CR: byte := 13

  /** `bstr`: the alphabet, A-Z, a-z, 0-9, + and /. */
  function Letter(v: nat): (c: byte)
    requires v < 64
    ensures 43 <= c < 123 && c != PAD
  {
    if v < 26 then 65 + v else if v < 52 then 71 + v else if v < 62 then v - 4 else if v == 62 then 43 else 47
  }

  /** `rstr`: the value of a letter; zero for anything else. */
  function Value(c: byte): (v: nat)
    requires c < 128
    ensures v < 64
  {
    if 65 <= c < 91 then c - 65 else if 97 <= c < 123 then c - 71
    else if 48 <= c < 58 then c + 4 else if c == 43 then 62 else if c == 47 then 63 else 0
  }

  lemma ValueOfLetter(v: nat)
    requires v < 64
    ensures Value(Letter(v)) == v
  {
  }

  // ---- the encoding of the standard ---------------------------------------------------

  /** Up to three bytes as one 24-bit number, missing bytes zero. */
  function Word(d: seq<byte>): nat
    requires 1 <= |d| <= 3
  {
    d[0] * 65536 + (if |d| > 1 then d[1] * 256 else 0) + (if |d| > 2 then d[2] as nat else 0)
  }

  /** Four letters of six bits each, the ones without data replaced by padding. */
  function Group(d: seq<byte>): (r: seq<byte>)
    requires 1 <= |d| <= 3
    ensures |r| == 4 && forall i | 0 <= i < 4 :: r[i] < 128 && r[i] != LF && r[i] != CR
  {
    var w := Word(d);
    [Letter(w / 262144 % 64), Letter(w / 4096 % 64),
     if |d| > 1 then Letter(w / 64 % 64) else PAD,
     if |d| > 2 then Letter(w % 64) else PAD]
  }

  function First(d: seq<byte>): seq<byte>
    requires |d| > 0
    ensures 1 <= |First(d)| <= 3
  {
    if |d| <= 3 then d else d[..3]
  }

  function Break(o: nat, add_crlf: bool): seq<byte>
  {
    if add_crlf && o != 0 && o % 76 == 0 then [LF] else []
  }

  /** The text for the data, of which o letters have been written before. */
  function Encoded(d: seq<byte>, o: nat, add_crlf: bool): seq<byte>
  {
    if |d| == 0 then []
    else Break(o, add_crlf) + Group(First(d)) + Encoded(d[|First(d)|..], o + 4, add_crlf)
  }

  /** `Base64::encode`. */
  method Encode(input: seq<byte>, add_crlf: bool) returns (output: seq<byte>)
    ensures output == Encoded(input, 0, add_crlf)
  {
    var i, o: nat := 0, 0;
    output := [];
    ghost var rest := input;
    while i < |input|
      invariant 0 <= i <= |input| + 2 && rest == (if i <= |input| then input[i..] else [])
      invariant output + Encoded(rest, o, add_crlf) == Encoded(input, 0, add_crlf)
      decreases |input| - i
    {
      hide Group, Break;
      var group := EncodeGroup(input, i, |input| - i);
      TextGrows(output, Break(o, add_crlf), group, Encoded(rest[|First(rest)|..], o + 4, add_crlf));
      output := output + Break(o, add_crlf);
      output := output + group;
      rest := rest[|First(rest)|..];
      o := o + 4;
      i := i + 3;
    }
  }

  lemma TextGrows(a: seq<byte>, b: seq<byte>, c: seq<byte>, d: seq<byte>)
    ensures a + b + c + d == a + (b + c + d)
  {
  }

  /** The letters for the next up to three bytes, by shifts and masks. */
  method EncodeGroup(input: seq<byte>, i: nat, remain: nat) returns (group: seq<byte>)
    requires i < |input| && remain == |input| - i
    ensures group == Group(First(input[i..]))
  {
    hide Letter, Group, Sextet0, Sextet1, Sextet2, Sextet3;
    var a := Letter(Sextet0(input[i]));
    match remain {
      case 1 =>
        Group1(input[i]);
        group := [a, Letter(Sextet1(input[i], 0)), PAD, PAD];
        assert First(input[i..]) == [input[i]];
      case 2 =>
        Group2(input[i], input[i + 1]);
        group := [a, Letter(Sextet1(input[i], input[i + 1])), Letter(Sextet2(input[i + 1], 0)), PAD];
        assert First(input[i..]) == [input[i], input[i + 1]];
      case _ =>
        Group3(input[i], input[i + 1], input[i + 2]);
        group := [a, Letter(Sextet1(input[i], input[i + 1])), Letter(Sextet2(input[i + 1], input[i + 2])),
                  Letter(Sextet3(input[i + 2]))];
        assert First(input[i..]) == [input[i], input[i + 1], input[i + 2]];
    }
  }

  /** The encoder's shifts and masks: the top six bits of a byte, the bits of six that
      straddle two bytes, and the low six bits. A byte past the end counts as zero. */
  function Sextet0(x: byte): (v: nat)
    ensures v < 64
  {
    x / 4 % 64
  }

  function Sextet1(x: byte, y: byte): (v: nat)
    ensures v < 64
  {
    Parts(x, y, 0);
    x as int * 16 % 64 + y / 16 % 16
  }

  function Sextet2(y: byte, z: byte): (v: nat)
    ensures v < 64
  {
    Parts(0, y, z);
    y as int * 4 % 64 + z / 64 % 4
  }

  function Sextet3(z: byte): (v: nat)
    ensures v < 64
  {
    z % 64
  }

  lemma Group1(x: byte)
    ensures Group([x]) == [Letter(Sextet0(x)), Letter(Sextet1(x, 0)), PAD, PAD]
  {
    WordSextets(Word([x]), x, 0, 0);
    hide Letter, Word, Sextet0, Sextet1, Sextet2, Sextet3;
  }

  lemma Group2(x: byte, y: byte)
    ensures Group([x, y]) == [Letter(Sextet0(x)), Letter(Sextet1(x, y)), Letter(Sextet2(y, 0)), PAD]
  {
    WordSextets(Word([x, y]), x, y, 0);
    hide Letter, Word, Sextet0, Sextet1, Sextet2, Sextet3;
  }

  lemma Group3(x: byte, y: byte, z: byte)
    ensures Group([x, y, z]) ==
            [Letter(Sextet0(x)), Letter(Sextet1(x, y)), Letter(Sextet2(y, z)), Letter(Sextet3(z))]
  {
    WordSextets(Word([x, y, z]), x, y, z);
    hide Letter, Word, Sextet0, Sextet1, Sextet2, Sextet3;
  }

  lemma Peel(q: nat, r: nat)
    requires r < 64
    ensures (64 * q + r) / 64 == q && (64 * q + r) % 64 == r
  {
  }

  lemma Far(w: nat)
    ensures w / 4096 == w / 64 / 64 && w / 262144 == w / 64 / 64 / 64
  {
  }

  /** A word made of four sextets gives them back. */
  lemma Sextets(w: nat, a: nat, m: nat, n: nat, f: nat)
    requires a < 64 && m < 64 && n < 64 && f < 64 && w == 262144 * a + 4096 * m + 64 * n + f
    ensures w / 262144 % 64 == a && w / 4096 % 64 == m && w / 64 % 64 == n && w % 64 == f
  {
    Peel(4096 * a + 64 * m + n, f);
    Peel(64 * a + m, n);
    Peel(a, m);
    Far(w);
  }

  /** The parts of three bytes that make up the sextets. */
  lemma Parts(x: byte, y: byte, z: byte)
    ensures x / 4 % 64 == x / 4 && y / 16 % 16 == y / 16 && z / 64 % 4 == z / 64
    ensures x as int * 16 % 64 == 16 * (x % 4) && y as int * 4 % 64 == 4 * (y % 16)
  {
    assert x as int * 16 == 64 * (x / 4) + 16 * (x % 4);
    assert y as int * 4 == 64 * (y / 16) + 4 * (y % 16);
  }

  lemma WordSextets(w: nat, x: byte, y: byte, z: byte)
    requires w == x * 65536 + y * 256 + z
    ensures && w / 262144 % 64 == Sextet0(x) && w / 4096 % 64 == Sextet1(x, y)
            && w / 64 % 64 == Sextet2(y, z) && w % 64 == Sextet3(z)
  {
    Parts(x, y, z);
    Sextets(w, x / 4, 16 * (x % 4) + y / 16, 4 * (y % 16) + z / 64, z % 64);
  }

  /** The alphabet (section 4, table 1), both ways. */
  lemma Alphabet(v: nat)
    requires v < 64
    ensures v < 26 ==> Letter(v) == 'A' as int + v && Value('A' as int + v) == v
    ensures 26 <= v < 52 ==> Letter(v) == 'a' as int + (v - 26) && Value('a' as int + (v - 26)) == v
    ensures 52 <= v < 62 ==> Letter(v) == '0' as int + (v - 52) && Value('0' as int + (v - 52)) == v
    ensures Letter(62) == '+' as int && Letter(63) == '/' as int
    ensures Value('+' as int) == 62 && Value('/' as int) == 63
    ensures PAD == '=' as int && LF == 0x0A && CR == 0x0D
  {
  }

  /** The letters of a group: the bits of its bytes, six at a time, first ones first. */
  lemma GroupRule(x: byte, y: byte, z: byte)
    ensures Group([x, y, z]) ==
            [Letter(x / 4), Letter(x % 4 * 16 + y / 16), Letter(y % 16 * 4 + z / 64), Letter(z % 64)]
    ensures Group([x, y]) == [Letter(x / 4), Letter(x % 4 * 16 + y / 16), Letter(y % 16 * 4), 61]
    ensures Group([x]) == [Letter(x / 4), Letter(x % 4 * 16), 61, 61]
  {
    Group1(x);
    Group2(x, y);
    Group3(x, y, z);
    Parts(x, y, z);
    hide Letter, Group;
  }

  /** The text starts with the group of the first three bytes; a line break comes first if 76
      letters, or twice as many and so on, have been written. */
  lemma TextRule(d: seq<byte>, o: nat, add_crlf: bool)
    requires d != []
    ensures var n := if |d| < 3 then |d| else 3;
            Encoded(d, o, add_crlf) == (if add_crlf && o > 0 && o % 76 == 0 then [0x0A] else []) + Group(d[..n])
                                       + Encoded(d[n..], o + 4, add_crlf)
  {
    assert d[..|d|] == d;
    hide Group;
  }

  // ---- decoding -----------------------------------------------------------------------

  /** The bytes made of two neighbouring values of six bits, by shifts and masks. */
  function Byte1(u: nat, v: nat): byte
    requires u < 64 && v < 64
  {
    u * 4 + v / 16 % 4
  }

  function Byte2(u: nat, v: nat): byte
    requires u < 64 && v < 64
  {
    u * 16 % 256 / 16 * 16 + v / 4 % 16
  }

  function Byte3(u: nat, v: nat): byte
    requires u < 64 && v < 64
  {
    u * 64 % 256 / 64 * 64 + v
  }

  /** The bytes of one group of letters. */
  function Bytes(c0: byte, c1: byte, c2: byte, c3: byte): seq<byte>
    requires c0 < 128 && c1 < 128 && c2 < 128 && c3 < 128
  {
    [Byte1(Value(c0), Value(c1))]
    + (if c2 != PAD then [Byte2(Value(c1), Value(c2))] else [])
    + (if c3 != PAD then [Byte3(Value(c2), Value(c3))] else [])
  }

  /** The bytes of a group: eight bits each of the values of its letters. */
  lemma BytesRule(c0: byte, c1: byte, c2: byte, c3: byte)
    requires c0 < 128 && c1 < 128 && c2 < 128 && c3 < 128
    ensures var u0, u1, u2, u3 := Value(c0), Value(c1), Value(c2), Value(c3);
            var a, b, c := 4 * u0 + u1 / 16, u1 % 16 * 16 + u2 / 4, u2 % 4 * 64 + u3;
            Bytes(c0, c1, c2, c3) ==
            if c2 != 61 && c3 != 61 then [a, b, c] else if c2 != 61 then [a, b] else if c3 != 61 then [a, c] else [a]
  {
    hide Value;
    ByteRule(Value(c0), Value(c1), Value(c2), Value(c3));
  }

  lemma ByteRule(u0: nat, u1: nat, u2: nat, u3: nat)
    requires u0 < 64 && u1 < 64 && u2 < 64 && u3 < 64
    ensures Byte1(u0, u1) == 4 * u0 + u1 / 16 && Byte2(u1, u2) == u1 % 16 * 16 + u2 / 4
    ensures Byte3(u2, u3) == u2 % 4 * 64 + u3
  {
    Byte2Of(u1 / 16, u1 % 16, u2 / 4, u2 % 4);
    Byte3Of(u2 / 4, u2 % 4, u3);
    hide Byte2, Byte3;
  }

  predicate IsBreak(c: byte)
  {
    c == CR || c == LF
  }

  /** `input[i]` of a constant string: one past its end there is a zero. */
  function CharAt(t: seq<byte>, i: nat): byte
    requires i <= |t|
  {
    if i < |t| then t[i] else 0
  }

  /** The text from i on. */
  function From(t: seq<byte>, i: nat): seq<byte>
  {
    if i <= |t| then t[i..] else []
  }

  /** Text the decoders do not read past the end of: ASCII, in groups of four between the line
      breaks, the last of which may lack one letter. */
  predicate Readable(t: seq<byte>)
    decreases |t|
  {
    if |t| == 0 then true
    else if IsBreak(t[0]) then Readable(t[1..])
    else |t| >= 3 && t[0] < 128 && t[1] < 128 && t[2] < 128 && CharAt(t, 3) < 128 && Readable(From(t, 4))
  }

  function Decoded(t: seq<byte>): seq<byte>
    requires Readable(t)
    decreases |t|
  {
    if |t| == 0 then []
    else if IsBreak(t[0]) then Decoded(t[1..])
    else Bytes(t[0], t[1], t[2], CharAt(t, 3)) + Decoded(From(t, 4))
  }

  lemma FromFrom(t: seq<byte>, i: nat)
    requires i <= |t|
    ensures From(t[i..], 4) == From(t, i + 4)
    ensures i + 3 <= |t| ==> CharAt(t[i..], 3) == CharAt(t, i + 3)
  {
  }

  /** `Base64::decode`, into a string. */
  method Decode(input: seq<byte>) returns (output: seq<byte>)
    requires Readable(input)
    ensures output == Decoded(input)
  {
    hide Bytes, Readable, Decoded;
    var i: nat := 0;
    output := [];
    Whole(input);
    while i < |input|
      invariant Readable(From(input, i))
      invariant output + Decoded(From(input, i)) == Decoded(input)
      decreases |input| - i
    {
      i := SkipBreaks(input, i);
      if i < |input| {
        NextGroup(input, i);
        var b := DecodeGroup(input[i], input[i + 1], input[i + 2], CharAt(input, i + 3));
        TextGrows(output, [], b, Decoded(From(input, i + 4)));
        output := output + b;
        i := i + 4;
      }
    }
    Spent(input, i);
  }

  method SkipBreaks(input: seq<byte>, i0: nat) returns (i: nat)
    requires i0 <= |input| && Readable(From(input, i0))
    ensures i0 <= i <= |input| && Readable(From(input, i)) && Decoded(From(input, i)) == Decoded(From(input, i0))
    ensures i < |input| ==> !IsBreak(input[i])
  {
    i := i0;
    while i < |input| && (input[i] == 13 || input[i] == 10)
      invariant i0 <= i <= |input| && Readable(From(input, i)) && Decoded(From(input, i)) == Decoded(From(input, i0))
    {
      assert input[i..][1..] == input[i + 1..];
      i := i + 1;
    }
  }

  /** One group, by shifts and masks. */
  method DecodeGroup(c0: byte, c1: byte, c2: byte, c3: byte) returns (b: seq<byte>)
    requires c0 < 128 && c1 < 128 && c2 < 128 && c3 < 128
    ensures b == Bytes(c0, c1, c2, c3)
  {
    var b1: byte := Byte1(Value(c0), Value(c1));
    b := [b1];
    if c2 != PAD {
      var b2: byte := Byte2(Value(c1), Value(c2));
      b := b + [b2];
    }
    if c3 != PAD {
      var b3: byte := Byte3(Value(c2), Value(c3));
      b := b + [b3];
    }
  }

  /** `Base64::decode`, into a buffer: without one it only counts. */
  method DecodeTo(input: seq<byte>, output: array?<byte>) returns (sz: nat)
    requires Readable(input) && (output != null ==> |Decoded(input)| <= output.Length)
    modifies if output == null then {} else {output}
    ensures sz == |Decoded(input)|
    ensures output != null ==> output[..sz] == Decoded(input) && output[sz..] == old(output[sz..])
  {
    hide Bytes, Readable, Decoded;
    var i, j: nat := 0, 0;
    Whole(input);
    while i < |input|
      invariant Readable(From(input, i))
      invariant j + |Decoded(From(input, i))| == |Decoded(input)|
      invariant output != null ==> j <= output.Length && output[..j] + Decoded(From(input, i)) == Decoded(input)
      invariant output != null ==> output[j..] == old(output[j..])
      decreases |input| - i
    {
      i := SkipBreaks(input, i);
      if i < |input| {
        NextGroup(input, i);
        ghost var rest := Decoded(From(input, i + 4));
        j := StoreGroup(input[i], input[i + 1], input[i + 2], CharAt(input, i + 3), output, j, rest);
        i := i + 4;
      }
    }
    Spent(input, i);
    sz := j;
  }

  lemma Whole(t: seq<byte>)
    ensures From(t, 0) == t
  {
  }

  lemma Spent(t: seq<byte>, i: nat)
    requires i >= |t|
    ensures From(t, i) == [] && Readable([]) && Decoded([]) == []
  {
  }

  /** The group at i, and the text after it. */
  lemma NextGroup(t: seq<byte>, i: nat)
    requires i < |t| && Readable(From(t, i)) && !IsBreak(t[i])
    ensures i + 3 <= |t| && t[i] < 128 && t[i + 1] < 128 && t[i + 2] < 128 && CharAt(t, i + 3) < 128
    ensures Readable(From(t, i + 4))
    ensures Decoded(From(t, i)) == Bytes(t[i], t[i + 1], t[i + 2], CharAt(t, i + 3)) + Decoded(From(t, i + 4))
  {
    FromFrom(t, i);
    hide Bytes;
  }

  method StoreGroup(c0: byte, c1: byte, c2: byte, c3: byte, output: array?<byte>, j0: nat, ghost rest: seq<byte>)
    returns (j: nat)
    requires c0 < 128 && c1 < 128 && c2 < 128 && c3 < 128
    requires output != null ==> j0 + |Bytes(c0, c1, c2, c3)| <= output.Length
    modifies if output == null then {} else {output}
    ensures j == j0 + |Bytes(c0, c1, c2, c3)|
    ensures output != null ==> output[..j] + rest == old(output[..j0]) + (Bytes(c0, c1, c2, c3) + rest)
    ensures output != null ==> output[j..] == old(output[j..])
  {
    hide Byte1, Byte2, Byte3, Value;
    j := j0;
    ghost var b := Bytes(c0, c1, c2, c3);
    if output != null {
      output[j] := Byte1(Value(c0), Value(c1));
    }
    j := j + 1;
    if c2 != PAD {
      if output != null {
        output[j] := Byte2(Value(c1), Value(c2));
      }
      j := j + 1;
    }
    if c3 != PAD {
      if output != null {
        output[j] := Byte3(Value(c2), Value(c3));
      }
      j := j + 1;
    }
    assert output != null ==> output[j0..j] == b;
    assert output != null ==> output[..j] == output[..j0] + b;
  }

  // ---- the round trip -----------------------------------------------------------------

  lemma Rejoin1(x: byte, y: byte)
    ensures Byte1(Sextet0(x), Sextet1(x, y)) == x
  {
    Parts(x, y, 0);
  }

  /** What is left of 256 a + x is x. */
  lemma LowByte(a: nat, x: nat)
    requires x < 256
    ensures (256 * a + x) % 256 == x
  {
  }

  lemma Byte2Of(a: nat, b: nat, c: nat, e: nat)
    requires a < 4 && b < 16 && c < 16 && e < 4
    ensures Byte2(16 * a + b, 4 * c + e) == 16 * b + c
  {
    assert (16 * a + b) * 16 == 256 * a + 16 * b;
    LowByte(a, 16 * b);
  }

  lemma Rejoin2(x: byte, y: byte, z: byte)
    ensures Byte2(Sextet1(x, y), Sextet2(y, z)) == y
  {
    hide Byte2;
    Parts(x, y, z);
    Byte2Of(x % 4, y / 16, y % 16, z / 64);
  }

  lemma Byte3Of(a: nat, b: nat, c: nat)
    requires a < 16 && b < 4 && c < 64
    ensures Byte3(4 * a + b, c) == 64 * b + c
  {
    assert (4 * a + b) * 64 == 256 * a + 64 * b;
    LowByte(a, 64 * b);
  }

  lemma Rejoin3(y: byte, z: byte)
    ensures Byte3(Sextet2(y, z), Sextet3(z)) == z
  {
    hide Byte3;
    Parts(0, y, z);
    Byte3Of(y % 16, z / 64, z % 64);
  }

  /** The bytes of a group are the data it was made of. */
  lemma GroupBytes(d: seq<byte>)
    requires 1 <= |d| <= 3
    ensures var g := Group(d); Bytes(g[0], g[1], g[2], g[3]) == d
  {
    hide Letter, Value, Byte1, Byte2, Byte3, Group, Sextet0, Sextet1, Sextet2, Sextet3;
    var x, y, z := d[0], if |d| > 1 then d[1] else 0, if |d| > 2 then d[2] else 0;
    ValueOfLetter(Sextet0(x));
    ValueOfLetter(Sextet1(x, y));
    ValueOfLetter(Sextet2(y, z));
    ValueOfLetter(Sextet3(z));
    Rejoin1(x, y);
    Rejoin2(x, y, z);
    Rejoin3(y, z);
    if |d| == 1 {
      Group1(x);
      assert d == [x];
    } else if |d| == 2 {
      Group2(x, y);
      assert d == [x, y];
    } else {
      Group3(x, y, z);
      assert d == [x, y, z];
    }
  }

  lemma DecodeFirst(g: seq<byte>, t: seq<byte>, b: seq<byte>)
    requires |g| == 4 && forall i | 0 <= i < 4 :: g[i] < 128 && g[i] != LF && g[i] != CR
    requires b == [] || b == [LF]
    requires Readable(t)
    ensures Readable(b + g + t) && Decoded(b + g + t) == Bytes(g[0], g[1], g[2], g[3]) + Decoded(t)
  {
    var u := g + t;
    assert From(u, 4) == t && CharAt(u, 3) == g[3];
    hide Bytes;
    if b == [LF] {
      assert b + g + t == [LF] + u && ([LF] + u)[1..] == u;
    } else {
      assert b + g + t == u;
    }
  }

  /** Decoding what was encoded gives back the data, with or without line breaks. */
  lemma {:induction false} RoundTrip(d: seq<byte>, o: nat, add_crlf: bool)
    ensures Readable(Encoded(d, o, add_crlf)) && Decoded(Encoded(d, o, add_crlf)) == d
    decreases |d|
  {
    if |d| > 0 {
      var f, rest := First(d), d[|First(d)|..];
      RoundTrip(rest, o + 4, add_crlf);
      GroupBytes(f);
      hide Group, Bytes, Readable, Decoded;
      DecodeFirst(Group(f), Encoded(rest, o + 4, add_crlf), Break(o, add_crlf));
      assert f + rest == d;
    }
  }

  /** Both decoders give back what was encoded, and so agree. */
  method DecodeBoth(d: seq<byte>, add_crlf: bool) returns (text: seq<byte>, output: seq<byte>, buffer: array<byte>)
    ensures text == Encoded(d, 0, add_crlf)
    ensures output == d && buffer[..] == d
  {
    text := Encode(d, add_crlf);
    RoundTrip(d, 0, add_crlf);
    output := Decode(text);
    var n := DecodeTo(text, null);
    buffer := new byte[n](_ => 0);
    n := DecodeTo(text, buffer);
  }

  // ---- the length of the data ---------------------------------------------------------

  /** `Base64::decode_length`. */
  function DecodeLength(t: seq<byte>): nat
  {
    if |t| == 0 || |t| % 4 != 0 then 0
    else
      3 * (|t| / 4 - 1) + 1 + (if t[|t| - 2] != PAD then 1 else 0) + (if t[|t| - 1] != PAD then 1 else 0)
  }

  /** How many line breaks the text has. */
  function Breaks(n: nat, o: nat, add_crlf: bool): nat
  {
    if n == 0 then 0 else |Break(o, add_crlf)| + Breaks(if n <= 3 then 0 else n - 3, o + 4, add_crlf)
  }

  lemma GroupPadding(f: seq<byte>)
    requires 1 <= |f| <= 3
    ensures (Group(f)[3] == PAD <==> |f| < 3) && (Group(f)[2] == PAD <==> |f| < 2)
  {
    hide Word, Letter;
  }

  lemma LastTwo(a: seq<byte>, b: seq<byte>)
    requires |b| >= 2
    ensures (a + b)[|a + b| - 1] == b[|b| - 1] && (a + b)[|a + b| - 2] == b[|b| - 2]
  {
  }

  lemma Thirds(n: nat)
    requires n > 3
    ensures (n - 3 + 2) / 3 + 1 == (n + 2) / 3 && (n - 3) % 3 == n % 3
  {
  }

  lemma GroupFirst(d: seq<byte>, o: nat, add_crlf: bool)
    requires |d| > 0
    ensures var f := First(d);
            && Encoded(d, o, add_crlf) == Break(o, add_crlf) + Group(f) + Encoded(d[|f|..], o + 4, add_crlf)
            && Breaks(|d|, o, add_crlf) == |Break(o, add_crlf)| + Breaks(|d[|f|..]|, o + 4, add_crlf)
  {
  }

  lemma NothingEncoded(o: nat, add_crlf: bool)
    ensures Encoded([], o, add_crlf) == [] && Breaks(0, o, add_crlf) == 0
  {
  }

  /** The text is a multiple of four letters and the line breaks, and ends in as much
      padding as the last group lacks bytes. */
  lemma {:induction false} TextShape(d: seq<byte>, o: nat, add_crlf: bool)
    requires |d| > 0
    ensures var t := Encoded(d, o, add_crlf);
            && |t| == 4 * ((|d| + 2) / 3) + Breaks(|d|, o, add_crlf)
            && (t[|t| - 1] == PAD <==> |d| % 3 != 0) && (t[|t| - 2] == PAD <==> |d| % 3 == 1)
    decreases |d|
  {
    hide Encoded, Breaks, Group, Break;
    var f, rest := First(d), d[|First(d)|..];
    var t := Encoded(rest, o + 4, add_crlf);
    GroupFirst(d, o, add_crlf);
    if |d| > 3 {
      TextShape(rest, o + 4, add_crlf);
      Thirds(|d|);
      LastTwo(Break(o, add_crlf) + Group(f), t);
    } else {
      GroupPadding(f);
      NothingEncoded(o + 4, add_crlf);
      LastTwo(Break(o, add_crlf), Group(f));
      assert rest == [] && Break(o, add_crlf) + Group(f) + [] == Break(o, add_crlf) + Group(f);
    }
  }

  lemma {:induction false} NoBreaks(n: nat, o: nat)
    ensures Breaks(n, o, false) == 0
    decreases n
  {
    if n > 0 { NoBreaks(if n <= 3 then 0 else n - 3, o + 4); }
  }

  /** A break comes before the twentieth group, if there is one. */
  lemma {:induction false} FirstBreak(n: nat, o: nat)
    requires o % 4 == 0 && o <= 76
    ensures Breaks(n, o, true) == 0 <==> n == 0 || o + 4 * ((n + 2) / 3) <= 76
    decreases n
  {
    if n > 0 && o < 76 {
      FirstBreak(if n <= 3 then 0 else n - 3, o + 4);
    }
  }

  /** So many groups, and how many bytes the last has after its first. */
  lemma GroupsOf(n: nat, q: nat, r: nat)
    requires r < 3 && n == 3 * q + r + 1
    ensures (n + 2) / 3 == q + 1 && (n % 3 == 0 <==> r == 2) && (n % 3 == 1 <==> r == 0)
  {
    Third(n + 2, q + 1, r);
    if r == 2 {
      Third(n, q + 1, 0);
    } else {
      Third(n, q, r + 1);
    }
  }

  lemma Third(x: nat, q: nat, r: nat)
    requires r < 3 && x == 3 * q + r
    ensures x / 3 == q && x % 3 == r
  {
  }

  /** The length computed from the text is right exactly when there are no breaks in it. */
  lemma LengthArithmetic(n: nat, len: nat, breaks: nat, last: bool, lastButOne: bool)
    requires n > 0 && len == 4 * ((n + 2) / 3) + breaks
    requires (last <==> n % 3 != 0) && (lastButOne <==> n % 3 == 1)
    ensures var l := if len % 4 != 0 then 0
                     else 3 * (len / 4 - 1) + 1 + (if !lastButOne then 1 else 0) + (if !last then 1 else 0);
            l == n <==> breaks == 0
  {
    var q, r := (n - 1) / 3, (n - 1) % 3;
    assert n - 1 == 3 * q + r;
    GroupsOf(n, q, r);
    var k, m := breaks / 4, breaks % 4;
    assert len == 4 * (q + 1 + k) + m;
    hide *;
  }

  lemma LengthIs(d: seq<byte>, add_crlf: bool)
    requires |d| > 0
    ensures DecodeLength(Encoded(d, 0, add_crlf)) == |d| <==> Breaks(|d|, 0, add_crlf) == 0
  {
    var t := Encoded(d, 0, add_crlf);
    TextShape(d, 0, add_crlf);
    hide Encoded, Breaks;
    LengthArithmetic(|d|, |t|, Breaks(|d|, 0, add_crlf), t[|t| - 1] == PAD, t[|t| - 2] == PAD);
  }

  /** The length is that of the data, if no breaks were asked for ... */
  lemma LengthWithoutBreaks(d: seq<byte>)
    ensures DecodeLength(Encoded(d, 0, false)) == |d|
  {
    hide *;
    if |d| == 0 {
      NothingLong(d, false);
    } else {
      LengthIs(d, false);
      NoBreaks(|d|, 0);
    }
  }

  lemma NothingLong(d: seq<byte>, add_crlf: bool)
    requires |d| == 0
    ensures DecodeLength(Encoded(d, 0, add_crlf)) == 0
  {
  }

  /** ... and, if they were, exactly when the data fits one line. */
  lemma LengthWithBreaks(d: seq<byte>)
    ensures DecodeLength(Encoded(d, 0, true)) == |d| <==> |d| <= 57
  {
    hide *;
    if |d| == 0 {
      NothingLong(d, true);
    } else {
      LengthIs(d, true);
      FirstBreak(|d|, 0);
      OneLine(|d|);
    }
  }

  lemma OneLine(n: nat)
    ensures 4 * ((n + 2) / 3) <= 76 <==> n <= 57
  {
  }

  lemma SignedQuotients(s: int)
    ensures (s + 256) / 4 == s / 4 + 64 && (s + 256) / 16 == s / 16 + 16 && (s + 256) / 64 == s / 64 + 4
  {
  }

  lemma Remainder64(x: int, k: int)
    ensures (x + 64 * k) % 64 == x % 64
  {
  }

  lemma SmallRemainders(x: int)
    ensures (x + 16) % 16 == x % 16 && (x + 4) % 4 == x % 4
  {
  }

  lemma SignedRemainders(s: int)
    ensures (s + 256) * 16 % 64 == s * 16 % 64 && (s + 256) * 4 % 64 == s * 4 % 64 && (s + 256) % 64 == s % 64
  {
    Remainder64(s * 16, 64);
    Remainder64(s * 4, 16);
    Remainder64(s, 4);
  }

  /** A plain char may be signed: the masks make that invisible. */
  lemma SignedCharsAgree(s: int, u: byte)
    requires -128 <= s < 128 && u == (if s < 0 then s + 256 else s)
    ensures s / 4 % 64 == u / 4 % 64 && s * 16 % 64 == u as int * 16 % 64 && s / 16 % 16 == u / 16 % 16
    ensures s * 4 % 64 == u as int * 4 % 64 && s / 64 % 4 == u / 64 % 4 && s % 64 == u % 64
  {
    if s < 0 {
      SignedQuotients(s);
      SignedRemainders(s);
      Remainder64(s / 4, 1);
      SmallRemainders(s / 16);
      SmallRemainders(s / 64);
    }
  }
}
