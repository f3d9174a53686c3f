/** The variable-length LZW code of GIF89a Appendix F: what a stream of codes expands to,
    and that the expansion undoes every encoding. */
module GifLzw {
  import opened BitMath
  import opened Deflate

  /** What each code stands for; the clear and end codes stand for nothing. */
  type Table = seq<seq<byte>>

  function Clear(cs: nat): nat
  {
    Pow2(cs)
  }

  /** With more than 8 bits a root is cut to a byte. */
  function Root(i: nat): byte
  {
    i % 256
  }

  function Initial(cs: nat): (t: Table)
    ensures |t| == Clear(cs) + 2
  {
    seq(Clear(cs) + 2, i => if 0 <= i < Clear(cs) then [Root(i)] else [])
  }

  // ---- decoding -----------------------------------------------------------------------

  /** The decoder between two codes: the phrases known, the last phrase (empty after a
      clear code), the width of the next code, and whether a clear code has come. */
  datatype Lzw = Lzw(table: Table, last: seq<byte>, width: nat, cleared: bool)

  datatype Expansion = Expansion(out: seq<byte>, ok: bool)

  const MAX_CODES := 8192

  function Start(cs: nat): Lzw
  {
    Lzw(Initial(cs), [], cs + 1, false)
  }

  function Cleared(cs: nat): Lzw
  {
    Lzw(Initial(cs), [], cs + 1, true)
  }

  predicate Known(s: Lzw, c: nat)
  {
    (c < |s.table| && s.table[c] != []) || (c == |s.table| && s.last != [])
  }

  predicate Accepts(s: Lzw, c: nat)
  {
    s.cleared && Known(s, c) && (s.last != [] ==> |s.table| < MAX_CODES)
  }

  /** A code one past the table repeats the last phrase with its first byte added. */
  function Phrase(s: Lzw, c: nat): (p: seq<byte>)
    requires Known(s, c)
    ensures p != []
  {
    if c < |s.table| then s.table[c] else s.last + [s.last[0]]
  }

  /** Each phrase after the first adds: the phrase before it and its own first byte. */
  function Added(s: Lzw, p: seq<byte>): Table
    requires p != []
  {
    if s.last == [] then s.table else s.table + [s.last + [p[0]]]
  }

  function Grow(width: nat, avail: nat): nat
  {
    if Low(avail, width) == 0 && avail <= 0xFFF then width + 1 else width
  }

  function Next(s: Lzw, c: nat): Lzw
    requires Known(s, c)
  {
    var p := Phrase(s, c);
    Lzw(Added(s, p), p, Grow(s.width, |Added(s, p)|), s.cleared)
  }

  function Prepend(p: seq<byte>, x: Expansion): Expansion
  {
    Expansion(p + x.out, x.ok)
  }

  /** The expansion of the n bits r: up to the end code or the end of the data, or up to
      the first code that means nothing. */
  function Expand(cs: nat, r: nat, n: nat, s: Lzw): Expansion
    requires s.width > 0
    decreases n
  {
    if n < s.width then Expansion([], true) else
    var c, r', n' := Low(r, s.width), Shr(r, s.width), n - s.width;
    if c == Clear(cs) then Expand(cs, r', n', Cleared(cs))
    else if c == Clear(cs) + 1 then Expansion([], true)
    else if !Accepts(s, c) then Expansion([], false)
    else Prepend(Phrase(s, c), Expand(cs, r', n', Next(s, c)))
  }

  // ---- encoding -----------------------------------------------------------------------

  /** After writing phrase p with `rest` to follow, the encoder knows p and the next byte. */
  function Learned(te: Table, p: seq<byte>, rest: seq<byte>): Table
  {
    if rest != [] && |te| < 4096 then te + [p + [rest[0]]] else te
  }

  /** `codes` encodes `text`: at each point the encoder writes the code of any phrase it
      knows that the text goes on with, or a clear code; the end code comes last. */
  predicate Encodes(cs: nat, te: Table, text: seq<byte>, codes: seq<nat>)
    decreases |codes|
  {
    if text == [] then codes == [Clear(cs) + 1]
    else
      codes != [] &&
      if codes[0] == Clear(cs) then Encodes(cs, Initial(cs), text, codes[1..])
      else
        codes[0] < |te| && te[codes[0]] != [] && te[codes[0]] <= text &&
        var rest := text[|te[codes[0]]|..];
        Encodes(cs, Learned(te, te[codes[0]], rest), rest, codes[1..])
  }

  /** The fewest bits, at least w and at most 12, that hold any code below m. */
  function Width(m: nat, w: nat): nat
    decreases 12 - w
  {
    if m <= Pow2(w) || w >= 12 then w else Width(m, w + 1)
  }

  /** The codes as bit fields, each as wide as the encoder's highest code needs. */
  function Packed(cs: nat, te: Table, text: seq<byte>, codes: seq<nat>): (fs: seq<Field>)
    requires Encodes(cs, te, text, codes)
    decreases |codes|
  {
    var f := Field(codes[0], Width(|te|, cs + 1));
    if text == [] then [f]
    else if codes[0] == Clear(cs) then [f] + Packed(cs, Initial(cs), text, codes[1..])
    else
      var rest := text[|te[codes[0]]|..];
      [f] + Packed(cs, Learned(te, te[codes[0]], rest), rest, codes[1..])
  }

  /** No more codes come between two clear codes than the decoder has room to learn from. */
  predicate ShortRuns(cs: nat, codes: seq<nat>, since: nat)
  {
    |codes| == 0 || codes[0] == Clear(cs) + 1 ||
    if codes[0] == Clear(cs) then ShortRuns(cs, codes[1..], 0)
    else Clear(cs) + 2 + since <= MAX_CODES && ShortRuns(cs, codes[1..], since + 1)
  }

  // ---- the decoder follows the encoder ------------------------------------------------

  ghost predicate TableFits(cs: nat, t: Table)
  {
    && |t| >= Clear(cs) + 2
    && t[..Clear(cs) + 2] == Initial(cs)
    && forall i: nat | i < |t| && i != Clear(cs) && i != Clear(cs) + 1 :: t[i] != []
  }

  /** `w` is the width of code n: the usual rule, with 12 as the most. */
  ghost predicate WidthFits(cs: nat, n: nat, w: nat)
  {
    cs + 1 <= w <= 12 && Pow2(w - 1) <= n && (n < Pow2(w) || w == 12)
  }

  lemma InitialFits(cs: nat)
    requires 1 <= cs <= 11
    ensures TableFits(cs, Initial(cs)) && WidthFits(cs, |Initial(cs)|, Grow(cs + 1, |Initial(cs)|))
    ensures |Initial(cs)| <= Pow2(cs + 1)
  {
    Pow2Mono(1, cs);
    var n := |Initial(cs)|;
    assert Pow2(1) == 2 && n == Pow2(cs) + 2;
    assert Pow2(cs + 1) == 2 * Pow2(cs) && Pow2(cs + 2) == 2 * Pow2(cs + 1);
    if cs == 1 {
      assert Low(4, 2) == 0;
    } else {
      Pow2Mono(2, cs);
      assert Pow2(2) == 4;
      LowFits(n, cs + 1);
    }
  }

  /** The width rule of the loop keeps the width at what the next code needs. */
  lemma GrowFits(cs: nat, n: nat, w: nat)
    requires 1 <= cs <= 11 && WidthFits(cs, n, w)
    ensures WidthFits(cs, n + 1, Grow(w, n + 1))
    ensures n < Pow2(12) ==> WidthFits(cs, n, Grow(w, n))
  {
    Pow2Values();
    assert Pow2(w) == 2 * Pow2(w - 1);
    Pow2Mono(w, 12);
    if n + 1 < Pow2(w) {
      LowFits(n + 1, w);
    } else if n + 1 == Pow2(w) {
      Join(0, 1, w);
    }
    if n < Pow2(w) {
      LowFits(n, w);
    }
  }

  lemma {:induction false} WidthIs(m: nat, w0: nat, w: nat)
    requires w0 <= w <= 12
    requires m <= Pow2(w) || w == 12
    requires w == w0 || m > Pow2(w - 1)
    ensures Width(m, w0) == w
    decreases w - w0
  {
    if w0 < w {
      Pow2Mono(w0, w - 1);
      WidthIs(m, w0 + 1, w);
    }
  }

  /** By the end, the decoder may expect one bit more than the encoder needs. */
  lemma EndWidth(cs: nat, m: nat, n: nat, w: nat)
    requires WidthFits(cs, n, w) && n >= Pow2(cs) + 2 && (m == n || m == 4096 < n)
    ensures w - 1 <= Width(m, cs + 1) <= w && Width(m, cs + 1) >= cs + 1
  {
    Pow2Values();
    hide Pow2;
    if m > Pow2(w - 1) {
      WidthIs(m, cs + 1, w);
    } else if w == 12 {
      Pow2Mono(11, 11);
      WidthIs(m, cs + 1, 11);
    } else {
      Pow2Mono(w - 2, w - 1);
      WidthIs(m, cs + 1, w - 1);
    }
  }

  /** The encoder's table when its last phrase is `last` and `text` is still to come, and
      the decoder knows t: the decoder is one entry behind, and the encoder stops at 4096. */
  ghost predicate OneBehind(te: Table, t: Table, last: seq<byte>, text: seq<byte>)
  {
    if text == [] then |te| == |t| || |te| == 4096 < |t|
    else if |t| < 4096 then te == t + [last + [text[0]]]
    else te == t[..4096]
  }

  /** How the decoder's state mirrors the encoder's, `since` codes after a clear code. */
  ghost predicate Mirrors(cs: nat, te: Table, text: seq<byte>, s: Lzw, since: nat)
  {
    && s.cleared && TableFits(cs, s.table) && s.width > 0
    && if since == 0 then s == Cleared(cs) && te == Initial(cs)
       else
         && WidthFits(cs, |s.table|, s.width) && s.last != [] && |s.table| == Clear(cs) + 1 + since
         && OneBehind(te, s.table, s.last, text)
  }

  lemma SameWidth(cs: nat, te: Table, text: seq<byte>, s: Lzw, since: nat)
    requires 1 <= cs <= 11 && Mirrors(cs, te, text, s, since)
    ensures text != [] ==> Width(|te|, cs + 1) == s.width
    ensures text == [] ==> s.width - 1 <= Width(|te|, cs + 1) <= s.width && Width(|te|, cs + 1) >= cs + 1
    ensures since == 0 ==> Width(|te|, cs + 1) == s.width
  {
    Pow2Values();
    hide Pow2;
    if since == 0 {
      InitialFits(cs);
      WidthIs(|te|, cs + 1, cs + 1);
    } else if text != [] {
      WidthIs(|te|, cs + 1, s.width);
    } else {
      EndWidth(cs, |te|, |s.table|, s.width);
    }
  }

  /** One phrase: the decoder reads the phrase the encoder meant ... */
  lemma PhraseRead(cs: nat, te: Table, text: seq<byte>, s: Lzw, since: nat, c: nat)
    requires 1 <= cs <= 11 && Mirrors(cs, te, text, s, since)
    requires text != [] && c < |te| && te[c] != [] && te[c] <= text
    ensures c != Clear(cs) && c != Clear(cs) + 1
    ensures Known(s, c) && Phrase(s, c) == te[c]
    ensures Accepts(s, c) <==> Clear(cs) + 2 + since <= MAX_CODES
  {
    Pow2Mono(cs, 11);
    assert Pow2(11) == 2048;
    hide Pow2, WidthFits;
    assert s.table[Clear(cs)] == [] && s.table[Clear(cs) + 1] == [] by {
      assert s.table[..Clear(cs) + 2][Clear(cs)] == [] && s.table[..Clear(cs) + 2][Clear(cs) + 1] == [];
    }
    assert te[Clear(cs)] == [] && te[Clear(cs) + 1] == [];
    assert te[c][0] == text[0];
    if c == |s.table| {
      assert te[c] == s.last + [text[0]] && s.last[0] == te[c][0];
    }
  }

  lemma AddedFits(cs: nat, s: Lzw, p: seq<byte>)
    requires TableFits(cs, s.table) && p != []
    ensures TableFits(cs, Added(s, p))
  {
    var t := Added(s, p);
    hide Initial;
    assert t[..Clear(cs) + 2] == s.table[..Clear(cs) + 2];
  }

  lemma StaysBehind(te: Table, s: Lzw, text: seq<byte>, p: seq<byte>)
    requires text != [] && p != [] && p <= text && s.last != [] && OneBehind(te, s.table, s.last, text)
    ensures OneBehind(Learned(te, p, text[|p|..]), Added(s, p), p, text[|p|..])
  {
    assert p[0] == text[0];
    var t := Added(s, p);
    assert if |s.table| < 4096 then te == t else te == s.table[..4096] == t[..4096];
  }

  lemma FirstMirrors(cs: nat, text: seq<byte>, s: Lzw, c: nat)
    requires 1 <= cs <= 11 && s == Cleared(cs) && text != []
    requires c < |s.table| && s.table[c] != [] && s.table[c] <= text
    ensures var p := s.table[c]; var rest := text[|p|..];
            Mirrors(cs, Learned(Initial(cs), p, rest), rest, Next(s, c), 1)
  {
    InitialFits(cs);
    Pow2Mono(cs, 11);
    assert Pow2(11) == 2048;
    hide Pow2, Grow, WidthFits, TableFits;
  }

  lemma LaterMirrors(cs: nat, te: Table, text: seq<byte>, s: Lzw, since: nat, c: nat)
    requires 1 <= cs <= 11 && Mirrors(cs, te, text, s, since) && since > 0
    requires text != [] && c < |te| && te[c] != [] && te[c] <= text
    requires Known(s, c) && Phrase(s, c) == te[c]
    ensures var rest := text[|te[c]|..];
            Mirrors(cs, Learned(te, te[c], rest), rest, Next(s, c), since + 1)
  {
    hide Pow2, Grow, WidthFits, TableFits, Initial, OneBehind, Learned, Known, Phrase;
    AddedFits(cs, s, te[c]);
    GrowFits(cs, |s.table|, s.width);
    StaysBehind(te, s, text, te[c]);
    WidthNotZero(cs, |s.table| + 1, Grow(s.width, |s.table| + 1));
  }

  lemma WidthNotZero(cs: nat, n: nat, w: nat)
    requires WidthFits(cs, n, w)
    ensures w > 0
  {
  }

  /** ... and stays in step. */
  lemma PhraseMirrors(cs: nat, te: Table, text: seq<byte>, s: Lzw, since: nat, c: nat)
    requires 1 <= cs <= 11 && Mirrors(cs, te, text, s, since)
    requires text != [] && c < |te| && te[c] != [] && te[c] <= text
    requires Known(s, c) && Phrase(s, c) == te[c]
    ensures var rest := text[|te[c]|..];
            Mirrors(cs, Learned(te, te[c], rest), rest, Next(s, c), since + 1)
  {
    hide Initial, TableFits, WidthFits, OneBehind, Grow, Pow2;
    if since == 0 {
      FirstMirrors(cs, text, s, c);
    } else {
      LaterMirrors(cs, te, text, s, since, c);
    }
  }

  /** The end code is found whichever of two widths the decoder expects by then, if the bit
      that it may take for the highest is zero. */
  lemma EndRead(cs: nat, r: nat, n: nat, s: Lzw, we: nat)
    requires 1 <= cs && cs + 1 <= we <= s.width <= we + 1
    requires Low(r, we) == Clear(cs) + 1 && Shr(r, we) % 2 == 0
    ensures Expand(cs, r, n, s) == Expansion([], true)
  {
    TakeBits(r, we, 1);
    LowBitZero(Shr(r, we), we);
  }

  lemma LowBitZero(x: nat, n: nat)
    requires x % 2 == 0
    ensures Shl(Low(x, 1), n) == 0
  {
    assert Low(x, 1) == 0;
    ShlZero(n);
  }

  /** The n bits r start with the fields, a bit that is zero comes next, and then anything:
      an encoder may write the end code as wide as the decoder expects it. */
  ghost predicate Holds(r: nat, n: nat, fs: seq<Field>)
  {
    StartsWith(r, fs) && Shr(r, BitsOf(fs)) % 2 == 0 && BitsOf(fs) <= n
  }

  lemma HoldsTail(r: nat, n: nat, fs: seq<Field>)
    requires Holds(r, n, fs) && fs != []
    ensures fs[0].n <= n && Low(r, fs[0].n) == fs[0].v
    ensures Holds(Shr(r, fs[0].n), n - fs[0].n, fs[1..])
  {
    ShrShr(r, fs[0].n, BitsOf(fs[1..]));
  }

  lemma ExpandPhrase(cs: nat, r: nat, n: nat, s: Lzw, c: nat)
    requires 0 < s.width <= n && Low(r, s.width) == c && c != Clear(cs) && c != Clear(cs) + 1
    ensures var x := Expand(cs, r, n, s);
            if Accepts(s, c)
            then x == Prepend(Phrase(s, c), Expand(cs, Shr(r, s.width), n - s.width, Next(s, c)))
            else !x.ok
  {
  }

  lemma ExpandClear(cs: nat, r: nat, n: nat, s: Lzw)
    requires 0 < s.width <= n && Low(r, s.width) == Clear(cs)
    ensures Expand(cs, r, n, s) == Expand(cs, Shr(r, s.width), n - s.width, Cleared(cs))
  {
  }

  lemma EncodedSplit(cs: nat, te: Table, text: seq<byte>, codes: seq<nat>, since: nat)
    requires Encodes(cs, te, text, codes) && text != [] && codes[0] != Clear(cs)
    ensures codes[0] < |te| && te[codes[0]] != [] && te[codes[0]] <= text
    ensures var rest := text[|te[codes[0]]|..];
            && te[codes[0]] + rest == text
            && Encodes(cs, Learned(te, te[codes[0]], rest), rest, codes[1..])
            && Packed(cs, te, text, codes)[1..] == Packed(cs, Learned(te, te[codes[0]], rest), rest, codes[1..])
    ensures codes[0] != Clear(cs) + 1 ==>
              (ShortRuns(cs, codes, since) <==>
                Clear(cs) + 2 + since <= MAX_CODES && ShortRuns(cs, codes[1..], since + 1))
  {
    hide Learned;
  }

  /** What EncodedExpands says of one expansion, as a plain fact about its result. */
  ghost predicate Recovers(x: Expansion, text: seq<byte>, short: bool)
  {
    if short then x == Expansion(text, true) else !x.ok
  }

  /** The decoder at the start of a code, in step with an encoder of `text`. */
  ghost predicate InStep(cs: nat, te: Table, text: seq<byte>, codes: seq<nat>, s: Lzw, since: nat, r: nat, n: nat)
  {
    && 1 <= cs <= 11 && Mirrors(cs, te, text, s, since)
    && Encodes(cs, te, text, codes) && Holds(r, n, Packed(cs, te, text, codes))
  }

  lemma EndStep(cs: nat, te: Table, codes: seq<nat>, s: Lzw, since: nat, r: nat, n: nat)
    requires InStep(cs, te, [], codes, s, since, r, n)
    ensures s.width > 0 && Expand(cs, r, n, s) == Expansion([], true)
    ensures ShortRuns(cs, codes, since)
  {
    var fs := Packed(cs, te, [], codes);
    SameWidth(cs, te, [], s, since);
    HoldsTail(r, n, fs);
    EndRead(cs, r, n, s, fs[0].n);
  }

  lemma ClearStep(cs: nat, te: Table, text: seq<byte>, codes: seq<nat>, s: Lzw, since: nat, r: nat, n: nat)
    requires InStep(cs, te, text, codes, s, since, r, n) && text != [] && codes[0] == Clear(cs)
    ensures 0 < s.width <= n
    ensures InStep(cs, Initial(cs), text, codes[1..], Cleared(cs), 0, Shr(r, s.width), n - s.width)
    ensures Expand(cs, r, n, s) == Expand(cs, Shr(r, s.width), n - s.width, Cleared(cs))
    ensures ShortRuns(cs, codes, since) <==> ShortRuns(cs, codes[1..], 0)
  {
    var fs := Packed(cs, te, text, codes);
    SameWidth(cs, te, text, s, since);
    HoldsTail(r, n, fs);
    ClearMirrors(cs, text);
    assert fs[1..] == Packed(cs, Initial(cs), text, codes[1..]);
    hide Pow2, Width, Initial, Mirrors, Holds, Expand, Packed;
    ExpandClear(cs, r, n, s);
  }

  lemma WidthPositive(cs: nat, te: Table, text: seq<byte>, s: Lzw, since: nat)
    requires Mirrors(cs, te, text, s, since)
    ensures s.width > 0
  {
  }

  lemma PhraseStep(cs: nat, te: Table, text: seq<byte>, codes: seq<nat>, s: Lzw, since: nat, r: nat, n: nat,
                   c: nat, rest: seq<byte>, te': Table)
    requires InStep(cs, te, text, codes, s, since, r, n) && text != [] && codes[0] != Clear(cs)
    requires c == codes[0] && c < |te| && te[c] <= text && rest == text[|te[c]|..] && te' == Learned(te, te[c], rest)
    ensures 0 < s.width <= n && Known(s, c) && Next(s, c).width > 0 && text == te[c] + rest
    ensures InStep(cs, te', rest, codes[1..], Next(s, c), since + 1, Shr(r, s.width), n - s.width)
    ensures ShortRuns(cs, codes, since) <==> Accepts(s, c) && ShortRuns(cs, codes[1..], since + 1)
    ensures var x := Expand(cs, r, n, s);
            if Accepts(s, c)
            then x == Prepend(te[c], Expand(cs, Shr(r, s.width), n - s.width, Next(s, c)))
            else !x.ok
  {
    var fs := Packed(cs, te, text, codes);
    SameWidth(cs, te, text, s, since);
    HoldsTail(r, n, fs);
    hide Pow2, Clear, Width, Initial, Mirrors, Learned, Accepts, Known, Phrase, Next, Low, Shr, Encodes, Packed, Holds,
      Expand, ShortRuns;
    EncodedSplit(cs, te, text, codes, since);
    PhraseRead(cs, te, text, s, since, c);
    PhraseMirrors(cs, te, text, s, since, c);
    WidthPositive(cs, Learned(te, te[c], rest), rest, Next(s, c), since + 1);
    ExpandPhrase(cs, r, n, s, c);
  }

  lemma {:induction false} EncodedExpands(
    cs: nat, te: Table, text: seq<byte>, codes: seq<nat>, s: Lzw, since: nat, r: nat, n: nat)
    requires s.width > 0 && InStep(cs, te, text, codes, s, since, r, n)
    ensures Recovers(Expand(cs, r, n, s), text, ShortRuns(cs, codes, since))
    decreases |codes|
  {
    hide Clear, Initial, Mirrors, Learned, Accepts, Known, Phrase, Next, Low, Shr, Packed, Holds, Expand, ShortRuns;
    if text == [] {
      EndStep(cs, te, codes, s, since, r, n);
    } else if codes[0] == Clear(cs) {
      ClearStep(cs, te, text, codes, s, since, r, n);
      EncodedExpands(cs, Initial(cs), text, codes[1..], Cleared(cs), 0, Shr(r, s.width), n - s.width);
    } else {
      var c := codes[0];
      var rest := text[|te[c]|..];
      var te' := Learned(te, te[c], rest);
      PhraseStep(cs, te, text, codes, s, since, r, n, c, rest, te');
      var s', n', r', next := Next(s, c), n - s.width, Shr(r, s.width), since + 1;
      EncodedExpands(cs, te', rest, codes[1..], s', next, r', n');
      PhraseRecovers(Expand(cs, r, n, s), Expand(cs, r', n', s'), te[c], rest, Accepts(s, c),
        ShortRuns(cs, codes[1..], next), text, ShortRuns(cs, codes, since));
    }
  }

  lemma PhraseRecovers(x: Expansion, x': Expansion, p: seq<byte>, rest: seq<byte>, accepted: bool, short': bool,
                       text: seq<byte>, short: bool)
    requires Recovers(x', rest, short')
    requires if accepted then x == Prepend(p, x') else !x.ok
    requires text == p + rest && (short <==> accepted && short')
    ensures Recovers(x, text, short)
  {
  }

  lemma ClearMirrors(cs: nat, text: seq<byte>)
    requires 1 <= cs <= 11
    ensures Mirrors(cs, Initial(cs), text, Cleared(cs), 0)
  {
    InitialFits(cs);
  }

  /** Decoding undoes encoding. Let an encoder send a clear code and then any encoding of
      the text, in whatever phrases it likes and with clear codes wherever it likes. The
      expansion is the text, unless some run of codes without a clear is too long for the
      decoder's 8192 entries; then, and only then, it fails. */
  lemma DecodeEncoded(cs: nat, text: seq<byte>, codes: seq<nat>, r: nat, n: nat)
    requires 1 <= cs <= 11 && Encodes(cs, Initial(cs), text, codes)
    requires Holds(r, n, [Field(Clear(cs), cs + 1)] + Packed(cs, Initial(cs), text, codes))
    ensures if ShortRuns(cs, codes, 0) then Expand(cs, r, n, Start(cs)) == Expansion(text, true)
            else !Expand(cs, r, n, Start(cs)).ok
  {
    var gs := Packed(cs, Initial(cs), text, codes);
    var fs := [Field(Clear(cs), cs + 1)] + gs;
    assert fs[1..] == gs;
    HoldsTail(r, n, fs);
    hide Pow2, Width, Initial, Mirrors, Holds, Encodes, Expand, ShortRuns;
    ClearMirrors(cs, text);
    ExpandClear(cs, r, n, Start(cs));
    assert InStep(cs, Initial(cs), text, codes, Cleared(cs), 0, Shr(r, cs + 1), n - (cs + 1));
    EncodedExpands(cs, Initial(cs), text, codes, Cleared(cs), 0, Shr(r, cs + 1), n - (cs + 1));
  }

  // ---- the limit is reached -----------------------------------------------------------

  /** n times the root for zero, and the end code. */
  function Zeros(cs: nat, n: nat): seq<nat>
  {
    if n == 0 then [Clear(cs) + 1] else [0] + Zeros(cs, n - 1)
  }

  /** That encodes n zero bytes, whatever else the encoder knows. */
  lemma {:induction false} ZerosEncode(cs: nat, te: Table, n: nat)
    requires 1 <= cs && |te| > 0 && te[0] == [0]
    ensures Encodes(cs, te, seq(n, _ => 0), Zeros(cs, n))
    decreases n
  {
    var text, codes := seq(n, _ => 0 as byte), Zeros(cs, n);
    if n > 0 {
      var rest := text[1..];
      assert codes[1..] == Zeros(cs, n - 1) && rest == seq(n - 1, _ => 0);
      ZerosEncode(cs, Learned(te, te[0], rest), n - 1);
      Pow2Mono(1, cs);
      assert Pow2(1) == 2;
    }
  }

  lemma {:induction false} ZerosTooLong(cs: nat, n: nat, since: nat)
    requires 1 <= cs && Clear(cs) + 2 + since + n > MAX_CODES + 1 && n > 0
    ensures !ShortRuns(cs, Zeros(cs, n), since)
  {
    Pow2Mono(1, cs);
    assert Pow2(1) == 2;
    assert Zeros(cs, n)[1..] == Zeros(cs, n - 1);
    if n > 1 && Clear(cs) + 2 + since <= MAX_CODES { ZerosTooLong(cs, n - 1, since + 1); }
  }

  lemma {:induction false} WidthHolds(m: nat, w: nat)
    requires m <= 4096 && w <= 12
    ensures m <= Pow2(Width(m, w))
    decreases 12 - w
  {
    if m > Pow2(w) && w < 12 {
      WidthHolds(m, w + 1);
    } else if w == 12 {
      Pow2Values();
    }
  }

  /** Every code fits its field, so that there is a stream of them. */
  lemma {:induction false} PackedFits(cs: nat, te: Table, text: seq<byte>, codes: seq<nat>)
    requires cs <= 11 && Clear(cs) + 2 <= |te| <= 4096 && Encodes(cs, te, text, codes)
    ensures FieldsFit(Packed(cs, te, text, codes))
    decreases |codes|
  {
    WidthHolds(|te|, cs + 1);
    hide Width, Clear, Initial;
    if text != [] {
      if codes[0] == Clear(cs) {
        PackedFits(cs, Initial(cs), text, codes[1..]);
      } else {
        var rest := text[|te[codes[0]]|..];
        PackedFits(cs, Learned(te, te[codes[0]], rest), rest, codes[1..]);
      }
    }
  }

  /** The limit is reached, for every code size: a stream that encodes a long enough text of
      zeros by roots alone, as an encoder may that defers its clear code, is not decoded. */
  lemma LimitReached(cs: nat, n: nat) returns (r: nat, bits: nat)
    requires 1 <= cs <= 11 && n > MAX_CODES
    ensures var text, codes := seq(n, _ => 0), Zeros(cs, n);
            && Encodes(cs, Initial(cs), text, codes) && !ShortRuns(cs, codes, 0)
            && Holds(r, bits, [Field(Clear(cs), cs + 1)] + Packed(cs, Initial(cs), text, codes))
    ensures !Expand(cs, r, bits, Start(cs)).ok
  {
    hide Initial, Packed, Encodes, ShortRuns, Expand, Width, FieldsFit, StartsWith, BitsOf, ValueOf;
    var text, codes := seq(n, _ => 0 as byte), Zeros(cs, n);
    RootZero(cs);
    ZerosEncode(cs, Initial(cs), n);
    ZerosTooLong(cs, n, 0);
    PackedFits(cs, Initial(cs), text, codes);
    var fs := [Field(Clear(cs), cs + 1)] + Packed(cs, Initial(cs), text, codes);
    ClearFits(cs, Packed(cs, Initial(cs), text, codes));
    r, bits := ValueOf(fs), BitsOf(fs);
    ShlZero(bits);
    WrittenIsRead(fs, 0);
    DecodeEncoded(cs, text, codes, r, bits);
  }

  lemma RootZero(cs: nat)
    requires 1 <= cs <= 11
    ensures Initial(cs)[0] == [0] && |Initial(cs)| <= 4096
  {
    Pow2Mono(0, cs);
    Pow2Mono(cs, 11);
    Pow2Values();
  }

  lemma ClearFits(cs: nat, fs: seq<Field>)
    requires FieldsFit(fs)
    ensures FieldsFit([Field(Clear(cs), cs + 1)] + fs)
  {
    assert Pow2(cs + 1) == 2 * Pow2(cs);
    Pow2Mono(0, cs);
  }
}
