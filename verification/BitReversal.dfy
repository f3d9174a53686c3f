/** The two bit reversals of the zlib code: the reader swaps ever larger groups of bits
    under masks, the writer moves one bit at a time. Both are `Rev`. */
module BitReversal {
  import opened BitMath

  function Bit(x: nat, i: nat): nat
  {
    Shr(x, i) % 2
  }

  /** Bitwise `a & b` and `a | b` on the low k bits. */
  function And(a: nat, b: nat, k: nat): nat
  {
    if k == 0 then 0 else (if a % 2 == 1 && b % 2 == 1 then 1 else 0) + 2 * And(a / 2, b / 2, k - 1)
  }

  function Or(a: nat, b: nat, k: nat): nat
  {
    if k == 0 then 0 else (if a % 2 == 1 || b % 2 == 1 then 1 else 0) + 2 * Or(a / 2, b / 2, k - 1)
  }

  lemma BitFirst(x: nat)
    ensures Bit(x, 0) == x % 2
  {
  }

  lemma BitNext(x: nat, i: nat)
    requires i > 0
    ensures Bit(x, i) == Bit(x / 2, i - 1)
  {
  }

  lemma {:induction false} AndBit(a: nat, b: nat, k: nat, i: nat)
    ensures Bit(And(a, b, k), i) == if i < k && Bit(a, i) == 1 && Bit(b, i) == 1 then 1 else 0
    decreases k
  {
    if k == 0 {
      LowFits(0, i);
    } else {
      var c := And(a, b, k);
      assert c / 2 == And(a / 2, b / 2, k - 1);
      hide Bit, And;
      if i == 0 {
        BitFirst(a);
        BitFirst(b);
        BitFirst(c);
      } else {
        BitNext(a, i);
        BitNext(b, i);
        BitNext(c, i);
        AndBit(a / 2, b / 2, k - 1, i - 1);
      }
    }
  }

  lemma {:induction false} OrBit(a: nat, b: nat, k: nat, i: nat)
    requires i < k
    ensures Bit(Or(a, b, k), i) == if Bit(a, i) == 1 || Bit(b, i) == 1 then 1 else 0
    decreases k
  {
    var c := Or(a, b, k);
    assert c / 2 == Or(a / 2, b / 2, k - 1);
    hide Bit, Or;
    if i == 0 {
      BitFirst(a);
      BitFirst(b);
      BitFirst(c);
    } else {
      BitNext(a, i);
      BitNext(b, i);
      BitNext(c, i);
      OrBit(a / 2, b / 2, k - 1, i - 1);
    }
  }

  lemma {:induction false} OrBound(a: nat, b: nat, k: nat)
    ensures Or(a, b, k) < Pow2(k)
  {
    if k != 0 { OrBound(a / 2, b / 2, k - 1); }
  }

  lemma {:induction false} ShlBit(x: nat, g: nat, i: nat)
    ensures Bit(Shl(x, g), i) == if i < g then 0 else Bit(x, i - g)
    decreases g
  {
    if g != 0 {
      var y := Shl(x, g - 1);
      assert Shl(x, g) == 2 * y;
      if i != 0 { ShlBit(x, g - 1, i - 1); }
    }
  }

  lemma {:induction false} RevBit(v: nat, n: nat, i: nat)
    requires i < n
    ensures Bit(Rev(v, n), i) == Bit(v, n - 1 - i)
    decreases n
  {
    hide Shl, Shr;
    RevBound(v / 2, n - 1);
    var lo := Rev(v / 2, n - 1);
    assert Rev(v, n) == lo + Shl(v % 2, n - 1);
    hide Rev;
    if i == n - 1 {
      Join(lo, v % 2, n - 1);
      BitFirst(v);
    } else {
      hide Bit;
      LowBit(lo, v % 2, n - 1, i);
      RevBit(v / 2, n - 1, i);
      BitNext(v, n - 1 - i);
    }
  }

  lemma {:induction false} LowBit(lo: nat, hi: nat, n: nat, i: nat)
    requires lo < Pow2(n) && i < n
    ensures Bit(lo + Shl(hi, n), i) == Bit(lo, i)
    decreases i
  {
    var x, h := lo + Shl(hi, n), Shl(hi, n - 1);
    assert x / 2 == lo / 2 + h && x % 2 == lo % 2;
    if i != 0 { LowBit(lo / 2, hi, n - 1, i - 1); }
  }

  lemma {:induction false} SameBits(x: nat, y: nat, n: nat)
    requires x < Pow2(n) && y < Pow2(n)
    requires forall i | 0 <= i < n :: Bit(x, i) == Bit(y, i)
    ensures x == y
  {
    if n != 0 {
      assert Bit(x, 0) == Bit(y, 0);
      forall i | 0 <= i < n - 1 ensures Bit(x / 2, i) == Bit(y / 2, i) {
        assert Bit(x, i + 1) == Bit(y, i + 1);
      }
      SameBits(x / 2, y / 2, n - 1);
    }
  }

  // ---- the reader's mask swap ---------------------------------------------------------

  /** One line of the mask swap: `((n & hi) >> g) | ((n & lo) << g)`. */
  function SwapGroups(n: nat, hi: nat, lo: nat, g: nat): nat
  {
    Or(Shr(And(n, hi, 16), g), Shl(And(n, lo, 16), g), 16)
  }

  function BitReverse16(n: nat): nat
  {
    var n := SwapGroups(n, 0xAAAA, 0x5555, 1);
    var n := SwapGroups(n, 0xCCCC, 0x3333, 2);
    var n := SwapGroups(n, 0xF0F0, 0x0F0F, 4);
    SwapGroups(n, 0xFF00, 0x00FF, 8)
  }

  function BitReverse(v: nat, bits: nat): nat
    requires bits <= 16
  {
    Shr(BitReverse16(v), 16 - bits)
  }

  /** Which bit a line of the mask swap brings to place i. */
  lemma SwapGroupsBit(n: nat, hi: nat, lo: nat, g: nat, i: nat)
    requires i < 16
    ensures Bit(SwapGroups(n, hi, lo, g), i) ==
            if i + g < 16 && Bit(n, i + g) == 1 && Bit(hi, i + g) == 1 then 1
            else if i >= g && Bit(n, i - g) == 1 && Bit(lo, i - g) == 1 then 1 else 0
  {
    var a, b := And(n, hi, 16), And(n, lo, 16);
    OrBit(Shr(a, g), Shl(b, g), 16, i);
    ShrShr(a, g, i);
    AndBit(n, hi, 16, i + g);
    ShlBit(b, g, i);
    if i >= g { AndBit(n, lo, 16, i - g); }
  }

  lemma NibbleBit(x: nat, i: nat)
    requires i < 4
    ensures Bit(x, i) == (if i == 0 then x else if i == 1 then x / 2 else if i == 2 then (x / 2) / 2
                          else ((x / 2) / 2) / 2) % 2
  {
    if i == 1 {
      assert Shr(x, 1) == Shr(x / 2, 0);
    } else if i == 2 {
      assert Shr(x, 2) == Shr(x / 2, 1) == Shr((x / 2) / 2, 0);
    } else if i == 3 {
      assert Shr(x, 3) == Shr(x / 2, 2);
      assert Shr(x / 2, 2) == Shr((x / 2) / 2, 1) == Shr(((x / 2) / 2) / 2, 0);
    }
  }

  lemma PushNibble(x: nat, d: nat, i: nat)
    requires d < 16
    ensures Bit(16 * x + d, i) == if i < 4 then Bit(d, i) else Bit(x, i - 4)
  {
    Shl4(x);
    Pow2Values();
    if i < 4 {
      LowBit(d, x, 4, i);
    } else {
      Join(d, x, 4);
      ShrShr(16 * x + d, 4, i - 4);
    }
  }

  /** Bit i of a word written as four hexadecimal digits. */
  lemma HexBit(d3: nat, d2: nat, d1: nat, d0: nat, i: nat)
    requires d3 < 16 && d2 < 16 && d1 < 16 && d0 < 16 && i < 16
    ensures Bit(16 * (16 * (16 * d3 + d2) + d1) + d0, i) ==
            Bit(if i < 4 then d0 else if i < 8 then d1 else if i < 12 then d2 else d3, i % 4)
  {
    hide Bit;
    PushNibble(16 * (16 * d3 + d2) + d1, d0, i);
    if i >= 4 {
      PushNibble(16 * d3 + d2, d1, i - 4);
      if i >= 8 { PushNibble(d3, d2, i - 8); }
    }
  }

  lemma SwapUp(n: nat, hi: nat, lo: nat, g: nat, i: nat)
    requires i + g < 16
    requires Bit(hi, i + g) == 1 && (i >= g ==> Bit(lo, i - g) == 0)
    ensures Bit(SwapGroups(n, hi, lo, g), i) == Bit(n, i + g)
  {
    SwapGroupsBit(n, hi, lo, g, i);
  }

  lemma SwapDown(n: nat, hi: nat, lo: nat, g: nat, i: nat)
    requires g <= i < 16
    requires Bit(lo, i - g) == 1 && (i + g < 16 ==> Bit(hi, i + g) == 0)
    ensures Bit(SwapGroups(n, hi, lo, g), i) == Bit(n, i - g)
  {
    SwapGroupsBit(n, hi, lo, g, i);
  }

  /** Bit j of the hexadecimal digits of the masks. */
  lemma MaskDigits(j: nat)
    requires j < 4
    ensures Bit(0, j) == 0 && Bit(15, j) == 1
    ensures Bit(10, j) == j % 2 && Bit(5, j) == 1 - j % 2
    ensures Bit(12, j) == j / 2 && Bit(3, j) == 1 - j / 2
  {
    hide Bit;
    NibbleBit(0, j);
    NibbleBit(15, j);
    NibbleBit(10, j);
    NibbleBit(5, j);
    NibbleBit(12, j);
    NibbleBit(3, j);
  }

  // The masks select alternate groups of 1, 2, 4 and 8 bits.

  lemma Mask1Bit(i: nat)
    requires i < 16
    ensures Bit(0xAAAA, i) == (i / 1) % 2 && Bit(0x5555, i) == 1 - (i / 1) % 2
  {
    hide Bit;
    HexBit(10, 10, 10, 10, i);
    HexBit(5, 5, 5, 5, i);
    MaskDigits(i % 4);
  }

  lemma Mask2Bit(i: nat)
    requires i < 16
    ensures Bit(0xCCCC, i) == (i / 2) % 2 && Bit(0x3333, i) == 1 - (i / 2) % 2
  {
    hide Bit;
    HexBit(12, 12, 12, 12, i);
    HexBit(3, 3, 3, 3, i);
    MaskDigits(i % 4);
  }

  lemma Mask4Bit(i: nat)
    requires i < 16
    ensures Bit(0xF0F0, i) == (i / 4) % 2 && Bit(0x0F0F, i) == 1 - (i / 4) % 2
  {
    hide Bit;
    HexBit(15, 0, 15, 0, i);
    HexBit(0, 15, 0, 15, i);
    MaskDigits(i % 4);
  }

  lemma Mask8Bit(i: nat)
    requires i < 16
    ensures Bit(0xFF00, i) == (i / 8) % 2 && Bit(0x00FF, i) == 1 - (i / 8) % 2
  {
    hide Bit;
    HexBit(15, 15, 0, 0, i);
    HexBit(0, 0, 15, 15, i);
    MaskDigits(i % 4);
  }

  // Each line of the mask swap exchanges neighbouring groups of g bits.

  /** The next group on either side is of the other kind. */
  lemma NextGroup(i: nat, g: nat)
    requires g == 1 || g == 2 || g == 4 || g == 8
    ensures ((i + g) / g) % 2 == 1 - (i / g) % 2
    ensures i >= g ==> ((i - g) / g) % 2 == 1 - (i / g) % 2
  {
    assert (i + g) / g == i / g + 1;
    if i >= g { assert (i - g) / g == i / g - 1; }
  }

  function Partner1(i: nat): (j: nat)
    requires i < 16
    ensures j < 16
  {
    if (i / 1) % 2 == 0 then i + 1 else i - 1
  }

  lemma Swap1(n: nat, i: nat)
    requires i < 16
    ensures Bit(SwapGroups(n, 0xAAAA, 0x5555, 1), i) == Bit(n, Partner1(i))
  {
    hide Bit, SwapGroups;
    NextGroup(i, 1);
    if (i / 1) % 2 == 0 {
      Mask1Bit(i + 1);
      if i >= 1 { Mask1Bit(i - 1); }
      SwapUp(n, 0xAAAA, 0x5555, 1, i);
    } else {
      if i + 1 < 16 { Mask1Bit(i + 1); }
      Mask1Bit(i - 1);
      SwapDown(n, 0xAAAA, 0x5555, 1, i);
    }
  }

  function Partner2(i: nat): (j: nat)
    requires i < 16
    ensures j < 16
  {
    if (i / 2) % 2 == 0 then i + 2 else i - 2
  }

  lemma Swap2(n: nat, i: nat)
    requires i < 16
    ensures Bit(SwapGroups(n, 0xCCCC, 0x3333, 2), i) == Bit(n, Partner2(i))
  {
    hide Bit, SwapGroups;
    NextGroup(i, 2);
    if (i / 2) % 2 == 0 {
      Mask2Bit(i + 2);
      if i >= 2 { Mask2Bit(i - 2); }
      SwapUp(n, 0xCCCC, 0x3333, 2, i);
    } else {
      if i + 2 < 16 { Mask2Bit(i + 2); }
      Mask2Bit(i - 2);
      SwapDown(n, 0xCCCC, 0x3333, 2, i);
    }
  }

  function Partner4(i: nat): (j: nat)
    requires i < 16
    ensures j < 16
  {
    if (i / 4) % 2 == 0 then i + 4 else i - 4
  }

  lemma Swap4(n: nat, i: nat)
    requires i < 16
    ensures Bit(SwapGroups(n, 0xF0F0, 0x0F0F, 4), i) == Bit(n, Partner4(i))
  {
    hide Bit, SwapGroups;
    NextGroup(i, 4);
    if (i / 4) % 2 == 0 {
      Mask4Bit(i + 4);
      if i >= 4 { Mask4Bit(i - 4); }
      SwapUp(n, 0xF0F0, 0x0F0F, 4, i);
    } else {
      if i + 4 < 16 { Mask4Bit(i + 4); }
      Mask4Bit(i - 4);
      SwapDown(n, 0xF0F0, 0x0F0F, 4, i);
    }
  }

  function Partner8(i: nat): (j: nat)
    requires i < 16
    ensures j < 16
  {
    if (i / 8) % 2 == 0 then i + 8 else i - 8
  }

  lemma Swap8(n: nat, i: nat)
    requires i < 16
    ensures Bit(SwapGroups(n, 0xFF00, 0x00FF, 8), i) == Bit(n, Partner8(i))
  {
    hide Bit, SwapGroups;
    NextGroup(i, 8);
    if (i / 8) % 2 == 0 {
      Mask8Bit(i + 8);
      SwapUp(n, 0xFF00, 0x00FF, 8, i);
    } else {
      Mask8Bit(i - 8);
      SwapDown(n, 0xFF00, 0x00FF, 8, i);
    }
  }

  lemma PartnersReverse(i: nat)
    requires i < 16
    ensures Partner1(Partner2(Partner4(Partner8(i)))) == 15 - i
  {
  }

  lemma BitReverse16Bit(n: nat, i: nat)
    requires i < 16
    ensures Bit(BitReverse16(n), i) == Bit(n, 15 - i)
  {
    var n1 := SwapGroups(n, 0xAAAA, 0x5555, 1);
    var n2 := SwapGroups(n1, 0xCCCC, 0x3333, 2);
    var n3 := SwapGroups(n2, 0xF0F0, 0x0F0F, 4);
    Swap8(n3, i);
    Swap4(n2, Partner8(i));
    Swap2(n1, Partner4(Partner8(i)));
    Swap1(n, Partner2(Partner4(Partner8(i))));
    PartnersReverse(i);
  }

  /** The mask swap reverses the low `bits` bits of any word. */
  lemma BitReverseIsRev(v: nat, bits: nat)
    requires bits <= 16
    ensures BitReverse(v, bits) == Rev(v, bits)
  {
    forall i | 0 <= i < 16 ensures Bit(BitReverse16(v), i) == Bit(Rev(v, 16), i) {
      BitReverse16Bit(v, i);
      RevBit(v, 16, i);
    }
    var n3 := SwapGroups(SwapGroups(SwapGroups(v, 0xAAAA, 0x5555, 1), 0xCCCC, 0x3333, 2), 0xF0F0, 0x0F0F, 4);
    OrBound(Shr(And(n3, 0xFF00, 16), 8), Shl(And(n3, 0x00FF, 16), 8), 16);
    RevBound(v, 16);
    SameBits(BitReverse16(v), Rev(v, 16), 16);
    RevTop(v, bits, 16);
  }

  // ---- the writer's loop --------------------------------------------------------------

  /** `stbiw__zlib_bitrev`: shift one bit out of the code and into the result. */
  method BitRev(code: nat, codebits: nat) returns (res: nat)
    ensures res == Rev(code, codebits)
    ensures codebits <= 16 ==> res == BitReverse(code, codebits)
  {
    res := 0;
    var c, left := code, codebits;
    while left != 0
      invariant 0 <= left <= codebits
      invariant c == Shr(code, codebits - left)
      invariant res == Rev(code, codebits - left)
    {
      RevSplit(code, codebits - left, 1);
      ShrShr(code, codebits - left, 1);
      assert Rev(c, 1) == c % 2;
      left := left - 1;
      res := 2 * res + c % 2;
      c := c / 2;
    }
    if codebits <= 16 { BitReverseIsRev(code, codebits); }
  }
}
