/** Shifts, masks, little-endian values and bit reversal: the arithmetic shared by the
    codecs below. Machine words are natural numbers with explicit bounds. `x << n` is
    `Shl(x, n)`, `x >> n` is `Shr(x, n)` and `x & ((1 << n) - 1)` is `Low(x, n)`; all
    three are defined one bit at a time, so no product of two unknowns is ever needed. */
module BitMath {

  type byte = x: int | 0 <= x < 256

  function Shl(x: nat, n: nat): (r: nat)
    ensures r >= x
  {
    if n == 0 then x else 2 * Shl(x, n - 1)
  }

  function Shr(x: nat, n: nat): (r: nat)
    ensures r <= x
  {
    if n == 0 then x else Shr(x / 2, n - 1)
  }

  function Low(x: nat, n: nat): (r: nat)
    ensures r <= x
  {
    if n == 0 then 0 else x % 2 + 2 * Low(x / 2, n - 1)
  }

  function Pow2(n: nat): (p: nat)
    ensures p >= 1
  {
    Shl(1, n)
  }

  // ---- shifts -------------------------------------------------------------------------

  lemma {:induction false} ShlZero(n: nat)
    ensures Shl(0, n) == 0
  {
    if n != 0 { ShlZero(n - 1); }
  }

  lemma {:induction false} ShlAdd(x: nat, y: nat, n: nat)
    ensures Shl(x + y, n) == Shl(x, n) + Shl(y, n)
  {
    if n != 0 { ShlAdd(x, y, n - 1); }
  }

  lemma {:induction false} ShlShl(x: nat, m: nat, n: nat)
    ensures Shl(Shl(x, m), n) == Shl(x, m + n)
    decreases n
  {
    if n != 0 { ShlShl(x, m, n - 1); }
  }

  lemma ShlMono(x: nat, y: nat, n: nat)
    requires x <= y
    ensures Shl(x, n) <= Shl(y, n)
    ensures x < y ==> Shl(x, n) + Pow2(n) <= Shl(y, n)
  {
    ShlAdd(x, y - x, n);
    if x < y { ShlAdd(1, y - x - 1, n); }
  }

  lemma {:induction false} Pow2Mono(m: nat, n: nat)
    requires m <= n
    ensures Pow2(m) <= Pow2(n)
    ensures m < n ==> 2 * Pow2(m) <= Pow2(n)
    decreases n
  {
    if m < n { Pow2Mono(m, n - 1); }
  }

  lemma Pow2Values()
    ensures Pow2(0) == 1 && Pow2(1) == 2 && Pow2(2) == 4 && Pow2(3) == 8 && Pow2(4) == 16
    ensures Pow2(5) == 32 && Pow2(6) == 64 && Pow2(7) == 128 && Pow2(8) == 256 && Pow2(9) == 512
    ensures Pow2(10) == 1024 && Pow2(11) == 2048 && Pow2(12) == 4096 && Pow2(13) == 8192
    ensures Pow2(14) == 16384 && Pow2(15) == 32768 && Pow2(16) == 65536
    ensures Pow2(24) == 0x100_0000 && Pow2(32) == 0x1_0000_0000
  {
    assert Pow2(8) == 256;
    assert Pow2(16) == 65536;
    assert Pow2(24) == 0x100_0000;
  }

  lemma Shl4(x: nat)
    ensures Shl(x, 4) == 16 * x
  {
    assert Shl(x, 1) == 2 * x;
    assert Shl(x, 2) == 4 * x;
    assert Shl(x, 3) == 8 * x;
  }

  lemma Shl8(x: nat)
    ensures Shl(x, 8) == 256 * x
  {
    ShlShl(x, 4, 4);
    Shl4(x);
    Shl4(16 * x);
  }

  lemma {:induction false} ShrShr(x: nat, m: nat, n: nat)
    ensures Shr(Shr(x, m), n) == Shr(x, m + n)
  {
    if m != 0 { ShrShr(x / 2, m - 1, n); }
  }

  /** A word is its low n bits plus its high bits. */
  lemma {:induction false} Split(x: nat, n: nat)
    ensures x == Low(x, n) + Shl(Shr(x, n), n)
    ensures Low(x, n) < Pow2(n)
  {
    if n != 0 { Split(x / 2, n - 1); }
  }

  /** ... and the split is unique. */
  lemma {:induction false} Join(a: nat, b: nat, n: nat)
    requires a < Pow2(n)
    ensures Low(a + Shl(b, n), n) == a && Shr(a + Shl(b, n), n) == b
  {
    if n != 0 {
      Join(a / 2, b, n - 1);
      assert (a + Shl(b, n)) / 2 == a / 2 + Shl(b, n - 1);
      assert (a + Shl(b, n)) % 2 == a % 2;
    }
  }

  lemma {:induction false} ShlTimes(x: nat, n: nat)
    ensures Shl(x, n) == x * Pow2(n)
  {
    if n != 0 { ShlTimes(x, n - 1); }
  }

  lemma Quotient(x: nat, p: nat, q: nat, r: nat)
    requires x == r + q * p && r < p
    ensures q == x / p && r == x % p
  {
    var a := x / p;
    assert x == a * p + x % p;
    if a < q {
      RowsApart(a, q, p);
      assert false;
    } else if q < a {
      RowsApart(q, a, p);
      assert false;
    }
  }

  /** The shifts and the mask as the arithmetic they stand for. */
  lemma Arithmetic(x: nat, n: nat)
    ensures Shl(x, n) == x * Pow2(n) && Shr(x, n) == x / Pow2(n) && Low(x, n) == x % Pow2(n)
  {
    hide *;
    Split(x, n);
    ShlTimes(x, n);
    ShlTimes(Shr(x, n), n);
    Quotient(x, Pow2(n), Shr(x, n), Low(x, n));
  }

  lemma LowFits(a: nat, n: nat)
    requires a < Pow2(n)
    ensures Low(a, n) == a && Shr(a, n) == 0
  {
    ShlZero(n);
    Join(a, 0, n);
  }

  lemma ShrLess(x: nat, k: nat, n: nat)
    ensures x < Shl(k, n) <==> Shr(x, n) < k
  {
    Split(x, n);
    if Shr(x, n) < k {
      ShlMono(Shr(x, n), k, n);
    } else {
      ShlMono(k, Shr(x, n), n);
    }
  }

  /** Taking m + n bits is taking m bits and then n bits. */
  lemma {:induction false} TakeBits(x: nat, m: nat, n: nat)
    ensures Low(x, m + n) == Low(x, m) + Shl(Low(Shr(x, m), n), m)
  {
    if m != 0 { TakeBits(x / 2, m - 1, n); }
  }

  lemma LowLow(x: nat, m: nat, n: nat)
    ensures Low(Low(x, m + n), m) == Low(x, m)
    ensures Shr(Low(x, m + n), m) == Low(Shr(x, m), n)
  {
    hide *;
    TakeBits(x, m, n);
    Split(x, m);
    Join(Low(x, m), Low(Shr(x, m), n), m);
  }

  lemma HalfSum(a: nat, b: nat, m: nat)
    requires m > 0
    ensures (a + Shl(b, m)) / 2 == a / 2 + Shl(b, m - 1) && (a + Shl(b, m)) % 2 == a % 2
  {
    assert Shl(b, m) == 2 * Shl(b, m - 1);
  }

  /** Reading less than the low part of a concatenation. */
  lemma {:induction false} JoinMore(a: nat, b: nat, m: nat, n: nat)
    requires a < Pow2(m) && n <= m
    ensures Low(a + Shl(b, m), n) == Low(a, n)
    ensures Shr(a + Shl(b, m), n) == Shr(a, n) + Shl(b, m - n)
    ensures Shr(a, n) < Pow2(m - n)
    decreases n
  {
    if n == 0 {
    } else {
      HalfSum(a, b, m);
      assert a / 2 < Pow2(m - 1);
      hide Shl, Pow2;
      JoinMore(a / 2, b, m - 1, n - 1);
    }
  }

  // ---- little-endian value of a byte string -------------------------------------------

  function LE(s: seq<byte>): nat
  {
    if |s| == 0 then 0 else s[0] + 256 * LE(s[1..])
  }

  lemma {:induction false} LEConcat(a: seq<byte>, b: seq<byte>)
    ensures LE(a + b) == LE(a) + Shl(LE(b), 8 * |a|)
  {
    if |a| == 0 {
      assert a + b == b;
    } else {
      assert (a + b)[1..] == a[1..] + b;
      LEConcat(a[1..], b);
      ShlShl(LE(b), 8 * |a[1..]|, 8);
      Shl8(Shl(LE(b), 8 * |a[1..]|));
    }
  }

  lemma {:induction false} LEBound(a: seq<byte>)
    ensures LE(a) < Pow2(8 * |a|)
  {
    if |a| != 0 {
      LEBound(a[1..]);
      ShlShl(1, 8 * |a[1..]|, 8);
      Shl8(Shl(1, 8 * |a[1..]|));
    }
  }

  lemma FirstByte(s: seq<byte>)
    requires s != []
    ensures Low(LE(s), 8) == s[0] && Shr(LE(s), 8) == LE(s[1..]) && Shr(LE(s), 0) == LE(s)
  {
    Pow2Values();
    hide Shl, Pow2, Low;
    Shl8(LE(s[1..]));
    Join(s[0], LE(s[1..]), 8);
  }

  /** Byte i of the value. */
  lemma {:induction false} ByteOfLE(s: seq<byte>, i: nat)
    requires i < |s|
    ensures Low(Shr(LE(s), 8 * i), 8) == s[i]
  {
    hide *;
    FirstByte(s);
    if i != 0 {
      ByteOfLE(s[1..], i - 1);
      ShrShr(LE(s), 8, 8 * (i - 1));
    }
  }

  /** One more byte of a stream r moves to the end of the bytes before it. */
  lemma PushByte(header: seq<byte>, r: nat, b: byte, r': nat)
    requires b == Low(r, 8) && r' == Shr(r, 8)
    ensures LE(header + [b]) + Shl(r', 8 * |header + [b]|) == LE(header) + Shl(r, 8 * |header|)
  {
    hide *;
    var n := 8 * |header|;
    LEConcat(header, [b]);
    LEOne(b);
    Split(r, 8);
    ShlAdd(b, Shl(r', 8), n);
    ShlShl(r', 8, n);
  }

  lemma LEOne(b: byte)
    ensures LE([b]) == b
  {
  }

  // ---- bit reversal -------------------------------------------------------------------

  /** The low n bits of v in reverse order. */
  function Rev(v: nat, n: nat): nat
  {
    if n == 0 then 0 else Shl(v % 2, n - 1) + Rev(v / 2, n - 1)
  }

  lemma {:induction false} RevBound(v: nat, n: nat)
    ensures Rev(v, n) < Pow2(n)
  {
    if n != 0 {
      RevBound(v / 2, n - 1);
      ShlMono(v % 2, 1, n - 1);
    }
  }

  lemma {:induction false} RevSplit(v: nat, m: nat, n: nat)
    ensures Rev(v, m + n) == Shl(Rev(v, m), n) + Rev(Shr(v, m), n)
    decreases m
  {
    if m == 0 {
      ShlZero(n);
    } else {
      RevSplit(v / 2, m - 1, n);
      ShlShl(v % 2, m - 1, n);
      ShlAdd(Shl(v % 2, m - 1), Rev(v / 2, m - 1), n);
    }
  }

  /** Only the low n bits matter. */
  lemma {:induction false} RevLow(v: nat, n: nat)
    ensures Rev(Low(v, n), n) == Rev(v, n)
    decreases n
  {
    if n != 0 {
      RevLow(v / 2, n - 1);
      assert Low(v, n) / 2 == Low(v / 2, n - 1) && Low(v, n) % 2 == v % 2;
    }
  }

  /** The top s bits of the reversal of n bits are the reversal of the low s bits. */
  lemma RevTop(v: nat, s: nat, n: nat)
    requires s <= n
    ensures Shr(Rev(v, n), n - s) == Rev(v, s)
  {
    RevSplit(v, s, n - s);
    RevBound(Shr(v, s), n - s);
    Join(Rev(Shr(v, s), n - s), Rev(v, s), n - s);
  }

  lemma RevPush(w: nat, b: nat, n: nat)
    requires w < Pow2(n) && b < 2
    ensures Rev(w + Shl(b, n), n + 1) == 2 * Rev(w, n) + b
  {
    var x := w + Shl(b, n);
    RevSplit(x, n, 1);
    Join(w, b, n);
    RevLow(x, n);
    assert Rev(b, 1) == b;
  }

  /** Reversing twice restores the low n bits. */
  lemma {:induction false} RevRev(v: nat, n: nat)
    ensures Rev(Rev(v, n), n) == Low(v, n)
    decreases n
  {
    hide Shl, Shr, Pow2;
    if n != 0 {
      var b, w := v % 2, Rev(v / 2, n - 1);
      RevBound(v / 2, n - 1);
      RevPush(w, b, n - 1);
      RevRev(v / 2, n - 1);
    }
  }

  function Abs(v: int): nat
  {
    if v < 0 then -v else v
  }

  // ---- rows of equal width ------------------------------------------------------------

  lemma RowsApart(i: nat, j: nat, w: nat)
    requires i < j
    ensures i * w + w <= j * w
  {
    var d := j - i - 1;
    assert j * w == (i + 1) * w + d * w;
    assert d * w >= 0;
  }

  lemma PlaceUnique(w: nat, i: nat, c: nat, j: nat, d: nat)
    requires c < w && d < w && i * w + c == j * w + d
    ensures i == j && c == d
  {
    if i < j {
      RowsApart(i, j, w);
    } else if j < i {
      RowsApart(j, i, w);
    }
  }

  /** The offset of a row of the given size. */
  function Line(row: nat, size: nat): nat
  {
    row * size
  }

  lemma LineAdd(a: nat, b: nat, size: nat)
    ensures Line(a + b, size) == Line(a, size) + Line(b, size)
  {
  }

  lemma LineMono(a: nat, b: nat, size: nat)
    requires size > 0
    ensures Line(a, size) < Line(b, size) <==> a < b
  {
    if a < b {
      RowsApart(a, b, size);
    } else if b < a {
      RowsApart(b, a, size);
    }
  }

  // ---- sequences ----------------------------------------------------------------------

  lemma Regroup<T>(a: seq<T>, b: seq<T>, c: seq<T>)
    ensures a + b + c == a + (b + c)
  {
  }

  lemma PrefixCons<T>(a: seq<T>, b: seq<T>)
    requires |a| != 0 && |b| != 0 && a[0] == b[0] && a[1..] <= b[1..]
    ensures a <= b && b[|a|..] == b[1..][|a[1..]|..]
  {
    assert a == [a[0]] + a[1..] && b == [b[0]] + b[1..];
  }

  lemma RevZero(n: nat)
    ensures Rev(0, n) == 0
  {
    if n != 0 {
      RevZero(n - 1);
      ShlZero(n - 1);
    }
  }

  lemma DropHead<T>(a: seq<T>, b: seq<T>, c: seq<T>)
    ensures (a + b + c)[|a|..] == b + c && (a + b + c)[..|a|] == a
  {
  }
}
