/** CRC-32 as the PNG writer computes it, by table, and what it means: the bit-by-bit
    polynomial division of the PNG Specification, section 5.5. */
module Crc32 {
  /** The polynomial, its lowest power in the highest bit. */
  const POLY: bv32 := 0xEDB88320

  function Xor(a: bv32, b: bv32): bv32
  {
    a ^ b
  }

  function Half(c: bv32): bv32
  {
    c >> 1
  }

  /** One bit of division: the low bit leaves, and takes the polynomial with it if set. */
  function Step(c: bv32): bv32
  {
    Xor(Half(c), Feedback(c))
  }

  function Feedback(c: bv32): bv32
  {
    if c & 1 == 1 then POLY else 0
  }

  /** n bits of the message enter one at a time, the low bit first. */
  function Divide(c: bv32, bits: bv32, n: nat): bv32
    decreases n
  {
    if n == 0 then c else Divide(Step(Xor(c, bits & 1)), Half(bits), n - 1)
  }

  /** The remainder after a message of bytes, starting from c. */
  function Remainder(c: bv32, s: seq<bv8>): bv32
    decreases |s|
  {
    if |s| == 0 then c else Divide(Remainder(c, s[..|s| - 1]), s[|s| - 1] as bv32, 8)
  }

  function Entry(hi: bv32, lo: bv32): bv32
  {
    match hi
    case 0 => (match lo
        case 0 => 0x00000000 case 1 => 0x77073096 case 2 => 0xEE0E612C case 3 => 0x990951BA
        case 4 => 0x076DC419 case 5 => 0x706AF48F case 6 => 0xE963A535 case 7 => 0x9E6495A3
        case 8 => 0x0EDB8832 case 9 => 0x79DCB8A4 case 10 => 0xE0D5E91E case 11 => 0x97D2D988
        case 12 => 0x09B64C2B case 13 => 0x7EB17CBD case 14 => 0xE7B82D07 case _ => 0x90BF1D91)
    case 1 => (match lo
        case 0 => 0x1DB71064 case 1 => 0x6AB020F2 case 2 => 0xF3B97148 case 3 => 0x84BE41DE
        case 4 => 0x1ADAD47D case 5 => 0x6DDDE4EB case 6 => 0xF4D4B551 case 7 => 0x83D385C7
        case 8 => 0x136C9856 case 9 => 0x646BA8C0 case 10 => 0xFD62F97A case 11 => 0x8A65C9EC
        case 12 => 0x14015C4F case 13 => 0x63066CD9 case 14 => 0xFA0F3D63 case _ => 0x8D080DF5)
    case 2 => (match lo
        case 0 => 0x3B6E20C8 case 1 => 0x4C69105E case 2 => 0xD56041E4 case 3 => 0xA2677172
        case 4 => 0x3C03E4D1 case 5 => 0x4B04D447 case 6 => 0xD20D85FD case 7 => 0xA50AB56B
        case 8 => 0x35B5A8FA case 9 => 0x42B2986C case 10 => 0xDBBBC9D6 case 11 => 0xACBCF940
        case 12 => 0x32D86CE3 case 13 => 0x45DF5C75 case 14 => 0xDCD60DCF case _ => 0xABD13D59)
    case 3 => (match lo
        case 0 => 0x26D930AC case 1 => 0x51DE003A case 2 => 0xC8D75180 case 3 => 0xBFD06116
        case 4 => 0x21B4F4B5 case 5 => 0x56B3C423 case 6 => 0xCFBA9599 case 7 => 0xB8BDA50F
        case 8 => 0x2802B89E case 9 => 0x5F058808 case 10 => 0xC60CD9B2 case 11 => 0xB10BE924
        case 12 => 0x2F6F7C87 case 13 => 0x58684C11 case 14 => 0xC1611DAB case _ => 0xB6662D3D)
    case 4 => (match lo
        case 0 => 0x76DC4190 case 1 => 0x01DB7106 case 2 => 0x98D220BC case 3 => 0xEFD5102A
        case 4 => 0x71B18589 case 5 => 0x06B6B51F case 6 => 0x9FBFE4A5 case 7 => 0xE8B8D433
        case 8 => 0x7807C9A2 case 9 => 0x0F00F934 case 10 => 0x9609A88E case 11 => 0xE10E9818
        case 12 => 0x7F6A0DBB case 13 => 0x086D3D2D case 14 => 0x91646C97 case _ => 0xE6635C01)
    case 5 => (match lo
        case 0 => 0x6B6B51F4 case 1 => 0x1C6C6162 case 2 => 0x856530D8 case 3 => 0xF262004E
        case 4 => 0x6C0695ED case 5 => 0x1B01A57B case 6 => 0x8208F4C1 case 7 => 0xF50FC457
        case 8 => 0x65B0D9C6 case 9 => 0x12B7E950 case 10 => 0x8BBEB8EA case 11 => 0xFCB9887C
        case 12 => 0x62DD1DDF case 13 => 0x15DA2D49 case 14 => 0x8CD37CF3 case _ => 0xFBD44C65)
    case 6 => (match lo
        case 0 => 0x4DB26158 case 1 => 0x3AB551CE case 2 => 0xA3BC0074 case 3 => 0xD4BB30E2
        case 4 => 0x4ADFA541 case 5 => 0x3DD895D7 case 6 => 0xA4D1C46D case 7 => 0xD3D6F4FB
        case 8 => 0x4369E96A case 9 => 0x346ED9FC case 10 => 0xAD678846 case 11 => 0xDA60B8D0
        case 12 => 0x44042D73 case 13 => 0x33031DE5 case 14 => 0xAA0A4C5F case _ => 0xDD0D7CC9)
    case 7 => (match lo
        case 0 => 0x5005713C case 1 => 0x270241AA case 2 => 0xBE0B1010 case 3 => 0xC90C2086
        case 4 => 0x5768B525 case 5 => 0x206F85B3 case 6 => 0xB966D409 case 7 => 0xCE61E49F
        case 8 => 0x5EDEF90E case 9 => 0x29D9C998 case 10 => 0xB0D09822 case 11 => 0xC7D7A8B4
        case 12 => 0x59B33D17 case 13 => 0x2EB40D81 case 14 => 0xB7BD5C3B case _ => 0xC0BA6CAD)
    case 8 => (match lo
        case 0 => 0xEDB88320 case 1 => 0x9ABFB3B6 case 2 => 0x03B6E20C case 3 => 0x74B1D29A
        case 4 => 0xEAD54739 case 5 => 0x9DD277AF case 6 => 0x04DB2615 case 7 => 0x73DC1683
        case 8 => 0xE3630B12 case 9 => 0x94643B84 case 10 => 0x0D6D6A3E case 11 => 0x7A6A5AA8
        case 12 => 0xE40ECF0B case 13 => 0x9309FF9D case 14 => 0x0A00AE27 case _ => 0x7D079EB1)
    case 9 => (match lo
        case 0 => 0xF00F9344 case 1 => 0x8708A3D2 case 2 => 0x1E01F268 case 3 => 0x6906C2FE
        case 4 => 0xF762575D case 5 => 0x806567CB case 6 => 0x196C3671 case 7 => 0x6E6B06E7
        case 8 => 0xFED41B76 case 9 => 0x89D32BE0 case 10 => 0x10DA7A5A case 11 => 0x67DD4ACC
        case 12 => 0xF9B9DF6F case 13 => 0x8EBEEFF9 case 14 => 0x17B7BE43 case _ => 0x60B08ED5)
    case 10 => (match lo
        case 0 => 0xD6D6A3E8 case 1 => 0xA1D1937E case 2 => 0x38D8C2C4 case 3 => 0x4FDFF252
        case 4 => 0xD1BB67F1 case 5 => 0xA6BC5767 case 6 => 0x3FB506DD case 7 => 0x48B2364B
        case 8 => 0xD80D2BDA case 9 => 0xAF0A1B4C case 10 => 0x36034AF6 case 11 => 0x41047A60
        case 12 => 0xDF60EFC3 case 13 => 0xA867DF55 case 14 => 0x316E8EEF case _ => 0x4669BE79)
    case 11 => (match lo
        case 0 => 0xCB61B38C case 1 => 0xBC66831A case 2 => 0x256FD2A0 case 3 => 0x5268E236
        case 4 => 0xCC0C7795 case 5 => 0xBB0B4703 case 6 => 0x220216B9 case 7 => 0x5505262F
        case 8 => 0xC5BA3BBE case 9 => 0xB2BD0B28 case 10 => 0x2BB45A92 case 11 => 0x5CB36A04
        case 12 => 0xC2D7FFA7 case 13 => 0xB5D0CF31 case 14 => 0x2CD99E8B case _ => 0x5BDEAE1D)
    case 12 => (match lo
        case 0 => 0x9B64C2B0 case 1 => 0xEC63F226 case 2 => 0x756AA39C case 3 => 0x026D930A
        case 4 => 0x9C0906A9 case 5 => 0xEB0E363F case 6 => 0x72076785 case 7 => 0x05005713
        case 8 => 0x95BF4A82 case 9 => 0xE2B87A14 case 10 => 0x7BB12BAE case 11 => 0x0CB61B38
        case 12 => 0x92D28E9B case 13 => 0xE5D5BE0D case 14 => 0x7CDCEFB7 case _ => 0x0BDBDF21)
    case 13 => (match lo
        case 0 => 0x86D3D2D4 case 1 => 0xF1D4E242 case 2 => 0x68DDB3F8 case 3 => 0x1FDA836E
        case 4 => 0x81BE16CD case 5 => 0xF6B9265B case 6 => 0x6FB077E1 case 7 => 0x18B74777
        case 8 => 0x88085AE6 case 9 => 0xFF0F6A70 case 10 => 0x66063BCA case 11 => 0x11010B5C
        case 12 => 0x8F659EFF case 13 => 0xF862AE69 case 14 => 0x616BFFD3 case _ => 0x166CCF45)
    case 14 => (match lo
        case 0 => 0xA00AE278 case 1 => 0xD70DD2EE case 2 => 0x4E048354 case 3 => 0x3903B3C2
        case 4 => 0xA7672661 case 5 => 0xD06016F7 case 6 => 0x4969474D case 7 => 0x3E6E77DB
        case 8 => 0xAED16A4A case 9 => 0xD9D65ADC case 10 => 0x40DF0B66 case 11 => 0x37D83BF0
        case 12 => 0xA9BCAE53 case 13 => 0xDEBB9EC5 case 14 => 0x47B2CF7F case _ => 0x30B5FFE9)
    case _ => (match lo
        case 0 => 0xBDBDF21C case 1 => 0xCABAC28A case 2 => 0x53B39330 case 3 => 0x24B4A3A6
        case 4 => 0xBAD03605 case 5 => 0xCDD70693 case 6 => 0x54DE5729 case 7 => 0x23D967BF
        case 8 => 0xB3667A2E case 9 => 0xC4614AB8 case 10 => 0x5D681B02 case 11 => 0x2A6F2B94
        case 12 => 0xB40BBE37 case 13 => 0xC30C8EA1 case 14 => 0x5A05DF1B case _ => 0x2D02EF8D)
  }

  /** `crc_table`. */
  function Table(i: bv32): bv32
  {
    Entry(i >> 4, i & 15)
  }

  function Steps8(c: bv32): bv32
  {
    Step(Step(Step(Step(Step(Step(Step(Step(c))))))))
  }

  lemma FeedbackXor(a: bv32, b: bv32)
    ensures Feedback(Xor(a, b)) == Xor(Feedback(a), Feedback(b))
  {
    assert (a ^ b) & 1 == (a & 1) ^ (b & 1);
    if a & 1 == 1 {
      if b & 1 == 1 { } else { assert b & 1 == 0; }
    } else {
      assert a & 1 == 0;
    }
  }

  lemma XorComm(a: bv32, b: bv32)
    ensures Xor(a, b) == Xor(b, a)
  {
  }

  lemma XorAssoc(a: bv32, b: bv32, c: bv32)
    ensures Xor(Xor(a, b), c) == Xor(a, Xor(b, c))
  {
  }

  lemma XorSwap(x: bv32, y: bv32, f: bv32, g: bv32)
    ensures Xor(Xor(x, y), Xor(f, g)) == Xor(Xor(x, f), Xor(y, g))
  {
    hide Xor;
    XorAssoc(x, y, Xor(f, g));
    XorAssoc(y, f, g);
    XorComm(y, f);
    XorAssoc(f, y, g);
    XorAssoc(x, f, Xor(y, g));
  }

  lemma HalfXor(a: bv32, b: bv32)
    ensures Half(Xor(a, b)) == Xor(Half(a), Half(b))
  {
  }

  /** The step is linear over exclusive or. */
  lemma StepXor(a: bv32, b: bv32)
    ensures Step(Xor(a, b)) == Xor(Step(a), Step(b))
  {
    hide Xor, Half, Feedback;
    HalfXor(a, b);
    FeedbackXor(a, b);
    XorSwap(Half(a), Half(b), Feedback(a), Feedback(b));
  }

  lemma StepEven(a: bv32)
    requires a & 1 == 0
    ensures Step(a) == Half(a)
  {
  }

  lemma Steps8Xor(a: bv32, b: bv32)
    ensures Steps8(Xor(a, b)) == Xor(Steps8(a), Steps8(b))
  {
    hide Step, Xor;
    var a1, b1 := Step(a), Step(b);
    var a2, b2 := Step(a1), Step(b1);
    var a3, b3 := Step(a2), Step(b2);
    var a4, b4 := Step(a3), Step(b3);
    var a5, b5 := Step(a4), Step(b4);
    var a6, b6 := Step(a5), Step(b5);
    var a7, b7 := Step(a6), Step(b6);
    StepXor(a, b);
    StepXor(a1, b1);
    StepXor(a2, b2);
    StepXor(a3, b3);
    StepXor(a4, b4);
    StepXor(a5, b5);
    StepXor(a6, b6);
    StepXor(a7, b7);
  }

  lemma Row0(lo: bv32)
    requires lo < 16
    ensures Entry(0, lo) == Xor(Entry(0, 0), Entry(0, lo))
  {
  }

  lemma Row1(lo: bv32)
    requires lo < 16
    ensures Entry(1, lo) == Xor(Entry(1, 0), Entry(0, lo))
  {
  }

  lemma Row2(lo: bv32)
    requires lo < 16
    ensures Entry(2, lo) == Xor(Entry(2, 0), Entry(0, lo))
  {
  }

  lemma Row3(lo: bv32)
    requires lo < 16
    ensures Entry(3, lo) == Xor(Entry(3, 0), Entry(0, lo))
  {
  }

  lemma Row4(lo: bv32)
    requires lo < 16
    ensures Entry(4, lo) == Xor(Entry(4, 0), Entry(0, lo))
  {
  }

  lemma Row5(lo: bv32)
    requires lo < 16
    ensures Entry(5, lo) == Xor(Entry(5, 0), Entry(0, lo))
  {
  }

  lemma Row6(lo: bv32)
    requires lo < 16
    ensures Entry(6, lo) == Xor(Entry(6, 0), Entry(0, lo))
  {
  }

  lemma Row7(lo: bv32)
    requires lo < 16
    ensures Entry(7, lo) == Xor(Entry(7, 0), Entry(0, lo))
  {
  }

  lemma Row8(lo: bv32)
    requires lo < 16
    ensures Entry(8, lo) == Xor(Entry(8, 0), Entry(0, lo))
  {
  }

  lemma Row9(lo: bv32)
    requires lo < 16
    ensures Entry(9, lo) == Xor(Entry(9, 0), Entry(0, lo))
  {
  }

  lemma Row10(lo: bv32)
    requires lo < 16
    ensures Entry(10, lo) == Xor(Entry(10, 0), Entry(0, lo))
  {
  }

  lemma Row11(lo: bv32)
    requires lo < 16
    ensures Entry(11, lo) == Xor(Entry(11, 0), Entry(0, lo))
  {
  }

  lemma Row12(lo: bv32)
    requires lo < 16
    ensures Entry(12, lo) == Xor(Entry(12, 0), Entry(0, lo))
  {
  }

  lemma Row13(lo: bv32)
    requires lo < 16
    ensures Entry(13, lo) == Xor(Entry(13, 0), Entry(0, lo))
  {
  }

  lemma Row14(lo: bv32)
    requires lo < 16
    ensures Entry(14, lo) == Xor(Entry(14, 0), Entry(0, lo))
  {
  }

  lemma RowLast(hi: bv32, lo: bv32)
    requires hi == 15 && lo < 16
    ensures Entry(hi, lo) == Xor(Entry(hi, 0), Entry(0, lo))
  {
  }

  /** The table is linear: an entry is the first of its row and the first row's of its column. */
  lemma RowXor(hi: bv32, lo: bv32)
    requires hi < 16 && lo < 16
    ensures Entry(hi, lo) == Xor(Entry(hi, 0), Entry(0, lo))
  {
    hide *;
    match hi
    case 0 => Row0(lo);
    case 1 => Row1(lo);
    case 2 => Row2(lo);
    case 3 => Row3(lo);
    case 4 => Row4(lo);
    case 5 => Row5(lo);
    case 6 => Row6(lo);
    case 7 => Row7(lo);
    case 8 => Row8(lo);
    case 9 => Row9(lo);
    case 10 => Row10(lo);
    case 11 => Row11(lo);
    case 12 => Row12(lo);
    case 13 => Row13(lo);
    case 14 => Row14(lo);
    case _ => RowLast(hi, lo);
  }

  lemma LowStart(lo: bv32)
    requires lo < 4
    ensures Entry(0, lo) == Steps8(lo)
  {
  }

  lemma LowNext(lo: bv32)
    requires 4 <= lo < 8
    ensures Entry(0, lo) == Steps8(lo)
  {
  }

  lemma LowThird(lo: bv32)
    requires 8 <= lo < 12
    ensures Entry(0, lo) == Steps8(lo)
  {
  }

  lemma LowLast(lo: bv32)
    requires 12 <= lo < 16
    ensures Entry(0, lo) == Steps8(lo)
  {
  }

  lemma HighStart(hi: bv32)
    requires hi < 8
    ensures Entry(hi, 0) == Steps8(hi << 4)
  {
  }

  lemma HighLast(hi: bv32)
    requires 8 <= hi < 16
    ensures Entry(hi, 0) == Steps8(hi << 4)
  {
  }

  lemma LowColumn(lo: bv32)
    requires lo < 16
    ensures Entry(0, lo) == Steps8(lo)
  {
    hide *;
    if lo < 4 {
      LowStart(lo);
    } else if lo < 8 {
      LowNext(lo);
    } else if lo < 12 {
      LowThird(lo);
    } else {
      LowLast(lo);
    }
  }

  lemma HighColumn(hi: bv32)
    requires hi < 16
    ensures Entry(hi, 0) == Steps8(hi << 4)
  {
    hide *;
    if hi < 8 {
      HighStart(hi);
    } else {
      HighLast(hi);
    }
  }

  lemma Nibbles(i: bv32)
    requires i < 256
    ensures i >> 4 < 16 && i & 15 < 16 && Xor((i >> 4) << 4, i & 15) == i
  {
  }

  lemma TableIs(i: bv32)
    requires i < 256
    ensures Table(i) == Steps8(i)
  {
    hide Entry, Xor, Steps8;
    var hi, lo := i >> 4, i & 15;
    Nibbles(i);
    RowXor(hi, lo);
    HighColumn(hi);
    LowColumn(lo);
    Steps8Xor(hi << 4, lo);
  }

  lemma LowBitZero(c: bv32, m: bv32)
    requires c & m == 0 && m & 1 == 1
    ensures c & 1 == 0
  {
  }

  lemma HalfZeros(c: bv32, m: bv32)
    requires c & m == 0
    ensures Half(c) & Half(m) == 0
  {
  }

  /** A word with zeros under the mask loses one of them. */
  lemma StepZeros(c: bv32, m: bv32)
    requires c & m == 0 && m & 1 == 1
    ensures Step(c) == Half(c) && Half(c) & Half(m) == 0
  {
    hide *;
    LowBitZero(c, m);
    HalfZeros(c, m);
    StepEven(c);
  }

  lemma Half8(c: bv32)
    ensures Half(Half(Half(Half(Half(Half(Half(Half(c)))))))) == c >> 8
  {
  }

  lemma Masks()
    ensures Half(0xFF) == 0x7F && Half(0x7F) == 0x3F && Half(0x3F) == 0x1F && Half(0x1F) == 0xF
    ensures Half(0xF) == 7 && Half(7) == 3 && Half(3) == 1
  {
  }

  /** Eight steps of a word whose low byte is zero shift it by a byte. */
  lemma Steps8High(c: bv32)
    requires c & 0xFF == 0
    ensures Steps8(c) == c >> 8
  {
    hide Step, Half;
    Masks();
    var c1 := Half(c);
    var c2 := Half(c1);
    var c3 := Half(c2);
    var c4 := Half(c3);
    var c5 := Half(c4);
    var c6 := Half(c5);
    var c7 := Half(c6);
    StepZeros(c, 0xFF);
    StepZeros(c1, 0x7F);
    StepZeros(c2, 0x3F);
    StepZeros(c3, 0x1F);
    StepZeros(c4, 0xF);
    StepZeros(c5, 7);
    StepZeros(c6, 3);
    StepZeros(c7, 1);
    Half8(c);
  }

  lemma SplitByte(c: bv32) returns (hi: bv32, lo: bv32)
    ensures Xor(hi, lo) == c && hi & 0xFF == 0 && hi >> 8 == c >> 8 && lo == c & 0xFF && lo < 256
  {
    hi, lo := c & 0xFFFF_FF00, c & 0xFF;
  }

  /** A byte at a time: eight steps are a shift by a byte and a look into the table. */
  lemma ByteStep(c: bv32)
    ensures Steps8(c) == Xor(c >> 8, Table(c & 0xFF))
  {
    hide *;
    var hi, lo := SplitByte(c);
    Steps8Xor(hi, lo);
    Steps8High(hi);
    TableIs(lo);
  }

  // ---- bits and bytes -----------------------------------------------------------------

  function Steps(c: bv32, n: nat): bv32
    decreases n
  {
    if n == 0 then c else Steps(Step(c), n - 1)
  }

  /** Nothing is left of the bits after n of them. */
  predicate Gone(bits: bv32, n: nat)
    decreases n
  {
    if n == 0 then bits == 0 else Gone(Half(bits), n - 1)
  }

  lemma XorZero(c: bv32)
    ensures Xor(c, 0) == c
  {
  }

  lemma LowBit(c: bv32, bits: bv32) returns (rest: bv32)
    ensures Xor(bits & 1, rest) == bits && rest & 1 == 0 && Half(rest) == Half(bits)
  {
    rest := bits & 0xFFFF_FFFE;
  }

  /** Entering the bits one at a time is entering them all and then dividing. */
  lemma {:induction false} DivideSteps(c: bv32, bits: bv32, n: nat)
    requires Gone(bits, n)
    ensures Divide(c, bits, n) == Steps(Xor(c, bits), n)
    decreases n
  {
    hide Xor, Half, Step;
    if n == 0 {
      XorZero(c);
    } else {
      var rest := LowBit(c, bits);
      XorAssoc(c, bits & 1, rest);
      StepXor(Xor(c, bits & 1), rest);
      StepEven(rest);
      DivideSteps(Step(Xor(c, bits & 1)), Half(bits), n - 1);
    }
  }

  lemma ByteGone(b: bv8)
    ensures Half(Half(Half(Half(Half(Half(Half(Half(b as bv32)))))))) == 0
  {
  }

  lemma GoneIs(bits: bv32)
    ensures Gone(bits, 8) <==> Half(Half(Half(Half(Half(Half(Half(Half(bits)))))))) == 0
  {
    hide Half;
  }

  lemma StepsIs(c: bv32)
    ensures Steps(c, 8) == Steps8(c)
  {
    hide Step;
  }

  /** One byte of the message: division bit by bit is one look into the table. */
  lemma DivideByte(c: bv32, b: bv8)
    ensures Divide(c, b as bv32, 8) == Xor(Xor(c, b as bv32) >> 8, Table(Xor(c, b as bv32) & 0xFF))
  {
    hide *;
    ByteGone(b);
    GoneIs(b as bv32);
    DivideSteps(c, b as bv32, 8);
    StepsIs(Xor(c, b as bv32));
    ByteStep(Xor(c, b as bv32));
  }

  lemma IndexOf(c: bv32, b: bv8)
    ensures Xor(c, b as bv32) >> 8 == c >> 8 && Xor(c, b as bv32) & 0xFF == (b as bv32) ^ (c & 0xFF)
  {
  }

  /** The assignment in the loop. */
  function Next(crc: bv32, b: bv8): bv32
  {
    (crc >> 8) ^ Table((b as bv32) ^ (crc & 0xFF))
  }

  lemma NextIs(crc: bv32, b: bv8)
    ensures Next(crc, b) == Xor(crc >> 8, Table((b as bv32) ^ (crc & 0xFF)))
  {
    hide Table;
  }

  lemma NextDivides(crc: bv32, b: bv8)
    ensures Next(crc, b) == Divide(crc, b as bv32, 8)
  {
    hide *;
    NextIs(crc, b);
    DivideByte(crc, b);
    IndexOf(crc, b);
  }

  /** One step, in the operators of the code: the polynomial is EDB88320. */
  lemma StepRule(c: bv32)
    ensures c & 1 == 1 ==> Step(c) == (c >> 1) ^ 0xEDB8_8320
    ensures c & 1 == 0 ==> Step(c) == c >> 1
  {
    if c & 1 == 0 {
      StepEven(c);
    } else {
      assert Feedback(c) == 0xEDB8_8320;
    }
  }

  /** Division bit by bit, as Annex D of the specification has it: a byte enters at the low end,
      and eight times the low bit leaves, taking the polynomial with it if it is set. */
  lemma BitByBit(c: bv32, s: seq<bv8>, b: bv8)
    ensures Remainder(c, []) == c
    ensures Remainder(c, s + [b]) ==
            Step(Step(Step(Step(Step(Step(Step(Step(Remainder(c, s) ^ (b as bv32)))))))))
  {
    hide Divide, Remainder, Step;
    LastByte(c, s, b);
    EightSteps(Remainder(c, s), b);
  }

  lemma LastByte(c: bv32, s: seq<bv8>, b: bv8)
    ensures Remainder(c, []) == c && Remainder(c, s + [b]) == Divide(Remainder(c, s), b as bv32, 8)
  {
    hide Divide;
    assert (s + [b])[..|s|] == s;
  }

  lemma EightSteps(r: bv32, b: bv8)
    ensures Divide(r, b as bv32, 8) == Steps8(r ^ (b as bv32))
  {
    assert Xor(r, b as bv32) == r ^ (b as bv32);
    hide *;
    ByteGone(b);
    GoneIs(b as bv32);
    DivideSteps(r, b as bv32, 8);
    StepsIs(Xor(r, b as bv32));
  }

  lemma EndByte0()
    ensures Next(0xFFFF_FFFF, 0x49) == 0x22FD_E946
  {
  }

  lemma EndByte1()
    ensures Next(0x22FD_E946, 0x45) == 0x992B_AC53
  {
  }

  lemma EndByte2()
    ensures Next(0x992B_AC53, 0x4E) == 0x639F_4775
  {
  }

  lemma EndByte3()
    ensures Next(0x639F_4775, 0x44) == 0x51BD_9F7D
  {
  }

  /** The checksum at the end of every PNG file, that of the bytes "IEND". */
  lemma EndOfFile()
    ensures !Remainder(0xFFFF_FFFF, [0x49, 0x45, 0x4E, 0x44]) == 0xAE42_6082
  {
    hide *;
    var s: seq<bv8> := [0x49, 0x45, 0x4E, 0x44];
    EndByte0();
    EndByte1();
    EndByte2();
    EndByte3();
    BitByBit(0xFFFF_FFFF, [], 0);
    var c1 := EnterByte(0xFFFF_FFFF, s, 0, 0xFFFF_FFFF);
    var c2 := EnterByte(0xFFFF_FFFF, s, 1, c1);
    var c3 := EnterByte(0xFFFF_FFFF, s, 2, c2);
    var c4 := EnterByte(0xFFFF_FFFF, s, 3, c3);
    assert s[..4] == s && s[..0] == [];
  }

  lemma EnterByte(c: bv32, s: seq<bv8>, i: nat, r: bv32) returns (r': bv32)
    requires i < |s| && r == Remainder(c, s[..i])
    ensures r' == Remainder(c, s[..i + 1]) == Next(r, s[i])
  {
    hide Next, Divide;
    assert s[..i + 1][..i] == s[..i];
    NextDivides(r, s[i]);
    r' := Next(r, s[i]);
  }

  /** `stbiw__crc32`: the table-driven loop is division of the message bit by bit, starting
      from all ones, with the remainder complemented. */
  method Crc(buffer: seq<bv8>) returns (r: bv32)
    ensures r == !Remainder(0xFFFF_FFFF, buffer)
  {
    hide Next, Divide;
    var crc: bv32 := 0xFFFF_FFFF;
    var i := 0;
    while i < |buffer|
      invariant 0 <= i <= |buffer| && crc == Remainder(0xFFFF_FFFF, buffer[..i])
    {
      assert buffer[..i + 1][..i] == buffer[..i];
      NextDivides(crc, buffer[i]);
      crc := Next(crc, buffer[i]);
      i := i + 1;
    }
    assert buffer[..i] == buffer;
    r := !crc;
  }
}
