/** The code tables the JPEG writer has built in (ITU-T T.81 Annex K.3), and that they are
    the codes of the counts and values it puts into the file. */
module JpegTables {
  import opened BitMath
  import opened Canonical
  import opened JpegBlock
  import opened JpegHuffman
  import opened JpegScan

  /** The reader accepts the counts, and its fast table misses no short code. */
  ghost predicate Loadable(c: Counts)
  {
    Total(c) <= 256 && Fits(c) && Accelerable(c)
  }

  /** Symbol k, by its code, among the codes of its length. */
  predicate InGroup(g: (nat, nat, nat), code: nat, k: nat)
  {
    g.0 <= k < g.0 + g.1 && code == g.2 + (k - g.0)
  }

  predicate InUse(run: nat, size: nat)
  {
    1 <= size <= 10 || (size == 0 && (run == 0 || run == 15))
  }

  lemma InGroupHasCode(ht: CodeTable, c: Counts, values: seq<byte>, sym: nat, k: nat)
    requires sym < 256 && Loadable(c) && |values| == 256 && 1 <= ht[sym].1 <= 16
    requires InGroup((Shorter(c, ht[sym].1), c[ht[sym].1], FirstCode(c, ht[sym].1)), ht[sym].0, k)
    requires k < |values| ==> values[k] == sym
    ensures SameCode(ht, c, values, sym)
  {
    SizeUnique(c, k, ht[sym].1);
  }

  /** The values of both DC tables. */
  function DcValues(): (v: seq<byte>)
    ensures |v| == 256
  {
    seq(256, k => if 0 <= k <= 11 then k else 0)
  }

  // ---- luminance DC ----

  function LumaDcCounts(): Counts
  {
    [0, 0, 1, 5, 1, 1, 1, 1, 1, 1, 0, 0, 0, 0, 0, 0, 0]
  }

  function LumaDcCode(sym: nat): (nat, nat)
  {
    match sym
    case 0 => (0, 2) case 1 => (2, 3) case 2 => (3, 3) case 3 => (4, 3) case 4 => (5, 3) case 5 => (6, 3)
    case 6 => (14, 4) case 7 => (30, 5) case 8 => (62, 6) case 9 => (126, 7) case 10 => (254, 8) case 11 => (510, 9)
    case _ => (0, 0)
  }

  /** The codes of length n: the first symbol, how many, the first code. */
  function LumaDcGroup(n: nat): (nat, nat, nat)
  {
    match n
    case 2 => (0, 1, 0) case 3 => (1, 5, 2) case 4 => (6, 1, 14) case 5 => (7, 1, 30) case 6 => (8, 1, 62)
    case 7 => (9, 1, 126) case 8 => (10, 1, 254) case 9 => (11, 1, 510) case _ => (0, 0, 0)
  }

  lemma LumaDcCounted(n: nat)
    ensures var c := LumaDcCounts();
            && Total(c) == 12 && Shorter(c, 10) == 12
            && (LumaDcGroup(n).1 > 0 ==> 1 <= n <= 16 && LumaDcGroup(n).0 == Shorter(c, n) && LumaDcGroup(n).1 == c[n])
  {
    var c := LumaDcCounts();
    assert Shorter(c, 1) == 0 && Shorter(c, 2) == 0 && Shorter(c, 3) == 1 && Shorter(c, 4) == 6;
    assert Shorter(c, 5) == 7 && Shorter(c, 6) == 8 && Shorter(c, 7) == 9 && Shorter(c, 8) == 10;
    assert Shorter(c, 9) == 11 && Shorter(c, 10) == 12 && Shorter(c, 11) == 12 && Shorter(c, 12) == 12;
    assert Shorter(c, 13) == 12 && Shorter(c, 14) == 12 && Shorter(c, 15) == 12 && Shorter(c, 16) == 12;
    assert Shorter(c, 17) == 12;
    hide Shorter;
    match n {
      case 2 => case 3 => case 4 => case 5 => case 6 => case 7 => case 8 => case 9 => case _ =>
    }
  }

  lemma LumaDcNumbered(n: nat)
    requires LumaDcGroup(n).1 > 0
    ensures 1 <= n <= 16 && LumaDcGroup(n).2 == FirstCode(LumaDcCounts(), n)
  {
    var c := LumaDcCounts();
    assert FirstCode(c, 1) == 0 && FirstCode(c, 2) == 0 && FirstCode(c, 3) == 2 && FirstCode(c, 4) == 14;
    assert FirstCode(c, 5) == 30 && FirstCode(c, 6) == 62 && FirstCode(c, 7) == 126 && FirstCode(c, 8) == 254;
    assert FirstCode(c, 9) == 510 && FirstCode(c, 10) == 1022 && FirstCode(c, 11) == 2044 && FirstCode(c, 12) == 4088;
    assert FirstCode(c, 13) == 8176 && FirstCode(c, 14) == 16352 && FirstCode(c, 15) == 32704
      && FirstCode(c, 16) == 65408;
    hide FirstCode;
    match n {
      case 2 => case 3 => case 4 => case 5 => case 6 => case 7 => case 8 => case 9 => case _ =>
    }
  }

  lemma LumaDcSums(n: nat)
    ensures var c := LumaDcCounts();
            && Total(c) == 12 && Shorter(c, 10) == 12
            && (LumaDcGroup(n).1 > 0 ==> 1 <= n <= 16 && LumaDcGroup(n) == (Shorter(c, n), c[n], FirstCode(c, n)))
  {
    hide Shorter, FirstCode, LumaDcCounts;
    LumaDcCounted(n);
    if LumaDcGroup(n).1 > 0 { LumaDcNumbered(n); }
  }

  lemma LumaDcLoads()
    ensures Loadable(LumaDcCounts())
  {
    hide Shorter, FirstCode, Pow2;
    LumaDcSums(0);
    Pow2Values();
    forall n | 1 <= n <= 16 ensures LengthFits(LumaDcCounts(), n) {
      LumaDcSums(n);
    }
  }

  function LumaDcTable(): CodeTable
  {
    seq(256, sym requires 0 <= sym < 256 => LumaDcCode(sym))
  }

  lemma LumaDcMatches()
    ensures DcTablesMatch(LumaDcTable(), LumaDcCounts(), DcValues()) && Loadable(LumaDcCounts())
  {
    LumaDcLoads();
    hide SameCode, Loadable, LumaDcCounts, LumaDcCode, Total, Shorter, FirstCode;
    forall sym: nat | sym <= 11 ensures SameCode(LumaDcTable(), LumaDcCounts(), DcValues(), sym) {
      LumaDcListed(sym);
    }
  }

  lemma LumaDcListed(sym: nat)
    requires sym <= 11
    ensures SameCode(LumaDcTable(), LumaDcCounts(), DcValues(), sym)
  {
    var e := LumaDcCode(sym);
    assert InGroup(LumaDcGroup(e.1), e.0, sym) by {
      match sym {
        case 0 => case 1 => case 2 => case 3 => case 4 => case 5 => case 6 => case 7 => case 8 => case 9 => case 10 =>
          case 11 =>
      }
    }
    hide LumaDcCode, LumaDcGroup, LumaDcCounts;
    LumaDcSums(e.1);
    LumaDcLoads();
    InGroupHasCode(LumaDcTable(), LumaDcCounts(), DcValues(), sym, sym);
  }

  // ---- chrominance DC ----

  function ChromaDcCounts(): Counts
  {
    [0, 0, 3, 1, 1, 1, 1, 1, 1, 1, 1, 1, 0, 0, 0, 0, 0]
  }

  function ChromaDcCode(sym: nat): (nat, nat)
  {
    match sym
    case 0 => (0, 2) case 1 => (1, 2) case 2 => (2, 2) case 3 => (6, 3) case 4 => (14, 4) case 5 => (30, 5)
    case 6 => (62, 6) case 7 => (126, 7) case 8 => (254, 8) case 9 => (510, 9) case 10 => (1022, 10)
      case 11 => (2046, 11)
    case _ => (0, 0)
  }

  /** The codes of length n: the first symbol, how many, the first code. */
  function ChromaDcGroup(n: nat): (nat, nat, nat)
  {
    match n
    case 2 => (0, 3, 0) case 3 => (3, 1, 6) case 4 => (4, 1, 14) case 5 => (5, 1, 30) case 6 => (6, 1, 62)
    case 7 => (7, 1, 126) case 8 => (8, 1, 254) case 9 => (9, 1, 510) case 10 => (10, 1, 1022) case 11 => (11, 1, 2046)
    case _ => (0, 0, 0)
  }

  lemma ChromaDcCounted(n: nat)
    ensures var c := ChromaDcCounts();
            && Total(c) == 12 && Shorter(c, 10) == 10
            && (ChromaDcGroup(n).1 > 0
                ==> 1 <= n <= 16 && ChromaDcGroup(n).0 == Shorter(c, n) && ChromaDcGroup(n).1 == c[n])
  {
    var c := ChromaDcCounts();
    assert Shorter(c, 1) == 0 && Shorter(c, 2) == 0 && Shorter(c, 3) == 3 && Shorter(c, 4) == 4;
    assert Shorter(c, 5) == 5 && Shorter(c, 6) == 6 && Shorter(c, 7) == 7 && Shorter(c, 8) == 8;
    assert Shorter(c, 9) == 9 && Shorter(c, 10) == 10 && Shorter(c, 11) == 11 && Shorter(c, 12) == 12;
    assert Shorter(c, 13) == 12 && Shorter(c, 14) == 12 && Shorter(c, 15) == 12 && Shorter(c, 16) == 12;
    assert Shorter(c, 17) == 12;
    hide Shorter;
    match n {
      case 2 => case 3 => case 4 => case 5 => case 6 => case 7 => case 8 => case 9 => case 10 => case 11 => case _ =>
    }
  }

  lemma ChromaDcNumbered(n: nat)
    requires ChromaDcGroup(n).1 > 0
    ensures 1 <= n <= 16 && ChromaDcGroup(n).2 == FirstCode(ChromaDcCounts(), n)
  {
    var c := ChromaDcCounts();
    assert FirstCode(c, 1) == 0 && FirstCode(c, 2) == 0 && FirstCode(c, 3) == 6 && FirstCode(c, 4) == 14;
    assert FirstCode(c, 5) == 30 && FirstCode(c, 6) == 62 && FirstCode(c, 7) == 126 && FirstCode(c, 8) == 254;
    assert FirstCode(c, 9) == 510 && FirstCode(c, 10) == 1022 && FirstCode(c, 11) == 2046 && FirstCode(c, 12) == 4094;
    assert FirstCode(c, 13) == 8188 && FirstCode(c, 14) == 16376 && FirstCode(c, 15) == 32752
      && FirstCode(c, 16) == 65504;
    hide FirstCode;
    match n {
      case 2 => case 3 => case 4 => case 5 => case 6 => case 7 => case 8 => case 9 => case 10 => case 11 => case _ =>
    }
  }

  lemma ChromaDcSums(n: nat)
    ensures var c := ChromaDcCounts();
            && Total(c) == 12 && Shorter(c, 10) == 10
            && (ChromaDcGroup(n).1 > 0 ==> 1 <= n <= 16 && ChromaDcGroup(n) == (Shorter(c, n), c[n], FirstCode(c, n)))
  {
    hide Shorter, FirstCode, ChromaDcCounts;
    ChromaDcCounted(n);
    if ChromaDcGroup(n).1 > 0 { ChromaDcNumbered(n); }
  }

  lemma ChromaDcLoads()
    ensures Loadable(ChromaDcCounts())
  {
    hide Shorter, FirstCode, Pow2;
    ChromaDcSums(0);
    Pow2Values();
    forall n | 1 <= n <= 16 ensures LengthFits(ChromaDcCounts(), n) {
      ChromaDcSums(n);
    }
  }

  function ChromaDcTable(): CodeTable
  {
    seq(256, sym requires 0 <= sym < 256 => ChromaDcCode(sym))
  }

  lemma ChromaDcMatches()
    ensures DcTablesMatch(ChromaDcTable(), ChromaDcCounts(), DcValues()) && Loadable(ChromaDcCounts())
  {
    ChromaDcLoads();
    hide SameCode, Loadable, ChromaDcCounts, ChromaDcCode, Total, Shorter, FirstCode;
    forall sym: nat | sym <= 11 ensures SameCode(ChromaDcTable(), ChromaDcCounts(), DcValues(), sym) {
      ChromaDcListed(sym);
    }
  }

  lemma ChromaDcListed(sym: nat)
    requires sym <= 11
    ensures SameCode(ChromaDcTable(), ChromaDcCounts(), DcValues(), sym)
  {
    var e := ChromaDcCode(sym);
    assert InGroup(ChromaDcGroup(e.1), e.0, sym) by {
      match sym {
        case 0 => case 1 => case 2 => case 3 => case 4 => case 5 => case 6 => case 7 => case 8 => case 9 => case 10 =>
          case 11 =>
      }
    }
    hide ChromaDcCode, ChromaDcGroup, ChromaDcCounts;
    ChromaDcSums(e.1);
    ChromaDcLoads();
    InGroupHasCode(ChromaDcTable(), ChromaDcCounts(), DcValues(), sym, sym);
  }

  // ---- luminance AC ----

  function LumaAcCounts(): Counts
  {
    [0, 0, 2, 1, 3, 3, 2, 4, 3, 5, 5, 4, 4, 0, 0, 1, 125]
  }

  function LumaAcValue(k: nat): byte
  {
    match k / 8
    case 0 => (match k % 8 case 0 => 0x01 case 1 => 0x02 case 2 => 0x03 case 3 => 0x00 case 4 => 0x04 case 5 => 0x11
      case 6 => 0x05 case 7 => 0x12 case _ => 0)
    case 1 => (match k % 8 case 0 => 0x21 case 1 => 0x31 case 2 => 0x41 case 3 => 0x06 case 4 => 0x13 case 5 => 0x51
      case 6 => 0x61 case 7 => 0x07 case _ => 0)
    case 2 => (match k % 8 case 0 => 0x22 case 1 => 0x71 case 2 => 0x14 case 3 => 0x32 case 4 => 0x81 case 5 => 0x91
      case 6 => 0xA1 case 7 => 0x08 case _ => 0)
    case 3 => (match k % 8 case 0 => 0x23 case 1 => 0x42 case 2 => 0xB1 case 3 => 0xC1 case 4 => 0x15 case 5 => 0x52
      case 6 => 0xD1 case 7 => 0xF0 case _ => 0)
    case 4 => (match k % 8 case 0 => 0x24 case 1 => 0x33 case 2 => 0x62 case 3 => 0x72 case 4 => 0x82 case 5 => 0x09
      case 6 => 0x0A case 7 => 0x16 case _ => 0)
    case 5 => (match k % 8 case 0 => 0x17 case 1 => 0x18 case 2 => 0x19 case 3 => 0x1A case 4 => 0x25 case 5 => 0x26
      case 6 => 0x27 case 7 => 0x28 case _ => 0)
    case 6 => (match k % 8 case 0 => 0x29 case 1 => 0x2A case 2 => 0x34 case 3 => 0x35 case 4 => 0x36 case 5 => 0x37
      case 6 => 0x38 case 7 => 0x39 case _ => 0)
    case 7 => (match k % 8 case 0 => 0x3A case 1 => 0x43 case 2 => 0x44 case 3 => 0x45 case 4 => 0x46 case 5 => 0x47
      case 6 => 0x48 case 7 => 0x49 case _ => 0)
    case 8 => (match k % 8 case 0 => 0x4A case 1 => 0x53 case 2 => 0x54 case 3 => 0x55 case 4 => 0x56 case 5 => 0x57
      case 6 => 0x58 case 7 => 0x59 case _ => 0)
    case 9 => (match k % 8 case 0 => 0x5A case 1 => 0x63 case 2 => 0x64 case 3 => 0x65 case 4 => 0x66 case 5 => 0x67
      case 6 => 0x68 case 7 => 0x69 case _ => 0)
    case 10 => (match k % 8 case 0 => 0x6A case 1 => 0x73 case 2 => 0x74 case 3 => 0x75 case 4 => 0x76 case 5 => 0x77
      case 6 => 0x78 case 7 => 0x79 case _ => 0)
    case 11 => (match k % 8 case 0 => 0x7A case 1 => 0x83 case 2 => 0x84 case 3 => 0x85 case 4 => 0x86 case 5 => 0x87
      case 6 => 0x88 case 7 => 0x89 case _ => 0)
    case 12 => (match k % 8 case 0 => 0x8A case 1 => 0x92 case 2 => 0x93 case 3 => 0x94 case 4 => 0x95 case 5 => 0x96
      case 6 => 0x97 case 7 => 0x98 case _ => 0)
    case 13 => (match k % 8 case 0 => 0x99 case 1 => 0x9A case 2 => 0xA2 case 3 => 0xA3 case 4 => 0xA4 case 5 => 0xA5
      case 6 => 0xA6 case 7 => 0xA7 case _ => 0)
    case 14 => (match k % 8 case 0 => 0xA8 case 1 => 0xA9 case 2 => 0xAA case 3 => 0xB2 case 4 => 0xB3 case 5 => 0xB4
      case 6 => 0xB5 case 7 => 0xB6 case _ => 0)
    case 15 => (match k % 8 case 0 => 0xB7 case 1 => 0xB8 case 2 => 0xB9 case 3 => 0xBA case 4 => 0xC2 case 5 => 0xC3
      case 6 => 0xC4 case 7 => 0xC5 case _ => 0)
    case 16 => (match k % 8 case 0 => 0xC6 case 1 => 0xC7 case 2 => 0xC8 case 3 => 0xC9 case 4 => 0xCA case 5 => 0xD2
      case 6 => 0xD3 case 7 => 0xD4 case _ => 0)
    case 17 => (match k % 8 case 0 => 0xD5 case 1 => 0xD6 case 2 => 0xD7 case 3 => 0xD8 case 4 => 0xD9 case 5 => 0xDA
      case 6 => 0xE1 case 7 => 0xE2 case _ => 0)
    case 18 => (match k % 8 case 0 => 0xE3 case 1 => 0xE4 case 2 => 0xE5 case 3 => 0xE6 case 4 => 0xE7 case 5 => 0xE8
      case 6 => 0xE9 case 7 => 0xEA case _ => 0)
    case 19 => (match k % 8 case 0 => 0xF1 case 1 => 0xF2 case 2 => 0xF3 case 3 => 0xF4 case 4 => 0xF5 case 5 => 0xF6
      case 6 => 0xF7 case 7 => 0xF8 case _ => 0)
    case 20 => (match k % 8 case 0 => 0xF9 case 1 => 0xFA case _ => 0)
    case _ => 0
  }

  /** The code and its length, for a run of zeros and a size. */
  function LumaAcCode(run: nat, size: nat): (nat, nat)
  {
    match run
    case 0 => (match size
      case 0 => (10, 4) case 1 => (0, 2) case 2 => (1, 2) case 3 => (4, 3) case 4 => (11, 4) case 5 => (26, 5)
      case 6 => (120, 7) case 7 => (248, 8) case 8 => (1014, 10) case 9 => (65410, 16) case 10 => (65411, 16)
        case _ => (0, 0))
    case 1 => (match size
      case 1 => (12, 4) case 2 => (27, 5) case 3 => (121, 7) case 4 => (502, 9) case 5 => (2038, 11)
        case 6 => (65412, 16)
      case 7 => (65413, 16) case 8 => (65414, 16) case 9 => (65415, 16) case 10 => (65416, 16) case _ => (0, 0))
    case 2 => (match size
      case 1 => (28, 5) case 2 => (249, 8) case 3 => (1015, 10) case 4 => (4084, 12) case 5 => (65417, 16)
        case 6 => (65418, 16)
      case 7 => (65419, 16) case 8 => (65420, 16) case 9 => (65421, 16) case 10 => (65422, 16) case _ => (0, 0))
    case 3 => (match size
      case 1 => (58, 6) case 2 => (503, 9) case 3 => (4085, 12) case 4 => (65423, 16) case 5 => (65424, 16)
        case 6 => (65425, 16)
      case 7 => (65426, 16) case 8 => (65427, 16) case 9 => (65428, 16) case 10 => (65429, 16) case _ => (0, 0))
    case 4 => (match size
      case 1 => (59, 6) case 2 => (1016, 10) case 3 => (65430, 16) case 4 => (65431, 16) case 5 => (65432, 16)
        case 6 => (65433, 16)
      case 7 => (65434, 16) case 8 => (65435, 16) case 9 => (65436, 16) case 10 => (65437, 16) case _ => (0, 0))
    case 5 => (match size
      case 1 => (122, 7) case 2 => (2039, 11) case 3 => (65438, 16) case 4 => (65439, 16) case 5 => (65440, 16)
        case 6 => (65441, 16)
      case 7 => (65442, 16) case 8 => (65443, 16) case 9 => (65444, 16) case 10 => (65445, 16) case _ => (0, 0))
    case 6 => (match size
      case 1 => (123, 7) case 2 => (4086, 12) case 3 => (65446, 16) case 4 => (65447, 16) case 5 => (65448, 16)
        case 6 => (65449, 16)
      case 7 => (65450, 16) case 8 => (65451, 16) case 9 => (65452, 16) case 10 => (65453, 16) case _ => (0, 0))
    case 7 => (match size
      case 1 => (250, 8) case 2 => (4087, 12) case 3 => (65454, 16) case 4 => (65455, 16) case 5 => (65456, 16)
        case 6 => (65457, 16)
      case 7 => (65458, 16) case 8 => (65459, 16) case 9 => (65460, 16) case 10 => (65461, 16) case _ => (0, 0))
    case 8 => (match size
      case 1 => (504, 9) case 2 => (32704, 15) case 3 => (65462, 16) case 4 => (65463, 16) case 5 => (65464, 16)
        case 6 => (65465, 16)
      case 7 => (65466, 16) case 8 => (65467, 16) case 9 => (65468, 16) case 10 => (65469, 16) case _ => (0, 0))
    case 9 => (match size
      case 1 => (505, 9) case 2 => (65470, 16) case 3 => (65471, 16) case 4 => (65472, 16) case 5 => (65473, 16)
        case 6 => (65474, 16)
      case 7 => (65475, 16) case 8 => (65476, 16) case 9 => (65477, 16) case 10 => (65478, 16) case _ => (0, 0))
    case 10 => (match size
      case 1 => (506, 9) case 2 => (65479, 16) case 3 => (65480, 16) case 4 => (65481, 16) case 5 => (65482, 16)
        case 6 => (65483, 16)
      case 7 => (65484, 16) case 8 => (65485, 16) case 9 => (65486, 16) case 10 => (65487, 16) case _ => (0, 0))
    case 11 => (match size
      case 1 => (1017, 10) case 2 => (65488, 16) case 3 => (65489, 16) case 4 => (65490, 16) case 5 => (65491, 16)
        case 6 => (65492, 16)
      case 7 => (65493, 16) case 8 => (65494, 16) case 9 => (65495, 16) case 10 => (65496, 16) case _ => (0, 0))
    case 12 => (match size
      case 1 => (1018, 10) case 2 => (65497, 16) case 3 => (65498, 16) case 4 => (65499, 16) case 5 => (65500, 16)
        case 6 => (65501, 16)
      case 7 => (65502, 16) case 8 => (65503, 16) case 9 => (65504, 16) case 10 => (65505, 16) case _ => (0, 0))
    case 13 => (match size
      case 1 => (2040, 11) case 2 => (65506, 16) case 3 => (65507, 16) case 4 => (65508, 16) case 5 => (65509, 16)
        case 6 => (65510, 16)
      case 7 => (65511, 16) case 8 => (65512, 16) case 9 => (65513, 16) case 10 => (65514, 16) case _ => (0, 0))
    case 14 => (match size
      case 1 => (65515, 16) case 2 => (65516, 16) case 3 => (65517, 16) case 4 => (65518, 16) case 5 => (65519, 16)
        case 6 => (65520, 16)
      case 7 => (65521, 16) case 8 => (65522, 16) case 9 => (65523, 16) case 10 => (65524, 16) case _ => (0, 0))
    case 15 => (match size
      case 0 => (2041, 11) case 1 => (65525, 16) case 2 => (65526, 16) case 3 => (65527, 16) case 4 => (65528, 16)
        case 5 => (65529, 16)
      case 6 => (65530, 16) case 7 => (65531, 16) case 8 => (65532, 16) case 9 => (65533, 16) case 10 => (65534, 16)
        case _ => (0, 0))
    case _ => (0, 0)
  }

  /** Where the symbol stands among the values. */
  function LumaAcPlace(run: nat, size: nat): nat
  {
    match run
    case 0 => (match size case 0 => 3 case 1 => 0 case 2 => 1 case 3 => 2 case 4 => 4 case 5 => 6 case 6 => 11
      case 7 => 15 case 8 => 23 case 9 => 37 case 10 => 38 case _ => 0)
    case 1 => (match size case 1 => 5 case 2 => 7 case 3 => 12 case 4 => 18 case 5 => 28 case 6 => 39 case 7 => 40
      case 8 => 41 case 9 => 42 case 10 => 43 case _ => 0)
    case 2 => (match size case 1 => 8 case 2 => 16 case 3 => 24 case 4 => 32 case 5 => 44 case 6 => 45 case 7 => 46
      case 8 => 47 case 9 => 48 case 10 => 49 case _ => 0)
    case 3 => (match size case 1 => 9 case 2 => 19 case 3 => 33 case 4 => 50 case 5 => 51 case 6 => 52 case 7 => 53
      case 8 => 54 case 9 => 55 case 10 => 56 case _ => 0)
    case 4 => (match size case 1 => 10 case 2 => 25 case 3 => 57 case 4 => 58 case 5 => 59 case 6 => 60 case 7 => 61
      case 8 => 62 case 9 => 63 case 10 => 64 case _ => 0)
    case 5 => (match size case 1 => 13 case 2 => 29 case 3 => 65 case 4 => 66 case 5 => 67 case 6 => 68 case 7 => 69
      case 8 => 70 case 9 => 71 case 10 => 72 case _ => 0)
    case 6 => (match size case 1 => 14 case 2 => 34 case 3 => 73 case 4 => 74 case 5 => 75 case 6 => 76 case 7 => 77
      case 8 => 78 case 9 => 79 case 10 => 80 case _ => 0)
    case 7 => (match size case 1 => 17 case 2 => 35 case 3 => 81 case 4 => 82 case 5 => 83 case 6 => 84 case 7 => 85
      case 8 => 86 case 9 => 87 case 10 => 88 case _ => 0)
    case 8 => (match size case 1 => 20 case 2 => 36 case 3 => 89 case 4 => 90 case 5 => 91 case 6 => 92 case 7 => 93
      case 8 => 94 case 9 => 95 case 10 => 96 case _ => 0)
    case 9 => (match size case 1 => 21 case 2 => 97 case 3 => 98 case 4 => 99 case 5 => 100 case 6 => 101 case 7 => 102
      case 8 => 103 case 9 => 104 case 10 => 105 case _ => 0)
    case 10 => (match size case 1 => 22 case 2 => 106 case 3 => 107 case 4 => 108 case 5 => 109 case 6 => 110
      case 7 => 111 case 8 => 112 case 9 => 113 case 10 => 114 case _ => 0)
    case 11 => (match size case 1 => 26 case 2 => 115 case 3 => 116 case 4 => 117 case 5 => 118 case 6 => 119
      case 7 => 120 case 8 => 121 case 9 => 122 case 10 => 123 case _ => 0)
    case 12 => (match size case 1 => 27 case 2 => 124 case 3 => 125 case 4 => 126 case 5 => 127 case 6 => 128
      case 7 => 129 case 8 => 130 case 9 => 131 case 10 => 132 case _ => 0)
    case 13 => (match size case 1 => 30 case 2 => 133 case 3 => 134 case 4 => 135 case 5 => 136 case 6 => 137
      case 7 => 138 case 8 => 139 case 9 => 140 case 10 => 141 case _ => 0)
    case 14 => (match size case 1 => 142 case 2 => 143 case 3 => 144 case 4 => 145 case 5 => 146 case 6 => 147
      case 7 => 148 case 8 => 149 case 9 => 150 case 10 => 151 case _ => 0)
    case 15 => (match size case 0 => 31 case 1 => 152 case 2 => 153 case 3 => 154 case 4 => 155 case 5 => 156
      case 6 => 157 case 7 => 158 case 8 => 159 case 9 => 160 case 10 => 161 case _ => 0)
    case _ => 0
  }

  /** The codes of length n: the first symbol, how many, the first code. */
  function LumaAcGroup(n: nat): (nat, nat, nat)
  {
    match n
    case 2 => (0, 2, 0) case 3 => (2, 1, 4) case 4 => (3, 3, 10) case 5 => (6, 3, 26) case 6 => (9, 2, 58)
    case 7 => (11, 4, 120) case 8 => (15, 3, 248) case 9 => (18, 5, 502) case 10 => (23, 5, 1014)
      case 11 => (28, 4, 2038)
    case 12 => (32, 4, 4084) case 15 => (36, 1, 32704) case 16 => (37, 125, 65410) case _ => (0, 0, 0)
  }

  lemma LumaAcCounted(n: nat)
    ensures var c := LumaAcCounts();
            && Total(c) == 162 && Shorter(c, 10) == 23
            && (LumaAcGroup(n).1 > 0 ==> 1 <= n <= 16 && LumaAcGroup(n).0 == Shorter(c, n) && LumaAcGroup(n).1 == c[n])
  {
    var c := LumaAcCounts();
    assert Shorter(c, 1) == 0 && Shorter(c, 2) == 0 && Shorter(c, 3) == 2 && Shorter(c, 4) == 3;
    assert Shorter(c, 5) == 6 && Shorter(c, 6) == 9 && Shorter(c, 7) == 11 && Shorter(c, 8) == 15;
    assert Shorter(c, 9) == 18 && Shorter(c, 10) == 23 && Shorter(c, 11) == 28 && Shorter(c, 12) == 32;
    assert Shorter(c, 13) == 36 && Shorter(c, 14) == 36 && Shorter(c, 15) == 36 && Shorter(c, 16) == 37;
    assert Shorter(c, 17) == 162;
    hide Shorter;
    match n {
      case 2 => case 3 => case 4 => case 5 => case 6 => case 7 => case 8 => case 9 => case 10 => case 11 => case 12 =>
        case 15 => case 16 => case _ =>
    }
  }

  lemma LumaAcNumbered(n: nat)
    requires LumaAcGroup(n).1 > 0
    ensures 1 <= n <= 16 && LumaAcGroup(n).2 == FirstCode(LumaAcCounts(), n)
  {
    var c := LumaAcCounts();
    assert FirstCode(c, 1) == 0 && FirstCode(c, 2) == 0 && FirstCode(c, 3) == 4 && FirstCode(c, 4) == 10;
    assert FirstCode(c, 5) == 26 && FirstCode(c, 6) == 58 && FirstCode(c, 7) == 120 && FirstCode(c, 8) == 248;
    assert FirstCode(c, 9) == 502 && FirstCode(c, 10) == 1014 && FirstCode(c, 11) == 2038 && FirstCode(c, 12) == 4084;
    assert FirstCode(c, 13) == 8176 && FirstCode(c, 14) == 16352 && FirstCode(c, 15) == 32704
      && FirstCode(c, 16) == 65410;
    hide FirstCode;
    match n {
      case 2 => case 3 => case 4 => case 5 => case 6 => case 7 => case 8 => case 9 => case 10 => case 11 => case 12 =>
        case 15 => case 16 => case _ =>
    }
  }

  lemma LumaAcSums(n: nat)
    ensures var c := LumaAcCounts();
            && Total(c) == 162 && Shorter(c, 10) == 23
            && (LumaAcGroup(n).1 > 0 ==> 1 <= n <= 16 && LumaAcGroup(n) == (Shorter(c, n), c[n], FirstCode(c, n)))
  {
    hide Shorter, FirstCode, LumaAcCounts;
    LumaAcCounted(n);
    if LumaAcGroup(n).1 > 0 { LumaAcNumbered(n); }
  }

  lemma LumaAcLoads()
    ensures Loadable(LumaAcCounts())
  {
    hide Shorter, FirstCode, Pow2;
    LumaAcSums(0);
    Pow2Values();
    forall n | 1 <= n <= 16 ensures LengthFits(LumaAcCounts(), n) {
      LumaAcSums(n);
    }
  }

  function LumaAcValues(): (v: seq<byte>)
    ensures |v| == 256
  {
    seq(256, k requires 0 <= k < 256 => LumaAcValue(k))
  }

  ghost predicate LumaAcOk(run: nat, size: nat)
  {
    var e, k := LumaAcCode(run, size), LumaAcPlace(run, size);
    LumaAcValue(k) == 16 * run + size && InGroup(LumaAcGroup(e.1), e.0, k)
  }

  lemma LumaAcRuns0(run: nat, size: nat)
    requires 0 <= run <= 1 && InUse(run, size)
    ensures LumaAcOk(run, size)
  {
    match run {
      case 0 =>
        match size {
          case 0 => case 1 => case 2 => case 3 => case 4 => case 5 => case 6 => case 7 => case 8 => case 9 => case 10 =>
        }
      case 1 =>
        match size {
          case 1 => case 2 => case 3 => case 4 => case 5 => case 6 => case 7 => case 8 => case 9 => case 10 =>
        }
    }
  }

  lemma LumaAcRuns2(run: nat, size: nat)
    requires 2 <= run <= 3 && InUse(run, size)
    ensures LumaAcOk(run, size)
  {
    match run {
      case 2 =>
        match size {
          case 1 => case 2 => case 3 => case 4 => case 5 => case 6 => case 7 => case 8 => case 9 => case 10 =>
        }
      case 3 =>
        match size {
          case 1 => case 2 => case 3 => case 4 => case 5 => case 6 => case 7 => case 8 => case 9 => case 10 =>
        }
    }
  }

  lemma LumaAcRuns4(run: nat, size: nat)
    requires 4 <= run <= 5 && InUse(run, size)
    ensures LumaAcOk(run, size)
  {
    match run {
      case 4 =>
        match size {
          case 1 => case 2 => case 3 => case 4 => case 5 => case 6 => case 7 => case 8 => case 9 => case 10 =>
        }
      case 5 =>
        match size {
          case 1 => case 2 => case 3 => case 4 => case 5 => case 6 => case 7 => case 8 => case 9 => case 10 =>
        }
    }
  }

  lemma LumaAcRuns6(run: nat, size: nat)
    requires 6 <= run <= 7 && InUse(run, size)
    ensures LumaAcOk(run, size)
  {
    match run {
      case 6 =>
        match size {
          case 1 => case 2 => case 3 => case 4 => case 5 => case 6 => case 7 => case 8 => case 9 => case 10 =>
        }
      case 7 =>
        match size {
          case 1 => case 2 => case 3 => case 4 => case 5 => case 6 => case 7 => case 8 => case 9 => case 10 =>
        }
    }
  }

  lemma LumaAcRuns8(run: nat, size: nat)
    requires 8 <= run <= 9 && InUse(run, size)
    ensures LumaAcOk(run, size)
  {
    match run {
      case 8 =>
        match size {
          case 1 => case 2 => case 3 => case 4 => case 5 => case 6 => case 7 => case 8 => case 9 => case 10 =>
        }
      case 9 =>
        match size {
          case 1 => case 2 => case 3 => case 4 => case 5 => case 6 => case 7 => case 8 => case 9 => case 10 =>
        }
    }
  }

  lemma LumaAcRuns10(run: nat, size: nat)
    requires 10 <= run <= 11 && InUse(run, size)
    ensures LumaAcOk(run, size)
  {
    match run {
      case 10 =>
        match size {
          case 1 => case 2 => case 3 => case 4 => case 5 => case 6 => case 7 => case 8 => case 9 => case 10 =>
        }
      case 11 =>
        match size {
          case 1 => case 2 => case 3 => case 4 => case 5 => case 6 => case 7 => case 8 => case 9 => case 10 =>
        }
    }
  }

  lemma LumaAcRuns12(run: nat, size: nat)
    requires 12 <= run <= 13 && InUse(run, size)
    ensures LumaAcOk(run, size)
  {
    match run {
      case 12 =>
        match size {
          case 1 => case 2 => case 3 => case 4 => case 5 => case 6 => case 7 => case 8 => case 9 => case 10 =>
        }
      case 13 =>
        match size {
          case 1 => case 2 => case 3 => case 4 => case 5 => case 6 => case 7 => case 8 => case 9 => case 10 =>
        }
    }
  }

  lemma LumaAcRuns14(run: nat, size: nat)
    requires 14 <= run <= 15 && InUse(run, size)
    ensures LumaAcOk(run, size)
  {
    match run {
      case 14 =>
        match size {
          case 1 => case 2 => case 3 => case 4 => case 5 => case 6 => case 7 => case 8 => case 9 => case 10 =>
        }
      case 15 =>
        match size {
          case 0 => case 1 => case 2 => case 3 => case 4 => case 5 => case 6 => case 7 => case 8 => case 9 => case 10 =>
        }
    }
  }

  lemma LumaAcSymbol(run: nat, size: nat)
    requires run < 16 && InUse(run, size)
    ensures LumaAcOk(run, size)
  {
    hide LumaAcOk;
    match run / 2 {
      case 0 => LumaAcRuns0(run, size);
      case 1 => LumaAcRuns2(run, size);
      case 2 => LumaAcRuns4(run, size);
      case 3 => LumaAcRuns6(run, size);
      case 4 => LumaAcRuns8(run, size);
      case 5 => LumaAcRuns10(run, size);
      case 6 => LumaAcRuns12(run, size);
      case 7 => LumaAcRuns14(run, size);
    }
  }

  lemma LumaAcMatches()
    ensures AcTablesMatch(LumaAcTable(), LumaAcCounts(), LumaAcValues())
    ensures Loadable(LumaAcCounts())
  {
    LumaAcLoads();
    hide LumaAcTable, LumaAcValues, LumaAcCounts, SameCode, Loadable, LumaAcOk;
    forall sym: nat | AcSymbol(sym) ensures SameCode(LumaAcTable(), LumaAcCounts(), LumaAcValues(), sym) {
      LumaAcSymbol(sym / 16, sym % 16);
      LumaAcListed(sym);
    }
  }

  lemma LumaAcListed(sym: nat)
    requires sym < 256 && LumaAcOk(sym / 16, sym % 16)
    ensures SameCode(LumaAcTable(), LumaAcCounts(), LumaAcValues(), sym)
  {
    hide LumaAcValue, LumaAcCode, LumaAcPlace, LumaAcGroup, LumaAcCounts;
    var e, k := LumaAcCode(sym / 16, sym % 16), LumaAcPlace(sym / 16, sym % 16);
    LumaAcSums(e.1);
    LumaAcLoads();
    InGroupHasCode(LumaAcTable(), LumaAcCounts(), LumaAcValues(), sym, k);
  }

  function LumaAcTable(): CodeTable
  {
    seq(256, sym requires 0 <= sym < 256 => LumaAcCode(sym / 16, sym % 16))
  }

  // ---- chrominance AC ----

  function ChromaAcCounts(): Counts
  {
    [0, 0, 2, 1, 2, 4, 4, 3, 4, 7, 5, 4, 4, 0, 1, 2, 119]
  }

  function ChromaAcValue(k: nat): byte
  {
    match k / 8
    case 0 => (match k % 8 case 0 => 0x00 case 1 => 0x01 case 2 => 0x02 case 3 => 0x03 case 4 => 0x11 case 5 => 0x04
      case 6 => 0x05 case 7 => 0x21 case _ => 0)
    case 1 => (match k % 8 case 0 => 0x31 case 1 => 0x06 case 2 => 0x12 case 3 => 0x41 case 4 => 0x51 case 5 => 0x07
      case 6 => 0x61 case 7 => 0x71 case _ => 0)
    case 2 => (match k % 8 case 0 => 0x13 case 1 => 0x22 case 2 => 0x32 case 3 => 0x81 case 4 => 0x08 case 5 => 0x14
      case 6 => 0x42 case 7 => 0x91 case _ => 0)
    case 3 => (match k % 8 case 0 => 0xA1 case 1 => 0xB1 case 2 => 0xC1 case 3 => 0x09 case 4 => 0x23 case 5 => 0x33
      case 6 => 0x52 case 7 => 0xF0 case _ => 0)
    case 4 => (match k % 8 case 0 => 0x15 case 1 => 0x62 case 2 => 0x72 case 3 => 0xD1 case 4 => 0x0A case 5 => 0x16
      case 6 => 0x24 case 7 => 0x34 case _ => 0)
    case 5 => (match k % 8 case 0 => 0xE1 case 1 => 0x25 case 2 => 0xF1 case 3 => 0x17 case 4 => 0x18 case 5 => 0x19
      case 6 => 0x1A case 7 => 0x26 case _ => 0)
    case 6 => (match k % 8 case 0 => 0x27 case 1 => 0x28 case 2 => 0x29 case 3 => 0x2A case 4 => 0x35 case 5 => 0x36
      case 6 => 0x37 case 7 => 0x38 case _ => 0)
    case 7 => (match k % 8 case 0 => 0x39 case 1 => 0x3A case 2 => 0x43 case 3 => 0x44 case 4 => 0x45 case 5 => 0x46
      case 6 => 0x47 case 7 => 0x48 case _ => 0)
    case 8 => (match k % 8 case 0 => 0x49 case 1 => 0x4A case 2 => 0x53 case 3 => 0x54 case 4 => 0x55 case 5 => 0x56
      case 6 => 0x57 case 7 => 0x58 case _ => 0)
    case 9 => (match k % 8 case 0 => 0x59 case 1 => 0x5A case 2 => 0x63 case 3 => 0x64 case 4 => 0x65 case 5 => 0x66
      case 6 => 0x67 case 7 => 0x68 case _ => 0)
    case 10 => (match k % 8 case 0 => 0x69 case 1 => 0x6A case 2 => 0x73 case 3 => 0x74 case 4 => 0x75 case 5 => 0x76
      case 6 => 0x77 case 7 => 0x78 case _ => 0)
    case 11 => (match k % 8 case 0 => 0x79 case 1 => 0x7A case 2 => 0x82 case 3 => 0x83 case 4 => 0x84 case 5 => 0x85
      case 6 => 0x86 case 7 => 0x87 case _ => 0)
    case 12 => (match k % 8 case 0 => 0x88 case 1 => 0x89 case 2 => 0x8A case 3 => 0x92 case 4 => 0x93 case 5 => 0x94
      case 6 => 0x95 case 7 => 0x96 case _ => 0)
    case 13 => (match k % 8 case 0 => 0x97 case 1 => 0x98 case 2 => 0x99 case 3 => 0x9A case 4 => 0xA2 case 5 => 0xA3
      case 6 => 0xA4 case 7 => 0xA5 case _ => 0)
    case 14 => (match k % 8 case 0 => 0xA6 case 1 => 0xA7 case 2 => 0xA8 case 3 => 0xA9 case 4 => 0xAA case 5 => 0xB2
      case 6 => 0xB3 case 7 => 0xB4 case _ => 0)
    case 15 => (match k % 8 case 0 => 0xB5 case 1 => 0xB6 case 2 => 0xB7 case 3 => 0xB8 case 4 => 0xB9 case 5 => 0xBA
      case 6 => 0xC2 case 7 => 0xC3 case _ => 0)
    case 16 => (match k % 8 case 0 => 0xC4 case 1 => 0xC5 case 2 => 0xC6 case 3 => 0xC7 case 4 => 0xC8 case 5 => 0xC9
      case 6 => 0xCA case 7 => 0xD2 case _ => 0)
    case 17 => (match k % 8 case 0 => 0xD3 case 1 => 0xD4 case 2 => 0xD5 case 3 => 0xD6 case 4 => 0xD7 case 5 => 0xD8
      case 6 => 0xD9 case 7 => 0xDA case _ => 0)
    case 18 => (match k % 8 case 0 => 0xE2 case 1 => 0xE3 case 2 => 0xE4 case 3 => 0xE5 case 4 => 0xE6 case 5 => 0xE7
      case 6 => 0xE8 case 7 => 0xE9 case _ => 0)
    case 19 => (match k % 8 case 0 => 0xEA case 1 => 0xF2 case 2 => 0xF3 case 3 => 0xF4 case 4 => 0xF5 case 5 => 0xF6
      case 6 => 0xF7 case 7 => 0xF8 case _ => 0)
    case 20 => (match k % 8 case 0 => 0xF9 case 1 => 0xFA case _ => 0)
    case _ => 0
  }

  /** The code and its length, for a run of zeros and a size. */
  function ChromaAcCode(run: nat, size: nat): (nat, nat)
  {
    match run
    case 0 => (match size
      case 0 => (0, 2) case 1 => (1, 2) case 2 => (4, 3) case 3 => (10, 4) case 4 => (24, 5) case 5 => (25, 5)
      case 6 => (56, 6) case 7 => (120, 7) case 8 => (500, 9) case 9 => (1014, 10) case 10 => (4084, 12)
        case _ => (0, 0))
    case 1 => (match size
      case 1 => (11, 4) case 2 => (57, 6) case 3 => (246, 8) case 4 => (501, 9) case 5 => (2038, 11)
        case 6 => (4085, 12)
      case 7 => (65416, 16) case 8 => (65417, 16) case 9 => (65418, 16) case 10 => (65419, 16) case _ => (0, 0))
    case 2 => (match size
      case 1 => (26, 5) case 2 => (247, 8) case 3 => (1015, 10) case 4 => (4086, 12) case 5 => (32706, 15)
        case 6 => (65420, 16)
      case 7 => (65421, 16) case 8 => (65422, 16) case 9 => (65423, 16) case 10 => (65424, 16) case _ => (0, 0))
    case 3 => (match size
      case 1 => (27, 5) case 2 => (248, 8) case 3 => (1016, 10) case 4 => (4087, 12) case 5 => (65425, 16)
        case 6 => (65426, 16)
      case 7 => (65427, 16) case 8 => (65428, 16) case 9 => (65429, 16) case 10 => (65430, 16) case _ => (0, 0))
    case 4 => (match size
      case 1 => (58, 6) case 2 => (502, 9) case 3 => (65431, 16) case 4 => (65432, 16) case 5 => (65433, 16)
        case 6 => (65434, 16)
      case 7 => (65435, 16) case 8 => (65436, 16) case 9 => (65437, 16) case 10 => (65438, 16) case _ => (0, 0))
    case 5 => (match size
      case 1 => (59, 6) case 2 => (1017, 10) case 3 => (65439, 16) case 4 => (65440, 16) case 5 => (65441, 16)
        case 6 => (65442, 16)
      case 7 => (65443, 16) case 8 => (65444, 16) case 9 => (65445, 16) case 10 => (65446, 16) case _ => (0, 0))
    case 6 => (match size
      case 1 => (121, 7) case 2 => (2039, 11) case 3 => (65447, 16) case 4 => (65448, 16) case 5 => (65449, 16)
        case 6 => (65450, 16)
      case 7 => (65451, 16) case 8 => (65452, 16) case 9 => (65453, 16) case 10 => (65454, 16) case _ => (0, 0))
    case 7 => (match size
      case 1 => (122, 7) case 2 => (2040, 11) case 3 => (65455, 16) case 4 => (65456, 16) case 5 => (65457, 16)
        case 6 => (65458, 16)
      case 7 => (65459, 16) case 8 => (65460, 16) case 9 => (65461, 16) case 10 => (65462, 16) case _ => (0, 0))
    case 8 => (match size
      case 1 => (249, 8) case 2 => (65463, 16) case 3 => (65464, 16) case 4 => (65465, 16) case 5 => (65466, 16)
        case 6 => (65467, 16)
      case 7 => (65468, 16) case 8 => (65469, 16) case 9 => (65470, 16) case 10 => (65471, 16) case _ => (0, 0))
    case 9 => (match size
      case 1 => (503, 9) case 2 => (65472, 16) case 3 => (65473, 16) case 4 => (65474, 16) case 5 => (65475, 16)
        case 6 => (65476, 16)
      case 7 => (65477, 16) case 8 => (65478, 16) case 9 => (65479, 16) case 10 => (65480, 16) case _ => (0, 0))
    case 10 => (match size
      case 1 => (504, 9) case 2 => (65481, 16) case 3 => (65482, 16) case 4 => (65483, 16) case 5 => (65484, 16)
        case 6 => (65485, 16)
      case 7 => (65486, 16) case 8 => (65487, 16) case 9 => (65488, 16) case 10 => (65489, 16) case _ => (0, 0))
    case 11 => (match size
      case 1 => (505, 9) case 2 => (65490, 16) case 3 => (65491, 16) case 4 => (65492, 16) case 5 => (65493, 16)
        case 6 => (65494, 16)
      case 7 => (65495, 16) case 8 => (65496, 16) case 9 => (65497, 16) case 10 => (65498, 16) case _ => (0, 0))
    case 12 => (match size
      case 1 => (506, 9) case 2 => (65499, 16) case 3 => (65500, 16) case 4 => (65501, 16) case 5 => (65502, 16)
        case 6 => (65503, 16)
      case 7 => (65504, 16) case 8 => (65505, 16) case 9 => (65506, 16) case 10 => (65507, 16) case _ => (0, 0))
    case 13 => (match size
      case 1 => (2041, 11) case 2 => (65508, 16) case 3 => (65509, 16) case 4 => (65510, 16) case 5 => (65511, 16)
        case 6 => (65512, 16)
      case 7 => (65513, 16) case 8 => (65514, 16) case 9 => (65515, 16) case 10 => (65516, 16) case _ => (0, 0))
    case 14 => (match size
      case 1 => (16352, 14) case 2 => (65517, 16) case 3 => (65518, 16) case 4 => (65519, 16) case 5 => (65520, 16)
        case 6 => (65521, 16)
      case 7 => (65522, 16) case 8 => (65523, 16) case 9 => (65524, 16) case 10 => (65525, 16) case _ => (0, 0))
    case 15 => (match size
      case 0 => (1018, 10) case 1 => (32707, 15) case 2 => (65526, 16) case 3 => (65527, 16) case 4 => (65528, 16)
        case 5 => (65529, 16)
      case 6 => (65530, 16) case 7 => (65531, 16) case 8 => (65532, 16) case 9 => (65533, 16) case 10 => (65534, 16)
        case _ => (0, 0))
    case _ => (0, 0)
  }

  /** Where the symbol stands among the values. */
  function ChromaAcPlace(run: nat, size: nat): nat
  {
    match run
    case 0 => (match size case 0 => 0 case 1 => 1 case 2 => 2 case 3 => 3 case 4 => 5 case 5 => 6 case 6 => 9
      case 7 => 13 case 8 => 20 case 9 => 27 case 10 => 36 case _ => 0)
    case 1 => (match size case 1 => 4 case 2 => 10 case 3 => 16 case 4 => 21 case 5 => 32 case 6 => 37 case 7 => 43
      case 8 => 44 case 9 => 45 case 10 => 46 case _ => 0)
    case 2 => (match size case 1 => 7 case 2 => 17 case 3 => 28 case 4 => 38 case 5 => 41 case 6 => 47 case 7 => 48
      case 8 => 49 case 9 => 50 case 10 => 51 case _ => 0)
    case 3 => (match size case 1 => 8 case 2 => 18 case 3 => 29 case 4 => 39 case 5 => 52 case 6 => 53 case 7 => 54
      case 8 => 55 case 9 => 56 case 10 => 57 case _ => 0)
    case 4 => (match size case 1 => 11 case 2 => 22 case 3 => 58 case 4 => 59 case 5 => 60 case 6 => 61 case 7 => 62
      case 8 => 63 case 9 => 64 case 10 => 65 case _ => 0)
    case 5 => (match size case 1 => 12 case 2 => 30 case 3 => 66 case 4 => 67 case 5 => 68 case 6 => 69 case 7 => 70
      case 8 => 71 case 9 => 72 case 10 => 73 case _ => 0)
    case 6 => (match size case 1 => 14 case 2 => 33 case 3 => 74 case 4 => 75 case 5 => 76 case 6 => 77 case 7 => 78
      case 8 => 79 case 9 => 80 case 10 => 81 case _ => 0)
    case 7 => (match size case 1 => 15 case 2 => 34 case 3 => 82 case 4 => 83 case 5 => 84 case 6 => 85 case 7 => 86
      case 8 => 87 case 9 => 88 case 10 => 89 case _ => 0)
    case 8 => (match size case 1 => 19 case 2 => 90 case 3 => 91 case 4 => 92 case 5 => 93 case 6 => 94 case 7 => 95
      case 8 => 96 case 9 => 97 case 10 => 98 case _ => 0)
    case 9 => (match size case 1 => 23 case 2 => 99 case 3 => 100 case 4 => 101 case 5 => 102 case 6 => 103
      case 7 => 104 case 8 => 105 case 9 => 106 case 10 => 107 case _ => 0)
    case 10 => (match size case 1 => 24 case 2 => 108 case 3 => 109 case 4 => 110 case 5 => 111 case 6 => 112
      case 7 => 113 case 8 => 114 case 9 => 115 case 10 => 116 case _ => 0)
    case 11 => (match size case 1 => 25 case 2 => 117 case 3 => 118 case 4 => 119 case 5 => 120 case 6 => 121
      case 7 => 122 case 8 => 123 case 9 => 124 case 10 => 125 case _ => 0)
    case 12 => (match size case 1 => 26 case 2 => 126 case 3 => 127 case 4 => 128 case 5 => 129 case 6 => 130
      case 7 => 131 case 8 => 132 case 9 => 133 case 10 => 134 case _ => 0)
    case 13 => (match size case 1 => 35 case 2 => 135 case 3 => 136 case 4 => 137 case 5 => 138 case 6 => 139
      case 7 => 140 case 8 => 141 case 9 => 142 case 10 => 143 case _ => 0)
    case 14 => (match size case 1 => 40 case 2 => 144 case 3 => 145 case 4 => 146 case 5 => 147 case 6 => 148
      case 7 => 149 case 8 => 150 case 9 => 151 case 10 => 152 case _ => 0)
    case 15 => (match size case 0 => 31 case 1 => 42 case 2 => 153 case 3 => 154 case 4 => 155 case 5 => 156
      case 6 => 157 case 7 => 158 case 8 => 159 case 9 => 160 case 10 => 161 case _ => 0)
    case _ => 0
  }

  /** The codes of length n: the first symbol, how many, the first code. */
  function ChromaAcGroup(n: nat): (nat, nat, nat)
  {
    match n
    case 2 => (0, 2, 0) case 3 => (2, 1, 4) case 4 => (3, 2, 10) case 5 => (5, 4, 24) case 6 => (9, 4, 56)
    case 7 => (13, 3, 120) case 8 => (16, 4, 246) case 9 => (20, 7, 500) case 10 => (27, 5, 1014)
      case 11 => (32, 4, 2038)
    case 12 => (36, 4, 4084) case 14 => (40, 1, 16352) case 15 => (41, 2, 32706) case 16 => (43, 119, 65416)
      case _ => (0, 0, 0)
  }

  lemma ChromaAcCounted(n: nat)
    ensures var c := ChromaAcCounts();
            && Total(c) == 162 && Shorter(c, 10) == 27
            && (ChromaAcGroup(n).1 > 0
                ==> 1 <= n <= 16 && ChromaAcGroup(n).0 == Shorter(c, n) && ChromaAcGroup(n).1 == c[n])
  {
    var c := ChromaAcCounts();
    assert Shorter(c, 1) == 0 && Shorter(c, 2) == 0 && Shorter(c, 3) == 2 && Shorter(c, 4) == 3;
    assert Shorter(c, 5) == 5 && Shorter(c, 6) == 9 && Shorter(c, 7) == 13 && Shorter(c, 8) == 16;
    assert Shorter(c, 9) == 20 && Shorter(c, 10) == 27 && Shorter(c, 11) == 32 && Shorter(c, 12) == 36;
    assert Shorter(c, 13) == 40 && Shorter(c, 14) == 40 && Shorter(c, 15) == 41 && Shorter(c, 16) == 43;
    assert Shorter(c, 17) == 162;
    hide Shorter;
    match n {
      case 2 => case 3 => case 4 => case 5 => case 6 => case 7 => case 8 => case 9 => case 10 => case 11 => case 12 =>
        case 14 => case 15 => case 16 => case _ =>
    }
  }

  lemma ChromaAcNumbered(n: nat)
    requires ChromaAcGroup(n).1 > 0
    ensures 1 <= n <= 16 && ChromaAcGroup(n).2 == FirstCode(ChromaAcCounts(), n)
  {
    var c := ChromaAcCounts();
    assert FirstCode(c, 1) == 0 && FirstCode(c, 2) == 0 && FirstCode(c, 3) == 4 && FirstCode(c, 4) == 10;
    assert FirstCode(c, 5) == 24 && FirstCode(c, 6) == 56 && FirstCode(c, 7) == 120 && FirstCode(c, 8) == 246;
    assert FirstCode(c, 9) == 500 && FirstCode(c, 10) == 1014 && FirstCode(c, 11) == 2038 && FirstCode(c, 12) == 4084;
    assert FirstCode(c, 13) == 8176 && FirstCode(c, 14) == 16352 && FirstCode(c, 15) == 32706
      && FirstCode(c, 16) == 65416;
    hide FirstCode;
    match n {
      case 2 => case 3 => case 4 => case 5 => case 6 => case 7 => case 8 => case 9 => case 10 => case 11 => case 12 =>
        case 14 => case 15 => case 16 => case _ =>
    }
  }

  lemma ChromaAcSums(n: nat)
    ensures var c := ChromaAcCounts();
            && Total(c) == 162 && Shorter(c, 10) == 27
            && (ChromaAcGroup(n).1 > 0 ==> 1 <= n <= 16 && ChromaAcGroup(n) == (Shorter(c, n), c[n], FirstCode(c, n)))
  {
    hide Shorter, FirstCode, ChromaAcCounts;
    ChromaAcCounted(n);
    if ChromaAcGroup(n).1 > 0 { ChromaAcNumbered(n); }
  }

  lemma ChromaAcLoads()
    ensures Loadable(ChromaAcCounts())
  {
    hide Shorter, FirstCode, Pow2;
    ChromaAcSums(0);
    Pow2Values();
    forall n | 1 <= n <= 16 ensures LengthFits(ChromaAcCounts(), n) {
      ChromaAcSums(n);
    }
  }

  function ChromaAcValues(): (v: seq<byte>)
    ensures |v| == 256
  {
    seq(256, k requires 0 <= k < 256 => ChromaAcValue(k))
  }

  ghost predicate ChromaAcOk(run: nat, size: nat)
  {
    var e, k := ChromaAcCode(run, size), ChromaAcPlace(run, size);
    ChromaAcValue(k) == 16 * run + size && InGroup(ChromaAcGroup(e.1), e.0, k)
  }

  lemma ChromaAcRuns0(run: nat, size: nat)
    requires 0 <= run <= 1 && InUse(run, size)
    ensures ChromaAcOk(run, size)
  {
    match run {
      case 0 =>
        match size {
          case 0 => case 1 => case 2 => case 3 => case 4 => case 5 => case 6 => case 7 => case 8 => case 9 => case 10 =>
        }
      case 1 =>
        match size {
          case 1 => case 2 => case 3 => case 4 => case 5 => case 6 => case 7 => case 8 => case 9 => case 10 =>
        }
    }
  }

  lemma ChromaAcRun2(run: nat, size: nat)
    requires run == 2 && InUse(run, size)
    ensures ChromaAcOk(run, size)
  {
    match size {
      case 1 => case 2 => case 3 => case 4 => case 5 => case 6 => case 7 => case 8 => case 9 => case 10 =>
    }
  }

  lemma ChromaAcRun3(run: nat, size: nat)
    requires run == 3 && InUse(run, size)
    ensures ChromaAcOk(run, size)
  {
    match size {
      case 1 => case 2 => case 3 => case 4 => case 5 => case 6 => case 7 => case 8 => case 9 => case 10 =>
    }
  }

  lemma ChromaAcRuns2(run: nat, size: nat)
    requires 2 <= run <= 3 && InUse(run, size)
    ensures ChromaAcOk(run, size)
  {
    hide ChromaAcOk;
    if run == 2 { ChromaAcRun2(run, size); } else { ChromaAcRun3(run, size); }
  }

  lemma ChromaAcRuns4(run: nat, size: nat)
    requires 4 <= run <= 5 && InUse(run, size)
    ensures ChromaAcOk(run, size)
  {
    match run {
      case 4 =>
        match size {
          case 1 => case 2 => case 3 => case 4 => case 5 => case 6 => case 7 => case 8 => case 9 => case 10 =>
        }
      case 5 =>
        match size {
          case 1 => case 2 => case 3 => case 4 => case 5 => case 6 => case 7 => case 8 => case 9 => case 10 =>
        }
    }
  }

  lemma ChromaAcRuns6(run: nat, size: nat)
    requires 6 <= run <= 7 && InUse(run, size)
    ensures ChromaAcOk(run, size)
  {
    match run {
      case 6 =>
        match size {
          case 1 => case 2 => case 3 => case 4 => case 5 => case 6 => case 7 => case 8 => case 9 => case 10 =>
        }
      case 7 =>
        match size {
          case 1 => case 2 => case 3 => case 4 => case 5 => case 6 => case 7 => case 8 => case 9 => case 10 =>
        }
    }
  }

  lemma ChromaAcRuns8(run: nat, size: nat)
    requires 8 <= run <= 9 && InUse(run, size)
    ensures ChromaAcOk(run, size)
  {
    match run {
      case 8 =>
        match size {
          case 1 => case 2 => case 3 => case 4 => case 5 => case 6 => case 7 => case 8 => case 9 => case 10 =>
        }
      case 9 =>
        match size {
          case 1 => case 2 => case 3 => case 4 => case 5 => case 6 => case 7 => case 8 => case 9 => case 10 =>
        }
    }
  }

  lemma ChromaAcRuns10(run: nat, size: nat)
    requires 10 <= run <= 11 && InUse(run, size)
    ensures ChromaAcOk(run, size)
  {
    match run {
      case 10 =>
        match size {
          case 1 => case 2 => case 3 => case 4 => case 5 => case 6 => case 7 => case 8 => case 9 => case 10 =>
        }
      case 11 =>
        match size {
          case 1 => case 2 => case 3 => case 4 => case 5 => case 6 => case 7 => case 8 => case 9 => case 10 =>
        }
    }
  }

  lemma ChromaAcRuns12(run: nat, size: nat)
    requires 12 <= run <= 13 && InUse(run, size)
    ensures ChromaAcOk(run, size)
  {
    match run {
      case 12 =>
        match size {
          case 1 => case 2 => case 3 => case 4 => case 5 => case 6 => case 7 => case 8 => case 9 => case 10 =>
        }
      case 13 =>
        match size {
          case 1 => case 2 => case 3 => case 4 => case 5 => case 6 => case 7 => case 8 => case 9 => case 10 =>
        }
    }
  }

  lemma ChromaAcRuns14(run: nat, size: nat)
    requires 14 <= run <= 15 && InUse(run, size)
    ensures ChromaAcOk(run, size)
  {
    match run {
      case 14 =>
        match size {
          case 1 => case 2 => case 3 => case 4 => case 5 => case 6 => case 7 => case 8 => case 9 => case 10 =>
        }
      case 15 =>
        match size {
          case 0 => case 1 => case 2 => case 3 => case 4 => case 5 => case 6 => case 7 => case 8 => case 9 => case 10 =>
        }
    }
  }

  lemma ChromaAcSymbol(run: nat, size: nat)
    requires run < 16 && InUse(run, size)
    ensures ChromaAcOk(run, size)
  {
    hide ChromaAcOk;
    match run / 2 {
      case 0 => ChromaAcRuns0(run, size);
      case 1 => ChromaAcRuns2(run, size);
      case 2 => ChromaAcRuns4(run, size);
      case 3 => ChromaAcRuns6(run, size);
      case 4 => ChromaAcRuns8(run, size);
      case 5 => ChromaAcRuns10(run, size);
      case 6 => ChromaAcRuns12(run, size);
      case 7 => ChromaAcRuns14(run, size);
    }
  }

  lemma ChromaAcMatches()
    ensures AcTablesMatch(ChromaAcTable(), ChromaAcCounts(), ChromaAcValues())
    ensures Loadable(ChromaAcCounts())
  {
    ChromaAcLoads();
    hide ChromaAcTable, ChromaAcValues, ChromaAcCounts, SameCode, Loadable, ChromaAcOk;
    forall sym: nat | AcSymbol(sym) ensures SameCode(ChromaAcTable(), ChromaAcCounts(), ChromaAcValues(), sym) {
      ChromaAcSymbol(sym / 16, sym % 16);
      ChromaAcListed(sym);
    }
  }

  lemma ChromaAcListed(sym: nat)
    requires sym < 256 && ChromaAcOk(sym / 16, sym % 16)
    ensures SameCode(ChromaAcTable(), ChromaAcCounts(), ChromaAcValues(), sym)
  {
    hide ChromaAcValue, ChromaAcCode, ChromaAcPlace, ChromaAcGroup, ChromaAcCounts;
    var e, k := ChromaAcCode(sym / 16, sym % 16), ChromaAcPlace(sym / 16, sym % 16);
    ChromaAcSums(e.1);
    ChromaAcLoads();
    InGroupHasCode(ChromaAcTable(), ChromaAcCounts(), ChromaAcValues(), sym, k);
  }

  function ChromaAcTable(): CodeTable
  {
    seq(256, sym requires 0 <= sym < 256 => ChromaAcCode(sym / 16, sym % 16))
  }

  // ---- the round trip with them ----

  /** What luminance and chrominance are coded with, for any quantisers. */
  function Luma(dequant: seq<nat>): Tables
  {
    Tables(LumaDcTable(), LumaAcTable(), LumaDcCounts(), DcValues(), LumaAcCounts(), LumaAcValues(), dequant)
  }

  function Chroma(dequant: seq<nat>): Tables
  {
    Tables(ChromaDcTable(), ChromaAcTable(), ChromaDcCounts(), DcValues(), ChromaAcCounts(), ChromaAcValues(), dequant)
  }

  lemma LoadableMeans(c: Counts)
    requires Loadable(c)
    ensures Total(c) <= 256 && Fits(c)
  {
  }

  lemma LumaMatches(dequant: seq<nat>)
    requires |dequant| == 64
    ensures Matching(Luma(dequant))
  {
    hide LumaDcTable, LumaAcTable, LumaDcCounts, LumaAcCounts, Loadable, DcTablesMatch, AcTablesMatch, Fits, Total;
    LumaDcMatches();
    LumaAcMatches();
    LoadableMeans(LumaDcCounts());
    LoadableMeans(LumaAcCounts());
  }

  lemma ChromaMatches(dequant: seq<nat>)
    requires |dequant| == 64
    ensures Matching(Chroma(dequant))
  {
    hide ChromaDcTable, ChromaAcTable, ChromaDcCounts, ChromaAcCounts, Loadable, DcTablesMatch, AcTablesMatch, Fits,
      Total;
    ChromaDcMatches();
    ChromaAcMatches();
    LoadableMeans(ChromaDcCounts());
    LoadableMeans(ChromaAcCounts());
  }

  /** A picture written with the writer's own tables is read back, whatever its blocks hold in
      baseline range, if and only if the decoder accepts its DC coefficients. */
  method RoundTrip(sub: bool, mcus: nat, blocks: seq<Zigzag>, dequantY: seq<nat>, dequantUV: seq<nat>)
    returns (ok: bool, out: seq<seq<int>>)
    requires |blocks| == McuSize(sub) * mcus && AllCodable(Units(sub, blocks)) && |dequantY| == |dequantUV| == 64
    ensures ok <==> forall i: nat | i < |blocks| ::
                      Decodable(blocks[i], if CompAt(sub, i) == 0 then dequantY else dequantUV)
    ensures ok ==> |out| == |blocks| && forall i: nat | i < |blocks| ::
              IsBlock(out[i], blocks[i], if CompAt(sub, i) == 0 then dequantY else dequantUV)
  {
    hide Matching, AllCodable, Decodable, IsBlock, CompAt, LumaDcTable, LumaAcTable, LumaDcCounts, LumaAcCounts,
      ChromaDcTable, ChromaAcTable, ChromaDcCounts, ChromaAcCounts, DcValues, LumaAcValues, ChromaAcValues;
    LumaMatches(dequantY);
    ChromaMatches(dequantUV);
    ok, out := JpegScan.RoundTrip(sub, mcus, blocks, Luma(dequantY), Chroma(dequantUV));
  }
}
