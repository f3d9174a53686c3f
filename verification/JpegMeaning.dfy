/** What the JPEG reader makes of the bits of a block, for every table it accepts and every bit
    stream: one symbol after the other, each found by `Lookup`. */
module JpegMeaning {
  import opened BitMath
  import opened Canonical
  import opened JpegHuffman
  import opened JpegLookup
  import opened JpegBlock

  /** The conversion to short. */
  function Short(x: int): int
  {
    (x + 0x8000) % 0x1_0000 - 0x8000
  }

  predicate FitsShort(x: int)
  {
    -0x8000 <= x <= 0x7FFF
  }

  /** The DC coefficient is an int and its product a short, as the decoder demands. */
  predicate DcFits(dc: int, q: nat)
  {
    -0x8000_0000 <= dc <= 0x7FFF_FFFF && FitsShort(dc * q)
  }

  // ---- AC coefficients ----------------------------------------------------------------

  /** What one symbol does: the block goes on at position k, or it ends, or there is no symbol.
      It takes `used` bits, after which the stream is v. */
  datatype Step = Go(k: nat, data: seq<int>, v: nat, used: nat) | End(v: nat, used: nat) | Wrong

  /** A coefficient times its dequantiser, put in its place. From position 64 on this is the last
      one, for runs that leave the block. */
  function Put(data: seq<int>, q: nat, x: int, dequant: seq<nat>): (r: seq<int>)
    requires |data| == |dequant| == 64 && q < 64 + 15
    ensures |r| == 64
  {
    data[Dezigzag(q) := Short(x * dequant[Dezigzag(q)])]
  }

  /** Symbol rs, whose code has n bits. */
  function SymbolStep(rs: byte, n: nat, dequant: seq<nat>, v: nat, k: nat, data: seq<int>): (s: Step)
    requires |data| == |dequant| == 64 && 1 <= k < 64
    ensures s.Go? ==> s.k > k && |s.data| == 64
  {
    var r, b, rest := rs / 16, rs % 16, Shr(v, n);
    if rs == ZRL then Go(k + 16, data, rest, n)
    else if b == 0 then End(rest, n)
    else Go(k + r + 1, Put(data, k + r, Extend(Rev(rest, b), b), dequant), Shr(rest, b), n + b)
  }

  function AcStep(c: Counts, values: seq<byte>, dequant: seq<nat>, v: nat, k: nat, data: seq<int>): (s: Step)
    requires Total(c) <= 256 && |values| == 256 && |data| == |dequant| == 64 && 1 <= k < 64
    ensures s.Go? ==> s.k > k && |s.data| == 64
  {
    match Lookup(c, v)
    case Nothing => Wrong
    case Symbol(j, n) => if 0 <= j < 256 then SymbolStep(values[j], n, dequant, v, k, data) else Wrong
  }

  /** The block that the symbols make, what follows it, and how many of the bits that are sure
      are left; or that a symbol is wrong; or that the sure bits end before. */
  datatype Meaning = Done(data: seq<int>, v: nat, sure: nat) | Bad | Unsure

  function AcMeaning(c: Counts, values: seq<byte>, dequant: seq<nat>, v: nat, sure: nat, k: nat, data: seq<int>)
    : (m: Meaning)
    requires Total(c) <= 256 && |values| == 256 && |data| == |dequant| == 64 && 1 <= k
    ensures m.Done? ==> |m.data| == 64
    decreases 64 - k
  {
    if k >= 64 then Done(data, v, sure)
    else
      match AcStep(c, values, dequant, v, k, data)
      case Wrong => Bad
      case End(v', used) => if used > sure then Unsure else Done(data, v', sure - used)
      case Go(k', data', v', used) =>
        if used > sure then Unsure else AcMeaning(c, values, dequant, v', sure - used, k', data')
  }

  // ---- the whole block ----------------------------------------------------------------

  /** The DC coefficient's difference from the prediction. */
  datatype DcResult = Dc(diff: int, v: nat, sure: nat) | BadDc | UnsureDc

  function DcMeaning(c: Counts, values: seq<byte>, v: nat, sure: nat): DcResult
    requires Total(c) <= 256 && |values| == 256
  {
    match Lookup(c, v)
    case Nothing => BadDc
    case Symbol(j, n) =>
      if !(0 <= j < 256) then BadDc
      else
        var t, rest := values[j], Shr(v, n);
        if n > sure then UnsureDc
        else if t > 15 then BadDc
        else if t == 0 then Dc(0, rest, sure - n)
        else if n + t > sure then UnsureDc
        else Dc(Extend(Rev(rest, t), t), Shr(rest, t), sure - n - t)
  }

  /** A block of which only the DC coefficient is known. */
  function OnlyDc(x: int): (data: seq<int>)
    ensures |data| == 64
  {
    seq(64, i => if i == 0 then x else 0)
  }

  /** What the bits of a block mean when its DC coefficient is dc. */
  function BlockFrom(cac: Counts, vac: seq<byte>, dequant: seq<nat>, dc: int, v: nat, sure: nat): Meaning
    requires Total(cac) <= 256 && |vac| == 256 && |dequant| == 64
  {
    if DcFits(dc, dequant[0]) then AcMeaning(cac, vac, dequant, v, sure, 1, OnlyDc(Short(dc * dequant[0]))) else Bad
  }

  function BlockMeaning(cdc: Counts, vdc: seq<byte>, cac: Counts, vac: seq<byte>, dequant: seq<nat>, dc_pred: int,
                        v: nat, sure: nat): Meaning
    requires Total(cdc) <= 256 && Total(cac) <= 256 && |vdc| == |vac| == 256 && |dequant| == 64
  {
    match DcMeaning(cdc, vdc, v, sure)
    case BadDc => Bad
    case UnsureDc => Unsure
    case Dc(diff, v', sure') => BlockFrom(cac, vac, dequant, dc_pred + diff, v', sure')
  }

  /** A symbol that the stream starts with is found, if the tables can find it. */
  lemma FoundIs(c: Counts, v: nat, j: nat, n: nat)
    requires Total(c) <= 256 && Starts(c, j, n, v) && Findable(c, j)
    ensures Lookup(c, v) == Symbol(j, n)
  {
    NotMissed(c, v, j, n);
    LookupRight(c, v);
    hide Starts, Lookup;
    var f := Lookup(c, v);
    if f.Symbol? { StartsUnique(c, j, n, f.k, f.n, v); }
  }
}
