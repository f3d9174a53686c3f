/** A scan of interleaved components through the JPEG writer and back through the reader. */
module JpegScan {
  import opened BitMath
  import opened Canonical
  import opened Deflate
  import opened JpegHuffman
  import opened JpegFastAc
  import opened JpegBlock
  import opened JpegMeaning
  import opened JpegCoded
  import opened JpegReader
  import opened JpegDecode
  import opened JpegWriter

  /** What a component is coded with: the writer's code tables, the counts and symbols the
      reader is given for them, and the quantiser. */
  datatype Tables = Tables(dct: CodeTable, act: CodeTable, cdc: Counts, vdc: seq<byte>, cac: Counts, vac: seq<byte>,
                           dequant: seq<nat>)

  /** A block and the component it belongs to. */
  datatype Unit = Unit(comp: nat, zz: Zigzag)

  /** The DC coefficient a block of component n is predicted from after i units: that of the
      component's last block. */
  function Before(us: seq<Unit>, i: nat, n: nat): int
    requires i <= |us|
  {
    if i == 0 then 0 else if us[i - 1].comp == n then us[i - 1].zz[0] else Before(us, i - 1, n)
  }

  lemma BeforeNext(us: seq<Unit>, i: nat, n: nat)
    requires i < |us|
    ensures Before(us, i + 1, n) == if us[i].comp == n then us[i].zz[0] else Before(us, i, n)
  {
  }

  function Difference(us: seq<Unit>, i: nat): int
    requires i < |us|
  {
    us[i].zz[0] - Before(us, i, us[i].comp)
  }

  /** The coefficients of unit i are in baseline range. */
  ghost predicate Codable(us: seq<Unit>, i: nat)
    requires i < |us|
  {
    Category(Difference(us, i)) <= 11 && SmallAcs(us[i].zz)
  }

  ghost predicate AllCodable(us: seq<Unit>)
  {
    forall i: nat | i < |us| :: Codable(us, i)
  }

  /** The fields of unit i, its DC coefficient predicted from the component's block before. */
  ghost predicate IsUnit(ts: seq<Tables>, us: seq<Unit>, i: nat, fs: seq<Field>)
    requires i < |us|
  {
    && us[i].comp < |ts| && Codable(us, i)
    && fs == DataUnit(ts[us[i].comp].dct, ts[us[i].comp].act, Difference(us, i), us[i].zz)
  }

  /** The fields of all units, one list for each. */
  ghost predicate AreUnits(ts: seq<Tables>, us: seq<Unit>, units: seq<seq<Field>>)
  {
    |units| == |us| && forall i: nat | i < |us| :: IsUnit(ts, us, i, units[i])
  }

  function Flatten(units: seq<seq<Field>>): seq<Field>
  {
    if |units| == 0 then [] else units[0] + Flatten(units[1..])
  }

  lemma {:induction false} FlattenGrows(units: seq<seq<Field>>, u: seq<Field>)
    ensures Flatten(units + [u]) == Flatten(units) + u
  {
    if |units| == 0 {
      assert units + [u] == [u];
      assert Flatten([u]) == u + [];
    } else {
      FlattenGrows(units[1..], u);
      assert (units + [u])[1..] == units[1..] + [u];
    }
  }

  lemma FlattenFrom(units: seq<seq<Field>>, i: nat)
    requires i < |units|
    ensures Flatten(units[i..]) == units[i] + Flatten(units[i + 1..])
  {
    assert units[i..][1..] == units[i + 1..];
  }

  lemma NothingFlat()
    ensures Flatten([]) == []
  {
  }

  // ---- writing ------------------------------------------------------------------------

  /** The first i units are written. */
  ghost predicate Written(w: BitWriter, ts: seq<Tables>, us: seq<Unit>, i: nat, units: seq<seq<Field>>)
    reads w
  {
    && w.Valid() && |units| == i <= |us| && w.fields == Flatten(units)
    && forall j: nat | j < i :: IsUnit(ts, us, j, units[j])
  }

  /** One block of a component. */
  method WriteUnit(w: BitWriter, DU: Zigzag, DC: int, dct: CodeTable, act: CodeTable,
                   ghost ts: seq<Tables>, ghost us: seq<Unit>, ghost i: nat, ghost before: seq<seq<Field>>)
    returns (dc: int, ghost units: seq<seq<Field>>)
    requires Written(w, ts, us, i, before) && i < |us| && Codable(us, i) && us[i].zz == DU
    requires us[i].comp < |ts| && ts[us[i].comp].dct == dct && ts[us[i].comp].act == act && TablesFit(dct, act)
    requires DC == Before(us, i, us[i].comp)
    modifies w
    ensures Written(w, ts, us, i + 1, units) && dc == DU[0]
  {
    hide DataUnit, TablesFit, Category, SmallAcs, Flatten, Before;
    ghost var u := DataUnit(dct, act, DU[0] - DC, DU);
    FlattenGrows(before, u);
    units := before + [u];
    dc := w.ProcessDU(DU, DC, dct, act);
  }

  /** How many units a macroblock of the writer has, and the component of unit i: four blocks
      of luminance and one of either chrominance, or one of each. */
  function McuSize(sub: bool): nat
  {
    if sub then 6 else 3
  }

  function CompAt(sub: bool, i: nat): nat
  {
    if !sub then i % 3 else if i % 6 < 4 then 0 else i % 6 - 3
  }

  function Units(sub: bool, blocks: seq<Zigzag>): (us: seq<Unit>)
    ensures |us| == |blocks|
  {
    seq(|blocks|, i requires 0 <= i < |blocks| => Unit(CompAt(sub, i), blocks[i]))
  }

  ghost predicate Writable(sub: bool, blocks: seq<Zigzag>, luma: Tables, chroma: Tables)
  {
    AllCodable(Units(sub, blocks)) && TablesFit(luma.dct, luma.act) && TablesFit(chroma.dct, chroma.act)
  }

  lemma UnitAt(sub: bool, blocks: seq<Zigzag>, luma: Tables, chroma: Tables, i: nat)
    requires i < |blocks| && Writable(sub, blocks, luma, chroma)
    ensures Units(sub, blocks)[i] == Unit(CompAt(sub, i), blocks[i]) && Codable(Units(sub, blocks), i)
  {
    hide Codable, TablesFit;
  }

  /** The predictions of the three components. */
  ghost predicate Predicted(us: seq<Unit>, i: nat, dcY: int, dcU: int, dcV: int)
  {
    i <= |us| && dcY == Before(us, i, 0) && dcU == Before(us, i, 1) && dcV == Before(us, i, 2)
  }

  /** A block of component n moves the prediction of that component. */
  lemma PredictedNext(us: seq<Unit>, i: nat, n: nat, dcY: int, dcU: int, dcV: int)
    requires i < |us| && us[i].comp == n && Predicted(us, i, dcY, dcU, dcV)
    ensures n == 0 ==> Before(us, i, n) == dcY && Predicted(us, i + 1, us[i].zz[0], dcU, dcV)
    ensures n == 1 ==> Before(us, i, n) == dcU && Predicted(us, i + 1, dcY, us[i].zz[0], dcV)
    ensures n == 2 ==> Before(us, i, n) == dcV && Predicted(us, i + 1, dcY, dcU, us[i].zz[0])
  {
    BeforeNext(us, i, 0);
    BeforeNext(us, i, 1);
    BeforeNext(us, i, 2);
  }

  /** A macroblock of sixteen rows and columns. */
  method WriteSubsampled(w: BitWriter, m: nat, blocks: seq<Zigzag>, luma: Tables, chroma: Tables, dcY: int, dcU: int,
                         dcV: int, ghost us: seq<Unit>, ghost before: seq<seq<Field>>)
    returns (DCY: int, DCU: int, DCV: int, ghost units: seq<seq<Field>>)
    requires 6 * m + 6 <= |blocks| && us == Units(true, blocks) && Writable(true, blocks, luma, chroma)
    requires Written(w, [luma, chroma, chroma], us, 6 * m, before) && Predicted(us, 6 * m, dcY, dcU, dcV)
    modifies w
    ensures Written(w, [luma, chroma, chroma], us, 6 * m + 6, units) && Predicted(us, 6 * m + 6, DCY, DCU, DCV)
  {
    hide Written, TablesFit, Before, Codable, AllCodable, Units, Predicted;
    ghost var ts := [luma, chroma, chroma];
    var i := 6 * m;
    forall k: nat | i <= k < i + 6 ensures us[k] == Unit(CompAt(true, k), blocks[k]) && Codable(us, k) {
      UnitAt(true, blocks, luma, chroma, k);
    }
    DCY, DCU, DCV := dcY, dcU, dcV;
    PredictedNext(us, i, 0, DCY, DCU, DCV);
    DCY, units := WriteUnit(w, blocks[i], DCY, luma.dct, luma.act, ts, us, i, before);
    PredictedNext(us, i + 1, 0, DCY, DCU, DCV);
    DCY, units := WriteUnit(w, blocks[i + 1], DCY, luma.dct, luma.act, ts, us, i + 1, units);
    PredictedNext(us, i + 2, 0, DCY, DCU, DCV);
    DCY, units := WriteUnit(w, blocks[i + 2], DCY, luma.dct, luma.act, ts, us, i + 2, units);
    PredictedNext(us, i + 3, 0, DCY, DCU, DCV);
    DCY, units := WriteUnit(w, blocks[i + 3], DCY, luma.dct, luma.act, ts, us, i + 3, units);
    PredictedNext(us, i + 4, 1, DCY, DCU, DCV);
    DCU, units := WriteUnit(w, blocks[i + 4], DCU, chroma.dct, chroma.act, ts, us, i + 4, units);
    PredictedNext(us, i + 5, 2, DCY, DCU, DCV);
    DCV, units := WriteUnit(w, blocks[i + 5], DCV, chroma.dct, chroma.act, ts, us, i + 5, units);
  }

  /** A macroblock of eight rows and columns. */
  method WritePlain(w: BitWriter, m: nat, blocks: seq<Zigzag>, luma: Tables, chroma: Tables, dcY: int, dcU: int,
                    dcV: int, ghost us: seq<Unit>, ghost before: seq<seq<Field>>)
    returns (DCY: int, DCU: int, DCV: int, ghost units: seq<seq<Field>>)
    requires 3 * m + 3 <= |blocks| && us == Units(false, blocks) && Writable(false, blocks, luma, chroma)
    requires Written(w, [luma, chroma, chroma], us, 3 * m, before) && Predicted(us, 3 * m, dcY, dcU, dcV)
    modifies w
    ensures Written(w, [luma, chroma, chroma], us, 3 * m + 3, units) && Predicted(us, 3 * m + 3, DCY, DCU, DCV)
  {
    hide Written, TablesFit, Before, Codable, Predicted;
    ghost var ts := [luma, chroma, chroma];
    var i := 3 * m;
    DCY, DCU, DCV := dcY, dcU, dcV;
    PredictedNext(us, i, 0, DCY, DCU, DCV);
    DCY, units := WriteUnit(w, blocks[i], DCY, luma.dct, luma.act, ts, us, i, before);
    PredictedNext(us, i + 1, 1, DCY, DCU, DCV);
    DCU, units := WriteUnit(w, blocks[i + 1], DCU, chroma.dct, chroma.act, ts, us, i + 1, units);
    PredictedNext(us, i + 2, 2, DCY, DCU, DCV);
    DCV, units := WriteUnit(w, blocks[i + 2], DCV, chroma.dct, chroma.act, ts, us, i + 2, units);
  }

  /** Stuffed data that start with the fields of the units, and a marker. */
  ghost predicate ScanCoded(bytes: seq<byte>, ts: seq<Tables>, us: seq<Unit>, data: seq<byte>, units: seq<seq<Field>>)
  {
    && AreUnits(ts, us, units) && bytes == Stuffed(data) + [0xFF, 0xD9]
    && BitsOf(Flatten(units)) <= 8 * |data| && StartsWith(Msb(data), Flatten(units))
  }

  /** The macroblocks of a picture, their blocks in the order in which the writer makes them. */
  method WriteScan(sub: bool, mcus: nat, blocks: seq<Zigzag>, luma: Tables, chroma: Tables)
    returns (bytes: seq<byte>, ghost data: seq<byte>, ghost units: seq<seq<Field>>)
    requires |blocks| == McuSize(sub) * mcus && Writable(sub, blocks, luma, chroma)
    ensures ScanCoded(bytes, [luma, chroma, chroma], Units(sub, blocks), data, units)
  {
    hide Written, Writable, Before, Units, IsUnit, Flatten, BitsOf, StartsWith, Msb;
    var w := new BitWriter();
    ghost var ts, us := [luma, chroma, chroma], Units(sub, blocks);
    var DCY, DCU, DCV := 0, 0, 0;
    var m: nat := 0;
    units := [];
    NothingWritten(w, ts, us);
    while m < mcus
      invariant m <= mcus && fresh(w) && Written(w, ts, us, McuSize(sub) * m, units)
      invariant Predicted(us, McuSize(sub) * m, DCY, DCU, DCV)
    {
      if sub {
        DCY, DCU, DCV, units := WriteSubsampled(w, m, blocks, luma, chroma, DCY, DCU, DCV, us, units);
      } else {
        DCY, DCU, DCV, units := WritePlain(w, m, blocks, luma, chroma, DCY, DCU, DCV, us, units);
      }
      m := m + 1;
    }
    AllWritten(w, ts, us, units);
    bytes := w.Finish();
    data := w.data;
    ReadableFields(Flatten(units), MsbField(0x7F, 7), data, Flip24(w.bitBuf), w.bitCnt);
  }

  lemma NothingWritten(w: BitWriter, ts: seq<Tables>, us: seq<Unit>)
    requires w.Valid() && w.fields == []
    ensures Written(w, ts, us, 0, []) && Predicted(us, 0, 0, 0, 0)
  {
    NothingFlat();
  }

  lemma AllWritten(w: BitWriter, ts: seq<Tables>, us: seq<Unit>, units: seq<seq<Field>>)
    requires Written(w, ts, us, |us|, units)
    ensures w.Valid() && w.fields == Flatten(units) && AreUnits(ts, us, units)
  {
    hide IsUnit, Flatten;
  }

  /** The whole bytes written hold all the fields that are complete in them. */
  lemma ReadableFields(fs: seq<Field>, f: Field, data: seq<byte>, pending: nat, cnt: nat)
    requires FieldsFit(fs) && BitsOf(fs) <= 8 * |data|
    requires BitsOf(fs + [f]) == 8 * |data| + cnt && ValueOf(fs + [f]) == Msb(data) + Shl(pending, 8 * |data|)
    ensures StartsWith(Msb(data), fs)
  {
    hide *;
    var n, m := BitsOf(fs), 8 * |data| - BitsOf(fs);
    ValueConcat(fs, [f]);
    ValueBound(fs);
    var b := ValueOf([f]);
    MsbBound(data);
    Join(Msb(data), pending, 8 * |data|);
    TakeBits(ValueOf(fs) + Shl(b, n), n, m);
    Join(ValueOf(fs), b, n);
    WrittenIsRead(fs, Low(b, m));
  }

  // ---- reading ------------------------------------------------------------------------

  /** The DC coefficient is one the decoder accepts. */
  ghost predicate Decodable(zz: Zigzag, dequant: seq<nat>)
  {
    |dequant| == 64 && DcFits(zz[0], dequant[0])
  }

  /** `data` is the block, every coefficient at its place and times its dequantiser, cut to a
      short. */
  ghost predicate IsBlock(data: seq<int>, zz: Zigzag, dequant: seq<nat>)
  {
    |data| == |dequant| == 64 && forall m: nat | m < 64 :: data[Dezigzag(m)] == Short(zz[m] * dequant[Dezigzag(m)])
  }

  /** A stream of two lists of fields is the second list after the first. */
  lemma HoldsSplit(a: seq<Field>, b: seq<Field>, v: nat, left: nat, end: nat, spare: nat)
    requires Holds(a + b, v, left, end, spare)
    ensures Holds(a, v, left, Shr(v, BitsOf(a)), BitsOf(b) + spare)
    ensures forall left': nat | left' >= BitsOf(b) + spare :: Holds(b, Shr(v, BitsOf(a)), left', end, spare)
  {
    ConcatSplit(v, a, b, a + b);
  }

  /** The job the decoder has at one block of the scan, of which `a` are the fields and `b`
      those of the blocks after it. */
  ghost function JobOf(act: CodeTable, zz: Zigzag, dequant: seq<nat>, a: seq<Field>, b: seq<Field>, v: nat,
                       spare: nat): Job
    requires |dequant| == 64
  {
    Job(act, zz, dequant, zz[0] * dequant[0], Shr(v, BitsOf(a)), BitsOf(b) + spare)
  }

  /** Unit i is at the front of the stream, if a are its fields and b those of the units after it. */
  lemma JobComes(ts: seq<Tables>, us: seq<Unit>, i: nat, a: seq<Field>, b: seq<Field>, v: nat, left: nat)
    returns (job: Job)
    requires i < |us| && IsUnit(ts, us, i, a) && Matching(ts[us[i].comp])
    requires Holds(a, v, left, Shr(v, BitsOf(a)), BitsOf(b))
    ensures |ts[us[i].comp].dequant| == 64
      && job == JobOf(ts[us[i].comp].act, us[i].zz, ts[us[i].comp].dequant, a, b, v, 0)
    ensures BlockComes(ts[us[i].comp].dct, ts[us[i].comp].cdc, ts[us[i].comp].vdc, Difference(us, i),
                       Before(us, i, us[i].comp), job, ts[us[i].comp].cac, ts[us[i].comp].vac, v, left)
  {
    hide Category, SmallAcs, DcTablesMatch, AcTablesMatch, DataUnit, Holds, BitsOf, Shr, Before, Fits;
    job := JobOf(ts[us[i].comp].act, us[i].zz, ts[us[i].comp].dequant, a, b, v, 0);
  }

  lemma BlockFilled(job: Job, v: nat, left: nat, data: seq<int>)
    requires |job.dequant| == 64 && Arrived(job, v, left, data)
    requires job.dc == job.zz[0] * job.dequant[0] && DcFits(job.zz[0], job.dequant[0])
    ensures IsBlock(data, job.zz, job.dequant) && v == job.end && left >= job.spare
  {
    assert Dezigzag(0) == 0;
    ShortKeeps(job.dc);
    hide Short, Dezigzag;
    forall m: nat | m < 64 ensures data[Dezigzag(m)] == Short(job.zz[m] * job.dequant[Dezigzag(m)]) {
      assert m > 0 ==> data[Dezigzag(m)] == Product(job, m);
    }
  }

  ghost predicate CanRead(hdc: Huffman, hac: Huffman, fac: array<int>, cdc: Counts, cac: Counts)
    reads hdc.Repr, hac.Repr, fac
  {
    && hdc.Holds(cdc) && hac.Holds(cac)
    && fac.Length == FAST_SIZE
    && forall w: nat | w < FAST_SIZE :: fac[w] == Entry(cac, hac.values[..], w)
  }

  /** One block into a fresh buffer. */
  method ReadBlock(s: JpegStream, hdc: Huffman, hac: Huffman, fac: array<int>, dequant: seq<nat>, dc_pred: int,
                   ghost cdc: Counts, ghost cac: Counts, ghost dct: CodeTable, ghost d: int, ghost job: Job)
    returns (ok: bool, dc: int, out: seq<int>)
    requires s.Valid() && CanRead(hdc, hac, fac, cdc, cac) && s !in hdc.Repr && s !in hac.Repr
    requires -0x8000_0000 <= dc_pred <= 0x7FFF_FFFF && |dequant| == 64 && job.dequant == dequant
    requires BlockComes(dct, cdc, hdc.values[..], d, dc_pred, job, cac, hac.values[..], s.Rest(), s.Left())
    requires job.dc == job.zz[0] * dequant[0] && job.zz[0] == dc_pred + d
    modifies s
    ensures ok <==> DcFits(job.zz[0], dequant[0])
    ensures ok ==> s.Valid() && dc == job.zz[0] && IsBlock(out, job.zz, dequant)
    ensures ok ==> s.Rest() == job.end && s.Left() >= job.spare
  {
    hide BlockComes, IsBlock, Arrived, Fits, Entry, BitsOf, Shr, BlockMeaning, DcMeaning, Msb, Data, Flip, Total,
      DcFits;
    var data := new int[64](_ => 0);
    BlockArrives(dct, cdc, hdc.values[..], d, dc_pred, job, cac, hac.values[..], s.Rest(), s.Left());
    ghost var m := BlockMeaning(cdc, hdc.values[..], cac, hac.values[..], dequant, dc_pred, s.Rest(), s.Left());
    ok, dc := DecodeBlock(s, data, hdc, hac, fac, dc_pred, dequant, cdc, cac);
    if ok { BlockFilled(job, m.v, m.sure, data[..]); }
    out := data[..];
  }

  /** A component as the reader keeps it: its sampling factors, decoding tables and quantiser. */
  datatype Component = Component(h: nat, v: nat, hdc: Huffman, hac: Huffman, fac: array<int>, dequant: seq<nat>)

  ghost function Footprint(c: Component): set<object>
  {
    c.hdc.Repr + c.hac.Repr + {c.fac}
  }

  /** The component's tables are those the writer used. */
  ghost predicate Reads(c: Component, t: Tables)
    reads Footprint(c)
  {
    && CanRead(c.hdc, c.hac, c.fac, t.cdc, t.cac) && c.dequant == t.dequant && Matching(t)
    && c.hdc.values[..] == t.vdc && c.hac.values[..] == t.vac
  }

  ghost predicate AllRead(cs: seq<Component>, ts: seq<Tables>)
    reads set n, o | 0 <= n < |cs| && o in Footprint(cs[n]) :: o
  {
    |cs| == |ts| && forall n: nat | n < |cs| :: Reads(cs[n], ts[n])
  }

  /** The stream is none of the tables. */
  ghost predicate Apart(s: JpegStream, cs: seq<Component>)
  {
    forall n: nat | n < |cs| :: s !in Footprint(cs[n])
  }

  /** The decoder can hold the coefficients of unit i. */
  ghost predicate Fitting(ts: seq<Tables>, us: seq<Unit>, i: nat)
    requires i < |us|
  {
    us[i].comp < |ts| && Decodable(us[i].zz, ts[us[i].comp].dequant)
  }

  /** `block` is unit i, every coefficient at its place and times its quantiser. The decoder
      accepts it. */
  ghost predicate Restored(ts: seq<Tables>, us: seq<Unit>, i: nat, block: seq<int>)
    requires i < |us|
  {
    Fitting(ts, us, i) && IsBlock(block, us[i].zz, ts[us[i].comp].dequant)
  }

  /** Every unit before i fits, and what was read is these units. */
  ghost predicate AllRestored(ts: seq<Tables>, us: seq<Unit>, i: nat, out: seq<seq<int>>)
    requires i <= |us|
  {
    |out| == i && forall j: nat | j < i :: Restored(ts, us, j, out[j])
  }

  /** Some unit does not fit. */
  ghost predicate Refused(ts: seq<Tables>, us: seq<Unit>)
  {
    exists i: nat :: i < |us| && !Fitting(ts, us, i)
  }

  /** A scan that is being read: the tables, the units and their fields, and what the stream is after them. */
  datatype Scan = Scan(ts: seq<Tables>, us: seq<Unit>, units: seq<seq<Field>>, end: nat)

  /** The units read so far and the predictions are right, and the stream goes on with the other units. */
  ghost predicate Reading(c: Scan, pred: seq<int>, out: seq<seq<int>>, v: nat, left: nat)
  {
    && AreUnits(c.ts, c.us, c.units) && |out| <= |c.us| && |pred| == |c.ts|
    && Holds(Flatten(c.units[|out|..]), v, left, c.end, 0)
    && (forall n: nat | n < |pred| :: pred[n] == Before(c.us, |out|, n) && -0x8000_0000 <= pred[n] <= 0x7FFF_FFFF)
    && AllRestored(c.ts, c.us, |out|, out)
  }

  /** The stream goes on with some fields, if it has enough bits left. */
  ghost predicate Onward(fs: seq<Field>, v: nat, spare: nat, end: nat)
  {
    forall left: nat | left >= spare :: Holds(fs, v, left, end, 0)
  }

  lemma NextUnit(c: Scan, pred: seq<int>, out: seq<seq<int>>, v: nat, left: nat) returns (job: Job)
    requires Reading(c, pred, out, v, left) && |out| < |c.us| && c.us[|out|].comp < |c.ts|
      && Matching(c.ts[c.us[|out|].comp])
    ensures var i, u := |out|, c.us[|out|];
      && u.comp < |c.ts| && |c.ts[u.comp].dequant| == 64
      && job.zz == u.zz && job.dequant == c.ts[u.comp].dequant && job.dc == u.zz[0] * job.dequant[0]
      && BlockComes(c.ts[u.comp].dct, c.ts[u.comp].cdc, c.ts[u.comp].vdc, Difference(c.us, i), Before(c.us, i, u.comp),
                    job, c.ts[u.comp].cac, c.ts[u.comp].vac, v, left)
      && Onward(Flatten(c.units[i + 1..]), job.end, job.spare, c.end)
  {
    hide BlockComes, BitsOf, Shr, Flatten, Holds, Before, Codable, Matching, IsBlock, DataUnit, FitsShort, Dezigzag;
    var i := |out|;
    var a, b := c.units[i], Flatten(c.units[i + 1..]);
    FlattenFrom(c.units, i);
    assert IsUnit(c.ts, c.us, i, a);
    HoldsSplit(a, b, v, left, c.end, 0);
    job := JobComes(c.ts, c.us, i, a, b, v, left);
  }

  lemma UnitRead(c: Scan, pred: seq<int>, out: seq<seq<int>>, v: nat, left: nat, block: seq<int>, n: nat, v': nat,
                 left': nat)
    requires Reading(c, pred, out, v, left) && |out| < |c.us| && c.us[|out|].comp == n < |c.ts|
    requires Restored(c.ts, c.us, |out|, block)
    requires Holds(Flatten(c.units[|out| + 1..]), v', left', c.end, 0)
    ensures Reading(c, pred[n := c.us[|out|].zz[0]], out + [block], v', left')
  {
    hide Flatten, Holds, Before, IsUnit, IsBlock, FitsShort;
    var p, o := pred[n := c.us[|out|].zz[0]], out + [block];
    forall k: nat | k < |p| ensures p[k] == Before(c.us, |o|, k) && -0x8000_0000 <= p[k] <= 0x7FFF_FFFF {
      assert pred[k] == Before(c.us, |out|, k);
      BeforeNext(c.us, |out|, k);
    }
  }

  /** One block of component n. */
  method ReadUnit(s: JpegStream, comps: seq<Component>, n: nat, pred0: seq<int>, out0: seq<seq<int>>, ghost c: Scan)
    returns (ok: bool, pred: seq<int>, out: seq<seq<int>>)
    requires s.Valid() && AllRead(comps, c.ts) && n < |comps| && Apart(s, comps)
    requires Reading(c, pred0, out0, s.Rest(), s.Left()) && |out0| < |c.us| && c.us[|out0|].comp == n
    modifies s
    ensures AllRead(comps, c.ts)
    ensures if ok then s.Valid() && |out| == |out0| + 1 && Reading(c, pred, out, s.Rest(), s.Left())
            else Refused(c.ts, c.us)
  {
    hide BlockComes, IsBlock, Holds, Flatten, CanRead, AreUnits, Matching;
    ghost var v, left := s.Rest(), s.Left();
    ghost var job := NextUnit(c, pred0, out0, v, left);
    var k := comps[n];
    assert Reads(k, c.ts[n]);
    var dc, block;
    ok, dc, block := ReadBlock(s, k.hdc, k.hac, k.fac, k.dequant, pred0[n], c.ts[n].cdc, c.ts[n].cac, c.ts[n].dct,
                               Difference(c.us, |out0|), job);
    assert ok <==> Fitting(c.ts, c.us, |out0|);
    if ok { UnitRead(c, pred0, out0, v, left, block, n, s.Rest(), s.Left()); }
    pred, out := pred0[n := dc], out0 + [block];
  }

  /** The units of a component in one macroblock. */
  function Area(h: nat, v: nat): nat
  {
    h * v
  }

  /** How many units of the components from k on a macroblock holds. */
  function Blocks(comps: seq<Component>, k: nat): nat
    requires k <= |comps|
    decreases |comps| - k
  {
    if k == |comps| then 0 else Area(comps[k].h, comps[k].v) + Blocks(comps, k + 1)
  }

  /** The units from i on are those of the components from k on in one macroblock. */
  ghost predicate Ordered(comps: seq<Component>, us: seq<Unit>, i: nat, k: nat)
    requires k <= |comps|
    decreases |comps| - k
  {
    || k == |comps|
    || (&& AllOf(us, i, Area(comps[k].h, comps[k].v), k)
        && Ordered(comps, us, i + Area(comps[k].h, comps[k].v), k + 1))
  }

  /** Units of one component from i on. */
  ghost predicate AllOf(us: seq<Unit>, i: nat, count: nat, n: nat)
  {
    i + count <= |us| && forall j: nat | i <= j < i + count :: us[j].comp == n
  }

  lemma Within(y: nat, h: nat, v: nat)
    requires y < v
    ensures y * h + h <= v * h && (y + 1) * h == y * h + h
  {
  }

  /** A row of blocks of component n. */
  method ReadRow(s: JpegStream, comps: seq<Component>, n: nat, h: nat, pred0: seq<int>, out0: seq<seq<int>>,
                 ghost c: Scan)
    returns (ok: bool, pred: seq<int>, out: seq<seq<int>>)
    requires s.Valid() && AllRead(comps, c.ts) && n < |comps| && Apart(s, comps)
    requires Reading(c, pred0, out0, s.Rest(), s.Left()) && AllOf(c.us, |out0|, h, n)
    modifies s
    ensures AllRead(comps, c.ts)
    ensures if ok then s.Valid() && |out| == |out0| + h && Reading(c, pred, out, s.Rest(), s.Left())
            else Refused(c.ts, c.us)
  {
    hide Reading, AllRead, Apart;
    ok, pred, out := true, pred0, out0;
    var x: nat := 0;
    while ok && x < h
      invariant x <= h && AllRead(comps, c.ts)
      invariant if ok then s.Valid() && |out| == |out0| + x && Reading(c, pred, out, s.Rest(), s.Left())
                else Refused(c.ts, c.us)
      decreases h - x
    {
      ok, pred, out := ReadUnit(s, comps, n, pred, out, c);
      x := x + 1;
    }
  }

  lemma NoArea(h: nat, v: nat)
    ensures Area(h, 0) == 0
  {
  }

  lemma RowOf(us: seq<Unit>, i: nat, h: nat, v: nat, y: nat, n: nat)
    requires y < v && AllOf(us, i, Area(h, v), n)
    ensures AllOf(us, i + Area(h, y), h, n) && Area(h, y + 1) == Area(h, y) + h
  {
    Within(y, h, v);
  }

  /** The blocks of component n in one macroblock. */
  method ReadComponent(s: JpegStream, comps: seq<Component>, n: nat, h: nat, v: nat, pred0: seq<int>,
                       out0: seq<seq<int>>, ghost c: Scan)
    returns (ok: bool, pred: seq<int>, out: seq<seq<int>>)
    requires s.Valid() && AllRead(comps, c.ts) && n < |comps| && Apart(s, comps)
    requires Reading(c, pred0, out0, s.Rest(), s.Left()) && AllOf(c.us, |out0|, Area(h, v), n)
    modifies s
    ensures AllRead(comps, c.ts)
    ensures if ok then s.Valid() && |out| == |out0| + Area(h, v) && Reading(c, pred, out, s.Rest(), s.Left())
            else Refused(c.ts, c.us)
  {
    hide Reading, AllRead, Apart, AllOf, Area;
    ok, pred, out := true, pred0, out0;
    NoArea(h, v);
    var y: nat := 0;
    while ok && y < v
      invariant y <= v && AllRead(comps, c.ts)
      invariant if ok then s.Valid() && |out| == |out0| + Area(h, y) && Reading(c, pred, out, s.Rest(), s.Left())
                else Refused(c.ts, c.us)
      decreases v - y
    {
      RowOf(c.us, |out0|, h, v, y, n);
      ok, pred, out := ReadRow(s, comps, n, h, pred, out, c);
      y := y + 1;
    }
  }

  /** One interleaved macroblock. */
  method ReadMcu(s: JpegStream, comps: seq<Component>, pred0: seq<int>, out0: seq<seq<int>>, ghost c: Scan)
    returns (ok: bool, pred: seq<int>, out: seq<seq<int>>)
    requires s.Valid() && AllRead(comps, c.ts) && Apart(s, comps)
    requires Reading(c, pred0, out0, s.Rest(), s.Left()) && Ordered(comps, c.us, |out0|, 0)
    modifies s
    ensures AllRead(comps, c.ts)
    ensures if ok then s.Valid() && |out| == |out0| + Blocks(comps, 0) && Reading(c, pred, out, s.Rest(), s.Left())
            else Refused(c.ts, c.us)
  {
    hide Reading, AllRead, Apart, AllOf;
    ok, pred, out := true, pred0, out0;
    var k: nat := 0;
    while ok && k < |comps|
      invariant k <= |comps| && AllRead(comps, c.ts)
      invariant ok ==> s.Valid() && Reading(c, pred, out, s.Rest(), s.Left()) && Ordered(comps, c.us, |out|, k)
      invariant ok ==> |out| + Blocks(comps, k) == |out0| + Blocks(comps, 0)
      invariant !ok ==> Refused(c.ts, c.us)
      decreases |comps| - k
    {
      ok, pred, out := ReadComponent(s, comps, k, comps[k].h, comps[k].v, pred, out, c);
      k := k + 1;
    }
  }

  /** Units in the order of macroblocks. */
  ghost predicate Interleaved(comps: seq<Component>, us: seq<Unit>, mcus: nat)
  {
    |us| == mcus * Blocks(comps, 0) && forall m: nat | m < mcus :: Ordered(comps, us, m * Blocks(comps, 0), 0)
  }

  /** A stream at the start of a scan. */
  method OpenScan(bytes: seq<byte>, comps: seq<Component>, ghost ts: seq<Tables>) returns (s: JpegStream)
    requires AllRead(comps, ts)
    ensures fresh(s) && s.Valid() && s.Rest() == Msb(Data(bytes)) && s.Left() == 8 * |Data(bytes)|
    ensures AllRead(comps, ts) && |comps| == |ts| && Apart(s, comps)
  {
    hide Reads, Msb, Data;
    s := new JpegStream(bytes);
    assert |comps| == |ts| && Apart(s, comps);
    assert AllRead(comps, ts);
  }

  /** An interleaved scan of any components. */
  method ReadScan(bytes: seq<byte>, mcus: nat, comps: seq<Component>,
                  ghost ts: seq<Tables>, ghost us: seq<Unit>, ghost data: seq<byte>, ghost units: seq<seq<Field>>)
    returns (ok: bool, out: seq<seq<int>>)
    requires AllRead(comps, ts) && Interleaved(comps, us, mcus) && ScanCoded(bytes, ts, us, data, units)
    ensures if ok then AllRestored(ts, us, |us|, out) else Refused(ts, us)
  {
    hide AllRead, Apart, ScanCoded, Reading, Ordered, Blocks, AllRestored, Refused, Msb, Data, BitsOf, Shr;
    var s := OpenScan(bytes, comps, ts);
    ghost var c := Scan(ts, us, units, Shr(Msb(data), BitsOf(Flatten(units))));
    var pred := seq(|comps|, n => 0);
    ok, out := true, [];
    AtStart(bytes, data, c, pred);
    var m: nat := 0;
    while ok && m < mcus
      invariant m <= mcus && fresh(s) && AllRead(comps, ts)
      invariant if ok then s.Valid() && |out| == m * Blocks(comps, 0) && Reading(c, pred, out, s.Rest(), s.Left())
                else Refused(ts, us)
      decreases mcus - m
    {
      Within(m, Blocks(comps, 0), mcus);
      ok, pred, out := ReadMcu(s, comps, pred, out, c);
      m := m + 1;
    }
    if ok { AllBlocks(c, pred, out, s.Rest(), s.Left()); }
  }

  /** A scan of one component, which is not interleaved: h rows of w blocks. */
  method ReadSingle(bytes: seq<byte>, w: nat, h: nat, comps: seq<Component>,
                    ghost ts: seq<Tables>, ghost us: seq<Unit>, ghost data: seq<byte>, ghost units: seq<seq<Field>>)
    returns (ok: bool, out: seq<seq<int>>)
    requires |comps| == 1 && |us| == w * h && AllRead(comps, ts) && ScanCoded(bytes, ts, us, data, units)
    ensures if ok then AllRestored(ts, us, |us|, out) else Refused(ts, us)
  {
    hide AllRead, Apart, ScanCoded, Reading, AllRestored, Refused, Msb, Data, BitsOf, Shr;
    var s := OpenScan(bytes, comps, ts);
    ghost var c := Scan(ts, us, units, Shr(Msb(data), BitsOf(Flatten(units))));
    AtStart(bytes, data, c, [0]);
    OneComponent(c);
    var pred;
    ok, pred, out := ReadComponent(s, comps, 0, w, h, [0], [], c);
    if ok { AllBlocks(c, pred, out, s.Rest(), s.Left()); }
  }

  lemma OneComponent(c: Scan)
    requires AreUnits(c.ts, c.us, c.units) && |c.ts| == 1
    ensures forall i: nat | i < |c.us| :: c.us[i].comp == 0
  {
    hide DataUnit, Codable;
    forall i: nat | i < |c.us| ensures c.us[i].comp == 0 {
      assert IsUnit(c.ts, c.us, i, c.units[i]);
    }
  }

  lemma AtStart(bytes: seq<byte>, data: seq<byte>, c: Scan, pred: seq<int>)
    requires ScanCoded(bytes, c.ts, c.us, data, c.units) && c.end == Shr(Msb(data), BitsOf(Flatten(c.units)))
    requires |pred| == |c.ts| && forall n: nat | n < |pred| :: pred[n] == 0
    ensures Data(bytes) == data && AreUnits(c.ts, c.us, c.units) && Reading(c, pred, [], Msb(data), 8 * |data|)
  {
    hide Data, Stuffed, BitsOf, Msb, StartsWith, Shr, Flatten, IsUnit, Decodable;
    UnstuffStuffed(data, [0xFF, 0xD9]);
    MarkerEnds(0xD9, []);
    assert [0xFF, 0xD9] + [] == [0xFF, 0xD9] && data + [] == data && c.units[0..] == c.units;
  }

  lemma AllBlocks(c: Scan, pred: seq<int>, out: seq<seq<int>>, v: nat, left: nat)
    requires Reading(c, pred, out, v, left) && |out| == |c.us|
    ensures AllRestored(c.ts, c.us, |c.us|, out)
  {
    hide Holds, Flatten, Restored, Before, IsUnit;
  }

  // ---- the round trip -----------------------------------------------------------------

  lemma MatchingFits(ht: CodeTable, c: Counts, values: seq<byte>, sym: nat)
    requires sym < 256 && SameCode(ht, c, values, sym) && Fits(c)
    ensures CodesFit(ht, sym)
  {
    var k: nat :| k < |values| && values[k] == sym && Findable(c, k) && HasCode(c, k, ht[sym].1)
      && CodeOf(c, k, ht[sym].1) == ht[sym].0;
    CodeRange(c, k, ht[sym].1);
  }

  /** The reader's tables hold the writer's codes and the decoder takes them. */
  ghost predicate Matching(t: Tables)
  {
    && |t.vdc| == |t.vac| == 256 && |t.dequant| == 64
    && Fits(t.cdc) && Fits(t.cac) && Total(t.cdc) <= 256 && Total(t.cac) <= 256
    && DcTablesMatch(t.dct, t.cdc, t.vdc) && AcTablesMatch(t.act, t.cac, t.vac)
  }

  lemma MatchingTablesFit(t: Tables)
    requires Matching(t)
    ensures TablesFit(t.dct, t.act)
  {
    forall sym: nat | sym <= 11 ensures CodesFit(t.dct, sym) {
      MatchingFits(t.dct, t.cdc, t.vdc, sym);
    }
    forall sym: nat | AcSymbol(sym) ensures CodesFit(t.act, sym) {
      MatchingFits(t.act, t.cac, t.vac, sym);
    }
  }

  /** A table segment: the counts and then the symbols. */
  method LoadTable(count: Counts, values: seq<byte>) returns (ok: bool, h: Huffman)
    requires |values| == 256
    ensures fresh(h) && fresh(h.Repr) && h.Valid()
    ensures ok <==> Total(count) <= 256 && Fits(count)
    ensures ok ==> h.Holds(count) && h.values[..] == values
  {
    h := new Huffman();
    ok := h.Build(count);
    if ok {
      h.SetValues(count, values);
    }
  }

  /** The tables of a component, from the segments of the header. */
  method LoadComponent(h: nat, v: nat, t: Tables) returns (c: Component)
    requires Matching(t)
    ensures fresh(Footprint(c)) && Reads(c, t) && c.h == h && c.v == v
  {
    hide DcTablesMatch, AcTablesMatch, Fits, Entry;
    var okd, hdc := LoadTable(t.cdc, t.vdc);
    var oka, hac := LoadTable(t.cac, t.vac);
    var fac := new int[FAST_SIZE](_ => 0);
    BuildFastAc(fac, hac, t.cac);
    c := Component(h, v, hdc, hac, fac, t.dequant);
  }

  lemma BlocksFrom(comps: seq<Component>, k: nat, count: nat, rest: nat)
    requires k < |comps| && count == Area(comps[k].h, comps[k].v) && rest == Blocks(comps, k + 1)
    ensures Blocks(comps, k) == count + rest
  {
  }

  lemma OrderedFrom(comps: seq<Component>, us: seq<Unit>, i: nat, k: nat, count: nat)
    requires k < |comps| && count == Area(comps[k].h, comps[k].v)
    requires AllOf(us, i, count, k) && Ordered(comps, us, i + count, k + 1)
    ensures Ordered(comps, us, i, k)
  {
    hide AllOf;
  }

  lemma OrderedAtEnd(comps: seq<Component>, us: seq<Unit>, i: nat)
    ensures Ordered(comps, us, i, |comps|) && Blocks(comps, |comps|) == 0
  {
  }

  /** Three components, of which the first has the sampling factors that the writer gives it. */
  predicate WrittenComponents(comps: seq<Component>, sub: bool)
  {
    && |comps| == 3 && comps[1].h == comps[1].v == comps[2].h == comps[2].v == 1
    && comps[0].h == comps[0].v == if sub then 2 else 1
  }

  lemma McuOrder(comps: seq<Component>, sub: bool, blocks: seq<Zigzag>, m: nat)
    requires WrittenComponents(comps, sub) && McuSize(sub) * (m + 1) <= |blocks|
    ensures Blocks(comps, 0) == McuSize(sub) && Ordered(comps, Units(sub, blocks), McuSize(sub) * m, 0)
  {
    hide Ordered, Blocks;
    var us, i, luma := Units(sub, blocks), McuSize(sub) * m, McuSize(sub) - 2;
    OrderedAtEnd(comps, us, i + luma + 2);
    OrderedFrom(comps, us, i + luma + 1, 2, 1);
    OrderedFrom(comps, us, i + luma, 1, 1);
    OrderedFrom(comps, us, i, 0, luma);
    BlocksFrom(comps, 2, 1, 0);
    BlocksFrom(comps, 1, 1, 1);
    BlocksFrom(comps, 0, luma, 2);
  }

  lemma WriterOrder(comps: seq<Component>, sub: bool, mcus: nat, blocks: seq<Zigzag>)
    requires WrittenComponents(comps, sub) && |blocks| == McuSize(sub) * mcus
    ensures Interleaved(comps, Units(sub, blocks), mcus)
  {
    hide Ordered, Blocks, Units;
    BlocksFrom(comps, 2, 1, 0) by { OrderedAtEnd(comps, [], 0); }
    BlocksFrom(comps, 1, 1, 1);
    BlocksFrom(comps, 0, McuSize(sub) - 2, 2);
    forall m: nat | m < mcus ensures Ordered(comps, Units(sub, blocks), m * Blocks(comps, 0), 0) {
      McuOrder(comps, sub, blocks, m);
    }
  }

  /** The macroblocks of a picture, written with its luminance and chrominance tables and read with the
      matching ones, come back with every coefficient of every component at its place and times its
      quantiser, if and only if the decoder accepts all DC coefficients. */
  method RoundTrip(sub: bool, mcus: nat, blocks: seq<Zigzag>, luma: Tables, chroma: Tables)
    returns (ok: bool, out: seq<seq<int>>)
    requires |blocks| == McuSize(sub) * mcus && AllCodable(Units(sub, blocks)) && Matching(luma) && Matching(chroma)
    ensures ok <==> forall i: nat | i < |blocks| :: Decodable(blocks[i], DequantOf(sub, luma, chroma, i))
    ensures ok ==> |out| == |blocks|
    ensures ok ==> forall i: nat | i < |blocks| :: IsBlock(out[i], blocks[i], DequantOf(sub, luma, chroma, i))
  {
    hide AllCodable, IsBlock, Decodable, TablesFit, ScanCoded, Matching, Reads, Interleaved;
    MatchingTablesFit(luma);
    MatchingTablesFit(chroma);
    var bytes, data, units := WriteScan(sub, mcus, blocks, luma, chroma);
    var s := if sub then 2 else 1;
    var y := LoadComponent(s, s, luma);
    var u := LoadComponent(1, 1, chroma);
    var v := LoadComponent(1, 1, chroma);
    WriterOrder([y, u, v], sub, mcus, blocks);
    ok, out := ReadScan(bytes, mcus, [y, u, v], [luma, chroma, chroma], Units(sub, blocks), data, units);
    UnitsFit(sub, blocks, luma, chroma);
    if ok { UnitsRestored(sub, blocks, luma, chroma, out); }
  }

  lemma UnitsFit(sub: bool, blocks: seq<Zigzag>, luma: Tables, chroma: Tables)
    ensures Refused([luma, chroma, chroma], Units(sub, blocks)) <==>
            exists i: nat :: i < |blocks| && !Decodable(blocks[i], DequantOf(sub, luma, chroma, i))
  {
    hide Decodable;
    var ts, us := [luma, chroma, chroma], Units(sub, blocks);
    forall i: nat | i < |blocks|
      ensures Fitting(ts, us, i) <==> Decodable(blocks[i], DequantOf(sub, luma, chroma, i))
    {
      assert us[i] == Unit(CompAt(sub, i), blocks[i]);
    }
  }

  lemma UnitsRestored(sub: bool, blocks: seq<Zigzag>, luma: Tables, chroma: Tables, out: seq<seq<int>>)
    requires AllRestored([luma, chroma, chroma], Units(sub, blocks), |blocks|, out)
    ensures !Refused([luma, chroma, chroma], Units(sub, blocks)) && |out| == |blocks|
    ensures forall i: nat | i < |blocks| :: IsBlock(out[i], blocks[i], DequantOf(sub, luma, chroma, i))
  {
    hide Decodable, IsBlock;
    var ts, us := [luma, chroma, chroma], Units(sub, blocks);
    forall i: nat | i < |blocks|
      ensures Fitting(ts, us, i) && IsBlock(out[i], blocks[i], DequantOf(sub, luma, chroma, i))
    {
      assert Restored(ts, us, i, out[i]) && us[i] == Unit(CompAt(sub, i), blocks[i]);
    }
  }

  /** The quantiser of the component that unit i belongs to. */
  function DequantOf(sub: bool, luma: Tables, chroma: Tables, i: nat): seq<nat>
  {
    if CompAt(sub, i) == 0 then luma.dequant else chroma.dequant
  }
}
