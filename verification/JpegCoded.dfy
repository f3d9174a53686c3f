/** What the writer's fields of a block mean to the reader: the block. */
module JpegCoded {
  import opened BitMath
  import opened Canonical
  import opened Deflate
  import opened JpegHuffman
  import opened JpegLookup
  import opened JpegBlock
  import opened JpegMeaning

  /** The stream v, of which `left` bits are sure, starts with these fields; after them
      comes `end`, of which `spare` bits are sure. */
  ghost predicate Holds(fs: seq<Field>, v: nat, left: nat, end: nat, spare: nat)
  {
    StartsWith(v, fs) && BitsOf(fs) + spare <= left && Shr(v, BitsOf(fs)) == end
  }

  /** The stream goes on with the AC coefficients from position i. */
  ghost predicate CodedFrom(ht: CodeTable, zz: Zigzag, i: nat, v: nat, left: nat, end: nat, spare: nat)
  {
    1 <= i <= 64 && SmallAcs(zz) && Holds(AcFields(ht, zz, i), v, left, end, spare)
  }

  lemma HoldsTail(fs: seq<Field>, v: nat, left: nat, end: nat, spare: nat)
    requires fs != [] && Holds(fs, v, left, end, spare)
    ensures Low(v, fs[0].n) == fs[0].v && fs[0].n <= left
    ensures Holds(fs[1..], Shr(v, fs[0].n), left - fs[0].n, end, spare)
  {
    ShrShr(v, fs[0].n, BitsOf(fs[1..]));
  }

  /** The symbol for a run of r zeros and a coefficient of category s. */
  lemma RunSymbol(r: nat, s: nat)
    requires r < 16 && 1 <= s <= 10
    ensures var sym := r * 16 + s; sym / 16 == r && sym % 16 == s && AcSymbol(sym) && sym != EOB && sym != ZRL
  {
  }

  /** The next symbol when only zeros are left ... */
  lemma NextIsEnd(ht: CodeTable, zz: Zigzag, i: nat, v: nat, left: nat, end: nat, spare: nat)
    requires i < 64 && CodedFrom(ht, zz, i, v, left, end, spare) && i + ZeroRun(zz, i) == 64
    ensures var f := SymbolField(ht, EOB); Low(v, f.n) == f.v && Shr(v, f.n) == end && f.n + spare <= left
  {
    HoldsTail(AcFields(ht, zz, i), v, left, end, spare);
  }

  /** ... when sixteen zeros come ... */
  lemma NextIsZeros(ht: CodeTable, zz: Zigzag, i: nat, v: nat, left: nat, end: nat, spare: nat)
    requires i < 64 && CodedFrom(ht, zz, i, v, left, end, spare) && 16 <= ZeroRun(zz, i) < 64 - i
    ensures var f := SymbolField(ht, ZRL);
            && Low(v, f.n) == f.v && f.n <= left
            && CodedFrom(ht, zz, i + 16, Shr(v, f.n), left - f.n, end, spare)
  {
    var fs := AcFields(ht, zz, i);
    assert fs[0] == SymbolField(ht, ZRL) && fs[1..] == AcFields(ht, zz, i + 16);
    hide AcFields, Holds;
    HoldsTail(fs, v, left, end, spare);
  }

  lemma RunHere(ht: CodeTable, zz: Zigzag, i: nat, r: nat, x: int)
    requires 1 <= i < 64 && SmallAcs(zz) && r == ZeroRun(zz, i) < 16 && i + r < 64 && x == zz[i + r]
    ensures AcFields(ht, zz, i) ==
            [SymbolField(ht, r * 16 + Category(x)), MagnitudeField(x)] + AcFields(ht, zz, i + r + 1)
  {
    hide SymbolField, MagnitudeField, Category, ZeroRun;
  }

  /** ... and when there is a coefficient after fewer zeros. */
  lemma NextIsRun(ht: CodeTable, zz: Zigzag, i: nat, v: nat, left: nat, end: nat, spare: nat, r: nat, x: int)
    requires i < 64 && CodedFrom(ht, zz, i, v, left, end, spare)
    requires r == ZeroRun(zz, i) < 16 && i + r < 64 && x == zz[i + r] && 1 <= Category(x) <= 10
    ensures var f, g := SymbolField(ht, r * 16 + Category(x)), MagnitudeField(x);
            && Low(v, f.n) == f.v && Low(Shr(v, f.n), g.n) == g.v && f.n + g.n <= left
            && CodedFrom(ht, zz, i + r + 1, Shr(Shr(v, f.n), g.n), left - f.n - g.n, end, spare)
  {
    hide AcFields, Holds, SymbolField, MagnitudeField, SmallAcs, Category, ZeroRun;
    var fs := AcFields(ht, zz, i);
    var f, g := SymbolField(ht, r * 16 + Category(x)), MagnitudeField(x);
    var gs := [g] + AcFields(ht, zz, i + r + 1);
    RunHere(ht, zz, i, r, x);
    assert fs[0] == f && fs[1..] == gs && gs[1..] == AcFields(ht, zz, i + r + 1);
    HoldsTail(fs, v, left, end, spare);
    HoldsTail(gs, Shr(v, f.n), left - f.n, end, spare);
  }

  lemma CategoryOfAc(zz: Zigzag, q: nat)
    requires 1 <= q < 64 && zz[q] != 0 && SmallAcs(zz)
    ensures 1 <= Category(zz[q]) <= 10
  {
    BitsInBound(Abs(zz[q]));
  }

  /** A symbol and what it says of the coefficients from position i on. */
  ghost predicate Says(ht: CodeTable, zz: Zigzag, i: nat, v: nat, left: nat, sym: nat, n: nat,
                       end: nat, spare: nat)
    requires i < 64
  {
    && AcSymbol(sym) && n <= left
    && if sym == EOB then i + ZeroRun(zz, i) == 64 && Shr(v, n) == end && n + spare <= left
       else if sym == ZRL then 16 <= ZeroRun(zz, i) < 64 - i
         && CodedFrom(ht, zz, i + 16, Shr(v, n), left - n, end, spare)
       else
         var q, s := i + ZeroRun(zz, i), sym % 16;
         && q < 64 && sym / 16 == ZeroRun(zz, i) && n + s <= left
         && s > 0 && Extend(Rev(Shr(v, n), s), s) == zz[q]
         && CodedFrom(ht, zz, q + 1, Shr(Shr(v, n), s), left - n - s, end, spare)
  }

  /** What the next symbol in such a stream says. */
  lemma NextSymbol(ht: CodeTable, c: Counts, values: seq<byte>, zz: Zigzag, i: nat, v: nat, left: nat,
                   end: nat, spare: nat)
    returns (sym: nat, k: nat, n: nat)
    requires i < 64 && CodedFrom(ht, zz, i, v, left, end, spare) && AcTablesMatch(ht, c, values) && Fits(c)
    ensures Starts(c, k, n, v) && Findable(c, k) && k < |values| && values[k] == sym
    ensures Says(ht, zz, i, v, left, sym, n, end, spare)
  {
    hide Starts, Fits, Extend, Shr, Low, Rev, Category, Magnitude, StartsWith, BitsOf, AcFields, SameCode;
    var r := ZeroRun(zz, i);
    if i + r == 64 {
      sym := EOB;
      NextIsEnd(ht, zz, i, v, left, end, spare);
    } else if r >= 16 {
      sym := ZRL;
      NextIsZeros(ht, zz, i, v, left, end, spare);
    } else {
      CategoryOfAc(zz, i + r);
      sym := r * 16 + Category(zz[i + r]);
      NextIsRun(ht, zz, i, v, left, end, spare, r, zz[i + r]);
      RunSymbol(r, Category(zz[i + r]));
    }
    hide CodedFrom, ZeroRun;
    k, n := SymbolStarts(ht, c, values, sym, v);
    if sym != EOB && sym != ZRL {
      MagnitudeRead(zz[i + r], Shr(v, n));
    }
  }

  // ---- the block ----------------------------------------------------------------------

  /** What the decoder should find: the coefficients as they were coded, the dequantisers,
      the dequantised DC coefficient, and the stream after the block. */
  datatype Job = Job(ht: CodeTable, zz: Zigzag, dequant: seq<nat>, dc: int, end: nat, spare: nat)

  /** A dequantised coefficient, cut to a short. */
  function Product(job: Job, m: nat): int
    requires m < 64 && |job.dequant| == 64
  {
    Short(job.zz[m] * job.dequant[Dezigzag(m)])
  }

  ghost predicate JobSized(job: Job)
  {
    |job.dequant| == 64
  }

  /** The coefficients before position k are in place, the others are zero. */
  ghost predicate Filled(data: seq<int>, job: Job, k: nat)
    requires |job.dequant| == 64
  {
    && |data| == 64 && data[0] == job.dc
    && forall m: nat | 1 <= m < 64 :: data[Dezigzag(m)] == if m < k then Product(job, m) else 0
  }

  lemma FillZeros(data: seq<int>, job: Job, k: nat, k': nat)
    requires |job.dequant| == 64 && 1 <= k <= k' <= 64 && Filled(data, job, k) && k' <= k + ZeroRun(job.zz, k)
    ensures Filled(data, job, k')
  {
    hide Dezigzag, Product, ZeroRun;
    forall m: nat | k <= m < k' ensures Product(job, m) == 0 {
      ZeroProduct(job, k, m);
    }
  }

  lemma ZeroProduct(job: Job, k: nat, m: nat)
    requires |job.dequant| == 64 && k <= m < 64 && m < k + ZeroRun(job.zz, k)
    ensures Product(job, m) == 0
  {
    hide ZeroRun;
    assert job.zz[m] == 0;
  }

  lemma FillOne(data: seq<int>, job: Job, k: nat, q: nat, x: int)
    requires JobSized(job) && 1 <= k <= q < 64 && Filled(data, job, k) && q == k + ZeroRun(job.zz, k)
    requires x == job.zz[q]
    ensures Filled(data[Dezigzag(q) := Short(x * job.dequant[Dezigzag(q)])], job, q + 1)
  {
    var d := data[Dezigzag(q) := Short(x * job.dequant[Dezigzag(q)])];
    FillZeros(data, job, k, q);
    assert d[Dezigzag(q)] == Product(job, q);
    hide Product, Short, ZeroRun;
    forall m: nat | 1 <= m < 64 ensures d[Dezigzag(m)] == if m < q + 1 then Product(job, m) else 0 {
      if Dezigzag(m) == Dezigzag(q) { DezigzagInjective(m, q); }
    }
    assert Dezigzag(q) != 0 by { DezigzagInjective0(q); }
  }

  lemma DezigzagInjective0(q: nat)
    requires 1 <= q < 64
    ensures Dezigzag(q) != 0
  {
    if Dezigzag(q) == 0 {
      assert Dezigzag(0) == 0;
      DezigzagInjective(q, 0);
      assert false;
    }
  }

  /** The decoder is where it should be: at position k. */
  ghost predicate OnTrack(job: Job, v: nat, left: nat, data: seq<int>, k: nat)
  {
    JobSized(job) && CodedFrom(job.ht, job.zz, k, v, left, job.end, job.spare) && Filled(data, job, k)
  }

  /** The whole block has been read. */
  ghost predicate Arrived(job: Job, v: nat, left: nat, data: seq<int>)
  {
    JobSized(job) && v == job.end && left >= job.spare && Filled(data, job, 64)
  }

  /** A run of zeros and a coefficient. */
  lemma RunStep(job: Job, v: nat, left: nat, data: seq<int>, k: nat, sym: nat, n: nat,
                q: nat, x: int, v': nat, left': nat)
    requires 1 <= k < 64 && OnTrack(job, v, left, data, k)
    requires Says(job.ht, job.zz, k, v, left, sym, n, job.end, job.spare) && sym != EOB && sym != ZRL
    requires q == k + sym / 16 && q < 64 && x == job.zz[q]
    requires v' == Shr(Shr(v, n), sym % 16) && left' + n + sym % 16 >= left
    ensures OnTrack(job, v', left', data[Dezigzag(q) := Short(x * job.dequant[Dezigzag(q)])], q + 1)
  {
    var left'' := left - n - sym % 16;
    assert q == k + ZeroRun(job.zz, k);
    hide CodedFrom, Filled, ZeroRun, Short, Shr, Rev, Extend, Dezigzag;
    FillOne(data, job, k, q, x);
    MoreLeft(job, v', left'', left', q + 1);
  }

  lemma MoreLeft(job: Job, v: nat, left: nat, left': nat, k: nat)
    requires left <= left' && CodedFrom(job.ht, job.zz, k, v, left, job.end, job.spare)
    ensures CodedFrom(job.ht, job.zz, k, v, left', job.end, job.spare)
  {
  }

  lemma EndStep(job: Job, v: nat, left: nat, data: seq<int>, k: nat, sym: nat, n: nat, v': nat, left': nat)
    requires 1 <= k < 64 && OnTrack(job, v, left, data, k)
    requires Says(job.ht, job.zz, k, v, left, sym, n, job.end, job.spare) && sym % 16 == 0 && sym != ZRL
    requires v' == Shr(v, n) && left' + n >= left
    ensures Arrived(job, v', left', data)
  {
    FillZeros(data, job, k, 64);
  }

  lemma ZerosStep(job: Job, v: nat, left: nat, data: seq<int>, k: nat, n: nat, v': nat, left': nat)
    requires 1 <= k < 64 && OnTrack(job, v, left, data, k)
    requires Says(job.ht, job.zz, k, v, left, ZRL, n, job.end, job.spare)
    requires v' == Shr(v, n) && left' + n >= left
    ensures k + 16 <= 64 && OnTrack(job, v', left', data, k + 16)
  {
    FillZeros(data, job, k, k + 16);
    MoreLeft(job, v', left - n, left', k + 16);
  }

  /** On track, the next step is the coded one. */
  lemma CodedStep(job: Job, c: Counts, values: seq<byte>, v: nat, left: nat, data: seq<int>, k: nat)
    returns (sym: nat, n: nat)
    requires 1 <= k < 64 && OnTrack(job, v, left, data, k) && AcTablesMatch(job.ht, c, values)
    requires Fits(c) && Total(c) <= 256 && |values| == 256
    ensures Says(job.ht, job.zz, k, v, left, sym, n, job.end, job.spare) && sym < 256
    ensures AcStep(c, values, job.dequant, v, k, data) == SymbolStep(sym, n, job.dequant, v, k, data)
  {
    hide Starts, Fits, AcTablesMatch, CodedFrom, Filled, ZeroRun, Shr, Rev, Extend, Lookup, SymbolStep, Total, Says;
    var j: nat;
    sym, j, n := NextSymbol(job.ht, c, values, job.zz, k, v, left, job.end, job.spare);
    FoundIs(c, v, j, n);
  }

  /** ... and keeps the track, or ends the block. */
  lemma StepArrives(job: Job, v: nat, left: nat, data: seq<int>, k: nat, sym: nat, n: nat, st: Step)
    requires 1 <= k < 64 && OnTrack(job, v, left, data, k) && |data| == |job.dequant| == 64 && sym < 256
    requires Says(job.ht, job.zz, k, v, left, sym, n, job.end, job.spare)
    requires st == SymbolStep(sym, n, job.dequant, v, k, data)
    ensures !st.Wrong? && st.used <= left
    ensures st.End? ==> Arrived(job, st.v, left - st.used, data)
    ensures st.Go? ==> st.k <= 64 && OnTrack(job, st.v, left - st.used, st.data, st.k)
  {
    hide Extend, Short, Shr, Rev, CodedFrom, Filled, ZeroRun, Dezigzag;
    if sym == ZRL {
      ZerosStep(job, v, left, data, k, n, st.v, left - n);
    } else if sym % 16 == 0 {
      EndStep(job, v, left, data, k, sym, n, st.v, left - n);
    } else {
      hide OnTrack, Extend, Short, Shr, Rev;
      RunStep(job, v, left, data, k, sym, n, k + sym / 16, job.zz[k + sym / 16], st.v, left - st.used);
    }
  }

  /** On track, the symbols mean the block. */
  lemma {:induction false} AcsArrive(job: Job, c: Counts, values: seq<byte>, v: nat, left: nat, data: seq<int>, k: nat)
    requires 1 <= k <= 64 && OnTrack(job, v, left, data, k) && AcTablesMatch(job.ht, c, values)
    requires Fits(c) && Total(c) <= 256 && |values| == 256 && |data| == |job.dequant| == 64
    ensures var m := AcMeaning(c, values, job.dequant, v, left, k, data);
            m.Done? && Arrived(job, m.v, m.sure, m.data)
    decreases 64 - k
  {
    hide OnTrack, Arrived, AcTablesMatch, Fits, Total, AcStep, SymbolStep, Says;
    if k == 64 {
      LastOne(job, v, left, data);
    } else {
      var sym, n := CodedStep(job, c, values, v, left, data, k);
      var st := AcStep(c, values, job.dequant, v, k, data);
      StepArrives(job, v, left, data, k, sym, n, st);
      if st.Go? { AcsArrive(job, c, values, st.v, left - st.used, st.data, st.k); }
    }
  }

  lemma LastOne(job: Job, v: nat, left: nat, data: seq<int>)
    requires OnTrack(job, v, left, data, 64)
    ensures Arrived(job, v, left, data)
  {
  }

  // ---- the whole block ----------------------------------------------------------------

  /** The stream starts with a block. */
  ghost predicate BlockComes(dct: CodeTable, cdc: Counts, vdc: seq<byte>, diff: int, dc_pred: int, job: Job,
                             cac: Counts, vac: seq<byte>, v: nat, left: nat)
  {
    && Category(diff) <= 11 && SmallAcs(job.zz) && DcTablesMatch(dct, cdc, vdc) && AcTablesMatch(job.ht, cac, vac)
    && Holds(DataUnit(dct, job.ht, diff, job.zz), v, left, job.end, job.spare)
    && JobSized(job) && job.dc == (dc_pred + diff) * job.dequant[0]
  }

  /** The DC symbol t and what comes after it, in n bits. */
  ghost predicate DcSays(diff: int, job: Job, v: nat, left: nat, t: nat, n: nat)
  {
    && t <= 11 && n + t <= left
    && if t == 0 then diff == 0 && CodedFrom(job.ht, job.zz, 1, Shr(v, n), left - n, job.end, job.spare)
       else
         && Extend(Rev(Shr(v, n), t), t) == diff
         && CodedFrom(job.ht, job.zz, 1, Shr(Shr(v, n), t), left - n - t, job.end, job.spare)
  }

  lemma ZeroCategory(diff: int)
    ensures Category(diff) == 0 <==> diff == 0
  {
    BitsInBound(Abs(diff));
  }

  lemma UnitShape(dct: CodeTable, act: CodeTable, diff: int, zz: Zigzag, sym: nat)
    requires sym == Category(diff) <= 11 && SmallAcs(zz)
    ensures diff == 0 <==> sym == 0
    ensures var fs, ac := DataUnit(dct, act, diff, zz), AcFields(act, zz, 1);
            && |fs| > 0 && fs[0] == SymbolField(dct, sym)
            && if sym == 0 then fs[1..] == ac
               else |fs[1..]| > 0 && fs[1..][0] == MagnitudeField(diff) && fs[1..][1..] == ac
  {
    hide Category, SmallAcs, AcFields, SymbolField, MagnitudeField;
    ZeroCategory(diff);
    var ac := AcFields(act, zz, 1);
    if diff == 0 {
      assert DataUnit(dct, act, diff, zz) == [SymbolField(dct, 0)] + ac;
    } else {
      var fs := DataUnit(dct, act, diff, zz);
      assert fs == [SymbolField(dct, sym), MagnitudeField(diff)] + ac;
      assert fs[1..] == [MagnitudeField(diff)] + ac;
    }
  }

  lemma DcSymbol(dct: CodeTable, cdc: Counts, vdc: seq<byte>, diff: int, dc_pred: int, job: Job,
                 cac: Counts, vac: seq<byte>, v: nat, left: nat) returns (k: nat, n: nat)
    requires BlockComes(dct, cdc, vdc, diff, dc_pred, job, cac, vac, v, left) && Fits(cdc)
    ensures Starts(cdc, k, n, v) && Findable(cdc, k) && n <= left && k < |vdc| && DcSays(diff, job, v, left, vdc[k], n)
  {
    var sym := Category(diff);
    assert SameCode(dct, cdc, vdc, sym);
    UnitShape(dct, job.ht, diff, job.zz, sym);
    hide AcFields, Fits, SameCode, JobSized, DcTablesMatch, AcTablesMatch, DataUnit, SmallAcs, Category, Holds, Starts;
    var fs := DataUnit(dct, job.ht, diff, job.zz);
    HoldsTail(fs, v, left, job.end, job.spare);
    k, n := SymbolStarts(dct, cdc, vdc, sym, v);
    if sym != 0 {
      HoldsTail(fs[1..], Shr(v, n), left - n, job.end, job.spare);
      MagnitudeRead(diff, Shr(v, n));
    }
  }

  lemma DcArrives(dct: CodeTable, cdc: Counts, vdc: seq<byte>, diff: int, dc_pred: int, job: Job,
                  cac: Counts, vac: seq<byte>, v: nat, left: nat)
    requires BlockComes(dct, cdc, vdc, diff, dc_pred, job, cac, vac, v, left)
    requires Fits(cdc) && Total(cdc) <= 256 && |vdc| == 256
    ensures var m := DcMeaning(cdc, vdc, v, left);
            m.Dc? && m.diff == diff && CodedFrom(job.ht, job.zz, 1, m.v, m.sure, job.end, job.spare)
  {
    hide BlockComes, CodedFrom, Fits, Total, Lookup, Starts, Extend, Rev, Shr;
    var j, n := DcSymbol(dct, cdc, vdc, diff, dc_pred, job, cac, vac, v, left);
    FoundIs(cdc, v, j, n);
  }

  lemma FilledAtStart(data: seq<int>, job: Job)
    requires |job.dequant| == 64 && |data| == 64 && data[0] == job.dc && forall i: nat | 1 <= i < 64 :: data[i] == 0
    ensures Filled(data, job, 1)
  {
    forall m: nat | 1 <= m < 64 ensures data[Dezigzag(m)] == 0 {
      DezigzagInjective0(m);
    }
  }

  lemma JobKept(dct: CodeTable, cdc: Counts, vdc: seq<byte>, diff: int, dc_pred: int, job: Job,
                cac: Counts, vac: seq<byte>, v: nat, left: nat)
    requires BlockComes(dct, cdc, vdc, diff, dc_pred, job, cac, vac, v, left)
    ensures JobSized(job) && AcTablesMatch(job.ht, cac, vac) && job.dc == (dc_pred + diff) * job.dequant[0]
  {
  }

  /** A coded block means itself, if its DC coefficient fits, and is wrong otherwise. */
  lemma BlockArrives(dct: CodeTable, cdc: Counts, vdc: seq<byte>, diff: int, dc_pred: int, job: Job,
                     cac: Counts, vac: seq<byte>, v: nat, left: nat)
    requires BlockComes(dct, cdc, vdc, diff, dc_pred, job, cac, vac, v, left)
    requires Fits(cdc) && Total(cdc) <= 256 && |vdc| == 256 && Fits(cac) && Total(cac) <= 256 && |vac| == 256
    requires |job.dequant| == 64
    ensures var d := DcMeaning(cdc, vdc, v, left); d.Dc? && d.diff == diff
    ensures var m := BlockMeaning(cdc, vdc, cac, vac, job.dequant, dc_pred, v, left);
            if DcFits(dc_pred + diff, job.dequant[0]) then m.Done? && Arrived(job, m.v, m.sure, m.data) else m.Bad?
  {
    hide BlockComes, CodedFrom, AcTablesMatch, Fits, Total, AcMeaning, DcMeaning, Arrived, Filled;
    DcArrives(dct, cdc, vdc, diff, dc_pred, job, cac, vac, v, left);
    JobKept(dct, cdc, vdc, diff, dc_pred, job, cac, vac, v, left);
    var d := DcMeaning(cdc, vdc, v, left);
    if DcFits(dc_pred + diff, job.dequant[0]) {
      ShortKeeps(job.dc);
      hide Short;
      var data := OnlyDc(job.dc);
      FilledAtStart(data, job);
      AcsArrive(job, cac, vac, d.v, d.sure, data, 1);
    }
  }

  lemma ShortKeeps(x: int)
    ensures FitsShort(x) ==> Short(x) == x
  {
  }
}
