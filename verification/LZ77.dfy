/** LZ77 copies and the growing output buffer of the inflater. */
module LZ77 {
  import opened BitMath

  /** What a match means (RFC 1951 section 3.2.3): the output grows by `len` bytes, each
      equal to the byte `dist` places before it, so that a copy may overlap itself. */
  function CopyBack(out: seq<byte>, dist: nat, len: nat): (r: seq<byte>)
    requires 1 <= dist <= |out|
    ensures |r| == |out| + len
    decreases len
  {
    if len == 0 then out else CopyBack(out + [out[|out| - dist]], dist, len - 1)
  }

  /** Every byte of the result is an old byte or repeats the one `dist` before it. */
  lemma {:induction false} CopyBackPeriodic(out: seq<byte>, dist: nat, len: nat)
    requires 1 <= dist <= |out|
    ensures CopyBack(out, dist, len)[..|out|] == out
    ensures forall k | |out| <= k < |out| + len ::
              CopyBack(out, dist, len)[k] == CopyBack(out, dist, len)[k - dist]
    decreases len
  {
    if len != 0 {
      var out' := out + [out[|out| - dist]];
      CopyBackPeriodic(out', dist, len - 1);
      var r := CopyBack(out', dist, len - 1);
      assert r[..|out|] == r[..|out'|][..|out|] == out;
      assert r[|out|] == r[..|out'|][|out|] && r[|out| - dist] == r[..|out'|][|out| - dist];
    }
  }

  /** ... and is the only byte string with that property. */
  lemma CopyBackUnique(out: seq<byte>, dist: nat, len: nat, r: seq<byte>)
    requires 1 <= dist <= |out| && |r| == |out| + len
    requires r[..|out|] == out
    requires forall k | |out| <= k < |r| :: r[k] == r[k - dist]
    ensures r == CopyBack(out, dist, len)
  {
    var c := CopyBack(out, dist, len);
    CopyBackPeriodic(out, dist, len);
    var k := 0;
    while k < |r|
      invariant 0 <= k <= |r|
      invariant forall j | 0 <= j < k :: r[j] == c[j]
    {
      if k < |out| {
        assert r[k] == r[..|out|][k] && c[k] == c[..|out|][k];
      } else {
        assert r[k] == r[k - dist] && c[k] == c[k - dist];
      }
      k := k + 1;
    }
  }

  lemma {:induction false} CopyBackStep(out: seq<byte>, dist: nat, len: nat)
    requires 1 <= dist <= |out|
    ensures var c := CopyBack(out, dist, len);
            CopyBack(out, dist, len + 1) == c + [c[|c| - dist]]
    decreases len
  {
    if len != 0 {
      CopyBackStep(out + [out[|out| - dist]], dist, len - 1);
    }
  }

  lemma NothingCopied(out: seq<byte>, dist: nat)
    requires 1 <= dist <= |out|
    ensures CopyBack(out, dist, 0) == out
  {
  }

  /** A capacity doubled k times. */
  function Doubled(limit: nat, k: nat): nat
  {
    if k == 0 then limit else 2 * Doubled(limit, k - 1)
  }

  lemma {:induction false} DoubledIs(limit: nat, k: nat)
    ensures Doubled(limit, k) == limit * Pow2(k)
  {
    if k > 0 { DoubledIs(limit, k - 1); }
  }

  lemma {:induction false} DoubledAtLeast(limit: nat, k: nat)
    requires limit > 0
    ensures Doubled(limit, k) > k
  {
    if k > 0 { DoubledAtLeast(limit, k - 1); }
  }

  lemma {:induction false} ZeroStays(k: nat)
    ensures Doubled(0, k) == 0
  {
    if k > 0 { ZeroStays(k - 1); }
  }

  /** Doubling reaches what is needed exactly if it does not start from nothing, or nothing is
      needed: from a capacity of zero the loop below would not end. */
  lemma DoublingReaches(limit: nat, need: nat)
    ensures (exists k: nat :: limit * Pow2(k) >= need) <==> limit > 0 || need == 0
  {
    forall k: nat ensures limit * Pow2(k) == Doubled(limit, k) {
      DoubledIs(limit, k);
    }
    if limit > 0 {
      DoubledAtLeast(limit, need);
      assert limit * Pow2(need) >= need;
    } else if need == 0 {
      assert limit * Pow2(0) >= need;
    } else {
      forall k: nat ensures limit * Pow2(k) < need {
        ZeroStays(k);
      }
    }
  }

  const UINT_MAX := 0xFFFF_FFFF

  class OutputBuffer {
    /** `zout_start .. zout_end`; the bytes before `zout` have been written. */
    var buf: array<byte>
    var zout: nat
    const z_expandable: bool

    constructor (initial_size: nat, expandable: bool)
      requires expandable ==> initial_size > 0
      requires initial_size <= 0x7FFF_FFFF
      ensures Valid() && fresh(buf)
      ensures Contents() == [] && buf.Length == initial_size && z_expandable == expandable
    {
      buf := new byte[initial_size](_ => 0);
      zout := 0;
      z_expandable := expandable;
    }

    ghost predicate Valid()
      reads this
    {
      zout <= buf.Length <= UINT_MAX && (z_expandable ==> buf.Length > 0)
    }

    ghost function Contents(): seq<byte>
      reads this, buf
      requires Valid()
    {
      buf[..zout]
    }

    /** `stbi__zexpand`: double the capacity until n more bytes fit. */
    method Expand(n: nat) returns (ok: bool)
      requires Valid()
      modifies `buf
      ensures Valid() && Contents() == old(Contents())
      ensures ok ==> n <= buf.Length - zout && fresh(buf)
      ensures ok ==> exists k: nat :: buf.Length == Doubled(old(buf.Length), k)
      ensures !ok ==> buf == old(buf)
      ensures !ok ==> !z_expandable || zout + n > 0x8000_0000
    {
      if !z_expandable { return false; }
      var cur, limit := zout, buf.Length;
      if UINT_MAX - cur < n { return false; }
      ghost var k: nat := 0;
      while cur + n > limit
        invariant limit == Doubled(buf.Length, k)
        invariant 0 < limit <= UINT_MAX && cur <= limit && buf.Length <= limit
        decreases UINT_MAX - limit
      {
        if limit > UINT_MAX / 2 { return false; }
        limit := limit * 2;
        k := k + 1;
      }
      var q := new byte[limit](_ => 0);
      forall i | 0 <= i < buf.Length {
        q[i] := buf[i];
      }
      buf := q;
      ok := true;
    }

    /** One literal byte. */
    method Put(v: byte) returns (ok: bool)
      requires Valid()
      modifies this, buf
      ensures Valid() && (buf == old(buf) || fresh(buf))
      ensures ok ==> Contents() == old(Contents()) + [v]
      ensures !ok ==> Contents() == old(Contents()) && (!z_expandable || zout + 1 > 0x8000_0000)
    {
      ok := true;
      if zout >= buf.Length {
        ok := Expand(1);
        if !ok { return; }
      }
      buf[zout] := v;
      zout := zout + 1;
    }

    /** A match: `len` bytes from `dist` back, byte by byte. */
    method Repeat(dist: nat, len: nat) returns (ok: bool)
      requires Valid() && 1 <= dist <= zout
      modifies this, buf
      ensures Valid() && (buf == old(buf) || fresh(buf))
      ensures ok ==> Contents() == CopyBack(old(Contents()), dist, len)
      ensures !ok ==> Contents() == old(Contents()) && (!z_expandable || zout + len > 0x8000_0000)
    {
      ok := true;
      if len > buf.Length - zout {
        ok := Expand(len);
        if !ok { return; }
      }
      if dist == 1 {
        RepeatByte(len);
      } else {
        CopyForward(dist, len);
      }
    }

    /** The shortcut for a run of one byte. */
    method RepeatByte(len: nat)
      requires Valid() && 1 <= zout && len <= buf.Length - zout
      modifies `zout, buf
      ensures Valid() && Contents() == CopyBack(old(Contents()), 1, len)
    {
      var v := buf[zout - 1];
      var left := len;
      while left != 0
        invariant 0 <= left <= len && zout == old(zout) + (len - left)
        invariant buf[..zout] == CopyBack(old(buf[..zout]), 1, len - left)
        invariant buf[zout - 1] == v
      {
        CopyBackStep(old(buf[..zout]), 1, len - left);
        assert buf[..zout][zout - 1] == v;
        buf[zout] := v;
        zout := zout + 1;
        left := left - 1;
        assert buf[..zout] == buf[..zout - 1] + [v];
      }
    }

    method Store(b: byte)
      requires zout < buf.Length
      modifies `zout, buf
      ensures zout == old(zout) + 1 && buf[..zout] == old(buf[..zout]) + [b]
    {
      buf[zout] := b;
      zout := zout + 1;
    }

    method CopyForward(dist: nat, len: nat)
      requires Valid() && 1 <= dist <= zout && len <= buf.Length - zout
      modifies `zout, buf
      ensures Valid() && Contents() == CopyBack(old(Contents()), dist, len)
    {
      hide CopyBack;
      var p := zout - dist;
      var left := len;
      NothingCopied(buf[..zout], dist);
      while left != 0
        invariant 0 <= left <= len && zout == old(zout) + (len - left) && p == zout - dist
        invariant buf[..zout] == CopyBack(old(buf[..zout]), dist, len - left)
      {
        CopyBackStep(old(buf[..zout]), dist, len - left);
        assert buf[..zout][zout - dist] == buf[p];
        Store(buf[p]);
        p := p + 1;
        left := left - 1;
      }
    }

    /** The bytes of a stored block. */
    method Append(data: seq<byte>) returns (ok: bool)
      requires Valid()
      modifies this, buf
      ensures Valid() && (buf == old(buf) || fresh(buf))
      ensures ok ==> Contents() == old(Contents()) + data
      ensures !ok ==> Contents() == old(Contents()) && (!z_expandable || zout + |data| > 0x8000_0000)
    {
      ok := true;
      if zout + |data| > buf.Length {
        ok := Expand(|data|);
        if !ok { return; }
      }
      forall i | 0 <= i < |data| {
        buf[zout + i] := data[i];
      }
      zout := zout + |data|;
    }
  }
}
