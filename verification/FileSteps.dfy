/** The steps the read, write, truncate and range-shifting paths are made of
    (fuse/file_ops.go, fuse/extent_ops.go), with their exact effect on bytes and blocks. */
module FileSteps {
  import opened Bytes
  import opened Extents
  import opened FileModel
  import opened Options

  /** Device blocks are owned by the file, free, or freed and waiting for a commit. */
  ghost predicate Partitioned(exts: seq<Extent>, free: set<nat>, pending: set<nat>) {
    && free !! pending && 0 !in free
    && forall b: nat :: At(exts, b).Some? ==> At(exts, b).value.phys !in free && At(exts, b).value.phys !in pending
  }

  ghost predicate Held(exts: seq<Extent>, free: set<nat>, pending: set<nat>, p: nat) {
    p in free || p in pending || Owns(exts, p)
  }

  ghost predicate Conserved(exts: seq<Extent>, free: set<nat>, pending: set<nat>,
                            exts': seq<Extent>, free': set<nat>, pending': set<nat>) {
    forall p: nat :: Held(exts', free', pending', p) <==> Held(exts, free, pending, p)
  }

  lemma ConservedTrans(e0: seq<Extent>, f0: set<nat>, p0: set<nat>, e1: seq<Extent>, f1: set<nat>, p1: set<nat>,
                       e2: seq<Extent>, f2: set<nat>, p2: set<nat>)
    requires Conserved(e0, f0, p0, e1, f1, p1) && Conserved(e1, f1, p1, e2, f2, p2)
    ensures Conserved(e0, f0, p0, e2, f2, p2)
  {
    forall p: nat ensures Held(e2, f2, p2, p) <==> Held(e0, f0, p0, p) {
      assert Held(e1, f1, p1, p) <==> Held(e0, f0, p0, p);
    }
  }

  /** exts' keeps every mapping of exts and adds only blocks taken from free. */
  ghost predicate Grows(exts: seq<Extent>, exts': seq<Extent>, free: set<nat>) {
    && (forall b: nat :: At(exts, b).Some? ==> At(exts', b).Some? && At(exts', b).value.phys == At(exts, b).value.phys)
    && (forall b: nat :: At(exts', b).Some? && At(exts, b) == None ==> At(exts', b).value.phys in free)
  }

  /** Taking the newly mapped blocks out of free keeps the partition. */
  lemma CommitGrown(exts: seq<Extent>, free: set<nat>, pending: set<nat>, exts': seq<Extent>)
    requires Sorted(exts') && Partitioned(exts, free, pending) && Grows(exts, exts', free)
    ensures Partitioned(exts', free - PhysSet(exts'), pending)
    ensures Conserved(exts, free, pending, exts', free - PhysSet(exts'), pending)
  {
    PhysSetOwns(exts');
    var free' := free - PhysSet(exts');
    forall b: nat | At(exts', b).Some?
      ensures At(exts', b).value.phys !in free' && At(exts', b).value.phys !in pending
    {
      assert Owns(exts', At(exts', b).value.phys);
      assert At(exts, b) == None || At(exts, b).Some?;
    }
    forall p: nat ensures Held(exts', free', pending, p) <==> Held(exts, free, pending, p) {
      if Owns(exts, p) {
        var b: nat :| At(exts, b).Some? && At(exts, b).value.phys == p;
        assert At(exts', b).Some?;
      }
      if Owns(exts', p) {
        var b: nat :| At(exts', b).Some? && At(exts', b).value.phys == p;
        assert At(exts, b) == None || Owns(exts, p);
      }
    }
  }

  /** exts' is exts with the mappings of [s, e) dropped and the rest moved or kept. */
  lemma CommitShrunk(exts: seq<Extent>, free: set<nat>, pending: set<nat>,
                     exts': seq<Extent>, freed: seq<BlockRun>, s: nat, e: nat, from: nat -> nat, to: nat -> nat)
    requires Injective(exts) && Partitioned(exts, free, pending) && FreedExactly(freed, exts, s, e)
    requires forall b: nat :: At(exts', b).Some? ==> At(exts', b) == At(exts, from(b)) && !(s <= from(b) < e)
    requires forall b: nat :: !(s <= b < e) ==> At(exts', to(b)) == At(exts, b)
    ensures Partitioned(exts', free, pending + RunSet(freed))
    ensures Conserved(exts, free, pending, exts', free, pending + RunSet(freed))
  {
    var pending' := pending + RunSet(freed);
    forall p: nat | p in RunSet(freed) ensures Owns(exts, p) && p !in free {
      assert MapsTo(exts, s, e, p);
      var b: nat :| s <= b < e && At(exts, b).Some? && At(exts, b).value.phys == p;
    }
    forall b: nat | At(exts', b).Some?
      ensures At(exts', b).value.phys !in free && At(exts', b).value.phys !in pending'
    {
      var p := At(exts', b).value.phys;
      assert At(exts, from(b)).Some?;
    }
    forall p: nat ensures Held(exts', free, pending', p) <==> Held(exts, free, pending, p) {
      if Owns(exts, p) {
        var b: nat :| At(exts, b).Some? && At(exts, b).value.phys == p;
        if s <= b < e { assert MapsTo(exts, s, e, p); } else { assert At(exts', to(b)).Some?; }
      }
      if Owns(exts', p) {
        var b: nat :| At(exts', b).Some? && At(exts', b).value.phys == p;
        assert At(exts, from(b)).Some?;
      }
    }
  }

  /** Distinct free blocks: the answers of successive AllocBlock calls. */
  predicate GrantedBlocks(blocks: seq<nat>, free: set<nat>) {
    && (forall i :: 0 <= i < |blocks| ==> blocks[i] in free)
    && forall i, j :: 0 <= i < j < |blocks| ==> blocks[i] != blocks[j]
  }

  /** Disjoint non-empty free runs: the answers of AllocBlocks and AllocRunsUpTo. */
  predicate GrantedRuns(runs: seq<BlockRun>, free: set<nat>) {
    && (forall k :: 0 <= k < |runs| ==> runs[k].n > 0 && Span(runs[k].first, runs[k].n) <= free)
    && forall i, j :: 0 <= i < j < |runs| ==> Apart(runs[i], runs[j])
  }

  /** Contents of n device bytes starting at byte `at` of a block, crossing block boundaries. */
  function ReadRun(dev: Device, first: nat, at: nat, n: nat): (r: seq<Byte>)
    ensures |r| == n
    ensures forall k :: 0 <= k < n ==> r[k] == ReadBlock(dev, first + (at + k) / BS)[(at + k) % BS]
  {
    seq(n, k requires 0 <= k => ReadBlock(dev, first + (at + k) / BS)[(at + k) % BS])
  }

  /** One extent's share of a read. */
  lemma PrefixByte(dev: Device, exts: seq<Extent>, k: nat, i: nat)
    requires Sorted(exts) && k < |exts|
    ensures var e := exts[k];
      if e.offset * BS <= i < (e.offset + e.len) * BS then
        && ByteAt(dev, exts[..k], i) == 0
        && ByteAt(dev, exts[..k+1], i) ==
           if e.unwritten then 0 else ReadBlock(dev, e.phys + (i / BS - e.offset))[i % BS]
      else
        ByteAt(dev, exts[..k+1], i) == ByteAt(dev, exts[..k], i)
  {
    PrefixStep(exts, k);
    assert Covers(exts[k], i / BS) <==> exts[k].offset * BS <= i < (exts[k].offset + exts[k].len) * BS;
    assert At(exts[..k], i / BS).Some? ==> !Covers(exts[k], i / BS);
  }

  lemma SplitPosition(blk: nat, x: nat, j: nat)
    ensures (blk * BS + x + j) / BS == blk + x / BS + (x % BS + j) / BS
    ensures (blk * BS + x + j) % BS == (x % BS + j) % BS
  {
  }

  lemma RunByte(dev: Device, exts: seq<Extent>, k: nat, inExt: nat, j: nat)
    requires Sorted(exts) && k < |exts| && !exts[k].unwritten && inExt + j < exts[k].len * BS
    ensures ReadBlock(dev, exts[k].phys + inExt / BS + (inExt % BS + j) / BS)[(inExt % BS + j) % BS]
         == ByteAt(dev, exts[..k+1], exts[k].offset * BS + inExt + j)
  {
    PrefixByte(dev, exts, k, exts[k].offset * BS + inExt + j);
    SplitPosition(exts[k].offset, inExt, j);
  }

  lemma RunBytes(dev: Device, exts: seq<Extent>, k: nat, inExt: nat, n: nat, run: seq<Byte>)
    requires Sorted(exts) && k < |exts| && !exts[k].unwritten && inExt + n <= exts[k].len * BS
    requires run == ReadRun(dev, exts[k].phys + inExt / BS, inExt % BS, n)
    ensures forall j {:trigger run[j]} :: 0 <= j < n ==>
      run[j] == ByteAt(dev, exts[..k+1], exts[k].offset * BS + inExt + j)
  {
    forall j {:trigger run[j]} | 0 <= j < n
      ensures run[j] == ByteAt(dev, exts[..k+1], exts[k].offset * BS + inExt + j)
    {
      RunByte(dev, exts, k, inExt, j);
    }
  }

  /** The loop body of readFileData: copy what one extent maps into the read buffer. */
  method ReadExtent(dev: Device, exts: seq<Extent>, k: nat, off: nat, endOff: nat, buf: seq<Byte>)
    returns (r: seq<Byte>)
    requires Sorted(exts) && k < |exts| && off <= endOff && |buf| == endOff - off
    requires forall j :: 0 <= j < |buf| ==> buf[j] == ByteAt(dev, exts[..k], off + j)
    ensures |r| == |buf| && forall j :: 0 <= j < |r| ==> r[j] == ByteAt(dev, exts[..k+1], off + j)
  {
    hide ByteAt, At;
    var ext := exts[k];
    var extStart, extEnd := ext.offset * BS, (ext.offset + ext.len) * BS;
    forall j | 0 <= j < |buf| && (ext.unwritten || !(extStart <= off + j < extEnd))
      ensures buf[j] == ByteAt(dev, exts[..k+1], off + j)
    {
      PrefixByte(dev, exts, k, off + j);
    }
    if off >= extEnd || endOff <= extStart || ext.unwritten {
      return buf;
    }
    var readStart := if off < extStart then extStart else off;
    var readEnd := if endOff > extEnd then extEnd else endOff;
    var inExt := readStart - extStart;
    var run := ReadRun(dev, ext.phys + inExt / BS, inExt % BS, readEnd - readStart);
    RunBytes(dev, exts, k, inExt, readEnd - readStart, run);
    r := buf[..readStart - off] + run + buf[readEnd - off..];
    SpliceBytes(dev, exts[..k+1], off, buf, readStart - off, run);
  }

  /** A run of file bytes copied over the part of a read buffer that still lacks them. */
  lemma SpliceBytes(dev: Device, exts: seq<Extent>, off: nat, buf: seq<Byte>, at: nat, run: seq<Byte>)
    requires at + |run| <= |buf|
    requires forall j :: 0 <= j < |buf| && !(at <= j < at + |run|) ==> buf[j] == ByteAt(dev, exts, off + j)
    requires forall t {:trigger run[t]} :: 0 <= t < |run| ==> run[t] == ByteAt(dev, exts, off + at + t)
    ensures var r := buf[..at] + run + buf[at + |run|..];
      |r| == |buf| && forall j :: 0 <= j < |r| ==> r[j] == ByteAt(dev, exts, off + j)
  {
    hide ByteAt;
    var r := buf[..at] + run + buf[at + |run|..];
    forall j | 0 <= j < |r| ensures r[j] == ByteAt(dev, exts, off + j) {
      if at <= j < at + |run| {
        assert r[j] == run[j - at];
      } else {
        assert r[j] == buf[j];
      }
    }
  }

  /** The extent list's own invariant.  Mappings stop maxBlocks past the end of file,
      and none past the end of file is written. */
  ghost predicate ListOk(exts: seq<Extent>, size: nat, maxBlocks: nat) {
    && Sorted(exts) && Injective(exts)
    && size <= MAX_FILE && maxBlocks * BS <= MAX_FILE
    && (forall b: nat :: At(exts, b).Some? ==> b < CeilBlk(size) + maxBlocks)
    && NoWrittenPastEof(exts, size)
  }

  // ---------------------------------------------------------------------------
  // Block-level steps shared by the write and fallocate paths

  /** xs' is xs with block b mapped and written; every other mapping is unchanged. */
  ghost predicate WrittenAt(xs: seq<Extent>, xs': seq<Extent>, b: nat, p: nat) {
    && Sorted(xs') && Injective(xs')
    && forall c: nat :: At(xs', c) == if c == b then Some(Cell(p, false)) else At(xs, c)
  }

  /** Bytes [lo, lo+|seg|) become seg and no other byte changes. */
  ghost predicate PatchedBytes(dev: Device, xs: seq<Extent>, dev': Device, xs': seq<Extent>, lo: nat, seg: seq<Byte>) {
    forall i: nat :: ByteAt(dev', xs', i) == if lo <= i < lo + |seg| then seg[i - lo] else ByteAt(dev, xs, i)
  }

  /** Writing buf into the now written block b patches exactly [b*BS+at, b*BS+at+|seg|). */
  lemma WriteBlockBytes(dev: Device, xs: seq<Extent>, xs': seq<Extent>, b: nat, p: nat, base: Block, at: nat,
                        seg: seq<Byte>)
    requires at + |seg| <= BS && WrittenAt(xs, xs', b, p)
    requires forall c: nat :: c != b && At(xs, c).Some? ==> At(xs, c).value.phys != p
    requires forall j :: 0 <= j < BS && !(at <= j < at + |seg|) ==> base[j] == ByteAt(dev, xs, b * BS + j)
    ensures PatchedBytes(dev, xs, dev[p := Patch(base, at, seg)], xs', b * BS + at, seg)
  {
    var buf := Patch(base, at, seg);
    DevUpdate(dev, xs', b, buf);
    forall i: nat ensures ByteAt(dev[p := buf], xs', i) ==
      if b * BS + at <= i < b * BS + at + |seg| then seg[i - (b * BS + at)] else ByteAt(dev, xs, i)
    {
      if i / BS == b {
        assert i == b * BS + i % BS;
      } else {
        assert At(xs', i / BS) == At(xs, i / BS);
      }
    }
  }

  lemma SplitInjective(xs: seq<Extent>, xs': seq<Extent>, b: nat)
    requires Injective(xs) && At(xs, b).Some?
    requires forall c: nat :: At(xs', c) == if c == b then Some(At(xs, b).value.(unwritten := false)) else At(xs, c)
    ensures Injective(xs')
  {
    SamePhysInjective(xs, xs');
  }

  /** The loop body of writeExtentData for one block: overwrite, read-modify-write,
      convert an unwritten block, or allocate a hole. */
  method WriteOneBlock(dev: Device, xs: seq<Extent>, iblock: nat, at: nat, seg: seq<Byte>, spare: Option<nat>)
    returns (ok: bool, dev': Device, xs': seq<Extent>, took: bool)
    requires Sorted(xs) && Injective(xs) && at + |seg| <= BS
    requires spare.Some? ==> spare.value > 0 && forall b: nat :: At(xs, b).Some? ==> At(xs, b).value.phys != spare.value
    ensures ok <==> At(xs, iblock).Some? || spare.Some?
    ensures took <==> ok && At(xs, iblock) == None
    ensures !ok ==> dev' == dev && xs' == xs
    ensures ok ==> WrittenAt(xs, xs', iblock, if took then spare.value else At(xs, iblock).value.phys)
    ensures ok ==> PatchedBytes(dev, xs, dev', xs', iblock * BS + at, seg)
  {
    var ext, found := LookupExtent(xs, iblock);
    xs', dev' := xs, dev;
    if found {
      var abs := ext.phys + (iblock - ext.offset);
      var base := if ext.unwritten || (at == 0 && |seg| == BS) then Zeros(BS) else ReadBlock(dev, abs);
      dev' := dev[abs := Patch(base, at, seg)];
      if ext.unwritten {
        xs' := SplitUnwrittenAt(xs, ext, iblock);
        SplitInjective(xs, xs', iblock);
      }
      WriteBlockBytes(dev, xs, xs', iblock, abs, base, at, seg);
      return true, dev', xs', false;
    }
    if spare == None {
      return false, dev, xs, false;
    }
    var e := Extent(iblock, spare.value, 1, false);
    dev' := dev[spare.value := Patch(Zeros(BS), at, seg)];
    assert forall b: nat :: Covers(e, b) <==> b == iblock;
    xs' := InsertExtentSorted(xs, e);
    InsertInjective(xs', xs, e);
    WriteBlockBytes(dev, xs, xs', iblock, spare.value, Zeros(BS), at, seg);
    return true, dev', xs', true;
  }

  /** How far a write has rewritten the extent list: only blocks in [lo, hi) differ from
      exts, mapped blocks keep their device block, and holes are filled from blocks[..g]. */
  ghost predicate WriteProgress(exts: seq<Extent>, xs: seq<Extent>, lo: nat, hi: nat, used: seq<nat>) {
    && Sorted(xs) && Injective(xs)
    && (forall b: nat :: !(lo <= b < hi) ==> At(xs, b) == At(exts, b))
    && (forall b: nat :: At(exts, b).Some? ==>
          At(xs, b).Some? && At(xs, b).value.phys == At(exts, b).value.phys
          && (At(xs, b).value.unwritten ==> At(exts, b).value.unwritten))
    && (forall b: nat :: At(xs, b).Some? && At(exts, b) == None ==> At(xs, b).value.phys in used)
  }

  lemma WriteProgressStep(exts: seq<Extent>, xs: seq<Extent>, xs': seq<Extent>, lo: nat, hi: nat, b: nat, p: nat,
                          used: seq<nat>, used': seq<nat>)
    requires WriteProgress(exts, xs, lo, hi, used) && WrittenAt(xs, xs', b, p) && lo <= b
    requires forall x :: x in used ==> x in used'
    requires if At(xs, b).Some? then p == At(xs, b).value.phys else p in used'
    ensures WriteProgress(exts, xs', lo, if b < hi then hi else b + 1, used')
  {
    forall c: nat | At(exts, c).Some?
      ensures At(xs', c).Some? && At(xs', c).value.phys == At(exts, c).value.phys
        && (At(xs', c).value.unwritten ==> At(exts, c).value.unwritten)
    {
      assert At(xs, c).Some?;
    }
    forall c: nat | At(xs', c).Some? && At(exts, c) == None ensures At(xs', c).value.phys in used' {
      assert c == b || At(xs', c) == At(xs, c);
    }
  }

  lemma PatchedStep(d0: Device, exts: seq<Extent>, d1: Device, xs: seq<Extent>, d2: Device, xs': seq<Extent>,
                    lo: nat, a: seq<Byte>, c: seq<Byte>)
    requires PatchedBytes(d0, exts, d1, xs, lo, a) && PatchedBytes(d1, xs, d2, xs', lo + |a|, c)
    ensures PatchedBytes(d0, exts, d2, xs', lo, a + c)
  {
    forall i: nat ensures ByteAt(d2, xs', i) ==
      if lo <= i < lo + |a + c| then (a + c)[i - lo] else ByteAt(d0, exts, i)
    {
      assert ByteAt(d1, xs, i) == if lo <= i < lo + |a| then a[i - lo] else ByteAt(d0, exts, i);
    }
  }

  /** Block b is mapped and written, so its device block is what a read shows. */
  predicate Shows(exts: seq<Extent>, b: nat) {
    At(exts, b).Some? && !At(exts, b).value.unwritten
  }

  /** An aborted write, seen through the old list: the data written so far shows in the blocks that were already
      written, and nothing else changed. */
  ghost predicate AbortedBytes(d0: Device, exts: seq<Extent>, dev: Device, off: nat, done: seq<Byte>) {
    forall i: nat :: ByteAt(dev, exts, i) ==
      if off <= i < off + |done| && Shows(exts, i / BS) then done[i - off] else ByteAt(d0, exts, i)
  }

  lemma AbortedWrite(d0: Device, exts: seq<Extent>, d1: Device, xs: seq<Extent>, lo: nat, hi: nat, used: seq<nat>,
                     off: nat, done: seq<Byte>)
    requires WriteProgress(exts, xs, lo, hi, used) && PatchedBytes(d0, exts, d1, xs, off, done)
    ensures AbortedBytes(d0, exts, d1, off, done)
  {
    forall i: nat ensures ByteAt(d1, exts, i) ==
      if off <= i < off + |done| && Shows(exts, i / BS) then done[i - off] else ByteAt(d0, exts, i)
    {
      assert ByteAt(d1, xs, i) == if off <= i < off + |done| then done[i - off] else ByteAt(d0, exts, i);
      if At(exts, i / BS).Some? { assert At(xs, i / BS).Some?; }
    }
  }

  /** The first block of [b, hi) that is a hole with no fresh block left for it, or hi. */
  function FirstShort(exts: seq<Extent>, b: nat, hi: nat, n: nat): (r: nat)
    requires b <= hi
    ensures b <= r <= hi
    decreases hi - b
  {
    if b == hi then hi
    else if At(exts, b).Some? then FirstShort(exts, b + 1, hi, n)
    else if n == 0 then b
    else FirstShort(exts, b + 1, hi, n - 1)
  }

  /** The blocks of [lo, hi) that nothing is mapped to. */
  ghost function Holes(exts: seq<Extent>, lo: nat, hi: nat): (s: set<nat>) {
    set b: nat | lo <= b < hi && At(exts, b) == None
  }

  /** The fresh blocks are enough exactly when there are as many as holes; otherwise the blocks before the stop hold
      as many holes as there were fresh blocks. */
  lemma {:induction false} ShortExact(exts: seq<Extent>, b: nat, hi: nat, n: nat)
    requires b <= hi
    ensures FirstShort(exts, b, hi, n) == hi <==> |Holes(exts, b, hi)| <= n
    ensures var f := FirstShort(exts, b, hi, n); f < hi ==> At(exts, f) == None && |Holes(exts, b, f)| == n
    decreases hi - b
  {
    hide At;
    if b == hi {
      assert Holes(exts, b, hi) == {};
    } else if At(exts, b).Some? {
      ShortExact(exts, b + 1, hi, n);
      forall c: nat | b < c <= hi ensures Holes(exts, b, c) == Holes(exts, b + 1, c) {}
    } else if n == 0 {
      assert b in Holes(exts, b, hi);
      assert Holes(exts, b, b) == {};
    } else {
      ShortExact(exts, b + 1, hi, n - 1);
      forall c: nat | b < c <= hi ensures Holes(exts, b, c) == {b} + Holes(exts, b + 1, c) {}
    }
  }

  /** As many fresh blocks as blocks are always enough. */
  lemma {:induction false} EnoughBlocks(exts: seq<Extent>, b: nat, hi: nat, n: nat)
    requires b <= hi && hi - b <= n
    ensures FirstShort(exts, b, hi, n) == hi
    decreases hi - b
  {
    if b < hi { EnoughBlocks(exts, b + 1, hi, if At(exts, b).Some? then n else n - 1); }
  }

  /** How far a write from off reaches when it stops at block f. */
  function Reached(off: nat, f: nat): (n: nat) {
    if f * BS > off then f * BS - off else 0
  }

  lemma PatchedNone(dev: Device, xs: seq<Extent>, off: nat, none: seq<Byte>)
    requires none == []
    ensures PatchedBytes(dev, xs, dev, xs, off, none)
  {
  }

  /** The block loop of writeExtentData over a clone of the extent list. */
  method WriteBlocks(d0: Device, exts: seq<Extent>, data: seq<Byte>, off: nat, blocks: seq<nat>, free: set<nat>)
    returns (ok: bool, dev: Device, xs: seq<Extent>)
    requires Sorted(exts) && Injective(exts) && data != [] && 0 !in free && GrantedBlocks(blocks, free)
    requires forall b: nat :: At(exts, b).Some? ==> At(exts, b).value.phys !in free
    ensures ok <==> Stop(exts, off, |data|, |blocks|) == CeilBlk(off + |data|)
    ensures ok ==> WriteProgress(exts, xs, off / BS, CeilBlk(off + |data|), blocks)
    ensures ok ==> PatchedBytes(d0, exts, dev, xs, off, data)
    ensures !ok ==> var k := Reached(off, Stop(exts, off, |data|, |blocks|));
      k < |data| && AbortedBytes(d0, exts, dev, off, data[..k])
  {
    hide PatchedBytes, ByteAt, At, Sorted, Injective, FirstShort, WriteProgress;
    var end, hi := off + |data|, CeilBlk(off + |data|);
    var cur, g := off, 0;
    ghost var b: nat := off / BS;
    dev, xs := d0, exts;
    PatchedNone(d0, exts, off, data[..0]);
    NoProgress(exts, b, blocks[..0]);
    while cur < end
      invariant off <= cur <= end && g <= |blocks|
      invariant (if cur < end then b == cur / BS else b == hi) && (cur == off || cur == end || cur == b * BS)
      invariant WriteProgress(exts, xs, off / BS, b, blocks[..g]) && off / BS <= b <= hi
      invariant PatchedBytes(d0, exts, dev, xs, off, data[..cur - off])
      invariant Stop(exts, off, |data|, |blocks|) == FirstShort(exts, b, hi, |blocks| - g)
    {
      var iblock := cur / BS;
      var blockEnd := iblock * BS + BS;
      var segEnd := if end > blockEnd then blockEnd else end;
      var seg := data[cur - off..segEnd - off];
      var spare := if g < |blocks| then Some(blocks[g]) else None;
      WriteReady(exts, xs, off / BS, b, blocks, g, free);
      ShortStep(exts, b, hi, |blocks| - g);
      ghost var xs0, dev0 := xs, dev;
      var took;
      ok, dev, xs, took := WriteOneBlock(dev, xs, iblock, cur % BS, seg, spare);
      if !ok {
        AbortedWrite(d0, exts, dev0, xs0, off / BS, b, blocks[..g], off, data[..cur - off]);
        return false, dev, xs;
      }
      var g' := if took then g + 1 else g;
      WriteProgressStep(exts, xs0, xs, off / BS, b, iblock,
                        if took then spare.value else At(xs0, iblock).value.phys, blocks[..g], blocks[..g']);
      PatchedStep(d0, exts, dev0, xs0, dev, xs, off, data[..cur - off], seg);
      assert data[..cur - off] + seg == data[..segEnd - off];
      cur, g, b := segEnd, g', b + 1;
    }
    assert data[..cur - off] == data;
    UseMore(exts, xs, off / BS, hi, blocks[..g], blocks);
    ShortEnd(exts, hi, |blocks| - g);
    ok := true;
  }

  lemma NoProgress(exts: seq<Extent>, b: nat, none: seq<nat>)
    requires Sorted(exts) && Injective(exts)
    ensures WriteProgress(exts, exts, b, b, none)
  {
  }

  lemma UseMore(exts: seq<Extent>, xs: seq<Extent>, lo: nat, hi: nat, used: seq<nat>, more: seq<nat>)
    requires WriteProgress(exts, xs, lo, hi, used) && used <= more
    ensures WriteProgress(exts, xs, lo, hi, more)
  {
    assert forall x :: x in used ==> x in more;
  }

  /** The next block is as the old list has it, and the next fresh block is nobody's. */
  lemma WriteReady(exts: seq<Extent>, xs: seq<Extent>, lo: nat, b: nat, blocks: seq<nat>, g: nat, free: set<nat>)
    requires g <= |blocks| && WriteProgress(exts, xs, lo, b, blocks[..g]) && GrantedBlocks(blocks, free) && 0 !in free
    requires forall c: nat :: At(exts, c).Some? ==> At(exts, c).value.phys !in free
    ensures Sorted(xs) && Injective(xs) && At(xs, b) == At(exts, b)
    ensures g < |blocks| ==> blocks[g] > 0 && blocks[g] !in blocks[..g]
    ensures g < |blocks| ==> forall c: nat :: At(xs, c).Some? ==> At(xs, c).value.phys != blocks[g]
  {
    if g < |blocks| {
      assert blocks[g] in free && blocks[g] !in blocks[..g];
      forall c: nat | At(xs, c).Some? ensures At(xs, c).value.phys != blocks[g] {
        assert At(exts, c).Some? || At(xs, c).value.phys in blocks[..g];
      }
    }
  }

  lemma ShortEnd(exts: seq<Extent>, hi: nat, n: nat)
    ensures FirstShort(exts, hi, hi, n) == hi
  {
  }

  /** The block at which a write of n bytes stops. */
  function Stop(exts: seq<Extent>, off: nat, n: nat, spare: nat): (f: nat)
    ensures off / BS <= f <= CeilBlk(off + n)
  {
    FirstShort(exts, off / BS, CeilBlk(off + n), spare)
  }

  lemma ShortStep(exts: seq<Extent>, b: nat, hi: nat, n: nat)
    requires b < hi
    ensures FirstShort(exts, b, hi, n) ==
      if At(exts, b).Some? then FirstShort(exts, b + 1, hi, n) else if n == 0 then b
        else FirstShort(exts, b + 1, hi, n - 1)
  {
  }

  lemma WriteKeepsList(exts: seq<Extent>, xs: seq<Extent>, size: nat, maxBlocks: nat, lo: nat, end: nat, used: seq<nat>)
    requires ListOk(exts, size, maxBlocks) && WriteProgress(exts, xs, lo, CeilBlk(end), used) && end <= MAX_FILE
    ensures ListOk(xs, if end > size then end else size, maxBlocks)
  {
    var size' := if end > size then end else size;
    assert CeilBlk(size) <= CeilBlk(size') && CeilBlk(end) <= CeilBlk(size');
    forall b: nat | At(xs, b).Some? ensures b < CeilBlk(size') + maxBlocks {
      assert b < CeilBlk(end) || At(xs, b) == At(exts, b);
    }
    forall b: nat | CeilBlk(size') <= b && At(xs, b).Some? ensures At(xs, b).value.unwritten {
      assert At(xs, b) == At(exts, b);
    }
  }

  /** Bytes [lo, hi) become zero and no other byte changes. */
  ghost predicate ZeroedBytes(dev: Device, xs: seq<Extent>, dev': Device, lo: nat, hi: nat) {
    forall i: nat :: ByteAt(dev', xs, i) == if lo <= i < hi then 0 else ByteAt(dev, xs, i)
  }

  /** zeroBlockRange on the block mapped at blk; holes, and unwritten blocks when
      writtenOnly, are left alone because they already read as zero. */
  method ZeroBlockRange(dev: Device, xs: seq<Extent>, blk: nat, from: nat, to: nat, writtenOnly: bool)
    returns (dev': Device)
    requires Sorted(xs) && Injective(xs) && from <= to <= BS
    ensures ZeroedBytes(dev, xs, dev', blk * BS + from, blk * BS + to) && OnlyBlock(dev, dev', xs, blk)
    ensures At(xs, blk) == None || (writtenOnly && At(xs, blk).value.unwritten) ==> dev' == dev
    ensures At(xs, blk).Some? && !(writtenOnly && At(xs, blk).value.unwritten) ==>
      forall j :: from <= j < to ==> ReadBlock(dev', At(xs, blk).value.phys)[j] == 0
  {
    var ext, found := LookupExtent(xs, blk);
    if !found || (writtenOnly && ext.unwritten) {
      return dev;
    }
    var abs := ext.phys + (blk - ext.offset);
    var buf := Patch(ReadBlock(dev, abs), from, Zeros(to - from));
    DevUpdate(dev, xs, blk, buf);
    dev' := dev[abs := buf];
    forall i: nat
      ensures ByteAt(dev', xs, i) == if blk * BS + from <= i < blk * BS + to then 0 else ByteAt(dev, xs, i)
    {
      if i / BS == blk { assert i == blk * BS + i % BS; }
    }
  }

  /** zeroEofTail / zeroEofTailBlock: zero from byte n to the end of its block. */
  method ZeroEofTail(dev: Device, xs: seq<Extent>, n: nat, writtenOnly: bool) returns (dev': Device)
    requires Sorted(xs) && Injective(xs) && n % BS != 0
    ensures ZeroedBytes(dev, xs, dev', n, CeilBlk(n) * BS) && OnlyBlock(dev, dev', xs, n / BS)
    ensures At(xs, n / BS) == None || (writtenOnly && At(xs, n / BS).value.unwritten) ==> dev' == dev
    ensures At(xs, n / BS).Some? && !(writtenOnly && At(xs, n / BS).value.unwritten) ==>
      forall j :: n % BS <= j < BS ==> ReadBlock(dev', At(xs, n / BS).value.phys)[j] == 0
  {
    var blk := (n - 1) / BS;
    assert blk == n / BS && n == blk * BS + n % BS && CeilBlk(n) == blk + 1;
    dev' := ZeroBlockRange(dev, xs, blk, n % BS, BS, writtenOnly);
  }

  // ---------------------------------------------------------------------------
  // Truncate, collapse and insert

  lemma TruncateKeepsList(exts: seq<Extent>, xs: seq<Extent>, size: nat, maxBlocks: nat, n: nat)
    requires ListOk(exts, size, maxBlocks) && Sorted(xs) && n < size
    requires forall b: nat :: At(xs, b) == if CeilBlk(n) <= b < U64_MAX then None else At(exts, b)
    ensures ListOk(xs, n, maxBlocks)
    ensures forall b: nat :: At(xs, b) == if CeilBlk(n) <= b then None else At(exts, b)
  {
    forall b: nat ensures At(xs, b) == if CeilBlk(n) <= b then None else At(exts, b) {
      assert At(exts, b).Some? ==> b < CeilBlk(size) + maxBlocks < U64_MAX;
    }
    SamePhysInjective(exts, xs);
  }

  /** After a truncation: the bytes below n, and zeros. */
  ghost predicate CutBytes(d0: Device, exts: seq<Extent>, dev: Device, xs: seq<Extent>, n: nat) {
    forall i: nat :: ByteAt(dev, xs, i) == if i < n then ByteAt(d0, exts, i) else 0
  }

  lemma TruncateBytes(d0: Device, exts: seq<Extent>, dev: Device, xs: seq<Extent>, n: nat)
    requires forall b: nat :: At(xs, b) == if CeilBlk(n) <= b then None else At(exts, b)
    requires if n % BS != 0 then ZeroedBytes(d0, xs, dev, n, CeilBlk(n) * BS) else dev == d0
    ensures CutBytes(d0, exts, dev, xs, n)
  {
    forall i: nat ensures ByteAt(dev, xs, i) == if i < n then ByteAt(d0, exts, i) else 0 {
      assert i < n ==> i / BS < CeilBlk(n);
      assert i >= CeilBlk(n) * BS ==> i / BS >= CeilBlk(n);
    }
  }

  /** A truncation whose index rebuild failed: through the old list its last block ends in zeros. */
  lemma FailedTruncate(d0: Device, exts: seq<Extent>, dev: Device, xs: seq<Extent>, n: nat)
    requires forall b: nat :: At(xs, b) == if CeilBlk(n) <= b then None else At(exts, b)
    requires Injective(exts)
    requires if n % BS != 0 then ZeroedBytes(d0, xs, dev, n, CeilBlk(n) * BS) &&
      OnlyBlock(d0, dev, xs, n / BS) else dev == d0
    ensures ZeroedBytes(d0, exts, dev, n, CeilBlk(n) * BS)
  {
    forall i: nat ensures ByteAt(dev, exts, i) == if n <= i < CeilBlk(n) * BS then 0 else ByteAt(d0, exts, i) {
      if n % BS != 0 {
        if i / BS < CeilBlk(n) {
          assert At(exts, i / BS) == At(xs, i / BS);
          assert ByteAt(dev, xs, i) == if n <= i < CeilBlk(n) * BS then 0 else ByteAt(d0, xs, i);
        } else {
          assert At(xs, n / BS) == At(exts, n / BS);
        }
      }
    }
  }

  /** Only the device block of file block b may have changed. */
  ghost predicate OnlyBlock(d0: Device, dev: Device, xs: seq<Extent>, b: nat) {
    forall p: nat :: !(At(xs, b).Some? && At(xs, b).value.phys == p) ==> ReadBlock(dev, p) == ReadBlock(d0, p)
  }

  /** Growing keeps the bytes below the end of file and shows zeros above it. */
  lemma ExtendBytes(d0: Device, exts: seq<Extent>, dev: Device, size: nat)
    requires NoWrittenPastEof(exts, size)
    requires if size % BS != 0 then ZeroedBytes(d0, exts, dev, size, CeilBlk(size) * BS) else dev == d0
    ensures CutBytes(d0, exts, dev, exts, size)
  {
    forall i: nat ensures ByteAt(dev, exts, i) == if i < size then ByteAt(d0, exts, i) else 0 {
      assert i >= CeilBlk(size) * BS ==> i / BS >= CeilBlk(size);
    }
  }

  lemma CollapseKeepsList(exts: seq<Extent>, xs: seq<Extent>, size: nat, maxBlocks: nat, s: nat, l: nat)
    requires ListOk(exts, size, maxBlocks) && Sorted(xs) && (s + l) * BS < size
    requires forall b: nat :: At(xs, b) == DownAt(exts, s, l, b)
    ensures ListOk(xs, size - l * BS, maxBlocks)
  {
    assert CeilBlk(size - l * BS) == CeilBlk(size) - l && s < CeilBlk(size - l * BS);
    forall a: nat, b: nat | At(xs, a).Some? && At(xs, b).Some? && At(xs, a).value.phys == At(xs, b).value.phys
      ensures a == b
    {
      assert At(xs, a) == DownAt(exts, s, l, a) && At(xs, b) == DownAt(exts, s, l, b);
    }
    forall b: nat | At(xs, b).Some?
      ensures b < CeilBlk(size - l * BS) + maxBlocks
      ensures CeilBlk(size - l * BS) <= b ==> At(xs, b).value.unwritten
    {
      assert At(xs, b) == DownAt(exts, s, l, b);
    }
  }

  lemma CollapseCommit(exts: seq<Extent>, xs: seq<Extent>, free: set<nat>, pending: set<nat>, freed: seq<BlockRun>,
                       s: nat, l: nat)
    requires Injective(exts) && Partitioned(exts, free, pending) && FreedExactly(freed, exts, s, s + l)
    requires forall b: nat :: At(xs, b) == DownAt(exts, s, l, b)
    ensures Partitioned(xs, free, pending + RunSet(freed))
    ensures Conserved(exts, free, pending, xs, free, pending + RunSet(freed))
  {
    CommitShrunk(exts, free, pending, xs, freed, s, s + l,
                 b => if b < s then b else b + l, b => if b < s + l then b else b - l);
  }

  ghost predicate MovedDown(dev: Device, exts: seq<Extent>, xs: seq<Extent>, s: nat, l: nat) {
    forall i: nat :: ByteAt(dev, xs, i) == ByteAt(dev, exts, if i < s * BS then i else i + l * BS)
  }

  lemma CollapseBytes(dev: Device, exts: seq<Extent>, xs: seq<Extent>, s: nat, l: nat)
    requires forall b: nat :: At(xs, b) == DownAt(exts, s, l, b)
    ensures MovedDown(dev, exts, xs, s, l)
  {
    forall i: nat ensures ByteAt(dev, xs, i) == ByteAt(dev, exts, if i < s * BS then i else i + l * BS) {
      assert At(xs, i / BS) == DownAt(exts, s, l, i / BS);
      assert (i + l * BS) / BS == i / BS + l && (i + l * BS) % BS == i % BS;
    }
  }

  lemma InsertKeepsList(exts: seq<Extent>, xs: seq<Extent>, size: nat, maxBlocks: nat, s: nat, l: nat)
    requires ListOk(exts, size, maxBlocks) && Sorted(xs) && s * BS < size
    requires forall b: nat :: At(xs, b) == UpAt(exts, s, l, b)
    ensures NoWrittenPastEof(xs, size + l * BS)
    ensures size + l * BS <= MAX_FILE ==> ListOk(xs, size + l * BS, maxBlocks)
  {
    assert CeilBlk(size + l * BS) == CeilBlk(size) + l && s < CeilBlk(size);
    forall a: nat, b: nat | At(xs, a).Some? && At(xs, b).Some? && At(xs, a).value.phys == At(xs, b).value.phys
      ensures a == b
    {
      assert At(xs, a) == UpAt(exts, s, l, a) && At(xs, b) == UpAt(exts, s, l, b);
    }
    forall b: nat | At(xs, b).Some?
      ensures b < CeilBlk(size + l * BS) + maxBlocks
      ensures CeilBlk(size + l * BS) <= b ==> At(xs, b).value.unwritten
    {
      assert At(xs, b) == UpAt(exts, s, l, b);
    }
  }

  ghost predicate MovedUp(dev: Device, exts: seq<Extent>, xs: seq<Extent>, s: nat, l: nat) {
    forall i: nat :: ByteAt(dev, xs, i) == MovedByte(dev, exts, s, l, i)
  }

  function MovedByte(dev: Device, exts: seq<Extent>, s: nat, l: nat, i: nat): (b: Byte) {
    if i < s * BS then ByteAt(dev, exts, i) else if i < (s + l) * BS then 0 else ByteAt(dev, exts, i - l * BS)
  }

  lemma InsertBytes(dev: Device, exts: seq<Extent>, xs: seq<Extent>, s: nat, l: nat)
    requires forall b: nat :: At(xs, b) == UpAt(exts, s, l, b)
    ensures MovedUp(dev, exts, xs, s, l)
  {
    forall i: nat ensures ByteAt(dev, xs, i) == MovedByte(dev, exts, s, l, i) {
      assert At(xs, i / BS) == UpAt(exts, s, l, i / BS);
      if (s + l) * BS <= i {
        assert (i - l * BS) / BS == i / BS - l && (i - l * BS) % BS == i % BS;
      }
    }
  }

  /** uint64 subtraction. */
  function Sub64(a: nat, b: nat): (r: nat) {
    (a - b) % (U64_MAX + 1)
  }

  /** insertRangeOp's EFBIG guard refuses exactly the requests that would push the file
      past the device when the file does not already reach past it; when it does, the
      subtraction wraps and nothing is refused. */
  lemma InsertGuardExact(size: nat, len: nat, maxBytes: nat)
    requires size <= MAX_FILE && len <= maxBytes <= MAX_FILE
    ensures (len > Sub64(maxBytes, size) <==> size + len > maxBytes) <==> size <= maxBytes
  {
  }

  lemma OwnsMoved(exts: seq<Extent>, xs: seq<Extent>, s: nat, l: nat, p: nat)
    requires forall b: nat :: At(xs, b) == UpAt(exts, s, l, b)
    ensures Owns(xs, p) <==> Owns(exts, p)
  {
    hide At;
    if Owns(exts, p) {
      var b: nat :| At(exts, b).Some? && At(exts, b).value.phys == p;
      assert At(xs, Up(b, s, l)) == UpAt(exts, s, l, Up(b, s, l));
    }
    if Owns(xs, p) {
      var b: nat :| At(xs, b).Some? && At(xs, b).value.phys == p;
      assert At(xs, b) == UpAt(exts, s, l, b);
    }
  }

  lemma InsertPartition(exts: seq<Extent>, xs: seq<Extent>, free: set<nat>, pending: set<nat>, s: nat, l: nat)
    requires Partitioned(exts, free, pending)
    requires forall b: nat :: At(xs, b) == UpAt(exts, s, l, b)
    ensures Partitioned(xs, free, pending) && Conserved(exts, free, pending, xs, free, pending)
  {
    hide At;
    forall p: nat ensures Owns(xs, p) <==> Owns(exts, p) {
      OwnsMoved(exts, xs, s, l, p);
    }
    forall b: nat | At(xs, b).Some? ensures At(xs, b).value.phys !in free && At(xs, b).value.phys !in pending {
      assert At(xs, b) == UpAt(exts, s, l, b);
    }
  }
}
