/** Hole allocation, range zeroing and range conversion: the parts of preallocate,
    punchHole and zeroRangeOp (fuse/extent_ops.go) below the inode. */
module FileRanges {
  import opened Extents
  import opened FileModel
  import opened FileSteps
  import opened Options

  // ---------------------------------------------------------------------------
  // allocUnwrittenHole

  /** Unwritten extents, one per allocator grant from runs[g] on, each a prefix of its run. */
  ghost predicate SegsFrom(segs: seq<Extent>, runs: seq<BlockRun>, g: nat) {
    && g + |segs| <= |runs|
    && forall k :: 0 <= k < |segs| ==>
        segs[k].phys == runs[g + k].first && 0 < segs[k].len <= runs[g + k].n && segs[k].unwritten
  }

  /** segs maps exactly blocks [lo, hi). */
  ghost predicate Tiles(segs: seq<Extent>, lo: nat, hi: nat) {
    && Sorted(segs) && Within(segs, lo, hi)
    && forall b: nat :: At(segs, b).Some? <==> lo <= b < hi
  }

  lemma TileStep(segs: seq<Extent>, lo: nat, hi: nat, e: Extent)
    requires Tiles(segs, lo, hi) && e.offset == hi && e.len > 0 && e.phys > 0 && lo <= hi
    ensures Tiles(segs + [e], lo, hi + e.len)
  {
    AtSingle(e);
    assert Within([e], hi, hi + e.len);
    AppendGroup(segs, [e], hi, hi + e.len);
  }

  /** Cover the hole [startBlk, endBlk) with unwritten extents, or report ENOSPC. */
  method AllocUnwrittenHole(startBlk: nat, endBlk: nat, runs: seq<BlockRun>, g: nat)
    returns (ok: bool, segs: seq<Extent>)
    requires startBlk < endBlk && g <= |runs|
    requires forall k :: 0 <= k < |runs| ==> runs[k].n > 0 && runs[k].first > 0
    ensures |runs| - g >= endBlk - startBlk ==> ok
    ensures ok ==> SegsFrom(segs, runs, g) && Tiles(segs, startBlk, endBlk) && |segs| <= endBlk - startBlk
  {
    segs := [];
    var blk := startBlk;
    while blk < endBlk
      invariant startBlk <= blk <= endBlk && |segs| <= blk - startBlk
      invariant SegsFrom(segs, runs, g) && Tiles(segs, startBlk, blk)
    {
      if g + |segs| == |runs| { return false, []; }
      var run := runs[g + |segs|];
      var n := if run.n > endBlk - blk then endBlk - blk else run.n;
      var e := Extent(blk, run.first, n, true);
      TileStep(segs, startBlk, blk, e);
      segs := segs + [e];
      blk := blk + n;
    }
    ok := true;
  }

  lemma SegPhys(segs: seq<Extent>, runs: seq<BlockRun>, g: nat, b: nat) returns (k: nat)
    requires SegsFrom(segs, runs, g) && At(segs, b).Some?
    ensures k < |segs| && Covers(segs[k], b) && At(segs, b) == Some(CellOf(segs[k], b))
    ensures InSpan(runs[g + k].first, runs[g + k].n, At(segs, b).value.phys)
  {
    k := AtSome(segs, b);
  }

  lemma SegsInjective(segs: seq<Extent>, runs: seq<BlockRun>, g: nat)
    requires SegsFrom(segs, runs, g) && RunsDisjoint(runs)
    ensures Injective(segs)
  {
    forall a: nat, b: nat | At(segs, a).Some? && At(segs, b).Some? && At(segs, a).value.phys == At(segs, b).value.phys
      ensures a == b
    {
      var j := SegPhys(segs, runs, g, a);
      var k := SegPhys(segs, runs, g, b);
    }
  }

  /** p lies in one of the first g runs. */
  ghost predicate Used(runs: seq<BlockRun>, g: nat, p: nat)
    requires g <= |runs|
  {
    exists k :: 0 <= k < g && InSpan(runs[k].first, runs[k].n, p)
  }

  lemma UsedIsFree(runs: seq<BlockRun>, g: nat, p: nat, free: set<nat>)
    requires g <= |runs| && GrantedRuns(runs, free) && Used(runs, g, p)
    ensures p in free
  {
    var k :| 0 <= k < g && InSpan(runs[k].first, runs[k].n, p);
    assert p in Span(runs[k].first, runs[k].n);
  }

  lemma GrantsPositive(runs: seq<BlockRun>, free: set<nat>)
    requires GrantedRuns(runs, free) && 0 !in free
    ensures forall k :: 0 <= k < |runs| ==> runs[k].n > 0 && runs[k].first > 0
  {
    forall k | 0 <= k < |runs| ensures runs[k].first > 0 {
      assert runs[k].first in Span(runs[k].first, runs[k].n);
    }
  }

  // ---------------------------------------------------------------------------
  // preallocate

  /** Progress of preallocate: the holes of [lo, hi) are filled with unwritten blocks
      taken from the first g grants and nothing else differs from exts. */
  ghost predicate Filled(exts: seq<Extent>, xs: seq<Extent>, lo: nat, hi: nat, runs: seq<BlockRun>, g: nat)
  {
    && g <= |runs| && Sorted(xs) && Injective(xs)
    && (forall b: nat :: At(exts, b).Some? || !(lo <= b < hi) ==> At(xs, b) == At(exts, b))
    && (forall b: nat :: lo <= b < hi && At(exts, b) == None ==>
          At(xs, b).Some? && At(xs, b).value.unwritten && Used(runs, g, At(xs, b).value.phys))
  }

  /** Insert the extents of one hole. */
  method InsertSegs(exts: seq<Extent>, xs: seq<Extent>, lo: nat, blk: nat, holeEnd: nat,
                    segs: seq<Extent>, runs: seq<BlockRun>, g: nat, ghost free: set<nat>) returns (r: seq<Extent>)
    requires lo <= blk < holeEnd && Filled(exts, xs, lo, blk, runs, g)
    requires GrantedRuns(runs, free) && 0 !in free
    requires forall b: nat :: At(exts, b).Some? ==> At(exts, b).value.phys !in free
    requires forall b: nat :: blk <= b < holeEnd ==> At(exts, b) == None
    requires SegsFrom(segs, runs, g) && Tiles(segs, blk, holeEnd)
    ensures Filled(exts, r, lo, holeEnd, runs, g + |segs|)
  {
    r := xs;
    ghost var hi: nat := blk;
    TileStart(segs, blk, holeEnd);
    for k := 0 to |segs|
      invariant blk <= hi <= holeEnd
      invariant if k < |segs| then hi == segs[k].offset else hi == holeEnd
      invariant Filled(exts, r, lo, hi, runs, g + k)
    {
      var e := segs[k];
      TileNext(segs, blk, holeEnd, k);
      ghost var hi' := if k + 1 < |segs| then segs[k+1].offset else holeEnd;
      FillStepRoom(exts, r, lo, hi, hi', runs, g + k, e, free);
      ghost var r0 := r;
      r := InsertExtentSorted(r, e);
      InsertInjective(r, r0, e);
      FillStep(exts, r0, r, lo, hi, hi', runs, g + k, e);
      hi := hi';
    }
  }

  /** Tiles leave no gap: each extent ends where the next begins. */
  lemma TileNext(segs: seq<Extent>, lo: nat, hi: nat, k: nat)
    requires Tiles(segs, lo, hi) && k < |segs|
    ensures k == 0 ==> segs[k].offset == lo
    ensures segs[k].offset + segs[k].len == if k + 1 < |segs| then segs[k+1].offset else hi
  {
    var end := segs[k].offset + segs[k].len;
    assert segs[k] in segs;
    if k == 0 {
      var i := AtSome(segs, lo);
      assert segs[0].offset <= segs[i].offset;
    }
    if end < hi {
      var i := AtSome(segs, end);
      assert i > k;
      assert segs[k+1].offset <= segs[i].offset;
    }
    if k + 1 < |segs| { assert segs[k+1] in segs; }
  }

  lemma TileStart(segs: seq<Extent>, lo: nat, hi: nat)
    requires Tiles(segs, lo, hi) && lo < hi
    ensures segs != [] && segs[0].offset == lo
  {
    var i := AtSome(segs, lo);
    TileNext(segs, lo, hi, 0);
  }

  lemma FillStepRoom(exts: seq<Extent>, xs: seq<Extent>, lo: nat, hi: nat, hi': nat,
                     runs: seq<BlockRun>, g: nat, e: Extent, free: set<nat>)
    requires Filled(exts, xs, lo, hi, runs, g) && g < |runs| && lo <= hi
    requires GrantedRuns(runs, free) && 0 !in free
    requires forall b: nat :: At(exts, b).Some? ==> At(exts, b).value.phys !in free
    requires e.offset == hi && e.offset + e.len == hi' && e.phys == runs[g].first && 0 < e.len <= runs[g].n
    requires e.unwritten
    requires forall b: nat :: hi <= b < hi' ==> At(exts, b) == None
    ensures Room(xs, e)
    ensures forall b: nat :: At(xs, b).Some? ==> !InSpan(e.phys, e.len, At(xs, b).value.phys)
  {
    GrantsPositive(runs, free);
    assert forall x: nat :: InSpan(e.phys, e.len, x) ==> x in Span(runs[g].first, runs[g].n);
    forall b: nat | At(xs, b).Some? ensures !InSpan(e.phys, e.len, At(xs, b).value.phys) {
      var p := At(xs, b).value.phys;
      if At(exts, b) == None {
        var k :| 0 <= k < g && InSpan(runs[k].first, runs[k].n, p);
        assert Apart(runs[k], runs[g]);
      }
    }
  }

  lemma FillStep(exts: seq<Extent>, xs: seq<Extent>, r: seq<Extent>, lo: nat, hi: nat, hi': nat,
                 runs: seq<BlockRun>, g: nat, e: Extent)
    requires Filled(exts, xs, lo, hi, runs, g) && g < |runs| && lo <= hi && Inserted(r, xs, e) && Injective(r)
    requires e.offset == hi && e.offset + e.len == hi' && e.phys == runs[g].first && 0 < e.len <= runs[g].n
    requires e.unwritten
    requires forall b: nat :: hi <= b < hi' ==> At(exts, b) == None
    ensures Filled(exts, r, lo, hi', runs, g + 1)
  {
    forall b: nat | lo <= b < hi' && At(exts, b) == None
      ensures At(r, b).Some? && At(r, b).value.unwritten && Used(runs, g + 1, At(r, b).value.phys)
    {
      if b < hi {
        assert At(r, b) == At(xs, b);
        var k :| 0 <= k < g && InSpan(runs[k].first, runs[k].n, At(xs, b).value.phys);
        assert 0 <= k < g + 1;
      } else {
        assert Covers(e, b);
        assert InSpan(runs[g].first, runs[g].n, At(r, b).value.phys);
      }
    }
  }

  /** The hole loop of preallocate. */
  method FillHoles(exts: seq<Extent>, startBlk: nat, endBlk: nat, runs: seq<BlockRun>, free: set<nat>)
    returns (ok: bool, xs: seq<Extent>)
    requires Sorted(exts) && Injective(exts) && GrantedRuns(runs, free) && 0 !in free && startBlk <= endBlk
    requires forall b: nat :: At(exts, b).Some? ==> At(exts, b).value.phys !in free
    ensures |runs| >= endBlk - startBlk ==> ok
    ensures ok ==> Filled(exts, xs, startBlk, endBlk, runs, |runs|)
  {
    GrantsPositive(runs, free);
    xs := exts;
    var blk, g: nat := startBlk, 0;
    while blk < endBlk
      invariant startBlk <= blk <= endBlk && g <= blk - startBlk && Filled(exts, xs, startBlk, blk, runs, g)
    {
      var ext, found := LookupExtent(xs, blk);
      if found {
        blk := blk + 1;
        continue;
      }
      var holeEnd := blk + 1;
      while holeEnd < endBlk
        invariant blk < holeEnd <= endBlk
        invariant forall b: nat :: blk <= b < holeEnd ==> At(exts, b) == None
      {
        ext, found := LookupExtent(xs, holeEnd);
        if found { break; }
        holeEnd := holeEnd + 1;
      }
      var segs;
      ok, segs := AllocUnwrittenHole(blk, holeEnd, runs, g);
      if !ok { return; }
      xs := InsertSegs(exts, xs, startBlk, blk, holeEnd, segs, runs, g, free);
      blk, g := holeEnd, g + |segs|;
    }
    FilledMore(exts, xs, startBlk, endBlk, runs, g);
    ok := true;
  }

  lemma FilledMore(exts: seq<Extent>, xs: seq<Extent>, lo: nat, hi: nat, runs: seq<BlockRun>, g: nat)
    requires Filled(exts, xs, lo, hi, runs, g)
    ensures Filled(exts, xs, lo, hi, runs, |runs|)
  {
    forall b: nat | lo <= b < hi && At(exts, b) == None ensures Used(runs, |runs|, At(xs, b).value.phys) {
      var k :| 0 <= k < g && InSpan(runs[k].first, runs[k].n, At(xs, b).value.phys);
      assert 0 <= k < |runs|;
    }
  }

  // ---------------------------------------------------------------------------
  // zeroRangeOp and punchHole

  /** zeroRegion: byte-granular zeroing of [from, to); holes and unwritten blocks are skipped. */
  method ZeroRegion(d0: Device, exts: seq<Extent>, from: nat, to: nat) returns (dev: Device)
    requires Sorted(exts) && Injective(exts) && from <= to
    ensures ZeroedBytes(d0, exts, dev, from, to)
  {
    dev := d0;
    var blk: nat := from / BS;
    while blk * BS < to
      invariant from / BS <= blk
      invariant ZeroedBytes(d0, exts, dev, from, if blk * BS < from then from else if blk * BS < to then blk * BS
        else to)
      decreases if blk * BS < to then to - blk * BS else 0
    {
      var zFrom := if blk * BS < from then from - blk * BS else 0;
      var zTo := if to - blk * BS > BS then BS else to - blk * BS;
      ghost var dev0 := dev;
      dev := ZeroBlockRange(dev, exts, blk, zFrom, zTo, true);
      ZeroedJoin(d0, exts, dev0, dev, from, blk * BS + zFrom, blk * BS + zTo);
      blk := blk + 1;
    }
  }

  lemma ZeroedJoin(d0: Device, exts: seq<Extent>, d1: Device, d2: Device, lo: nat, mid: nat, hi: nat)
    requires lo <= mid <= hi
    requires ZeroedBytes(d0, exts, d1, lo, mid) && ZeroedBytes(d1, exts, d2, mid, hi)
    ensures ZeroedBytes(d0, exts, d2, lo, hi)
  {
    forall i: nat ensures ByteAt(d2, exts, i) == if lo <= i < hi then 0 else ByteAt(d0, exts, i) {
      assert ByteAt(d1, exts, i) == if lo <= i < mid then 0 else ByteAt(d0, exts, i);
    }
  }

  /** The conversion's pieces of one extent: kept prefix, unwritten middle, kept suffix. */
  function ConvertPieces(e: Extent, sFull: nat, eFull: nat): (r: seq<Extent>) {
    var ee := e.offset + e.len;
    if ee <= sFull || e.offset >= eFull then [e]
    else
      var ms := if e.offset < sFull then sFull else e.offset;
      var me := if ee > eFull then eFull else ee;
      Clip(e, e.offset, ms) + Clip(e.(unwritten := true), ms, me) + Clip(e, me, ee)
  }

  /** Block b of extent e after converting [s, t). */
  function ConvertCell(e: Extent, s: nat, t: nat, b: nat): (c: Cell)
    requires Covers(e, b)
  {
    if s <= b < t then CellOf(e, b).(unwritten := true) else CellOf(e, b)
  }

  /** An extent cut at ms and me, the middle part turned unwritten. */
  function Cut(e: Extent, ms: nat, me: nat): (r: seq<Extent>)
    requires e.offset <= ms <= me <= e.offset + e.len
  {
    Clip(e, e.offset, ms) + Clip(e.(unwritten := true), ms, me) + Clip(e, me, e.offset + e.len)
  }

  lemma CutShape(e: Extent, ms: nat, me: nat)
    requires e.phys > 0 && e.offset <= ms <= me <= e.offset + e.len
    ensures Sorted(Cut(e, ms, me)) && Within(Cut(e, ms, me), e.offset, e.offset + e.len)
  {
  }

  lemma CutAt(e: Extent, ms: nat, me: nat, b: nat)
    requires e.phys > 0 && e.offset <= ms <= me <= e.offset + e.len
    ensures At(Cut(e, ms, me), b) == if Covers(e, b) then Some(ConvertCell(e, ms, me, b)) else None
  {
    var x, y, z := Clip(e, e.offset, ms), Clip(e.(unwritten := true), ms, me), Clip(e, me, e.offset + e.len);
    AtConcat(x, y, b);
    AtConcat(x + y, z, b);
    ClipAt(e, e.offset, ms, b);
    ClipAt(e.(unwritten := true), ms, me, b);
    ClipAt(e, me, e.offset + e.len, b);
    hide At, Clip;
  }

  lemma ConvertPiecesAt(e: Extent, s: nat, t: nat, b: nat)
    requires e.len > 0 && e.phys > 0 && s <= t
    ensures At(ConvertPieces(e, s, t), b) == if Covers(e, b) then Some(ConvertCell(e, s, t, b)) else None
  {
    var ee := e.offset + e.len;
    if ee <= s || e.offset >= t {
      AtSingle(e);
    } else {
      hide At, Clip;
      CutAt(e, if e.offset < s then s else e.offset, if ee > t then t else ee, b);
    }
  }

  lemma ConvertPiecesSpec(e: Extent, s: nat, t: nat)
    requires e.len > 0 && e.phys > 0 && s <= t
    ensures Sorted(ConvertPieces(e, s, t)) && Within(ConvertPieces(e, s, t), e.offset, e.offset + e.len)
    ensures forall b: nat :: At(ConvertPieces(e, s, t), b) == if Covers(e, b) then Some(ConvertCell(e, s, t, b))
      else None
  {
    ConvertPiecesShape(e, s, t);
    hide *;
    forall b: nat
      ensures At(ConvertPieces(e, s, t), b) == if Covers(e, b) then Some(ConvertCell(e, s, t, b)) else None
    {
      ConvertPiecesAt(e, s, t, b);
    }
  }

  lemma ConvertPiecesShape(e: Extent, s: nat, t: nat)
    requires e.len > 0 && e.phys > 0 && s <= t
    ensures Sorted(ConvertPieces(e, s, t)) && Within(ConvertPieces(e, s, t), e.offset, e.offset + e.len)
  {
    hide At, Clip;
    var ee := e.offset + e.len;
    if !(ee <= s || e.offset >= t) {
      CutShape(e, if e.offset < s then s else e.offset, if ee > t then t else ee);
    }
  }

  /** Progress of the conversion: extents done are flipped inside [s, t), and the holes of
      [s, cursor) hold unwritten blocks from the first g grants. */
  ghost predicate Converting(done: seq<Extent>, raw: seq<Extent>, s: nat, t: nat, cursor: nat,
                             runs: seq<BlockRun>, g: nat) {
    && g <= |runs| && Sorted(raw)
    && (forall b: nat :: At(done, b).Some? ==>
          At(raw, b) == Some(if s <= b < t then At(done, b).value.(unwritten := true) else At(done, b).value))
    && (forall b: nat :: At(done, b) == None && !(s <= b < cursor) ==> At(raw, b) == None)
    && (forall b: nat :: At(done, b) == None && s <= b < cursor ==>
          At(raw, b).Some? && At(raw, b).value.unwritten && Used(runs, g, At(raw, b).value.phys))
  }

  ghost predicate GrantsInjective(done: seq<Extent>, raw: seq<Extent>) {
    forall a: nat, b: nat ::
      (At(raw, a).Some? && At(raw, b).Some? && At(done, a) == None && At(done, b) == None
       && At(raw, a).value.phys == At(raw, b).value.phys) ==> a == b
  }

  lemma NoneConverted(done: seq<Extent>, s: nat, t: nat, runs: seq<BlockRun>)
    requires done == []
    ensures Converting(done, [], s, t, s, runs, 0) && GrantsInjective(done, [])
  {
  }

  lemma ConvertingShape(done: seq<Extent>, raw: seq<Extent>, s: nat, t: nat, cursor: nat, runs: seq<BlockRun>, g: nat)
    requires Converting(done, raw, s, t, cursor, runs, g)
    ensures g <= |runs| && Sorted(raw)
  {
  }

  lemma ConvertHole(done: seq<Extent>, raw: seq<Extent>, s: nat, t: nat, cursor: nat, holeEnd: nat,
                    runs: seq<BlockRun>, g: nat, segs: seq<Extent>)
    requires Converting(done, raw, s, t, cursor, runs, g) && GrantsInjective(done, raw)
    requires s <= cursor < holeEnd && RunsDisjoint(runs) && Within(raw, 0, cursor)
    requires SegsFrom(segs, runs, g) && Tiles(segs, cursor, holeEnd)
    requires forall b: nat :: cursor <= b < holeEnd ==> At(done, b) == None
    ensures Converting(done, raw + segs, s, t, holeEnd, runs, g + |segs|) && GrantsInjective(done, raw + segs)
    ensures Within(raw + segs, 0, holeEnd)
  {
    var r := raw + segs;
    AppendGroup(raw, segs, cursor, holeEnd);
    forall b: nat | At(raw, b).Some? ensures b < cursor && At(r, b) == At(raw, b) {
      var i := AtSome(raw, b);
      assert raw[i] in raw;
    }
    forall b: nat | At(done, b) == None && s <= b < holeEnd
      ensures At(r, b).Some? && At(r, b).value.unwritten && Used(runs, g + |segs|, At(r, b).value.phys)
    {
      if b < cursor {
        var k :| 0 <= k < g && InSpan(runs[k].first, runs[k].n, At(raw, b).value.phys);
        assert 0 <= k < g + |segs|;
      } else {
        var k := SegPhys(segs, runs, g, b);
        assert 0 <= g + k < g + |segs|;
      }
    }
    HoleInjective(done, raw, s, t, cursor, holeEnd, runs, g, segs);
  }

  lemma HoleInjective(done: seq<Extent>, raw: seq<Extent>, s: nat, t: nat, cursor: nat, holeEnd: nat,
                      runs: seq<BlockRun>, g: nat, segs: seq<Extent>)
    requires Converting(done, raw, s, t, cursor, runs, g) && GrantsInjective(done, raw)
    requires s <= cursor < holeEnd && RunsDisjoint(runs) && Within(raw, 0, cursor)
    requires SegsFrom(segs, runs, g) && Tiles(segs, cursor, holeEnd)
    ensures GrantsInjective(done, raw + segs)
  {
    var r := raw + segs;
    AtConcatAll(raw, segs);
    SegsInjective(segs, runs, g);
    forall a: nat, b: nat | At(raw, a).Some? && At(done, a) == None && At(raw, a) != None && At(segs, b).Some?
      ensures At(raw, a).value.phys != At(segs, b).value.phys
    {
      var j :| 0 <= j < g && InSpan(runs[j].first, runs[j].n, At(raw, a).value.phys);
      var k := SegPhys(segs, runs, g, b);
      assert Apart(runs[j], runs[g + k]);
    }
  }

  /** Appending one converted extent, block by block. */
  lemma ConvertExtentAt(exts: seq<Extent>, k: nat, raw: seq<Extent>, s: nat, t: nat)
    requires Sorted(exts) && k < |exts| && Sorted(raw) && Within(raw, 0, exts[k].offset) && s <= t
    ensures var r := raw + ConvertPieces(exts[k], s, t);
      && Sorted(r) && Within(r, 0, exts[k].offset + exts[k].len)
      && forall b: nat :: At(r, b) == if Covers(exts[k], b) then Some(ConvertCell(exts[k], s, t, b)) else At(raw, b)
  {
    var e := exts[k];
    ConvertPiecesSpec(e, s, t);
    AppendGroup(raw, ConvertPieces(e, s, t), e.offset, e.offset + e.len);
    forall b: nat | At(raw, b).Some? ensures b < e.offset {
      var i := AtSome(raw, b);
      assert raw[i] in raw;
    }
  }

  lemma ConvertExtent(exts: seq<Extent>, k: nat, raw: seq<Extent>, s: nat, t: nat, cursor: nat, c': nat,
                      runs: seq<BlockRun>, g: nat)
    requires Sorted(exts) && k < |exts| && Converting(exts[..k], raw, s, t, cursor, runs, g)
    requires GrantsInjective(exts[..k], raw) && Within(raw, 0, exts[k].offset) && s <= cursor <= t
    requires exts[k].offset <= cursor || cursor == t
    requires c' == if exts[k].offset + exts[k].len < t then exts[k].offset + exts[k].len else t
    ensures var r := raw + ConvertPieces(exts[k], s, t);
      && Converting(exts[..k+1], r, s, t, if c' > cursor then c' else cursor, runs, g)
      && GrantsInjective(exts[..k+1], r) && Within(r, 0, exts[k].offset + exts[k].len)
  {
    PrefixStep(exts, k);
    ConvertExtentAt(exts, k, raw, s, t);
  }

  /** exts' is exts with [s, t) converted to unwritten: mapped blocks keep their device
      block, holes get one from free, and everything outside is untouched. */
  ghost predicate Converted(exts: seq<Extent>, exts': seq<Extent>, s: nat, t: nat, free: set<nat>) {
    && Sorted(exts') && Injective(exts')
    && (forall b: nat :: !(s <= b < t) ==> At(exts', b) == At(exts, b))
    && (forall b: nat :: s <= b < t ==> At(exts', b).Some? && At(exts', b).value.unwritten)
    && (forall b: nat :: s <= b < t && At(exts, b).Some? ==> At(exts', b).value.phys == At(exts, b).value.phys)
    && (forall b: nat :: s <= b < t && At(exts, b) == None ==> At(exts', b).value.phys in free)
  }

  lemma ConvertedDone(exts: seq<Extent>, raw: seq<Extent>, xs: seq<Extent>, s: nat, t: nat, runs: seq<BlockRun>, g: nat,
                      free: set<nat>)
    requires Injective(exts) && Converting(exts, raw, s, t, t, runs, g) && GrantsInjective(exts, raw)
    requires Sorted(xs) && forall b: nat :: At(xs, b) == At(raw, b)
    requires GrantedRuns(runs, free)
    requires forall b: nat :: At(exts, b).Some? ==> At(exts, b).value.phys !in free
    ensures Converted(exts, xs, s, t, free)
  {
    forall b: nat | s <= b < t && At(exts, b) == None ensures At(xs, b).value.phys in free {
      UsedIsFree(runs, g, At(raw, b).value.phys, free);
    }
    forall a: nat, b: nat | At(xs, a).Some? && At(xs, b).Some? && At(xs, a).value.phys == At(xs, b).value.phys
      ensures a == b
    {
      assert At(raw, a) == At(xs, a) && At(raw, b) == At(xs, b);
      assert At(exts, a) == None ==> At(xs, a).value.phys in free;
      assert At(exts, b) == None ==> At(xs, b).value.phys in free;
    }
  }

  /** One extent of the conversion loop: allocate the hole before it, then flip it. */
  method ConvertOne(exts: seq<Extent>, k: nat, raw0: seq<Extent>, s: nat, t: nat, cursor0: nat,
                    runs: seq<BlockRun>, g0: nat)
    returns (ok: bool, raw: seq<Extent>, cursor: nat, g: nat)
    requires Sorted(exts) && k < |exts| && s <= cursor0 <= t && RunsDisjoint(runs)
    requires forall i :: 0 <= i < |runs| ==> runs[i].n > 0 && runs[i].first > 0
    requires Converting(exts[..k], raw0, s, t, cursor0, runs, g0) && GrantsInjective(exts[..k], raw0)
    requires Within(raw0, 0, if k == 0 then 0 else exts[k-1].offset + exts[k-1].len)
    requires k > 0 ==> exts[k-1].offset + exts[k-1].len <= cursor0 || cursor0 == t
    ensures g0 <= cursor0 - s && |runs| >= t - s ==> ok && g <= cursor - s
    ensures ok ==>
      s <= cursor <= t && Converting(exts[..k+1], raw, s, t, cursor, runs, g) && GrantsInjective(exts[..k+1], raw)
    ensures ok ==> Within(raw, 0, exts[k].offset + exts[k].len)
    ensures ok ==> exts[k].offset + exts[k].len <= cursor || cursor == t
  {
    hide Converting, GrantsInjective, At;
    raw, cursor, g := raw0, cursor0, g0;
    var o, ee := exts[k].offset, exts[k].offset + exts[k].len;
    assert k > 0 ==> exts[k-1].offset + exts[k-1].len <= o;
    if o > cursor {
      var holeEnd := if o > t then t else o;
      if cursor < holeEnd {
        ConvertingShape(exts[..k], raw, s, t, cursor, runs, g);
        var segs;
        ok, segs := AllocUnwrittenHole(cursor, holeEnd, runs, g);
        if !ok { return; }
        PrefixStep(exts, k);
        PrefixEnds(exts, k, cursor);
        ConvertHole(exts[..k], raw, s, t, cursor, holeEnd, runs, g, segs);
        raw, g := raw + segs, g + |segs|;
        cursor := holeEnd;
      }
    }
    var c := if ee < t then ee else t;
    ConvertExtent(exts, k, raw, s, t, cursor, c, runs, g);
    raw := raw + ConvertPieces(exts[k], s, t);
    if c > cursor { cursor := c; }
    ok := true;
  }

  /** Nothing before extent k reaches past its predecessor's end. */
  lemma PrefixEnds(exts: seq<Extent>, k: nat, c: nat)
    requires Sorted(exts) && k < |exts| && (k > 0 ==> exts[k-1].offset + exts[k-1].len <= c)
    ensures forall b: nat :: c <= b ==> At(exts[..k], b) == None
  {
    if k > 0 { AtBounded(exts[..k], 0, exts[k-1].offset + exts[k-1].len); }
  }

  /** The conversion half of zeroRangeOp: blocks [s, t) become unwritten. */
  method ConvertRange(exts: seq<Extent>, s: nat, t: nat, runs: seq<BlockRun>, free: set<nat>)
    returns (ok: bool, xs: seq<Extent>)
    requires Sorted(exts) && Injective(exts) && s < t && GrantedRuns(runs, free) && 0 !in free
    requires forall b: nat :: At(exts, b).Some? ==> At(exts, b).value.phys !in free
    ensures |runs| >= t - s ==> ok
    ensures ok ==> Converted(exts, xs, s, t, free)
  {
    GrantsPositive(runs, free);
    NoneConverted(exts[..0], s, t, runs);
    hide Converting, GrantsInjective, At;
    var raw, cursor, g := [], s, 0;
    for k := 0 to |exts|
      invariant g >= 0 && s <= cursor <= t && Converting(exts[..k], raw, s, t, cursor, runs, g)
      invariant GrantsInjective(exts[..k], raw)
      invariant |runs| >= t - s ==> g <= cursor - s
      invariant Within(raw, 0, if k == 0 then 0 else exts[k-1].offset + exts[k-1].len)
      invariant k > 0 ==> exts[k-1].offset + exts[k-1].len <= cursor || cursor == t
    {
      ok, raw, cursor, g := ConvertOne(exts, k, raw, s, t, cursor, runs, g);
      if !ok { return false, exts; }
    }
    assert exts[..|exts|] == exts;
    if cursor < t {
      ConvertingShape(exts, raw, s, t, cursor, runs, g);
      var segs;
      ok, segs := AllocUnwrittenHole(cursor, t, runs, g);
      if !ok { return false, exts; }
      LastEnds(exts, cursor);
      ConvertHole(exts, raw, s, t, cursor, t, runs, g, segs);
      raw, g := raw + segs, g + |segs|;
    }
    ConvertingShape(exts, raw, s, t, t, runs, g);
    xs := FoldSorted(raw);
    ConvertedDone(exts, raw, xs, s, t, runs, g, free);
    ok := true;
  }

  lemma LastEnds(exts: seq<Extent>, c: nat)
    requires Sorted(exts) && (exts != [] ==> exts[|exts|-1].offset + exts[|exts|-1].len <= c)
    ensures forall b: nat :: c <= b ==> At(exts, b) == None
  {
    AtBounded(exts, 0, c);
  }

  // ---------------------------------------------------------------------------
  // What the range operations do to the whole file

  lemma FilledKeeps(exts: seq<Extent>, xs: seq<Extent>, size: nat, size': nat, maxBlocks: nat, lo: nat, hi: nat,
                    runs: seq<BlockRun>, free: set<nat>)
    requires ListOk(exts, size, maxBlocks) && Filled(exts, xs, lo, hi, runs, |runs|) && GrantedRuns(runs, free)
    requires size <= size' <= MAX_FILE && hi <= maxBlocks
    ensures ListOk(xs, size', maxBlocks) && Grows(exts, xs, free)
  {
    assert CeilBlk(size) <= CeilBlk(size');
    forall b: nat | At(xs, b).Some? && At(exts, b) == None ensures At(xs, b).value.phys in free {
      UsedIsFree(runs, |runs|, At(xs, b).value.phys, free);
    }
  }

  lemma FilledBytes(dev: Device, exts: seq<Extent>, xs: seq<Extent>, lo: nat, hi: nat, runs: seq<BlockRun>)
    requires Filled(exts, xs, lo, hi, runs, |runs|)
    ensures SameBytes(dev, exts, dev, xs)
  {
    UnwrittenInvisible(dev, exts, xs);
  }

  lemma ConvertedKeeps(exts: seq<Extent>, xs: seq<Extent>, size: nat, size': nat, maxBlocks: nat, s: nat, t: nat,
                       free: set<nat>)
    requires ListOk(exts, size, maxBlocks) && Converted(exts, xs, s, t, free)
    requires size <= size' <= MAX_FILE && t <= maxBlocks
    ensures ListOk(xs, size', maxBlocks) && Grows(exts, xs, free)
  {
    assert CeilBlk(size) <= CeilBlk(size');
  }

  /** Bytes [off, end) read as zero and no other byte changed. */
  ghost predicate RangeZeroed(d0: Device, exts: seq<Extent>, dev: Device, xs: seq<Extent>, off: nat, end: nat) {
    forall i: nat :: ByteAt(dev, xs, i) == if off <= i < end then 0 else ByteAt(d0, exts, i)
  }

  /** The two partial zeroings plus the converted middle cover the whole range. */
  lemma ConvertedBytes(d0: Device, exts: seq<Extent>, d1: Device, d2: Device, xs: seq<Extent>, off: nat, end: nat,
                       free: set<nat>)
    requires off <= end && CeilBlk(off) < end / BS
    requires ZeroedBytes(d0, exts, d1, off, CeilBlk(off) * BS) && ZeroedBytes(d1, exts, d2, end / BS * BS, end)
    requires Converted(exts, xs, CeilBlk(off), end / BS, free)
    ensures RangeZeroed(d0, exts, d2, xs, off, end)
  {
    forall i: nat ensures ByteAt(d2, xs, i) == if off <= i < end then 0 else ByteAt(d0, exts, i) {
      assert ByteAt(d1, exts, i) == if off <= i < CeilBlk(off) * BS then 0 else ByteAt(d0, exts, i);
      assert ByteAt(d2, exts, i) == if end / BS * BS <= i < end then 0 else ByteAt(d1, exts, i);
      assert CeilBlk(off) <= i / BS < end / BS <==> CeilBlk(off) * BS <= i < end / BS * BS;
    }
  }

  /** The bytes of [off, end) outside its whole blocks are zeroed; nothing else changes. */
  ghost predicate BoundaryZeroed(d0: Device, exts: seq<Extent>, dev: Device, off: nat, end: nat) {
    forall i: nat ::
      ByteAt(dev, exts, i) == if off <= i < end && !(CeilBlk(off) <= i / BS < end / BS) then 0 else ByteAt(d0, exts, i)
  }

  lemma PunchBytes(d0: Device, exts: seq<Extent>, dev: Device, xs: seq<Extent>, off: nat, end: nat)
    requires off < end && BoundaryZeroed(d0, exts, dev, off, end)
    requires forall b: nat :: At(xs, b) == if CeilBlk(off) <= b < end / BS then None else At(exts, b)
    ensures RangeZeroed(d0, exts, dev, xs, off, end)
  {
    forall i: nat ensures ByteAt(dev, xs, i) == if off <= i < end then 0 else ByteAt(d0, exts, i) {
      assert ByteAt(dev, exts, i) ==
        if off <= i < end && !(CeilBlk(off) <= i / BS < end / BS) then 0 else ByteAt(d0, exts, i);
      assert At(xs, i / BS) == if CeilBlk(off) <= i / BS < end / BS then None else At(exts, i / BS);
    }
  }

  lemma SameBoundary(d0: Device, exts: seq<Extent>, dev: Device, off: nat, end: nat)
    requires off < end && end / BS < CeilBlk(off) && ZeroedBytes(d0, exts, dev, off, end)
    ensures BoundaryZeroed(d0, exts, dev, off, end)
  {
  }

  lemma TwoBoundaries(d0: Device, exts: seq<Extent>, d1: Device, dev: Device, off: nat, end: nat)
    requires off < end && CeilBlk(off) <= end / BS
    requires ZeroedBytes(d0, exts, d1, off, CeilBlk(off) * BS) && ZeroedBytes(d1, exts, dev, end / BS * BS, end)
    ensures BoundaryZeroed(d0, exts, dev, off, end)
  {
    forall i: nat ensures ByteAt(dev, exts, i) ==
      if off <= i < end && !(CeilBlk(off) <= i / BS < end / BS) then 0 else ByteAt(d0, exts, i)
    {
      assert ByteAt(d1, exts, i) == if off <= i < CeilBlk(off) * BS then 0 else ByteAt(d0, exts, i);
      assert ByteAt(dev, exts, i) == if end / BS * BS <= i < end then 0 else ByteAt(d1, exts, i);
    }
  }

  lemma BlockBounds(n: nat)
    ensures n == n / BS * BS + n % BS
    ensures n % BS == 0 ==> CeilBlk(n) * BS == n && CeilBlk(n) == n / BS
    ensures n % BS != 0 ==> CeilBlk(n) == n / BS + 1
  {
  }

  /** punchHole's boundary zeroing: the partially covered first and last block keep
      their data outside the range. */
  method ZeroBoundaries(d0: Device, exts: seq<Extent>, off: nat, end: nat) returns (dev: Device)
    requires Sorted(exts) && Injective(exts) && off < end
    ensures BoundaryZeroed(d0, exts, dev, off, end)
  {
    var startBlk, endBlk := off / BS, CeilBlk(end);
    var needStart, needEnd := off % BS != 0, end % BS != 0;
    BlockBounds(off);
    BlockBounds(end);
    dev := d0;
    if needStart && needEnd && startBlk == endBlk - 1 {
      dev := ZeroBlockRange(dev, exts, startBlk, off % BS, end % BS, false);
      SameBoundary(d0, exts, dev, off, end);
      return;
    }
    if needStart {
      dev := ZeroBlockRange(dev, exts, startBlk, off % BS, BS, false);
    }
    ghost var d1 := dev;
    if needEnd {
      dev := ZeroBlockRange(dev, exts, endBlk - 1, 0, end % BS, false);
    }
    TwoBoundaries(d0, exts, d1, dev, off, end);
  }

  /** A range with no freed block was a hole. */
  lemma NothingMapped(exts: seq<Extent>, freed: seq<BlockRun>, s: nat, e: nat)
    requires FreedExactly(freed, exts, s, e) && freed == []
    ensures forall b: nat :: s <= b < e ==> At(exts, b) == None
  {
    forall b: nat | s <= b < e ensures At(exts, b) == None {
      if At(exts, b).Some? {
        assert MapsTo(exts, s, e, At(exts, b).value.phys);
        assert false;
      }
    }
  }

  /** Zeroing seen through the old list is the same zeroing through a list whose written
      blocks are the old ones. */
  lemma ZeroedThroughOld(dev: Device, exts: seq<Extent>, dev': Device, xs: seq<Extent>, lo: nat, hi: nat)
    requires ZeroedBytes(dev, exts, dev', lo, hi)
    requires forall b: nat :: At(xs, b).Some? && !At(xs, b).value.unwritten ==> At(exts, b) == At(xs, b)
    ensures ZeroedBytes(dev, xs, dev', lo, hi)
  {
    forall i: nat ensures ByteAt(dev', xs, i) == if lo <= i < hi then 0 else ByteAt(dev, xs, i) {
      assert ByteAt(dev', exts, i) == if lo <= i < hi then 0 else ByteAt(dev, exts, i);
    }
  }

  /** Bytes [off, end), and with tail those past the end of file, read as zero; no other byte changed. */
  ghost predicate ZeroedWithTail(d0: Device, exts: seq<Extent>, dev: Device, xs: seq<Extent>, off: nat, end: nat,
                                 size: nat, tail: bool) {
    forall i: nat :: ByteAt(dev, xs, i) == if off <= i < end || (tail && size <= i) then 0 else ByteAt(d0, exts, i)
  }

  /** Seen through the old list a byte is unchanged, or zero where the operation zeroes. */
  ghost predicate ZeroedSome(d0: Device, exts: seq<Extent>, dev: Device, off: nat, end: nat, size: nat, tail: bool) {
    forall i: nat :: ByteAt(dev, exts, i) == ByteAt(d0, exts, i)
      || (ByteAt(dev, exts, i) == 0 && (off <= i < end || (tail && size <= i)))
  }

  lemma ZeroTailAfter(d0: Device, exts: seq<Extent>, dev: Device, xs: seq<Extent>, dev': Device, off: nat, end: nat,
                      size: nat)
    requires RangeZeroed(d0, exts, dev, xs, off, end) && NoWrittenPastEof(exts, size)
    requires if size % BS != 0 then ZeroedBytes(dev, exts, dev', size, CeilBlk(size) * BS) else dev' == dev
    requires forall b: nat :: At(xs, b).Some? && !At(xs, b).value.unwritten ==> At(exts, b) == At(xs, b)
    ensures ZeroedWithTail(d0, exts, dev', xs, off, end, size, true)
  {
    if size % BS != 0 { ZeroedThroughOld(dev, exts, dev', xs, size, CeilBlk(size) * BS); }
    forall i: nat ensures ByteAt(dev', xs, i) == if off <= i < end || size <= i then 0 else ByteAt(d0, exts, i) {
      assert ByteAt(dev, xs, i) == if off <= i < end then 0 else ByteAt(d0, exts, i);
      assert i >= CeilBlk(size) * BS ==> i / BS >= CeilBlk(size);
    }
  }

  lemma SomeZeroed(d0: Device, exts: seq<Extent>, d1: Device, dev: Device, off: nat, mid: nat, lo: nat, end: nat,
                   size: nat, tail: bool)
    requires ZeroedBytes(d0, exts, d1, off, mid) && ZeroedBytes(d1, exts, dev, lo, end) && mid <= end && off <= lo
    ensures ZeroedSome(d0, exts, dev, off, end, size, tail)
  {
    forall i: nat ensures ByteAt(dev, exts, i) == ByteAt(d0, exts, i) || (ByteAt(dev, exts, i) == 0 && off <= i < end) {
      assert ByteAt(d1, exts, i) == if off <= i < mid then 0 else ByteAt(d0, exts, i);
    }
  }

  lemma SomeTail(d0: Device, exts: seq<Extent>, d1: Device, dev: Device, off: nat, end: nat, size: nat)
    requires ZeroedSome(d0, exts, d1, off, end, size, true) && ZeroedBytes(d1, exts, dev, size, CeilBlk(size) * BS)
    ensures ZeroedSome(d0, exts, dev, off, end, size, true)
  {
    forall i: nat ensures ByteAt(dev, exts, i) == ByteAt(d0, exts, i)
      || (ByteAt(dev, exts, i) == 0 && (off <= i < end || size <= i)) {
      assert ByteAt(d1, exts, i) == ByteAt(d0, exts, i) || (ByteAt(d1, exts, i) == 0 && (off <= i < end || size <= i));
    }
  }

  /** The zeroing half of zeroRangeOp: the partial blocks, or the whole range when it covers no whole block. */
  method ZeroPartial(d0: Device, exts: seq<Extent>, off: nat, end: nat, ghost size: nat, ghost tail: bool)
    returns (dev: Device, ghost d1: Device)
    requires Sorted(exts) && Injective(exts) && off < end
    ensures ZeroedSome(d0, exts, dev, off, end, size, tail)
    ensures CeilBlk(off) < end / BS ==>
      ZeroedBytes(d0, exts, d1, off, CeilBlk(off) * BS) && ZeroedBytes(d1, exts, dev, end / BS * BS, end)
    ensures end / BS <= CeilBlk(off) ==> ZeroedBytes(d0, exts, dev, off, end)
  {
    if CeilBlk(off) < end / BS {
      dev := ZeroRegion(d0, exts, off, CeilBlk(off) * BS);
      d1 := dev;
      dev := ZeroRegion(dev, exts, end / BS * BS, end);
      SomeZeroed(d0, exts, d1, dev, off, CeilBlk(off) * BS, end / BS * BS, end, size, tail);
    } else {
      dev := ZeroRegion(d0, exts, off, end);
      d1 := d0;
    }
  }

  /** zeroRangeOp below the inode: zero the partial blocks, convert the whole blocks, and
      when the file grows zero the old end-of-file tail. */
  method ZeroRangeBlocks(d0: Device, exts: seq<Extent>, off: nat, end: nat, size: nat, size': nat,
                         runs: seq<BlockRun>, free: set<nat>, maxBlocks: nat)
    returns (ok: bool, dev: Device, xs: seq<Extent>)
    requires ListOk(exts, size, maxBlocks) && GrantedRuns(runs, free) && 0 !in free
    requires forall b: nat :: At(exts, b).Some? ==> At(exts, b).value.phys !in free
    requires off < end <= maxBlocks * BS && (size' == size || (size' == end && size < end))
    ensures |runs| >= end / BS - CeilBlk(off) ==> ok
    ensures ok ==> ZeroedWithTail(d0, exts, dev, xs, off, end, size, size' > size && size / BS < CeilBlk(off))
    ensures ok ==> ListOk(xs, size', maxBlocks) && Grows(exts, xs, free)
    ensures ok && end / BS <= CeilBlk(off) ==> xs == exts
    ensures ZeroedSome(d0, exts, dev, off, end, size, size' > size && size / BS < CeilBlk(off))
  {
    var sFull, eFull := CeilBlk(off), end / BS;
    assert CeilBlk(size) <= CeilBlk(size');
    xs := exts;
    var tail := size' > size && size / BS < sFull;
    ghost var d1;
    dev, d1 := ZeroPartial(d0, exts, off, end, size, tail);
    if sFull < eFull {
      ok, xs := ConvertRange(exts, sFull, eFull, runs, free);
      if !ok { return; }
      ConvertedBytes(d0, exts, d1, dev, xs, off, end, free);
      ConvertedKeeps(exts, xs, size, size', maxBlocks, sFull, eFull, free);
    }
    ghost var d3 := dev;
    if tail && size % BS != 0 {
      dev := ZeroEofTail(dev, exts, size, false);
      SomeTail(d0, exts, d3, dev, off, end, size);
    }
    if tail {
      ZeroTailAfter(d0, exts, d3, xs, dev, off, end, size);
    }
    ok := true;
  }
}
