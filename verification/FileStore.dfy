/** One extent-backed file: the read, write, truncate and fallocate paths
    (fuse/file_ops.go, fuse/extent_ops.go), each proved against the plain byte string. */
module FileStore {
  import opened Bytes
  import opened Extents
  import opened FileEffects
  import opened FileImage
  import opened FileModel
  import opened FileSteps
  import opened FileRanges
  import opened Options

  /** The answers an operation gets from the allocator, and whether its index rebuild succeeds. */
  datatype Answers = Answers(blocks: seq<nat>, runs: seq<BlockRun>, rebuildOk: bool)

  /** The arguments the entry points accept for a file of this size. */
  predicate Legal(op: Op, size: nat, maxBlocks: nat) {
    match op
    case WriteOp(off, data) => data == [] || off + |data| <= MAX_FILE
    case TruncateOp(n) => n <= MAX_FILE
    case FallocateOp(off, len, m) =>
      && len > 0 && off + len <= maxBlocks * BS && (m.punchHole ==> m.keepSize)
      && (m.collapseRange && !m.punchHole ==> off % BS == 0 && len % BS == 0 && off + len < size)
      && (m.insertRange && !m.punchHole && !m.collapseRange ==>
            off % BS == 0 && len % BS == 0 && off < size && len <= Sub64(maxBlocks * BS, size))
  }

  /** Enough answers for every block the operation touches, and a rebuild that succeeds. */
  predicate Supplied(op: Op, a: Answers) {
    && a.rebuildOk
    && match op
       case WriteOp(off, data) => |a.blocks| >= CeilBlk(off + |data|) - off / BS
       case TruncateOp(_) => true
       case FallocateOp(off, len, _) => |a.runs| >= CeilBlk(off + len) - off / BS
  }

  /** An insert that keeps the file size representable; nothing to ask of the other operations. */
  predicate Representable(op: Op, size: nat) {
    op.FallocateOp? && op.mode.insertRange && !op.mode.punchHole && !op.mode.collapseRange ==> size + op.len <= MAX_FILE
  }

  /** An operation succeeds only if it is legal, and fails only if it is not, or for want of blocks. */
  predicate Justified(op: Op, size: nat, maxBlocks: nat, a: Answers, ok: bool) {
    if ok then Legal(op, size, maxBlocks) else !Legal(op, size, maxBlocks) || !Supplied(op, a)
  }

  /** The allocator may give any answer it is entitled to. */
  method Ask(free: set<nat>) returns (a: Answers)
    ensures GrantedBlocks(a.blocks, free) && GrantedRuns(a.runs, free)
  {
    assert GrantedBlocks([], free) && GrantedRuns([], free);
    assert GrantedBlocks(Answers([], [], true).blocks, free) && GrantedRuns(Answers([], [], true).runs, free);
    a :| GrantedBlocks(a.blocks, free) && GrantedRuns(a.runs, free);
  }

  lemma Unmoved(exts: seq<Extent>, free: set<nat>, pending: set<nat>)
    ensures Conserved(exts, free, pending, exts, free, pending)
  {
  }

  lemma Extended(trace: seq<Image>, ops: seq<Op>, n: nat, oks: seq<bool>, ok: bool, f: Image)
    requires n < |ops| && History(trace, ops[..n], oks) && WellSized(trace[n]) && Stepped(trace[n], ops[n], ok, f)
    ensures History(trace + [f], ops[..n+1], oks + [ok])
  {
    hide Stepped, WellSized;
    var trace', oks' := trace + [f], oks + [ok];
    forall k | 0 <= k < n + 1 ensures WellSized(trace'[k]) && Stepped(trace'[k], ops[..n+1][k], oks'[k], trace'[k+1]) {
      if k < n { assert Stepped(trace[k], ops[..n][k], oks[k], trace[k+1]); }
    }
  }

  class ExtentFile {
    var dev: Device
    var exts: seq<Extent>
    var size: nat
    var free: set<nat>
    var pending: set<nat>
    /** The device's block count, the bound on fallocate ranges. */
    const maxBlocks: nat

    /** Nothing is asked of the bytes between the end of file and the end of its block. */
    ghost predicate Valid()
      reads this
    {
      ListOk(exts, size, maxBlocks) && Partitioned(exts, free, pending)
    }

    ghost function Bytes(): (c: seq<Byte>)
      reads this
    {
      Content(dev, exts, size)
    }

    ghost function Shot(): (f: Image)
      reads this
      ensures WellSized(f) && f.size == size && BytesOf(f) == Bytes()
    {
      Snapshot(dev, exts, size)
    }

    constructor (dev: Device, free: set<nat>, maxBlocks: nat)
      requires 0 !in free && maxBlocks * BS <= MAX_FILE
      ensures Valid() && Bytes() == [] && Clean(Shot())
      ensures this.dev == dev && exts == [] && this.free == free && pending == {} && this.maxBlocks == maxBlocks
    {
      this.dev, exts, size, this.free, pending, this.maxBlocks := dev, [], 0, free, {}, maxBlocks;
    }

    /** readFileData: the requested bytes, clamped to the file size. */
    method ReadFileData(off: nat, n: nat) returns (r: seq<Byte>)
      requires Valid()
      ensures r == if off >= size then [] else Bytes()[off..if off + n < size then off + n else size]
    {
      if off >= size { return []; }
      var endOff := if off + n < size then off + n else size;
      r := Zeros(endOff - off);
      for k := 0 to |exts|
        invariant |r| == endOff - off
        invariant forall j :: 0 <= j < |r| ==> r[j] == ByteAt(dev, exts[..k], off + j)
      {
        r := ReadExtent(dev, exts, k, off, endOff, r);
      }
      assert exts[..|exts|] == exts;
    }

    /** The write, against the byte string. */
    method WriteData(data: seq<Byte>, off: nat, blocks: seq<nat>, rebuildOk: bool) returns (ok: bool)
      requires Valid() && GrantedBlocks(blocks, free)
      modifies this
      ensures Valid()
      ensures data != [] && off + |data| <= MAX_FILE && rebuildOk ==>
        (ok <==> Stop(old(exts), off, |data|, |blocks|) == CeilBlk(off + |data|))
      ensures data == [] ==> ok
      ensures !Legal(WriteOp(off, data), old(size), maxBlocks) ==> !ok && unchanged(this)
      ensures Legal(WriteOp(off, data), old(size), maxBlocks) ==>
        (Supplied(WriteOp(off, data), Answers(blocks, [], rebuildOk)) ==> ok)
      ensures ok && data != [] ==> Stop(old(exts), off, |data|, |blocks|) == CeilBlk(off + |data|)
      ensures Stepped(old(Shot()), WriteOp(off, data), ok, Shot())
      ensures ok ==> Bytes() == WriteSpec(old(Bytes()), off, data)
      ensures ok ==> Conserved(old(exts), old(free), old(pending), exts, free, pending) && pending == old(pending)
      ensures ok ==> forall b: nat :: !(off / BS <= b < CeilBlk(off + |data|)) ==> At(exts, b) == At(old(exts), b)
      ensures !ok ==> exts == old(exts) && size == old(size) && free == old(free) && pending == old(pending)
      ensures !ok && off + |data| <= MAX_FILE ==>
        var k := Landed(exts, off, |data|, |blocks|);
        k <= |data| && WriteAborted(old(dev), exts, size, dev, off, data[..k])
    {
      ghost var op := WriteOp(off, data);
      if data == [] {
        ImageSame(Shot(), op);
        return true;
      }
      hide At, ByteAt, Content, WriteSpec, Conserved, PatchedBytes, Snapshot, Stepped, AbortedBytes, WriteAborted,
        GapZeroed;
      hide NoWrittenPastEof, ListOk, Partitioned, Sorted, Injective, PhysSet, BytesOf, WellSized, Stop, CeilBlk,
        WriteProgress, GrantedBlocks;
      var end := off + |data|;
      if end > MAX_FILE {
        NothingLeft(dev, exts, size, op);
        return false;
      }
      Layout(exts, size, maxBlocks, free, pending);
      NeverShort(exts, off, |data|, |blocks|);
      ghost var d0, n := dev, |data|;
      var d1 := ZeroGap(dev, exts, size, off);
      var d2, xs;
      ok, d2, xs := WriteBlocks(d1, exts, data, off, blocks, free);
      dev := d2;
      if !ok {
        WriteFails(d0, exts, size, d1, dev, off, data, Reached(off, Stop(exts, off, |data|, |blocks|)));
        return;
      }
      if xs != exts && !rebuildOk {
        AbortedWrite(d1, exts, dev, xs, off / BS, CeilBlk(end), blocks, off, data);
        assert data[..n] == data;
        WriteFails(d0, exts, size, d1, dev, off, data, n);
        return false;
      }
      WriteKeepsList(exts, xs, size, maxBlocks, off / BS, end, blocks);
      WriteGrows(exts, xs, off / BS, CeilBlk(end), blocks, free);
      var size' := if end > size then end else size;
      CommitAdded(exts, free, pending, xs, size', maxBlocks);
      WriteDone(d0, exts, size, d1, dev, xs, off, data, size');
      free := free - PhysSet(xs);
      exts, size := xs, size';
    }

    /** writeFileData on an extent-backed file.  blocks are the allocator's answers;
        rebuildOk says whether the index nodes could be allocated. */
    method Write(data: seq<Byte>, off: nat, blocks: seq<nat>, rebuildOk: bool) returns (ok: bool)
      requires Valid() && GrantedBlocks(blocks, free)
      modifies this
      ensures Valid()
      ensures data != [] && off + |data| <= 0x7FFF_FFFF_FFFF_FFFF && rebuildOk ==>
        (ok <==> |Holes(old(exts), off / 4096, (off + |data| + 4095) / 4096)| <= |blocks|)
      ensures data == [] ==> ok
      ensures data != [] && off + |data| > 0x7FFF_FFFF_FFFF_FFFF ==> !ok
      ensures off + |data| <= 0x7FFF_FFFF_FFFF_FFFF ==>
        (rebuildOk && |blocks| >= (off + |data| + 4095) / 4096 - off / 4096 ==> ok)
      ensures ok && data != [] ==>
        && off + |data| <= 0x7FFF_FFFF_FFFF_FFFF
        && size == if off + |data| > old(size) then off + |data| else old(size)
      ensures ok && data != [] ==> forall i: nat :: i < size ==>
        Bytes()[i] == if off <= i < off + |data| then data[i - off] else if i < old(size) then old(Bytes())[i] else 0
      ensures !Legal(WriteOp(off, data), old(size), maxBlocks) ==> !ok && unchanged(this)
      ensures Legal(WriteOp(off, data), old(size), maxBlocks) ==>
        (Supplied(WriteOp(off, data), Answers(blocks, [], rebuildOk)) ==> ok)
      ensures ok && data != [] ==> Stop(old(exts), off, |data|, |blocks|) == CeilBlk(off + |data|)
      ensures Stepped(old(Shot()), WriteOp(off, data), ok, Shot())
      ensures ok ==> Bytes() == WriteSpec(old(Bytes()), off, data)
      ensures ok ==> Conserved(old(exts), old(free), old(pending), exts, free, pending) && pending == old(pending)
      ensures ok ==> forall b: nat :: !(off / BS <= b < CeilBlk(off + |data|)) ==> At(exts, b) == At(old(exts), b)
      ensures !ok ==> exts == old(exts) && size == old(size) && free == old(free) && pending == old(pending)
      ensures !ok ==> forall i: nat :: i < size && Bytes()[i] != old(Bytes())[i] ==>
        off <= i < off + |data| && Bytes()[i] == data[i - off]
      ensures !ok && off + |data| <= MAX_FILE ==>
        var k := Landed(exts, off, |data|, |blocks|);
        k <= |data| && WriteAborted(old(dev), exts, size, dev, off, data[..k])
    {
      ghost var c0 := Bytes();
      if data != [] { WriteIs(c0, off, data); }
      ShortExact(exts, off / BS, CeilBlk(off + |data|), |blocks|);
      assert CeilBlk(off + |data|) == (off + |data| + 4095) / 4096;
      assert Stop(exts, off, |data|, |blocks|) == CeilBlk(off + |data|) <==>
        |Holes(exts, off / 4096, (off + |data| + 4095) / 4096)| <= |blocks|;
      hide Content, Snapshot, Stepped, WriteSpec, Conserved, ListOk, Partitioned, Stop, WriteAborted, At, CeilBlk,
        Holes,
        FirstShort, Landed, GrantedBlocks;
      ok := WriteData(data, off, blocks, rebuildOk);
      if !ok {
        forall i: nat | i < size { FailedReads(old(Shot()), WriteOp(off, data), Shot(), i); }
      }
    }

    /** truncateLocked on an extent-backed file. */
    method Truncate(newSize: nat, rebuildOk: bool) returns (ok: bool)
      requires Valid()
      modifies this
      ensures Valid()
      ensures ok <==> newSize <= 0x7FFF_FFFF_FFFF_FFFF && (newSize < old(size) ==> rebuildOk)
      ensures ok ==> size == newSize
      ensures ok ==> forall i: nat :: i < size ==> Bytes()[i] == if i < old(size) then old(Bytes())[i] else 0
      ensures Stepped(old(Shot()), TruncateOp(newSize), ok, Shot())
      ensures ok ==> Bytes() == ResizeSpec(old(Bytes()), newSize)
      ensures ok && newSize != old(size) ==> Clean(Shot())
      ensures ok ==> Conserved(old(exts), old(free), old(pending), exts, free, pending)
      ensures !ok ==> exts == old(exts) && size == old(size) && free == old(free) && pending == old(pending)
      ensures !ok ==> forall i: nat :: i < size && Bytes()[i] != old(Bytes())[i] ==> newSize <= i && Bytes()[i] == 0
      ensures !ok && newSize <= MAX_FILE ==> ZeroedBytes(old(dev), exts, dev, newSize, CeilBlk(newSize) * BS)
      ensures !ok && newSize > MAX_FILE ==> unchanged(this)
      ensures var cut := if newSize < old(size) then newSize else old(size);
        At(old(exts), cut / BS).Some? && At(old(exts), cut / BS).value.unwritten ==> dev == old(dev)
    {
      ghost var f0, op := Shot(), TruncateOp(newSize);
      ResizeIs(Bytes(), newSize);
      assert Apply(Bytes(), op) == ResizeSpec(Bytes(), newSize);
      hide At, ByteAt, Content, ResizeSpec, Snapshot, Stepped, CutBytes, NoWrittenPastEof, Effected, Left, Apply;
      if newSize > MAX_FILE {
        NothingLeft(dev, exts, size, op);
        return false;
      }
      if newSize == size {
        ImageSame(Shot(), op);
        return true;
      }
      if newSize < size {
        ok := TruncateDown(newSize, rebuildOk);
        if ok {
          TruncateCleans(f0, newSize, Shot());
        } else {
          forall i: nat | i < size { FailedReads(f0, op, Shot(), i); }
        }
        return;
      }
      ghost var d0 := dev;
      if size % BS != 0 && size > 0 {
        dev := ZeroEofTail(dev, exts, size, true);
      }
      ExtendBytes(d0, exts, dev, size);
      TruncateEffect(d0, exts, size, dev, exts, newSize);
      Finished(d0, exts, size, op, dev, exts);
      GrowKeepsList(exts, size, newSize, maxBlocks);
      size := newSize;
      TruncateCleans(f0, newSize, Shot());
      ok := true;
    }

    method TruncateDown(newSize: nat, rebuildOk: bool) returns (ok: bool)
      requires Valid() && newSize < size
      modifies this
      ensures Valid() && ok == rebuildOk
      ensures At(old(exts), newSize / BS).Some? && At(old(exts), newSize / BS).value.unwritten ==> dev == old(dev)
      ensures Stepped(old(Shot()), TruncateOp(newSize), ok, Shot())
      ensures ok ==> Bytes() == ResizeSpec(old(Bytes()), newSize)
      ensures ok ==> Conserved(old(exts), old(free), old(pending), exts, free, pending)
      ensures !ok ==> exts == old(exts) && size == old(size) && free == old(free) && pending == old(pending)
      ensures !ok ==> ZeroedBytes(old(dev), exts, dev, newSize, CeilBlk(newSize) * BS)
    {
      var startFree := CeilBlk(newSize);
      var xs, freed := FreeExtentRange(exts, startFree, U64_MAX);
      ghost var d0, op := dev, TruncateOp(newSize);
      TruncateKeepsList(exts, xs, size, maxBlocks, newSize);
      if newSize % BS != 0 && newSize > 0 {
        dev := ZeroEofTail(dev, xs, newSize, true);
      }
      assert Apply(Bytes(), op) == ResizeSpec(Bytes(), newSize);
      hide At, ByteAt, Content, ResizeSpec, Snapshot, Stepped, NoWrittenPastEof, Effected, Left, Apply, CutBytes;
      if !rebuildOk {
        FailedTruncate(d0, exts, dev, xs, newSize);
        TruncateResidue(d0, exts, size, dev, newSize);
        Unfinished(d0, exts, size, op, dev);
        return false;
      }
      TruncateBytes(d0, exts, dev, xs, newSize);
      TruncateEffect(d0, exts, size, dev, xs, newSize);
      Finished(d0, exts, size, op, dev, xs);
      CommitShrunk(exts, free, pending, xs, freed, startFree, U64_MAX, b => b, b => b);
      exts, size, pending := xs, newSize, pending + RunSet(freed);
      ok := true;
    }

    /** collapseRangeOp. */
    method CollapseRange(off: nat, len: nat, rebuildOk: bool) returns (ok: bool)
      requires Valid()
      modifies this
      ensures Valid()
      ensures ok <==> off % BS == 0 && len % BS == 0 && off + len < old(size) && rebuildOk
      ensures Stepped(old(Shot()), FallocateOp(off, len, COLLAPSE), ok, Shot())
      ensures ok ==> Bytes() == CollapseSpec(old(Bytes()), off, len)
      ensures ok ==> Conserved(old(exts), old(free), old(pending), exts, free, pending)
      ensures !ok ==> unchanged(this)
    {
      hide At, DownAt, ByteAt, Content, Snapshot, Stepped, CollapseSpec, BytesOf, WellSized, NoWrittenPastEof;
      hide ListOk, Partitioned, Sorted, Injective, Conserved, RunSet, FreedExactly;
      NothingLeft(dev, exts, size, FallocateOp(off, len, COLLAPSE));
      if off % BS != 0 || len % BS != 0 || off + len >= size { return false; }
      var s, l := off / BS, len / BS;
      Layout(exts, size, maxBlocks, free, pending);
      var xs, freed := ShiftExtentsDown(exts, s, l);
      if !rebuildOk { return false; }
      CollapseKeepsList(exts, xs, size, maxBlocks, s, l);
      CollapseDone(dev, exts, size, xs, off, len);
      CollapseCommit(exts, xs, free, pending, freed, s, l);
      exts, size, pending := xs, size - len, pending + RunSet(freed);
      ok := true;
    }

    /** insertRangeOp.  The size field is an unsigned 64-bit integer. */
    method InsertRange(off: nat, len: nat, rebuildOk: bool) returns (ok: bool)
      requires Valid()
      modifies this
      ensures ok
        <==> off % BS == 0 && len % BS == 0 && off < old(size) && len <= Sub64(maxBlocks * BS, old(size)) && rebuildOk
      ensures ok ==> size == (old(size) + len) % 0x1_0000_0000_0000_0000
      ensures old(size) + len <= U64_MAX ==> Stepped(old(Shot()), FallocateOp(off, len, INSERT), ok, Shot())
      ensures ok && old(size) + len <= U64_MAX ==>
        Bytes() == InsertSpec(old(Bytes()), off, len) && NoWrittenPastEof(exts, size)
      ensures ok ==>
        Conserved(old(exts), old(free), old(pending), exts, free, pending) && Partitioned(exts, free, pending)
      ensures !ok || old(size) + len <= MAX_FILE ==> Valid()
      ensures !ok ==> unchanged(this)
    {
      hide At, UpAt, ByteAt, Content, Snapshot, Stepped, InsertSpec, BytesOf, WellSized, NoWrittenPastEof;
      hide ListOk, Partitioned, Sorted, Injective, Conserved, Sub64;
      NothingLeft(dev, exts, size, FallocateOp(off, len, INSERT));
      if off % BS != 0 || len % BS != 0 || off >= size || len > Sub64(maxBlocks * BS, size) { return false; }
      var s, l := off / BS, len / BS;
      Layout(exts, size, maxBlocks, free, pending);
      var xs := ShiftExtentsUp(exts, s, l);
      if !rebuildOk { return false; }
      InsertKeepsList(exts, xs, size, maxBlocks, s, l);
      InsertDone(dev, exts, size, xs, off, len);
      InsertPartition(exts, xs, free, pending, s, l);
      exts, size := xs, (size + len) % (U64_MAX + 1);
      ok := true;
    }

    /** punchHole on an extent-backed file: zero the range, keep the size. */
    method PunchHole(off: nat, len: nat, rebuildOk: bool) returns (ok: bool)
      requires Valid() && len > 0
      modifies this
      ensures Valid()
      ensures rebuildOk ==> ok
      ensures Stepped(old(Shot()), FallocateOp(off, len, PUNCH), ok, Shot())
      ensures ok ==> Bytes() == ZeroSpec(old(Bytes()), off, off + len)
      ensures ok ==> Conserved(old(exts), old(free), old(pending), exts, free, pending)
      ensures !ok ==> exts == old(exts) && size == old(size) && free == old(free) && pending == old(pending)
      ensures !ok ==> BoundaryZeroed(old(dev), exts, dev, off, off + len)
    {
      hide At, ByteAt, Content, ZeroSpec, Snapshot, Stepped, NoWrittenPastEof, BytesOf, WellSized, BoundaryZeroed;
      hide ListOk, Partitioned, Sorted, Injective, Conserved, RunSet, FreedExactly;
      var end := off + len;
      ghost var d0 := dev;
      Layout(exts, size, maxBlocks, free, pending);
      Unmoved(exts, free, pending);
      var d := ZeroBoundaries(dev, exts, off, end);
      dev := d;
      var delStart, delEnd := CeilBlk(off), end / BS;
      var xs, freed := exts, [];
      if delStart < delEnd {
        xs, freed := FreeExtentRange(exts, delStart, delEnd);
      } else {
        NoneFreed(exts, delStart, delEnd);
      }
      if freed == [] && |xs| == |exts| {
        // Nothing was mapped in the range: the stored list already has the punched map.
        NothingMapped(exts, freed, delStart, delEnd);
        PunchDone(d0, exts, size, dev, exts, off, len);
        return true;
      }
      if !rebuildOk {
        PunchFails(d0, exts, size, dev, off, len);
        return false;
      }
      PunchDone(d0, exts, size, dev, xs, off, len);
      PunchKeepsList(exts, xs, size, maxBlocks);
      CommitShrunk(exts, free, pending, xs, freed, delStart, delEnd, b => b, b => b);
      exts, pending := xs, pending + RunSet(freed);
      ok := true;
    }

    /** zeroRangeOp on an extent-backed file. */
    method ZeroRange(off: nat, len: nat, keepSize: bool, runs: seq<BlockRun>, rebuildOk: bool) returns (ok: bool)
      requires Valid() && len > 0 && off + len <= maxBlocks * BS && GrantedRuns(runs, free)
      modifies this
      ensures Valid()
      ensures rebuildOk && |runs| >= CeilBlk(off + len) - off / BS ==> ok
      ensures (off + 4095) / 4096 >= (off + len) / 4096 ==> ok
      ensures Stepped(old(Shot()), FallocateOp(off, len, ZeroMode(keepSize)), ok, Shot())
      ensures ok ==> size == if !keepSize && off + len > old(size) then off + len else old(size)
      ensures ok ==> Bytes() == ZeroSpec(ResizeSpec(old(Bytes()), size), off, off + len)
      ensures ok ==> Conserved(old(exts), old(free), old(pending), exts, free, pending)
      ensures !ok ==> exts == old(exts) && size == old(size) && free == old(free) && pending == old(pending)
    {
      assert CeilBlk(off) == (off + 4095) / 4096;
      hide At, ByteAt, Content, Snapshot, Stepped, NoWrittenPastEof, ZeroedWithTail, ZeroedSome, ZeroSpec,
        ResizeSpec, BytesOf;
      hide Conserved, ListOk, Partitioned, Sorted, Injective, Grows, PhysSet, GrantedRuns, CeilBlk, WellSized;
      var end := off + len;
      FewerWhole(off, end);
      var size' := if !keepSize && end > size then end else size;
      ghost var d0, op := dev, FallocateOp(off, len, ZeroMode(keepSize));
      Layout(exts, size, maxBlocks, free, pending);
      var d, xs;
      ok, d, xs := ZeroRangeBlocks(dev, exts, off, end, size, size', runs, free, maxBlocks);
      dev := d;
      if !ok || (CeilBlk(off) < end / BS && !rebuildOk) {
        ZeroFails(d0, exts, size, dev, off, len, keepSize, size');
        return false;
      }
      ZeroDone(d0, exts, size, dev, xs, off, len, keepSize, size');
      CommitAdded(exts, free, pending, xs, size', maxBlocks);
      free := free - PhysSet(xs);
      exts, size := xs, size';
    }

    /** preallocate on an extent-backed file: a growth appends zeros exactly when the tail it uncovers is zero. */
    method Preallocate(off: nat, len: nat, keepSize: bool, runs: seq<BlockRun>, rebuildOk: bool) returns (ok: bool)
      requires Valid() && len > 0 && off + len <= maxBlocks * BS && GrantedRuns(runs, free)
      modifies this
      ensures Valid()
      ensures rebuildOk && |runs| >= CeilBlk(off + len) - off / BS ==> ok
      ensures ok ==> size == if !keepSize && off + len > old(size) then off + len else old(size)
      ensures Stepped(old(Shot()), FallocateOp(off, len, PlainMode(keepSize)), ok, Shot())
      ensures ok ==> (Bytes() == ResizeSpec(old(Bytes()), size) <==>
        (size > old(size) ==> !DirtyTail(old(dev), old(exts), old(size), size)))
      ensures ok ==> forall b: nat :: off / BS <= b < CeilBlk(off + len) ==> At(exts, b).Some?
      ensures ok ==> Conserved(old(exts), old(free), old(pending), exts, free, pending)
      ensures !ok ==> unchanged(this)
    {
      hide ByteAt, Content, Snapshot, Stepped, NoWrittenPastEof, ResizeSpec, BytesOf, WellSized, DirtyTail;
      hide Conserved, ListOk, Partitioned, Sorted, Injective, Grows, PhysSet, GrantedRuns;
      var end := off + len;
      var startBlk, endBlk := off / BS, CeilBlk(end);
      Layout(exts, size, maxBlocks, free, pending);
      NothingLeft(dev, exts, size, FallocateOp(off, len, PlainMode(keepSize)));
      var xs;
      ok, xs := FillHoles(exts, startBlk, endBlk, runs, free);
      if !ok { return; }
      if !rebuildOk { return false; }
      var size' := if !keepSize && end > size then end else size;
      FilledKeeps(exts, xs, size, size', maxBlocks, startBlk, endBlk, runs, free);
      FilledBytes(dev, exts, xs, startBlk, endBlk, runs);
      PreallocateDone(dev, exts, size, xs, off, len, keepSize, size');
      CommitAdded(exts, free, pending, xs, size', maxBlocks);
      free := free - PhysSet(xs);
      exts, size := xs, size';
    }

    /** The checks and the dispatch, against the operation on the byte string. */
    method FallocateMode(off: nat, len: nat, mode: Mode, runs: seq<BlockRun>, rebuildOk: bool) returns (ok: bool)
      requires Valid() && GrantedRuns(runs, free)
      modifies this
      ensures !ok || Representable(FallocateOp(off, len, mode), old(size)) ==> Valid()
      ensures !Legal(FallocateOp(off, len, mode), old(size), maxBlocks) ==> !ok && unchanged(this)
      ensures Legal(FallocateOp(off, len, mode), old(size), maxBlocks) ==>
        (Supplied(FallocateOp(off, len, mode), Answers([], runs, rebuildOk)) ==> ok)
      ensures Legal(FallocateOp(off, len, mode), old(size), maxBlocks) && rebuildOk ==>
        (mode.punchHole || mode.collapseRange || mode.insertRange ==> ok)
      ensures Stepped(old(Shot()), FallocateOp(off, len, mode), ok, Shot())
      ensures ok ==> (Bytes() == Apply(old(Bytes()), FallocateOp(off, len, mode)) <==>
        (Uncovers(FallocateOp(off, len, mode), old(size)) ==> !DirtyTail(old(dev), old(exts), old(size), size)))
      ensures ok ==>
        Conserved(old(exts), old(free), old(pending), exts, free, pending) && Partitioned(exts, free, pending)
      ensures !ok ==> exts == old(exts) && size == old(size) && free == old(free) && pending == old(pending)
    {
      ghost var d0, x0, n0, f0, op := dev, exts, size, Shot(), FallocateOp(off, len, mode);
      NothingLeft(dev, exts, size, op);
      if mode.punchHole && !mode.keepSize { return false; }
      if len == 0 { return false; }
      if off > maxBlocks * BS || len > maxBlocks * BS - off { return false; }
      hide ByteAt, Content, Snapshot, Stepped, Apply, DirtyTail, Conserved, ListOk, Partitioned;
      if mode.punchHole {
        ok := PunchHole(off, len, rebuildOk);
      } else if mode.collapseRange {
        ok := CollapseRange(off, len, rebuildOk);
      } else if mode.insertRange {
        ok := InsertRange(off, len, rebuildOk);
      } else if mode.zeroRange {
        ok := ZeroRange(off, len, mode.keepSize, runs, rebuildOk);
      } else {
        ok := Preallocate(off, len, mode.keepSize, runs, rebuildOk);
      }
      Dispatch(f0, off, len, mode, ok, Shot());
      if ok { SteppedReads(d0, x0, n0, op, Shot()); }
    }

    /** fallocateOp: argument checks, then dispatch in the source's order. */
    method Fallocate(off: nat, len: nat, mode: Mode, runs: seq<BlockRun>, rebuildOk: bool) returns (ok: bool)
      requires Valid() && GrantedRuns(runs, free)
      modifies this
      ensures !ok || Representable(FallocateOp(off, len, mode), old(size)) ==> Valid()
      ensures len == 0 || off + len > maxBlocks * 4096 || (mode.punchHole && !mode.keepSize) ==> !ok
      ensures rebuildOk && len > 0 && off + len <= maxBlocks * 4096 && mode.punchHole && mode.keepSize ==> ok
      ensures rebuildOk && len > 0 && off + len <= maxBlocks * 4096 && !mode.punchHole ==>
        (mode.collapseRange && off % 4096 == 0 && len % 4096 == 0 && off + len < old(size) ==> ok)
      ensures rebuildOk && len > 0 && off + len <= maxBlocks * 4096 && !mode.punchHole && !mode.collapseRange ==>
        (mode.insertRange && off % 4096 == 0 && len % 4096 == 0 && off < old(size) ==>
          (len <= (maxBlocks * 4096 - old(size)) % 0x1_0000_0000_0000_0000 ==> ok))
      ensures rebuildOk && len > 0 && off + len <= maxBlocks * 4096 ==>
        (!mode.punchHole && !mode.collapseRange && !mode.insertRange ==>
          (|runs| >= (off + len + 4095) / 4096 - off / 4096 ==> ok))
      ensures ok && mode.punchHole ==> size == old(size) && forall i: nat :: i < size ==>
        Bytes()[i] == if off <= i < off + len then 0 else old(Bytes())[i]
      ensures ok && !mode.punchHole && mode.collapseRange ==>
        && off % 4096 == 0 && len % 4096 == 0 && off + len < old(size)
        && Bytes() == old(Bytes())[..off] + old(Bytes())[off + len..]
      ensures ok && !mode.punchHole && !mode.collapseRange && mode.insertRange ==>
        && off % 4096 == 0 && len % 4096 == 0 && off < old(size)
        && len <= (maxBlocks * 4096 - old(size)) % 0x1_0000_0000_0000_0000
      ensures ok && !mode.punchHole && !mode.collapseRange && mode.insertRange ==>
        && size == old(size) + len
        && Bytes()[..off] == old(Bytes())[..off] && Bytes()[off + len..] == old(Bytes())[off..]
        && forall i: nat :: off <= i < off + len ==> Bytes()[i] == 0
      ensures ok && !mode.punchHole && !mode.collapseRange && !mode.insertRange ==>
        size == if !mode.keepSize && off + len > old(size) then off + len else old(size)
      ensures ok && !mode.punchHole && !mode.collapseRange && !mode.insertRange && mode.zeroRange ==>
        forall i: nat :: i < size ==> Bytes()[i] == if off <= i < off + len ||
          i >= old(size) then 0 else old(Bytes())[i]
      ensures ok && !mode.punchHole && !mode.collapseRange && !mode.insertRange && !mode.zeroRange ==>
        forall i: nat :: i < size ==>
          Bytes()[i] == if i < |old(Shot()).pad| then old(Shot()).pad[i] else 0
      ensures !Legal(FallocateOp(off, len, mode), old(size), maxBlocks) ==> !ok && unchanged(this)
      ensures Legal(FallocateOp(off, len, mode), old(size), maxBlocks) ==>
        (Supplied(FallocateOp(off, len, mode), Answers([], runs, rebuildOk)) ==> ok)
      ensures Legal(FallocateOp(off, len, mode), old(size), maxBlocks) && rebuildOk ==>
        (mode.punchHole || mode.collapseRange || mode.insertRange ==> ok)
      ensures Stepped(old(Shot()), FallocateOp(off, len, mode), ok, Shot())
      ensures ok ==> (Bytes() == Apply(old(Bytes()), FallocateOp(off, len, mode)) <==>
        (Uncovers(FallocateOp(off, len, mode), old(size)) ==> !DirtyTail(old(dev), old(exts), old(size), size)))
      ensures ok ==>
        Conserved(old(exts), old(free), old(pending), exts, free, pending) && Partitioned(exts, free, pending)
      ensures !ok ==> exts == old(exts) && size == old(size) && free == old(free) && pending == old(pending)
      ensures !ok ==> forall i: nat :: i < size && Bytes()[i] != old(Bytes())[i] ==>
        off <= i < off + len && Bytes()[i] == 0
    {
      ghost var f0 := Shot();
      ok := FallocateMode(off, len, mode, runs, rebuildOk);
      hide Content, Snapshot, Stepped, Apply, DirtyTail, Conserved, ListOk, Partitioned;
      if ok {
        if mode.punchHole {
          PunchIs(f0, off, len, mode, Shot());
        } else if mode.collapseRange {
          CollapseIs(f0, off, len, mode, Shot());
        } else if mode.insertRange {
          InsertsIs(f0, off, len, mode, Shot());
        } else {
          GrowsTo(f0, off, len, mode, Shot());
          if mode.zeroRange {
            ZeroIs(f0, off, len, mode, Shot());
          } else {
            PlainIs(f0, off, len, mode, Shot());
          }
        }
      } else {
        forall i: nat | i < size { FailedReads(f0, FallocateOp(off, len, mode), Shot(), i); }
      }
    }

    /** One operation, given its answers. */
    method Step(op: Op, a: Answers) returns (ok: bool)
      requires Valid() && GrantedBlocks(a.blocks, free) && GrantedRuns(a.runs, free)
      modifies this
      ensures !ok || Representable(op, old(size)) ==> Valid()
      ensures !Legal(op, old(size), maxBlocks) ==> !ok && unchanged(this)
      ensures Legal(op, old(size), maxBlocks) && Supplied(op, a) ==> ok
      ensures Stepped(old(Shot()), op, ok, Shot())
      ensures Conserved(old(exts), old(free), old(pending), exts, free, pending)
      ensures !ok ==> exts == old(exts) && size == old(size) && free == old(free) && pending == old(pending)
    {
      hide Conserved, Held, Snapshot, Stepped, Content, ListOk, Partitioned, DirtyTail, Stop, WellSized, BytesOf,
        WriteAborted, At;
      hide CeilBlk, WriteSpec, ResizeSpec, Clean;
      Unmoved(exts, free, pending);
      match op
      case WriteOp(off, data) =>
        ok := Write(data, off, a.blocks, a.rebuildOk);
      case TruncateOp(n) =>
        ok := Truncate(n, a.rebuildOk);
      case FallocateOp(off, len, mode) =>
        ok := Fallocate(off, len, mode, a.runs, a.rebuildOk);
    }

    /** Every history of operations, with any answers, failures included: each operation leaves exactly its effect or
        fails and leaves a residue of it, no device block is lost or invented, and a failure has a cause.  The run
        ends early only before an insert that would grow the file past the largest size. */
    method Run(ops: seq<Op>) returns (done: nat, oks: seq<bool>, answers: seq<Answers>, ghost trace: seq<Image>)
      requires Valid()
      modifies this
      ensures Valid() && Conserved(old(exts), old(free), old(pending), exts, free, pending)
      ensures done <= |ops| && (done < |ops| ==> !Representable(ops[done], size))
      ensures History(trace, ops[..done], oks) && trace[0] == old(Shot()) && trace[done] == Shot()
      ensures |answers| == done
      ensures forall k :: 0 <= k < done ==> Justified(ops[k], trace[k].size, maxBlocks, answers[k], oks[k])
      ensures Clean(old(Shot())) && (forall k :: 0 <= k < done ==> oks[k]) ==>
        Bytes() == ApplyAll(old(Bytes()), ops[..done])
    {
      done, oks, answers, trace := 0, [], [], [Shot()];
      Unmoved(exts, free, pending);
      assert ops[..0] == [];
      while done < |ops|
        invariant done <= |ops| && Valid() && Conserved(old(exts), old(free), old(pending), exts, free, pending)
        invariant |answers| == done && History(trace, ops[..done], oks) && trace[0] == old(Shot())
        invariant trace[done] == Shot()
        invariant forall k :: 0 <= k < done ==> Justified(ops[k], trace[k].size, maxBlocks, answers[k], oks[k])
      {
        if !Representable(ops[done], size) { break; }
        hide Conserved, Stepped, Snapshot, Content, Held, ListOk, Partitioned, WellSized, BytesOf, Legal, Supplied,
          GrantedBlocks, GrantedRuns;
        ghost var e0, f0, p0 := exts, free, pending;
        var last := Ask(free);
        var ok := Step(ops[done], last);
        ConservedTrans(old(exts), old(free), old(pending), e0, f0, p0, exts, free, pending);
        Extended(trace, ops, done, oks, ok, Shot());
        oks, answers, trace := oks + [ok], answers + [last], trace + [Shot()];
        done := done + 1;
      }
      if Clean(old(Shot())) && forall k :: 0 <= k < done ==> oks[k] {
        AllSucceed(trace, ops[..done], oks);
      }
    }
  }

  // ---------------------------------------------------------------------------
  // A failed write that a later preallocation shows

  function Ones(n: nat): (s: seq<Byte>)
    ensures |s| == n && forall i :: 0 <= i < n ==> s[i] == 1
  {
    seq(n, i => 1)
  }

  /** With one block mapped and none to spare, a write into the second block stops after the first. */
  lemma StopsShort(exts: seq<Extent>)
    requires At(exts, 0).Some? && At(exts, 1) == None
    ensures Stop(exts, 200, 4000, 0) == 1 && Landed(exts, 200, 4000, 0) == 3896
  {
    assert FirstShort(exts, 1, 2, 0) == 1;
  }

  /** One of two blocks is still free when the file holds only one. */
  lemma OneLeft(exts: seq<Extent>, free: set<nat>)
    requires Conserved([], {1, 2}, {}, exts, free, {})
    requires forall b: nat :: b != 0 ==> At(exts, b) == None
    ensures 1 in free || 2 in free
  {
    assert Held([], {1, 2}, {}, 1) && Held([], {1, 2}, {}, 2);
    assert Held(exts, free, {}, 1) && Held(exts, free, {}, 2);
  }

  /** The image of a file of one written block. */
  ghost predicate Holds(f: Image, size: nat, c: seq<Byte>) {
    f.size == size && |c| == BS && f.pad == c
  }

  /** A new file of 100 bytes in its first block; a second device block is still free. */
  method SmallFile() returns (f: ExtentFile)
    ensures fresh(f) && f.Valid() && f.maxBlocks == 2 && (1 in f.free || 2 in f.free)
    ensures Holds(f.Shot(), 100, Ones(100) + Zeros(3996)) && Shows(f.exts, 0) && At(f.exts, 1) == None
  {
    f := new ExtentFile(map[], {1, 2}, 2);
    ghost var f0 := f.Shot();
    assert f0 == Image([], 0);
    var ok := f.Write(Ones(100), 0, [1], true);
    assert f.Shot().pad == Ones(100) + Zeros(3996) by { FirstWrite(f.Shot()); }
    assert ByteAt(f.dev, f.exts, 0) == f.Shot().pad[0] == 1;
    assert forall b: nat :: At([], b) == None;
    OneLeft(f.exts, f.free);
  }

  /** The write runs out of blocks: its first block stays on the device. */
  method WriteRunsOut(f: ExtentFile)
    requires f.Valid() && Holds(f.Shot(), 100, Ones(100) + Zeros(3996)) && Shows(f.exts, 0) && At(f.exts, 1) == None
    modifies f
    ensures f.Valid() && f.free == old(f.free) && f.Bytes() == old(f.Bytes())
    ensures Holds(f.Shot(), 100, Ones(100) + Zeros(100) + Ones(3896))
  {
    StopsShort(f.exts);
    ghost var d0, x0, f0 := f.dev, f.exts, f.Shot();
    var ok := f.Write(Ones(4000), 200, [], true);
    RanOut(d0, x0, f.dev);
  }

  lemma RanOut(dev: Device, exts: seq<Extent>, dev': Device)
    requires NoWrittenPastEof(exts, 100) && Shows(exts, 0)
    requires Holds(Snapshot(dev, exts, 100), 100, Ones(100) + Zeros(3996))
    requires WriteAborted(dev, exts, 100, dev', 200, Ones(4000)[..3896])
    ensures Holds(Snapshot(dev', exts, 100), 100, Ones(100) + Zeros(100) + Ones(3896))
    ensures Content(dev', exts, 100) == Content(dev, exts, 100)
  {
    var f, r, c := Snapshot(dev, exts, 100), Snapshot(dev', exts, 100), Ones(100) + Zeros(100) + Ones(3896);
    forall i: nat | i < 4096 ensures r.pad[i] == c[i] && (i < 100 ==> r.pad[i] == f.pad[i]) {
      assert f.pad[i] == ByteAt(dev, exts, i) && r.pad[i] == ByteAt(dev', exts, i) && i / BS == 0;
    }
    assert r.pad == c;
  }

  /** A 100-byte file, a write of [200, 4200) that runs out of blocks after the first one, then a plain
      fallocate to 4096 bytes: the file shows bytes that no successful operation wrote. */
  method FailedWriteShows() returns (f: ExtentFile)
    ensures f.Valid() && f.size == 4096
    ensures f.Bytes() == Ones(100) + Zeros(100) + Ones(3896) != ResizeSpec(Ones(100), 4096)
  {
    f := SmallFile();
    WriteRunsOut(f);
    ghost var f0 := f.Shot();
    var p := if 1 in f.free then 1 else 2;
    var ok := f.Fallocate(0, 4096, PlainMode(false), [BlockRun(p, 1)], true);
    Shown(f0, f.Shot());
  }

  lemma Shown(f: Image, r: Image)
    requires Holds(f, 100, Ones(100) + Zeros(100) + Ones(3896))
    requires r == ApplyImage(f, FallocateOp(0, 4096, PlainMode(false)))
    ensures r.size == 4096 && WellSized(r) && BytesOf(r) == Ones(100) + Zeros(100) + Ones(3896)
    ensures BytesOf(r) != ResizeSpec(Ones(100), 4096)
  {
    var c := Ones(100) + Zeros(100) + Ones(3896);
    forall i: nat | i < 4096 ensures r.pad[i] == c[i] {
      assert r.pad[i] == ByteOf(f, i);
    }
    assert r.pad == c;
    assert c[200] == 1 && ResizeSpec(Ones(100), 4096)[200] == 0;
  }

  lemma FirstWrite(f: Image)
    requires f == ApplyImage(Image([], 0), WriteOp(0, Ones(100)))
    ensures forall i: nat :: i < 4096 ==> ByteOf(f, i) == if i < 100 then 1 else 0
  {
  }
}
