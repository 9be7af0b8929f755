/** What the block-level steps of each operation do to the image of the file. */
module FileEffects {
  import opened Bytes
  import opened Extents
  import opened FileImage
  import opened FileModel
  import opened FileRanges
  import opened FileSteps
  import opened Options

  /** The old bytes, with zeros past the end of file when a write starts beyond it. */
  ghost predicate GapZeroed(dev: Device, exts: seq<Extent>, size: nat, off: nat, d: Device) {
    forall i: nat :: ByteAt(d, exts, i) == if off > size && i >= size then 0 else ByteAt(dev, exts, i)
  }

  /** A write past the end of file first zeroes the rest of the last block. */
  method ZeroGap(dev: Device, exts: seq<Extent>, size: nat, off: nat) returns (d: Device)
    requires Sorted(exts) && Injective(exts) && NoWrittenPastEof(exts, size)
    ensures GapZeroed(dev, exts, size, off, d)
    ensures off > size && size % BS != 0 && At(exts, size / BS).Some? ==>
      forall j :: size % BS <= j < BS ==> ReadBlock(d, At(exts, size / BS).value.phys)[j] == 0
  {
    d := dev;
    if off > size {
      if size > 0 && size % BS != 0 {
        d := ZeroEofTail(dev, exts, size, false);
      }
      ExtendBytes(dev, exts, d, size);
    }
  }

  lemma WriteEffect(dev: Device, exts: seq<Extent>, size: nat, d: Device, dev': Device, xs: seq<Extent>, off: nat,
                    data: seq<Byte>)
    requires NoWrittenPastEof(exts, size) && data != []
    requires GapZeroed(dev, exts, size, off, d) && PatchedBytes(d, exts, dev', xs, off, data)
    ensures Effected(dev, exts, size, WriteOp(off, data), dev', xs)
  {
    hide At, ByteAt, Snapshot, NoWrittenPastEof;
    forall i: nat ensures ByteAt(dev', xs, i) == NewByte(Snapshot(dev, exts, size), WriteOp(off, data), i) {
      SnapshotByte(dev, exts, size, i);
      assert ByteAt(d, exts, i) == if off > size && i >= size then 0 else ByteAt(dev, exts, i);
    }
  }

  /** How many bytes of a write of n bytes reach the device. */
  function Landed(exts: seq<Extent>, off: nat, n: nat, spare: nat): (k: nat) {
    var f := Stop(exts, off, n, spare);
    if f == CeilBlk(off + n) then n else Reached(off, f)
  }

  /** After a failed write: the bytes that landed in blocks the file already showed, and the zeroed gap. */
  ghost predicate WriteAborted(dev: Device, exts: seq<Extent>, size: nat, dev': Device, off: nat, done: seq<Byte>) {
    forall i: nat :: ByteAt(dev', exts, i) ==
      if off <= i < off + |done| && Shows(exts, i / BS) then done[i - off]
      else if off > size && i >= size then 0 else ByteAt(dev, exts, i)
  }

  lemma WriteResidue(dev: Device, exts: seq<Extent>, size: nat, d: Device, dev': Device, off: nat, data: seq<Byte>,
                     k: nat)
    requires k <= |data| && GapZeroed(dev, exts, size, off, d) && AbortedBytes(d, exts, dev', off, data[..k])
    ensures WriteAborted(dev, exts, size, dev', off, data[..k])
    ensures Left(dev, exts, size, WriteOp(off, data), dev')
  {
    hide At, ByteAt, Shows;
    forall i: nat
      ensures ByteAt(dev', exts, i) ==
        if off <= i < off + k && Shows(exts, i / BS) then data[i - off]
        else if off > size && i >= size then 0 else ByteAt(dev, exts, i)
      ensures ByteAt(dev', exts, i) == ByteAt(dev, exts, i) ||
        Residue(size, WriteOp(off, data), i, ByteAt(dev', exts, i))
    {
      assert ByteAt(d, exts, i) == if off > size && i >= size then 0 else ByteAt(dev, exts, i);
    }
  }

  lemma TruncateEffect(dev: Device, exts: seq<Extent>, size: nat, dev': Device, xs: seq<Extent>, n: nat)
    requires NoWrittenPastEof(exts, size) && n != size
    requires CutBytes(dev, exts, dev', xs, if n < size then n else size)
    ensures Effected(dev, exts, size, TruncateOp(n), dev', xs)
  {
    hide At, ByteAt, Snapshot, NoWrittenPastEof;
    forall i: nat ensures ByteAt(dev', xs, i) == NewByte(Snapshot(dev, exts, size), TruncateOp(n), i) {
      SnapshotByte(dev, exts, size, i);
    }
  }

  lemma CollapseEffect(dev: Device, exts: seq<Extent>, size: nat, xs: seq<Extent>, op: Op)
    requires op.FallocateOp? && op.mode.collapseRange && !op.mode.punchHole && Fits(op, size)
    requires NoWrittenPastEof(exts, size)
    requires MovedDown(dev, exts, xs, op.off / BS, op.len / BS)
    ensures Effected(dev, exts, size, op, dev, xs)
  {
    hide At, ByteAt, Snapshot, NoWrittenPastEof;
    forall i: nat ensures ByteAt(dev, xs, i) == NewByte(Snapshot(dev, exts, size), op, i) {
      SnapshotByte(dev, exts, size, i);
      SnapshotByte(dev, exts, size, i + op.len);
    }
  }

  lemma InsertEffect(dev: Device, exts: seq<Extent>, size: nat, xs: seq<Extent>, op: Op)
    requires op.FallocateOp? && op.mode.insertRange && !op.mode.collapseRange && !op.mode.punchHole
    requires Fits(op, size) && op.off <= size && NoWrittenPastEof(exts, size)
    requires MovedUp(dev, exts, xs, op.off / BS, op.len / BS)
    ensures Effected(dev, exts, size, op, dev, xs)
  {
    hide At, ByteAt, Snapshot, NoWrittenPastEof;
    forall i: nat ensures ByteAt(dev, xs, i) == NewByte(Snapshot(dev, exts, size), op, i) {
      SnapshotByte(dev, exts, size, i);
      if i >= op.off + op.len { SnapshotByte(dev, exts, size, i - op.len); }
      assert ByteAt(dev, xs, i) == MovedByte(dev, exts, op.off / BS, op.len / BS, i);
    }
  }

  lemma PunchEffect(dev: Device, exts: seq<Extent>, size: nat, dev': Device, xs: seq<Extent>, op: Op)
    requires op.FallocateOp? && op.mode.punchHole && NoWrittenPastEof(exts, size)
    requires RangeZeroed(dev, exts, dev', xs, op.off, op.off + op.len)
    ensures Effected(dev, exts, size, op, dev', xs)
  {
    hide At, ByteAt, Snapshot, NoWrittenPastEof;
    forall i: nat ensures ByteAt(dev', xs, i) == NewByte(Snapshot(dev, exts, size), op, i) {
      SnapshotByte(dev, exts, size, i);
    }
  }

  lemma ZeroEffect(dev: Device, exts: seq<Extent>, size: nat, dev': Device, xs: seq<Extent>, op: Op)
    requires op.FallocateOp? && op.mode.zeroRange && !op.mode.punchHole && !op.mode.collapseRange
    requires !op.mode.insertRange
    requires NoWrittenPastEof(exts, size)
    requires ZeroedWithTail(dev, exts, dev', xs, op.off, op.off + op.len, size, TailZeroed(size, op))
    ensures Effected(dev, exts, size, op, dev', xs)
  {
    hide At, ByteAt, Snapshot, NoWrittenPastEof;
    forall i: nat ensures ByteAt(dev', xs, i) == NewByte(Snapshot(dev, exts, size), op, i) {
      SnapshotByte(dev, exts, size, i);
    }
  }

  lemma PreallocateEffect(dev: Device, exts: seq<Extent>, size: nat, xs: seq<Extent>, op: Op)
    requires op.FallocateOp? && !op.mode.zeroRange && !op.mode.punchHole && !op.mode.collapseRange
    requires !op.mode.insertRange
    requires NoWrittenPastEof(exts, size) && SameBytes(dev, exts, dev, xs)
    ensures Effected(dev, exts, size, op, dev, xs)
  {
    hide At, ByteAt, Snapshot, NoWrittenPastEof;
    forall i: nat ensures ByteAt(dev, xs, i) == NewByte(Snapshot(dev, exts, size), op, i) {
      SnapshotByte(dev, exts, size, i);
    }
  }

  /** The byte-string reading of a successful operation. */
  lemma Reads(dev: Device, exts: seq<Extent>, size: nat, op: Op, r: Image)
    requires NoWrittenPastEof(exts, size) && r == ApplyImage(Snapshot(dev, exts, size), op)
    ensures WellSized(r)
    ensures BytesOf(r) == Apply(Content(dev, exts, size), op)
      <==> (Uncovers(op, size) ==> !DirtyTail(dev, exts, size, NewSize(size, op)))
  {
    hide *;
    ImageExact(Snapshot(dev, exts, size), op);
    DirtyTailExact(dev, exts, size, NewSize(size, op));
  }

  /** An operation that changes no byte and not the size. */
  lemma ImageSame(f: Image, op: Op)
    requires WellSized(f) && ((op.WriteOp? && op.data == []) || op == TruncateOp(f.size))
    ensures Stepped(f, op, true, f) && Apply(BytesOf(f), op) == BytesOf(f)
  {
    assert ApplyImage(f, op).pad == f.pad;
  }

  lemma NothingLeft(dev: Device, exts: seq<Extent>, size: nat, op: Op)
    ensures Failed(Snapshot(dev, exts, size), op, Snapshot(dev, exts, size))
    ensures Stepped(Snapshot(dev, exts, size), op, false, Snapshot(dev, exts, size))
  {
  }

  lemma Unfinished(dev: Device, exts: seq<Extent>, size: nat, op: Op, dev': Device)
    requires Left(dev, exts, size, op, dev')
    ensures Stepped(Snapshot(dev, exts, size), op, false, Snapshot(dev', exts, size))
  {
    hide Left, Snapshot;
    Fails(dev, exts, size, op, dev');
  }

  lemma Finished(dev: Device, exts: seq<Extent>, size: nat, op: Op, dev': Device, exts': seq<Extent>)
    requires NoWrittenPastEof(exts, size) && Effected(dev, exts, size, op, dev', exts') && Fits(op, size)
    ensures Stepped(Snapshot(dev, exts, size), op, true, Snapshot(dev', exts', NewSize(size, op)))
    ensures Content(dev', exts', NewSize(size, op)) == Apply(Content(dev, exts, size), op)
      <==> (Uncovers(op, size) ==> !DirtyTail(dev, exts, size, NewSize(size, op)))
  {
    hide Effected, Snapshot, Apply, NoWrittenPastEof, ApplyImage, DirtyTail;
    Becomes(dev, exts, size, op, dev', exts');
    Reads(dev, exts, size, op, Snapshot(dev', exts', NewSize(size, op)));
  }

  lemma SteppedReads(dev: Device, exts: seq<Extent>, size: nat, op: Op, r: Image)
    requires NoWrittenPastEof(exts, size) && Stepped(Snapshot(dev, exts, size), op, true, r)
    ensures r.size == NewSize(size, op) && WellSized(r)
    ensures BytesOf(r) == Apply(Content(dev, exts, size), op)
      <==> (Uncovers(op, size) ==> !DirtyTail(dev, exts, size, NewSize(size, op)))
  {
    Reads(dev, exts, size, op, r);
  }

  lemma TruncateCleans(f: Image, n: nat, r: Image)
    requires WellSized(f) && n != f.size && Stepped(f, TruncateOp(n), true, r)
    ensures Clean(r)
  {
    CleanKept(f, TruncateOp(n));
  }

  /** The mode the dispatch order makes of a combination of bits. */
  function Effective(m: Mode): (r: Mode) {
    if m.punchHole then PUNCH
    else if m.collapseRange then COLLAPSE
    else if m.insertRange then INSERT
    else if m.zeroRange then ZeroMode(m.keepSize)
    else PlainMode(m.keepSize)
  }

  lemma Dispatch(f: Image, off: nat, len: nat, m: Mode, ok: bool, r: Image)
    requires Stepped(f, FallocateOp(off, len, Effective(m)), ok, r)
    ensures Stepped(f, FallocateOp(off, len, m), ok, r)
  {
    var op, op' := FallocateOp(off, len, Effective(m)), FallocateOp(off, len, m);
    if ok {
      assert ApplyImage(f, op) == ApplyImage(f, op') by {
        forall i: nat ensures NewByte(f, op, i) == NewByte(f, op', i) {}
      }
    } else {
      forall i: nat, b: Byte ensures Residue(f.size, op, i, b) ==> Residue(f.size, op', i, b) {}
    }
  }

  lemma TruncateResidue(dev: Device, exts: seq<Extent>, size: nat, dev': Device, n: nat)
    requires ZeroedBytes(dev, exts, dev', n, CeilBlk(n) * BS)
    ensures Left(dev, exts, size, TruncateOp(n), dev')
  {
  }

  lemma PunchResidue(dev: Device, exts: seq<Extent>, size: nat, dev': Device, op: Op)
    requires op.FallocateOp? && op.mode.punchHole && BoundaryZeroed(dev, exts, dev', op.off, op.off + op.len)
    ensures Left(dev, exts, size, op, dev')
  {
  }

  lemma ZeroResidue(dev: Device, exts: seq<Extent>, size: nat, dev': Device, op: Op)
    requires op.FallocateOp? && op.mode.zeroRange && !op.mode.punchHole
    requires ZeroedSome(dev, exts, dev', op.off, op.off + op.len, size, TailZeroed(size, op))
    ensures Left(dev, exts, size, op, dev')
  {
  }

  lemma PunchKeepsList(exts: seq<Extent>, xs: seq<Extent>, size: nat, maxBlocks: nat)
    requires ListOk(exts, size, maxBlocks) && Sorted(xs)
    requires forall b: nat :: At(xs, b).Some? ==> At(xs, b) == At(exts, b)
    ensures ListOk(xs, size, maxBlocks)
  {
    SamePhysInjective(exts, xs);
  }

  lemma NoneFreed(exts: seq<Extent>, s: nat, e: nat)
    requires e <= s
    ensures FreedExactly([], exts, s, e)
  {
  }

  /** What an operation relies on before it starts. */
  lemma Layout(exts: seq<Extent>, size: nat, maxBlocks: nat, free: set<nat>, pending: set<nat>)
    requires ListOk(exts, size, maxBlocks) && Partitioned(exts, free, pending)
    ensures Sorted(exts) && Injective(exts) && NoWrittenPastEof(exts, size) && size <= MAX_FILE
    ensures maxBlocks * BS <= MAX_FILE
    ensures 0 !in free && forall b: nat :: At(exts, b).Some? ==> At(exts, b).value.phys !in free
  {
  }

  lemma CommitAdded(exts: seq<Extent>, free: set<nat>, pending: set<nat>, xs: seq<Extent>, size: nat, maxBlocks: nat)
    requires ListOk(xs, size, maxBlocks) && Partitioned(exts, free, pending) && Grows(exts, xs, free)
    ensures Partitioned(xs, free - PhysSet(xs), pending)
    ensures Conserved(exts, free, pending, xs, free - PhysSet(xs), pending)
  {
    CommitGrown(exts, free, pending, xs);
  }

  lemma GrowKeepsList(exts: seq<Extent>, size: nat, n: nat, maxBlocks: nat)
    requires ListOk(exts, size, maxBlocks) && size <= n <= MAX_FILE
    ensures ListOk(exts, n, maxBlocks)
  {
    assert CeilBlk(size) <= CeilBlk(n);
  }

  const PUNCH := Mode(true, true, false, false, false)
  const COLLAPSE := Mode(false, false, true, false, false)
  const INSERT := Mode(false, false, false, false, true)

  function ZeroMode(keepSize: bool): (m: Mode) { Mode(keepSize, false, false, true, false) }
  function PlainMode(keepSize: bool): (m: Mode) { Mode(keepSize, false, false, false, false) }

  lemma FewerWhole(off: nat, end: nat)
    requires off <= end
    ensures end / BS - CeilBlk(off) <= CeilBlk(end) - off / BS
  {
  }

  lemma ZeroDone(dev: Device, exts: seq<Extent>, size: nat, dev': Device, xs: seq<Extent>, off: nat, len: nat,
                 keepSize: bool, size': nat)
    requires NoWrittenPastEof(exts, size) && size' == if !keepSize && off + len > size then off + len else size
    requires ZeroedWithTail(dev, exts, dev', xs, off, off + len, size, size' > size && size / BS < CeilBlk(off))
    ensures Stepped(Snapshot(dev, exts, size), FallocateOp(off, len, ZeroMode(keepSize)), true,
      Snapshot(dev', xs, size'))
    ensures Content(dev', xs, size') == ZeroSpec(ResizeSpec(Content(dev, exts, size), size'), off, off + len)
  {
    var op := FallocateOp(off, len, ZeroMode(keepSize));
    assert size' == NewSize(size, op) && TailZeroed(size, op) == (size' > size && size / BS < CeilBlk(off));
    assert Apply(Content(dev, exts, size), op) == ZeroSpec(ResizeSpec(Content(dev, exts, size), size'), off, off + len);
    hide Apply, ZeroedWithTail, Effected, Snapshot, Stepped, NoWrittenPastEof, Content;
    ZeroEffect(dev, exts, size, dev', xs, op);
    Finished(dev, exts, size, op, dev', xs);
  }

  lemma PreallocateDone(dev: Device, exts: seq<Extent>, size: nat, xs: seq<Extent>, off: nat, len: nat,
                        keepSize: bool, size': nat)
    requires NoWrittenPastEof(exts, size) && SameBytes(dev, exts, dev, xs)
    requires size' == if !keepSize && off + len > size then off + len else size
    ensures Stepped(Snapshot(dev, exts, size), FallocateOp(off, len, PlainMode(keepSize)), true,
      Snapshot(dev, xs, size'))
    ensures Content(dev, xs, size') == ResizeSpec(Content(dev, exts, size), size')
      <==> (size' > size ==> !DirtyTail(dev, exts, size, size'))
  {
    var op := FallocateOp(off, len, PlainMode(keepSize));
    assert size' == NewSize(size, op) &&
      Apply(Content(dev, exts, size), op) == ResizeSpec(Content(dev, exts, size), size');
    hide Apply, Effected, Snapshot, Stepped, NoWrittenPastEof, Content, SameBytes, DirtyTail;
    PreallocateEffect(dev, exts, size, xs, op);
    Finished(dev, exts, size, op, dev, xs);
  }

  lemma NeverShort(exts: seq<Extent>, off: nat, n: nat, spare: nat)
    ensures spare >= CeilBlk(off + n) - off / BS ==> Stop(exts, off, n, spare) == CeilBlk(off + n)
  {
    if spare >= CeilBlk(off + n) - off / BS {
      EnoughBlocks(exts, off / BS, CeilBlk(off + n), spare);
    }
  }

  lemma WriteGrows(exts: seq<Extent>, xs: seq<Extent>, lo: nat, hi: nat, blocks: seq<nat>, free: set<nat>)
    requires WriteProgress(exts, xs, lo, hi, blocks) && GrantedBlocks(blocks, free)
    ensures Grows(exts, xs, free)
    ensures forall b: nat :: !(lo <= b < hi) ==> At(xs, b) == At(exts, b)
  {
  }

  lemma WriteDone(dev: Device, exts: seq<Extent>, size: nat, d: Device, dev': Device, xs: seq<Extent>, off: nat,
                  data: seq<Byte>, size': nat)
    requires NoWrittenPastEof(exts, size) && data != [] && size' == if off + |data| > size then off + |data| else size
    requires GapZeroed(dev, exts, size, off, d) && PatchedBytes(d, exts, dev', xs, off, data)
    ensures Stepped(Snapshot(dev, exts, size), WriteOp(off, data), true, Snapshot(dev', xs, size'))
    ensures Content(dev', xs, size') == WriteSpec(Content(dev, exts, size), off, data)
  {
    var op := WriteOp(off, data);
    assert size' == NewSize(size, op) &&
      Apply(Content(dev, exts, size), op) == WriteSpec(Content(dev, exts, size), off, data);
    hide Apply, Effected, Snapshot, Stepped, NoWrittenPastEof, Content, GapZeroed, PatchedBytes;
    WriteEffect(dev, exts, size, d, dev', xs, off, data);
    Finished(dev, exts, size, op, dev', xs);
  }

  lemma WriteFails(dev: Device, exts: seq<Extent>, size: nat, d: Device, dev': Device, off: nat, data: seq<Byte>,
                   k: nat)
    requires k <= |data| && GapZeroed(dev, exts, size, off, d) && AbortedBytes(d, exts, dev', off, data[..k])
    ensures Stepped(Snapshot(dev, exts, size), WriteOp(off, data), false, Snapshot(dev', exts, size))
    ensures WriteAborted(dev, exts, size, dev', off, data[..k])
  {
    hide Snapshot, Stepped, Left;
    WriteResidue(dev, exts, size, d, dev', off, data, k);
    Unfinished(dev, exts, size, WriteOp(off, data), dev');
  }

  lemma CollapseDone(dev: Device, exts: seq<Extent>, size: nat, xs: seq<Extent>, off: nat, len: nat)
    requires NoWrittenPastEof(exts, size) && off % BS == 0 && len % BS == 0 && off + len < size
    requires forall b: nat :: At(xs, b) == DownAt(exts, off / BS, len / BS, b)
    ensures Stepped(Snapshot(dev, exts, size), FallocateOp(off, len, COLLAPSE), true, Snapshot(dev, xs, size - len))
    ensures Content(dev, xs, size - len) == CollapseSpec(Content(dev, exts, size), off, len)
  {
    var op := FallocateOp(off, len, COLLAPSE);
    CollapseBytes(dev, exts, xs, off / BS, len / BS);
    CollapseEffect(dev, exts, size, xs, op);
    hide ByteAt, Content, Snapshot, Stepped, Effected, CollapseSpec;
    Finished(dev, exts, size, op, dev, xs);
  }

  lemma InsertDone(dev: Device, exts: seq<Extent>, size: nat, xs: seq<Extent>, off: nat, len: nat)
    requires NoWrittenPastEof(exts, size) && off % BS == 0 && len % BS == 0 && off < size
    requires forall b: nat :: At(xs, b) == UpAt(exts, off / BS, len / BS, b)
    ensures Stepped(Snapshot(dev, exts, size), FallocateOp(off, len, INSERT), true, Snapshot(dev, xs, size + len))
    ensures Content(dev, xs, size + len) == InsertSpec(Content(dev, exts, size), off, len)
  {
    var op := FallocateOp(off, len, INSERT);
    InsertBytes(dev, exts, xs, off / BS, len / BS);
    InsertEffect(dev, exts, size, xs, op);
    hide ByteAt, Content, Snapshot, Stepped, Effected, InsertSpec;
    Finished(dev, exts, size, op, dev, xs);
  }

  lemma PunchDone(dev: Device, exts: seq<Extent>, size: nat, dev': Device, xs: seq<Extent>, off: nat, len: nat)
    requires NoWrittenPastEof(exts, size) && len > 0 && BoundaryZeroed(dev, exts, dev', off, off + len)
    requires forall b: nat :: At(xs, b) == if CeilBlk(off) <= b < (off + len) / BS then None else At(exts, b)
    ensures Stepped(Snapshot(dev, exts, size), FallocateOp(off, len, PUNCH), true, Snapshot(dev', xs, size))
    ensures Content(dev', xs, size) == ZeroSpec(Content(dev, exts, size), off, off + len)
  {
    var op := FallocateOp(off, len, PUNCH);
    hide At, ByteAt, Content, Snapshot, Stepped, Effected, ZeroSpec, BoundaryZeroed, RangeZeroed, NoWrittenPastEof;
    PunchBytes(dev, exts, dev', xs, off, off + len);
    PunchEffect(dev, exts, size, dev', xs, op);
    Finished(dev, exts, size, op, dev', xs);
  }

  lemma PunchFails(dev: Device, exts: seq<Extent>, size: nat, dev': Device, off: nat, len: nat)
    requires BoundaryZeroed(dev, exts, dev', off, off + len)
    ensures Stepped(Snapshot(dev, exts, size), FallocateOp(off, len, PUNCH), false, Snapshot(dev', exts, size))
  {
    var op := FallocateOp(off, len, PUNCH);
    PunchResidue(dev, exts, size, dev', op);
    Unfinished(dev, exts, size, op, dev');
  }

  lemma ZeroFails(dev: Device, exts: seq<Extent>, size: nat, dev': Device, off: nat, len: nat, keepSize: bool,
                  size': nat)
    requires size' == if !keepSize && off + len > size then off + len else size
    requires ZeroedSome(dev, exts, dev', off, off + len, size, size' > size && size / BS < CeilBlk(off))
    ensures Stepped(Snapshot(dev, exts, size), FallocateOp(off, len, ZeroMode(keepSize)), false,
      Snapshot(dev', exts, size))
  {
    var op := FallocateOp(off, len, ZeroMode(keepSize));
    assert TailZeroed(size, op) == (size' > size && size / BS < CeilBlk(off));
    hide ZeroedSome, Snapshot, Stepped, Left;
    ZeroResidue(dev, exts, size, dev', op);
    Unfinished(dev, exts, size, op, dev');
  }
}
