/** What an operation does to the bytes of a file, up to the end of its last block. */
module FileImage {
  import opened Bytes
  import opened Extents
  import opened FileModel

  /** The fallocate mode bits. */
  datatype Mode = Mode(keepSize: bool, punchHole: bool, collapseRange: bool, zeroRange: bool, insertRange: bool)

  datatype Op =
    | WriteOp(off: nat, data: seq<Byte>)
    | TruncateOp(newSize: nat)
    | FallocateOp(off: nat, len: nat, mode: Mode)

  /** What an operation does to the plain byte string. */
  function Apply(c: seq<Byte>, op: Op): (r: seq<Byte>) {
    match op
    case WriteOp(off, data) => WriteSpec(c, off, data)
    case TruncateOp(n) => ResizeSpec(c, n)
    case FallocateOp(off, len, m) =>
      if m.punchHole then ZeroSpec(c, off, off + len)
      else if m.collapseRange then if off + len <= |c| then CollapseSpec(c, off, len) else c
      else if m.insertRange then if off <= |c| then InsertSpec(c, off, len) else c
      else if m.zeroRange then ZeroSpec(ResizeSpec(c, NewSize(|c|, op)), off, off + len)
      else ResizeSpec(c, NewSize(|c|, op))
  }

  function ApplyAll(c: seq<Byte>, ops: seq<Op>): (r: seq<Byte>) {
    if ops == [] then c else Apply(ApplyAll(c, ops[..|ops|-1]), ops[|ops|-1])
  }

  /** The file size after the operation. */
  function NewSize(size: nat, op: Op): (n: nat) {
    match op
    case WriteOp(off, data) => if data != [] && off + |data| > size then off + |data| else size
    case TruncateOp(n) => n
    case FallocateOp(off, len, m) =>
      if m.punchHole then size
      else if m.collapseRange then if off + len <= size then size - len else size
      else if m.insertRange then if off <= size then size + len else size
      else if !m.keepSize && off + len > size then off + len else size
  }

  // ---------------------------------------------------------------------------
  // The image of a file

  /** pad holds the bytes up to the end of the block the file ends in: the file's own, then the tail that only
      a later growth can uncover. */
  datatype Image = Image(pad: seq<Byte>, size: nat)

  predicate WellSized(f: Image) {
    |f.pad| == CeilBlk(f.size) * BS
  }

  function BytesOf(f: Image): (c: seq<Byte>)
    requires WellSized(f)
    ensures |c| == f.size && forall i :: 0 <= i < |c| ==> c[i] == f.pad[i]
  {
    assert f.size <= CeilBlk(f.size) * BS;
    f.pad[..f.size]
  }

  /** Byte i of the address space; nothing is stored past the last block. */
  function ByteOf(f: Image, i: nat): (b: Byte) {
    if i < |f.pad| then f.pad[i] else 0
  }

  /** Nothing but zeros between the end of file and position n. */
  predicate ZeroTail(f: Image, n: nat) {
    forall i: nat :: f.size <= i < n ==> ByteOf(f, i) == 0
  }

  ghost predicate Clean(f: Image) {
    ZeroTail(f, |f.pad|)
  }

  /** Byte i after a successful operation. */
  function NewByte(f: Image, op: Op, i: nat): (b: Byte) {
    match op
    case WriteOp(off, data) =>
      if off <= i < off + |data| then data[i - off]
      else if data != [] && off > f.size && i >= f.size then 0
      else ByteOf(f, i)
    case TruncateOp(n) => if n == f.size || (i < n && i < f.size) then ByteOf(f, i) else 0
    case FallocateOp(off, len, m) =>
      if m.punchHole then if off <= i < off + len then 0 else ByteOf(f, i)
      else if m.collapseRange then if off + len <= f.size && i >= off then ByteOf(f, i + len) else ByteOf(f, i)
      else if m.insertRange then
        if off > f.size || i < off then ByteOf(f, i) else if i < off + len then 0 else ByteOf(f, i - len)
      else if m.zeroRange then
        if off <= i < off + len || (i >= f.size && TailZeroed(f.size, op)) then 0 else ByteOf(f, i)
      else ByteOf(f, i)
  }

  /** A growing ZERO_RANGE zeroes the old tail, unless the range covers the block the file ended in. */
  predicate TailZeroed(size: nat, op: Op)
    requires op.FallocateOp?
  {
    NewSize(size, op) > size && size / BS < CeilBlk(op.off)
  }

  function ApplyImage(f: Image, op: Op): (r: Image) {
    var n := NewSize(f.size, op);
    Image(seq(CeilBlk(n) * BS, i requires 0 <= i => NewByte(f, op, i)), n)
  }

  /** Preallocation that grows the file: the one growth that writes no zeros. */
  predicate Uncovers(op: Op, size: nat) {
    && op.FallocateOp? && NewSize(size, op) > size
    && !op.mode.punchHole && !op.mode.collapseRange && !op.mode.insertRange && !op.mode.zeroRange
  }

  /** Collapse and insert move whole blocks, and a collapse stays inside the file. */
  predicate Fits(op: Op, size: nat) {
    op.FallocateOp? && !op.mode.punchHole && (op.mode.collapseRange || op.mode.insertRange) ==>
      && op.off % BS == 0 && op.len % BS == 0
      && (op.mode.collapseRange ==> op.off + op.len <= size)
  }

  lemma PadCovers(n: nat)
    ensures n <= CeilBlk(n) * BS < n + BS
  {
  }

  /** A byte inside the new file is the byte string's. */
  lemma SameByte(f: Image, op: Op, i: nat)
    requires WellSized(f) && i < NewSize(f.size, op) && (Uncovers(op, f.size) ==> ZeroTail(f, NewSize(f.size, op)))
    ensures |Apply(BytesOf(f), op)| == NewSize(f.size, op) && NewByte(f, op, i) == Apply(BytesOf(f), op)[i]
  {
    PadCovers(f.size);
    if op.FallocateOp? { SameByteFallocate(f, op, i); }
  }

  lemma SameByteFallocate(f: Image, op: Op, i: nat)
    requires WellSized(f) && op.FallocateOp? && i < NewSize(f.size, op)
    requires Uncovers(op, f.size) ==> ZeroTail(f, NewSize(f.size, op))
    ensures |Apply(BytesOf(f), op)| == NewSize(f.size, op) && NewByte(f, op, i) == Apply(BytesOf(f), op)[i]
  {
    PadCovers(f.size);
  }

  /** Every operation but an uncovering preallocation is the byte-string operation, whatever the tail holds. */
  lemma ImageApplies(f: Image, op: Op)
    requires WellSized(f) && (Uncovers(op, f.size) ==> ZeroTail(f, NewSize(f.size, op)))
    ensures WellSized(ApplyImage(f, op)) && BytesOf(ApplyImage(f, op)) == Apply(BytesOf(f), op)
  {
    var n := NewSize(f.size, op);
    PadCovers(n);
    var a, c := BytesOf(ApplyImage(f, op)), Apply(BytesOf(f), op);
    assert |c| == n by { SizeApplies(f, op); }
    forall i | 0 <= i < n ensures a[i] == c[i] {
      SameByte(f, op, i);
    }
  }

  lemma SizeApplies(f: Image, op: Op)
    requires WellSized(f)
    ensures |Apply(BytesOf(f), op)| == NewSize(f.size, op)
  {
    PadCovers(f.size);
  }

  /** An operation is the byte-string operation exactly when it uncovers nothing but zeros. */
  lemma ImageExact(f: Image, op: Op)
    requires WellSized(f)
    ensures WellSized(ApplyImage(f, op))
    ensures BytesOf(ApplyImage(f, op)) == Apply(BytesOf(f), op)
      <==> (Uncovers(op, f.size) ==> ZeroTail(f, NewSize(f.size, op)))
  {
    var n := NewSize(f.size, op);
    PadCovers(n);
    PadCovers(f.size);
    if Uncovers(op, f.size) ==> ZeroTail(f, n) {
      ImageApplies(f, op);
    } else {
      var i: nat :| f.size <= i < n && ByteOf(f, i) != 0;
      var a, c := BytesOf(ApplyImage(f, op)), Apply(BytesOf(f), op);
      SizeApplies(f, op);
      assert c[i] == 0 && a[i] == NewByte(f, op, i) == ByteOf(f, i);
    }
  }

  /** A zero tail stays zero, and a truncation to another size makes one. */
  lemma CleanKept(f: Image, op: Op)
    requires WellSized(f) && Fits(op, f.size)
    ensures Clean(f) || (op.TruncateOp? && op.newSize != f.size) ==> Clean(ApplyImage(f, op))
  {
    var r := ApplyImage(f, op);
    if Clean(f) || (op.TruncateOp? && op.newSize != f.size) {
      forall i: nat | r.size <= i < |r.pad| ensures ByteOf(r, i) == 0 {
        assert ByteOf(r, i) == NewByte(f, op, i);
        if Clean(f) { CleanByte(f, op, i); }
      }
    }
  }

  lemma CleanByte(f: Image, op: Op, i: nat)
    requires WellSized(f) && Clean(f) && NewSize(f.size, op) <= i && Fits(op, f.size)
    ensures NewByte(f, op, i) == 0
  {
    assert forall j: nat :: f.size <= j ==> ByteOf(f, j) == 0;
  }

  // ---------------------------------------------------------------------------
  // Failed operations

  /** What a failed operation may leave at position i: a byte of its own effect. */
  predicate Residue(size: nat, op: Op, i: nat, b: Byte) {
    match op
    case WriteOp(off, data) => (off <= i < off + |data| && b == data[i - off]) || (off > size && i >= size && b == 0)
    case TruncateOp(n) => n <= i < CeilBlk(n) * BS && b == 0
    case FallocateOp(off, len, m) =>
      b == 0 && (m.punchHole || m.zeroRange) &&
        (off <= i < off + len || (!m.punchHole && i >= size && TailZeroed(size, op)))
  }

  /** A failed operation keeps the size, and every byte unless it left its own effect there. */
  ghost predicate Failed(f: Image, op: Op, r: Image) {
    && r.size == f.size && |r.pad| == |f.pad|
    && forall i: nat :: i < |f.pad| ==> ByteOf(r, i) == ByteOf(f, i) || Residue(f.size, op, i, ByteOf(r, i))
  }

  /** What a failed operation may have left in the file: its own data, or zeros in the range it was to zero. */
  lemma FailedReads(f: Image, op: Op, r: Image, i: nat)
    requires WellSized(f) && Stepped(f, op, false, r) && i < f.size
    ensures WellSized(r) && r.size == f.size
    ensures BytesOf(r)[i] != BytesOf(f)[i] ==>
      match op
      case WriteOp(off, data) => off <= i < off + |data| && BytesOf(r)[i] == data[i - off]
      case TruncateOp(n) => n <= i && BytesOf(r)[i] == 0
      case FallocateOp(off, len, m) => off <= i < off + len && BytesOf(r)[i] == 0
  {
    PadCovers(f.size);
    assert ByteOf(r, i) == ByteOf(f, i) || Residue(f.size, op, i, ByteOf(r, i));
  }

  ghost predicate Stepped(f: Image, op: Op, ok: bool, r: Image) {
    if ok then Fits(op, f.size) && r == ApplyImage(f, op) else Failed(f, op, r)
  }

  // ---------------------------------------------------------------------------
  // The fallocate modes, byte by byte, in the order the bits are looked at

  lemma PunchIs(f: Image, off: nat, len: nat, m: Mode, r: Image)
    requires WellSized(f) && Stepped(f, FallocateOp(off, len, m), true, r) && m.punchHole
    ensures WellSized(r) && r.size == f.size
    ensures forall i: nat :: i < r.size ==> BytesOf(r)[i] == if off <= i < off + len then 0 else BytesOf(f)[i]
  {
    PadCovers(f.size);
    ImageApplies(f, FallocateOp(off, len, m));
  }

  lemma CollapseIs(f: Image, off: nat, len: nat, m: Mode, r: Image)
    requires WellSized(f) && Stepped(f, FallocateOp(off, len, m), true, r) && !m.punchHole && m.collapseRange
    ensures WellSized(r) && off + len <= f.size
    ensures BytesOf(r) == BytesOf(f)[..off] + BytesOf(f)[off + len..]
  {
    ImageApplies(f, FallocateOp(off, len, m));
  }

  lemma InsertsIs(f: Image, off: nat, len: nat, m: Mode, r: Image)
    requires WellSized(f) && Stepped(f, FallocateOp(off, len, m), true, r) && off <= f.size
    requires !m.punchHole && !m.collapseRange && m.insertRange
    ensures WellSized(r) && r.size == f.size + len
    ensures BytesOf(r)[..off] == BytesOf(f)[..off] && BytesOf(r)[off + len..] == BytesOf(f)[off..]
    ensures forall i: nat :: off <= i < off + len ==> BytesOf(r)[i] == 0
  {
    ImageApplies(f, FallocateOp(off, len, m));
    InsertIs(BytesOf(f), off, len);
  }

  /** The size after a ZERO_RANGE or a plain fallocate. */
  lemma GrowsTo(f: Image, off: nat, len: nat, m: Mode, r: Image)
    requires WellSized(f) && Stepped(f, FallocateOp(off, len, m), true, r)
    requires !m.punchHole && !m.collapseRange && !m.insertRange
    ensures r.size == if !m.keepSize && off + len > f.size then off + len else f.size
  {
  }

  lemma ZeroIs(f: Image, off: nat, len: nat, m: Mode, r: Image)
    requires WellSized(f) && Stepped(f, FallocateOp(off, len, m), true, r)
    requires !m.punchHole && !m.collapseRange && !m.insertRange && m.zeroRange
    ensures WellSized(r)
    ensures forall i: nat :: i < r.size ==>
      BytesOf(r)[i] == if off <= i < off + len || i >= f.size then 0 else BytesOf(f)[i]
  {
    ImageApplies(f, FallocateOp(off, len, m));
    ResizeIs(BytesOf(f), r.size);
  }

  lemma PlainIs(f: Image, off: nat, len: nat, m: Mode, r: Image)
    requires WellSized(f) && Stepped(f, FallocateOp(off, len, m), true, r)
    requires !m.punchHole && !m.collapseRange && !m.insertRange && !m.zeroRange
    ensures WellSized(r) && f.size <= r.size
    ensures forall i: nat :: i < r.size ==> BytesOf(r)[i] == if i < |f.pad| then f.pad[i] else 0
  {
    PadCovers(r.size);
  }

  /** Only a failed write past the end of file makes a zero tail dirty. */
  lemma StepClean(f: Image, op: Op, ok: bool, r: Image)
    requires WellSized(f) && Clean(f) && Stepped(f, op, ok, r)
    requires ok || !op.WriteOp? || op.off + |op.data| <= f.size
    ensures WellSized(r) && Clean(r)
  {
    if ok {
      PadCovers(NewSize(f.size, op));
      CleanKept(f, op);
    }
  }

  /** A history: image k+1 is what operation k left. */
  ghost predicate History(trace: seq<Image>, ops: seq<Op>, oks: seq<bool>) {
    && |trace| == |ops| + 1 && |oks| == |ops|
    && forall k :: 0 <= k < |ops| ==> WellSized(trace[k]) && Stepped(trace[k], ops[k], oks[k], trace[k+1])
  }

  /** Until a failed write overruns the end of file the tail stays zero, whatever else fails. */
  lemma {:induction false} CleanHistory(trace: seq<Image>, ops: seq<Op>, oks: seq<bool>, k: nat)
    requires History(trace, ops, oks) && k <= |ops| && WellSized(trace[0]) && Clean(trace[0])
    requires forall j :: 0 <= j < k ==> oks[j] || !ops[j].WriteOp? || ops[j].off + |ops[j].data| <= trace[j].size
    ensures WellSized(trace[k]) && Clean(trace[k])
  {
    if k > 0 {
      CleanHistory(trace, ops, oks, k - 1);
      StepClean(trace[k-1], ops[k-1], oks[k-1], trace[k]);
    }
  }

  /** In such a history every operation that succeeds is the byte-string operation. */
  lemma HistoryApplies(trace: seq<Image>, ops: seq<Op>, oks: seq<bool>, k: nat)
    requires History(trace, ops, oks) && k < |ops| && Clean(trace[0]) && oks[k]
    requires forall j :: 0 <= j < k ==> oks[j] || !ops[j].WriteOp? || ops[j].off + |ops[j].data| <= trace[j].size
    ensures WellSized(trace[k]) && WellSized(trace[k+1]) && BytesOf(trace[k+1]) == Apply(BytesOf(trace[k]), ops[k])
  {
    CleanHistory(trace, ops, oks, k);
    ImageApplies(trace[k], ops[k]);
  }

  /** A history without failures, from a zero tail, is the byte-string history. */
  lemma {:induction false} AllSucceed(trace: seq<Image>, ops: seq<Op>, oks: seq<bool>)
    requires History(trace, ops, oks) && WellSized(trace[0]) && Clean(trace[0])
    requires forall k :: 0 <= k < |oks| ==> oks[k]
    ensures WellSized(trace[|ops|]) && Clean(trace[|ops|])
    ensures BytesOf(trace[|ops|]) == ApplyAll(BytesOf(trace[0]), ops)
    decreases |ops|
  {
    if ops != [] {
      var n := |ops| - 1;
      AllSucceed(trace[..n+1], ops[..n], oks[..n]);
      StepClean(trace[n], ops[n], oks[n], trace[n+1]);
      HistoryApplies(trace, ops, oks, n);
    }
  }

  // ---------------------------------------------------------------------------
  // The image of a stored file

  function Snapshot(dev: Device, exts: seq<Extent>, size: nat): (f: Image)
    ensures WellSized(f) && f.size == size && BytesOf(f) == Content(dev, exts, size)
  {
    assert size <= CeilBlk(size) * BS;
    Image(Content(dev, exts, CeilBlk(size) * BS), size)
  }

  lemma SnapshotByte(dev: Device, exts: seq<Extent>, size: nat, i: nat)
    requires NoWrittenPastEof(exts, size)
    ensures ByteOf(Snapshot(dev, exts, size), i) == ByteAt(dev, exts, i)
  {
    if i >= CeilBlk(size) * BS { assert i / BS >= CeilBlk(size); }
  }

  /** Every byte is the one the operation leaves. */
  ghost predicate Effected(dev: Device, exts: seq<Extent>, size: nat, op: Op, dev': Device, exts': seq<Extent>) {
    forall i: nat :: ByteAt(dev', exts', i) == NewByte(Snapshot(dev, exts, size), op, i)
  }

  lemma Becomes(dev: Device, exts: seq<Extent>, size: nat, op: Op, dev': Device, exts': seq<Extent>)
    requires Effected(dev, exts, size, op, dev', exts')
    ensures Snapshot(dev', exts', NewSize(size, op)) == ApplyImage(Snapshot(dev, exts, size), op)
  {
    var f, r := Snapshot(dev, exts, size), Snapshot(dev', exts', NewSize(size, op));
    var a := ApplyImage(f, op);
    assert r.pad == a.pad by {
      forall i | 0 <= i < |r.pad| ensures r.pad[i] == a.pad[i] {
        assert ByteAt(dev', exts', i) == NewByte(f, op, i);
      }
    }
  }

  /** Through the old list every byte is unchanged or left by the operation. */
  ghost predicate Left(dev: Device, exts: seq<Extent>, size: nat, op: Op, dev': Device) {
    forall i: nat :: ByteAt(dev', exts, i) == ByteAt(dev, exts, i) || Residue(size, op, i, ByteAt(dev', exts, i))
  }

  lemma Fails(dev: Device, exts: seq<Extent>, size: nat, op: Op, dev': Device)
    requires Left(dev, exts, size, op, dev')
    ensures Failed(Snapshot(dev, exts, size), op, Snapshot(dev', exts, size))
  {
    var f, r := Snapshot(dev, exts, size), Snapshot(dev', exts, size);
    forall i: nat | i < |f.pad| ensures ByteOf(r, i) == ByteOf(f, i) || Residue(f.size, op, i, ByteOf(r, i)) {
      assert ByteOf(r, i) == ByteAt(dev', exts, i) && ByteOf(f, i) == ByteAt(dev, exts, i);
    }
  }

  /** The file ends inside a written block that holds a non-zero byte between the end of file and n. */
  ghost predicate DirtyTail(dev: Device, exts: seq<Extent>, size: nat, n: nat) {
    var c := At(exts, size / BS);
    && size % BS != 0 && c.Some? && !c.value.unwritten
    && exists j: nat :: size % BS <= j < BS && size / BS * BS + j < n && ReadBlock(dev, c.value.phys)[j] != 0
  }

  lemma DirtyTailExact(dev: Device, exts: seq<Extent>, size: nat, n: nat)
    requires NoWrittenPastEof(exts, size)
    ensures DirtyTail(dev, exts, size, n) <==> !ZeroTail(Snapshot(dev, exts, size), n)
  {
    var f := Snapshot(dev, exts, size);
    if !ZeroTail(f, n) {
      var i: nat :| f.size <= i < n && ByteOf(f, i) != 0;
      SnapshotByte(dev, exts, size, i);
      assert i / BS < CeilBlk(size);
      assert i / BS == size / BS;
      assert ReadBlock(dev, At(exts, size / BS).value.phys)[i % BS] != 0;
    }
    if DirtyTail(dev, exts, size, n) {
      var p := At(exts, size / BS).value.phys;
      var j: nat :| size % BS <= j < BS && size / BS * BS + j < n && ReadBlock(dev, p)[j] != 0;
      SnapshotByte(dev, exts, size, size / BS * BS + j);
      assert ByteOf(f, size / BS * BS + j) != 0;
    }
  }
}
