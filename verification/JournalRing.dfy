/** The journal writer: record appends, commits and checkpoints (briefs/journal_write.go). */
module JournalRing {
  import opened JournalBlock
  import opened JournalReplay
  import opened RingState

  /** Both steps over the ring that follow a record-block write. */
  method AdvancePos(g: Geo, writePos: nat, blocks: nat) returns (next: nat, count: nat)
    ensures next == NextWritePos(g, writePos)
    ensures count == blocks + if NextRingBlock(writePos, g.start, g.size) == g.start + g.size - 1 then 2 else 1
  {
    next, count := NextRingBlock(writePos, g.start, g.size), blocks + 1;
    if next == g.start + g.size - 1 {
      next, count := NextRingBlock(next, g.start, g.size), count + 1;
    }
  }

  method InitCurBlock(cd: Codec, blockSeq: U32) returns (b: Block, off: nat)
    requires Sound(cd)
    ensures Building(cd, b, [], off) && BlockHeader(cd, b).b == blockSeq
  {
    b, off := EmptyBlock(cd, blockSeq), BLOCK_HDR;
    EmptyBuilding(cd, blockSeq);
    EmptyHolds(cd, blockSeq);
  }

  lemma SequencedAppend(cd: Codec, b: Block, off: nat, rec: Record, dev: map<nat, Block>, g: Geo, logStart: nat,
                        m: nat, next: U32)
    requires Sound(cd) && BLOCK_HDR <= off && off + REC_HDR <= BLOCK_SIZE && |rec.data| < 0x1_0000_0000
    requires Sequenced(cd, b, dev, g, logStart, m, next)
    ensures Sequenced(cd, Append(cd, b, off, rec), dev, g, logStart, m, next)
  {
    AppendSeq(cd, b, off, rec);
  }

  lemma NoUnsafeWrite(g: Geo, v: View, logStart: nat, logEnd: nat, writePos: nat)
    requires Bounds(g, v, logStart, logEnd, writePos)
    ensures v.safe
  {
  }

  datatype Op = WriteOp(rec: Record) | SyncOp(checkpoint: bool) | CheckpointOp

  /** The records a run of operations appends. */
  function Accepted(ops: seq<Op>): (r: seq<Record>) {
    if ops == [] then []
    else
      var last := ops[|ops|-1];
      Accepted(ops[..|ops|-1]) + if last.WriteOp? && ValidType(last.rec.typ) &&
        last.rec.data != [] then [last.rec] else []
  }

  class Journal {
    // Device blocks, and the superblock's log bounds.
    var dev: map<nat, Block>
    var logStart: nat
    var logEnd: nat
    // Writer state.
    var curBlock: Block
    var blockSeq: U32
    var writeOffset: nat
    var writePos: nat
    var recordsSinceCheckpoint: nat
    var blocksSinceCheckpoint: nat
    var dirty: bool
    var inCheckpoint: bool
    const g: Geo
    const cd: Codec
    ghost var view: View

    /** What holds between the steps of one operation. */
    ghost predicate Consistent()
      reads this
    {
      && Sound(cd)
      && Bounds(g, view, logStart, logEnd, writePos)
      && LapStored(cd, dev, g, logStart, view.lap)
      && Building(cd, curBlock, view.cur, writeOffset) && Typed(view.cur)
      && (blocksSinceCheckpoint > 0 <==> view.lap != [])
      && (dirty <==> view.cur != [])
      && Sequenced(cd, curBlock, dev, g, logStart, |view.lap|, blockSeq)
    }

    /** What holds between operations: a full lap is committed, and so is everything when the current
        block is empty. */
    ghost predicate Valid()
      reads this
    {
      Consistent() && (|view.lap| + 1 == g.size || !dirty ==> view.committed == |view.lap|)
    }

    /** NewJournal over a clean log: log_start == log_end, and a formatted checkpoint block. */
    constructor (g: Geo, cd: Codec, dev: map<nat, Block>, logStart: nat)
      requires Sound(cd) && LapStored(cd, dev, g, logStart, [])
      ensures Valid() && !inCheckpoint && this.g == g && this.cd == cd && this.dev == dev
      ensures this.logStart == logEnd == logStart && History(view) == [] && view.lap == [] && view.committed == 0
      ensures !dirty && recordsSinceCheckpoint == 0
    {
      this.g, this.cd, this.dev := g, cd, dev;
      this.logStart, logEnd, writePos, blockSeq := logStart, logStart, logStart, 0;
      recordsSinceCheckpoint, blocksSinceCheckpoint, dirty, inCheckpoint := 0, 0, false, false;
      view := View([], [], 0, [], {}, true);
      var b, off := InitCurBlock(cd, 0);
      curBlock, writeOffset := b, off;
    }

    /** Writes the current block at the write position, advances past the checkpoint block and
        starts a fresh block: the step a sync and a full block share. */
    method FlushBlock()
      requires Valid()
      modifies this
      ensures Consistent() && !dirty
      ensures old(writePos) != g.start + g.size - 1 && old(writePos) !in old(view.unsynced)
      ensures dev == old(dev)[old(writePos) := old(curBlock)]
      ensures view == Flushed(old(view), g.start, g.size, old(writePos)) && view.lap != []
      ensures writePos == NextWritePos(g, old(writePos))
      ensures logStart == old(logStart) && logEnd == old(logEnd) && inCheckpoint == old(inCheckpoint)
      ensures recordsSinceCheckpoint == old(recordsSinceCheckpoint)
      ensures BlockHeader(cd, old(curBlock)).b == old(blockSeq) && blockSeq == (old(blockSeq) + 1) % 0x1_0000_0000
    {
      hide LapStored, Building, Bounds, Flushed, Sequenced, BlockHeader, History;
      FlushBounds(g, view, logStart, logEnd, writePos);
      FlushStored(cd, dev, g, view, logStart, logEnd, writePos, curBlock, writeOffset);
      var nextSeq := (blockSeq + 1) % 0x1_0000_0000;
      var b, off := InitCurBlock(cd, nextSeq);
      FlushNumbers(cd, dev, g, view, logStart, logEnd, writePos, blockSeq, curBlock, b);
      view := Flushed(view, g.start, g.size, writePos);
      dev := dev[writePos := curBlock];
      writePos, blocksSinceCheckpoint := AdvancePos(g, writePos, blocksSinceCheckpoint);
      blockSeq := nextSeq;
      curBlock, writeOffset, dirty := b, off, false;
    }

    /** The write-through and commit point of syncLocked: log_end covers every pending record. */
    method CommitPending()
      requires Valid()
      modifies this
      ensures Valid() && !dirty && logStart == old(logStart) && logEnd == writePos == NextWritePos(g, old(writePos))
      ensures view == Committed(Flushed(old(view), g.start, g.size, old(writePos)))
      ensures Live(view) == (if |old(view).lap| + 1 == g.size then [] else Live(old(view))) + Pending(old(view))
      ensures Pending(view) == [] && History(view) == History(old(view))
      ensures logStart == logEnd <==> |view.lap| + 1 == g.size
      ensures recordsSinceCheckpoint == old(recordsSinceCheckpoint) && inCheckpoint == old(inCheckpoint)
    {
      hide LapStored, Building, Flushed, NextLap, Uncommitted, Sequenced, Typed;
      CommitCovers(g, view, writePos);
      FlushHistory(view, g.start, g.size, writePos);
      FlushBlock();
      CommitBounds(g, view, logStart, logEnd, writePos);
      logEnd := writePos;
      view := Committed(view);
      NothingPendingWhenFull(g, view, logStart, logEnd, writePos);
    }

    /** checkpointLocked. */
    method CheckpointLocked(flushPending: bool)
      requires Consistent() && (flushPending && dirty ==> Valid())
      modifies this
      ensures Valid() && view.lap == [] && History(view) == History(old(view))
      ensures logStart == logEnd == writePos
      ensures flushPending ==> !dirty
      ensures !(flushPending && old(dirty)) ==> view == Retired(old(view)) && dirty == old(dirty)
      ensures !(flushPending && old(dirty)) ==> writeOffset == old(writeOffset) && writePos == old(writePos)
      ensures flushPending && old(dirty) ==>
        view == Retired(AfterSync(g, old(view), old(logStart), old(writePos),
          old(recordsSinceCheckpoint) >= CHECKPOINT_INTERVAL, inCheckpoint))
      ensures recordsSinceCheckpoint == 0 && inCheckpoint == old(inCheckpoint)
      ensures g.start + g.size - 1 in dev
        && BlockHeader(cd, dev[g.start + g.size - 1]) == Header(0x43485053, blockSeq, 1, 0)
      decreases if flushPending && dirty then 4 else 1
    {
      hide LapStored, Building, Bounds, Retired, History, Typed;
      if flushPending && dirty {
        SyncLocked(true);
      }
      RetireBounds(g, view, logStart, logEnd, writePos);
      var b := CheckpointBlock(cd, blockSeq);
      StoreCheckpoint(cd, dev, g, logStart, view.lap, b, writePos);
      dev := dev[g.start + g.size - 1 := b];
      view := Retired(view);
      logStart := writePos;
      logEnd := writePos;
      recordsSinceCheckpoint := 0;
      blocksSinceCheckpoint := 0;
    }

    /** syncLocked. */
    method SyncLocked(checkpoint: bool)
      requires Valid()
      modifies this
      ensures Valid() && !dirty && Pending(view) == [] && History(view) == History(old(view))
      ensures view == if old(dirty) then
        AfterSync(g, old(view), old(logStart), old(writePos), checkpoint &&
          old(recordsSinceCheckpoint) >= CHECKPOINT_INTERVAL, inCheckpoint)
        else old(view)
      ensures inCheckpoint == old(inCheckpoint) && recordsSinceCheckpoint <= old(recordsSinceCheckpoint)
      ensures old(dirty) ==> writePos == NextWritePos(g, old(writePos))
      ensures old(dirty) && view.lap != [] ==>
        logStart == if |old(view).lap| + 1 == g.size && !inCheckpoint then old(writePos) else old(logStart)
      ensures old(dirty) ==> (Hidden(view, logStart, logEnd) <==>
        NextWritePos(g, old(writePos)) == old(logStart) &&
          !(checkpoint && old(recordsSinceCheckpoint) >= CHECKPOINT_INTERVAL))
      decreases if dirty then 3 else 0, 1
    {
      if !dirty {
        return;
      }
      hide LapStored, Building, Bounds, History, Pending, Typed, AfterSync, Hidden, NextWritePos;
      ghost var v, start, end, pos := view, logStart, logEnd, writePos;
      ghost var due := checkpoint && recordsSinceCheckpoint >= CHECKPOINT_INTERVAL;
      SyncDirty(checkpoint);
      SyncHides(g, v, start, end, pos, due, inCheckpoint, view, logStart, logEnd, writePos);
    }

    method SyncDirty(checkpoint: bool)
      requires Valid() && dirty
      modifies this
      ensures Valid() && !dirty && Pending(view) == [] && History(view) == History(old(view))
      ensures view ==
        AfterSync(g, old(view), old(logStart), old(writePos), checkpoint &&
          old(recordsSinceCheckpoint) >= CHECKPOINT_INTERVAL, inCheckpoint)
      ensures inCheckpoint == old(inCheckpoint) && recordsSinceCheckpoint <= old(recordsSinceCheckpoint)
      ensures writePos == NextWritePos(g, old(writePos))
      ensures view.lap != [] ==>
        logStart == if |old(view).lap| + 1 == g.size && !inCheckpoint then old(writePos) else old(logStart)
      decreases 3, 0
    {
      SyncCommits(g, view, logStart, writePos, checkpoint &&
        recordsSinceCheckpoint >= CHECKPOINT_INTERVAL, inCheckpoint);
      hide LapStored, Building, Uncommitted, NextLap, Bounds, Flushed, Committed, Retired, History, Pending, Live,
        Typed;
      RetireFull();
      CommitPending();
      RetireDue(checkpoint);
    }

    /** syncLocked's first back-pressure check: a full ring is retired before the pending block is written. */
    method RetireFull()
      requires Valid() && dirty
      modifies this
      ensures Valid() && dirty && inCheckpoint == old(inCheckpoint) && writePos == old(writePos)
      ensures var full := |old(view).lap| + 1 == g.size && !inCheckpoint;
        && view == (if full then Retired(old(view)) else old(view))
        && logStart == (if full then writePos else old(logStart))
        && recordsSinceCheckpoint == if full then 0 else old(recordsSinceCheckpoint)
      decreases 2
    {
      BackAtStart(g, view, logStart, logEnd, writePos);
      hide LapStored, Building, Uncommitted, Bounds, Retired, Typed;
      if !inCheckpoint && writePos == logStart && blocksSinceCheckpoint > 0 {
        inCheckpoint := true;
        CheckpointLocked(false);
        inCheckpoint := false;
      }
    }

    /** syncLocked after its commit point: the periodic checkpoint and the second back-pressure check. */
    method RetireDue(checkpoint: bool)
      requires Valid() && !dirty
      modifies this
      ensures Valid() && !dirty && inCheckpoint == old(inCheckpoint)
      ensures recordsSinceCheckpoint <= old(recordsSinceCheckpoint)
      ensures view == if (checkpoint && old(recordsSinceCheckpoint) >= CHECKPOINT_INTERVAL)
          || (!inCheckpoint && NextRingBlock(old(writePos), g.start, g.size) == old(logStart))
        then Retired(old(view)) else old(view)
      ensures writePos == old(writePos) && (view.lap != [] ==> logStart == old(logStart))
      decreases 2
    {
      hide LapStored, Building, Uncommitted, Bounds, Retired, Typed;
      if checkpoint && recordsSinceCheckpoint >= CHECKPOINT_INTERVAL {
        CheckpointLocked(true);
      }
      if !inCheckpoint && NextRingBlock(writePos, g.start, g.size) == logStart {
        inCheckpoint := true;
        CheckpointLocked(true);
        inCheckpoint := false;
      }
    }

    /** writeRecordLocked: accepts every record of a known type with a payload; a full ring is
        retired by a checkpoint first and then never reported as exhausted. */
    method WriteRecord(rec: Record) returns (ok: bool)
      requires Valid() && |rec.data| < 0x1_0000_0000 - REC_HDR
      modifies this
      ensures Valid() && inCheckpoint == old(inCheckpoint)
      ensures recordsSinceCheckpoint <= old(recordsSinceCheckpoint) + 1
      ensures ok == (0 < rec.typ < 13 && rec.data != [])
      ensures History(view) == History(old(view)) + if ok then [rec] else []
      ensures !ok ==> unchanged(this)
      ensures old(writeOffset) + REC_HDR + |rec.data| <= BLOCK_SIZE ==>
        logStart == old(logStart) && logEnd == old(logEnd) && writePos == old(writePos)
      ensures ok ==>
        view == Appended(if old(writeOffset) + REC_HDR + |rec.data| <= BLOCK_SIZE then old(view)
          else AfterFlush(g, old(view), old(writePos)), rec)
    {
      if !ValidType(rec.typ) || rec.data == [] {
        return false;
      }
      if writeOffset + REC_HDR + |rec.data| > BLOCK_SIZE {
        MakeRoom();
      }
      AppendRecord(rec);
      return true;
    }

    /** The full-block half of writeRecordLocked. */
    method MakeRoom()
      requires Valid()
      modifies this
      ensures Consistent() && !dirty && inCheckpoint == old(inCheckpoint) && History(view) == History(old(view))
      ensures |view.lap| + 1 < g.size && recordsSinceCheckpoint <= old(recordsSinceCheckpoint)
      ensures view == AfterFlush(g, old(view), old(writePos))
    {
      hide LapStored, Building, Uncommitted;
      FlushHistory(view, g.start, g.size, writePos);
      FlushBlock();
      BackAtStart(g, view, logStart, logEnd, writePos);
      if writePos == logStart {
        CheckpointLocked(true);
        assert NextRingBlock(writePos, g.start, g.size) != logStart;
      }
    }

    /** The append half of writeRecordLocked. */
    method AppendRecord(rec: Record)
      requires Consistent() && |view.lap| + 1 <= g.size && (|view.lap| + 1 == g.size ==> view.committed == |view.lap|)
      requires ValidType(rec.typ) && 0 < |rec.data| < 0x1_0000_0000 - REC_HDR
      requires writeOffset + REC_HDR + |rec.data| <= BLOCK_SIZE || !dirty
      modifies this
      ensures Valid() && inCheckpoint == old(inCheckpoint) && view == Appended(old(view), rec)
      ensures logStart == old(logStart) && logEnd == old(logEnd) && writePos == old(writePos)
      ensures recordsSinceCheckpoint == old(recordsSinceCheckpoint) + 1
      ensures History(view) == History(old(view)) + [rec] && Pending(view) == Pending(old(view)) + [rec]
    {
      hide LapStored, Uncommitted, Append, Holds, Iterate, Sequenced, BlockHeader, ReadsAs, Good;
      AppendBuilding(cd, curBlock, view.cur, writeOffset, rec);
      SequencedAppend(cd, curBlock, writeOffset, rec, dev, g, logStart, |view.lap|, blockSeq);
      AppendedOk(g, view, rec, logStart, logEnd, writePos);
      curBlock := Append(cd, curBlock, writeOffset, rec);
      writeOffset := writeOffset + REC_HDR + |rec.data|;
      view := Appended(view, rec);
      dirty := true;
      recordsSinceCheckpoint := recordsSinceCheckpoint + 1;
    }

    /** Replay of the committed range: exactly its records in append order, if and only if no payload
        is oversized. log_start == log_end reads nothing. */
    method ReadLog() returns (log: Log)
      requires Valid()
      ensures logStart == logEnd ==> log == Records([])
      ensures logStart != logEnd ==> (log.Records? <==> Good(Live(view)))
      ensures logStart != logEnd && log.Records? ==> Typed(Live(view)) && log.recs == FramedAll(cd, Live(view))
      ensures logStart != logEnd ==>
        (log.Records? <==> forall i :: 0 <= i < |Live(view)| ==> |Live(view)[i].data| <= 4064)
      ensures logStart != logEnd && log.Records? ==> |log.recs| == |Live(view)|
      ensures logStart != logEnd && log.Records? ==> forall i :: 0 <= i < |log.recs| ==>
        && log.recs[i].0.a == Live(view)[i].typ && log.recs[i].1 == Live(view)[i].data
        && log.recs[i].0.b == 0 && log.recs[i].0.c == |Live(view)[i].data|
        && log.recs[i].0.d == cd.crc(Live(view)[i].typ, Live(view)[i].data)
    {
      hide LapStored, Building, Bounds, Live, Good, FramedAll, Typed;
      if logStart == logEnd {
        return Records([]);
      }
      log := WalkJournal(cd, dev, g, logStart, logEnd, view, writePos);
    }

    /** Every run keeps the invariant, the safety of every record-block write included, and keeps the
        history in append order.  A run that leaves room in the ring and asks for no checkpoint retires nothing:
        once it ends in a sync the committed records are the ones before it followed by all it accepted. */
    method Run(ops: seq<Op>)
      requires Valid()
      requires forall i :: 0 <= i < |ops| && ops[i].WriteOp? ==> |ops[i].rec.data| < 0x1_0000_0000 - REC_HDR
      modifies this
      ensures Valid() && view.safe && inCheckpoint == old(inCheckpoint)
      ensures History(view) == History(old(view)) + Accepted(ops)
      ensures RoomFor(ops, |old(view).lap|, old(recordsSinceCheckpoint), g.size) ==>
        && view.past == old(view).past && |view.lap| <= |old(view).lap| + |ops|
        && Live(view) + Pending(view) == Live(old(view)) + Pending(old(view)) + Accepted(ops)
      ensures ops != [] && !ops[|ops|-1].WriteOp? ==> Pending(view) == []
    {
      hide LapStored, Building, Uncommitted, History, AfterSync, AfterFlush, Retired, Typed, Pending, Live, Hidden,
        RoomFor;
      ghost var v, lap, since := view, |view.lap|, recordsSinceCheckpoint;
      ghost var room := RoomFor(ops, lap, since, g.size);
      var i := 0;
      while i < |ops|
        invariant 0 <= i <= |ops| && Valid() && inCheckpoint == old(inCheckpoint)
        invariant History(view) == History(v) + Accepted(ops[..i])
        invariant room ==> view.past == v.past && |view.lap| <= lap + i && recordsSinceCheckpoint <= since + i
        invariant i > 0 && !ops[i-1].WriteOp? ==> Pending(view) == []
      {
        assert ops[..i+1][..i] == ops[..i];
        if room {
          RoomAt(ops, lap, since, g.size, i);
          StepKeeps(g, view, logStart, logEnd, writePos, inCheckpoint);
        }
        match ops[i] {
          case WriteOp(rec) => var _ := WriteRecord(rec);
          case SyncOp(checkpoint) => SyncLocked(checkpoint);
          case CheckpointOp =>
            CheckpointLocked(true);
            NonePending(view);
        }
        i := i + 1;
      }
      assert ops[..|ops|] == ops;
      NoUnsafeWrite(g, view, logStart, logEnd, writePos);
      if room { SameTail(v, view, Accepted(ops)); }
    }
  }

  /** No checkpoint is asked for or comes due, and the ring has room for every block the operations can fill. */
  ghost predicate RoomFor(ops: seq<Op>, lap: nat, since: nat, size: nat) {
    && (forall i :: 0 <= i < |ops| ==> ops[i] != CheckpointOp)
    && lap + |ops| + 2 < size && since + |ops| <= 4096
  }

  lemma RoomAt(ops: seq<Op>, lap: nat, since: nat, size: nat, i: nat)
    requires RoomFor(ops, lap, since, size) && i < |ops|
    ensures ops[i] != CheckpointOp && lap + i + 3 < size && since + i < 4096
  {
  }

  lemma StepKeeps(g: Geo, v: View, logStart: nat, logEnd: nat, writePos: nat, nested: bool)
    requires Bounds(g, v, logStart, logEnd, writePos) && |v.lap| + 3 < g.size
    ensures var r := AfterSync(g, v, logStart, writePos, false, nested);
      r.past == v.past && |r.lap| == |v.lap| + 1
    ensures var r := AfterFlush(g, v, writePos);
      r.past == v.past && |r.lap| == |v.lap| + 1
  {
    SyncKeeps(g, v, logStart, logEnd, writePos, nested);
    FlushKeeps(g, v, writePos);
  }

  /** One record in one block, committed: the ring is not retired, and only its last free position hides it. */
  method CommitOne(j: Journal, rec: Record)
    requires j.Valid() && !j.dirty && !j.inCheckpoint && j.logStart == j.g.start && |j.view.lap| + 1 < j.g.size
    requires ValidType(rec.typ) && 0 < |rec.data| <= BLOCK_SIZE - BLOCK_HDR - REC_HDR
    modifies j
    ensures j.Valid() && !j.dirty && !j.inCheckpoint && j.logStart == j.g.start
    ensures j.view.committed == |j.view.lap| == |old(j.view).lap| + 1 && Live(j.view) == Live(old(j.view)) + [rec]
    ensures j.logEnd == j.logStart <==> |j.view.lap| + 1 == j.g.size
  {
    ghost var v := j.view;
    assert v.committed == |v.lap| && v.cur == [];
    hide LapStored, Building, Typed, Uncommitted, Bounds, AfterSync, AfterFlush, History, Pending, Hidden, Live,
      Flatten;
    FitsEmpty(j.cd, j.curBlock, j.writeOffset);
    var ok := j.WriteRecord(rec);
    assert j.view == v.(cur := [rec]);
    NeverRetired(j.g, j.view, j.logStart, j.logEnd, j.writePos);
    j.SyncLocked(false);
    OneMore(v, rec, j.view);
    BackAtStart(j.g, j.view, j.logStart, j.logEnd, j.writePos);
    EndsAtWrite(j.g, j.view, j.logStart, j.logEnd, j.writePos);
  }

  lemma OneMore(v: View, rec: Record, r: View)
    requires v.committed == |v.lap| && v.cur == [] && r == Committed(v.(lap := v.lap + [[rec]], cur := []))
    ensures r.committed == |r.lap| == |v.lap| + 1 && Live(r) == Live(v) + [rec]
  {
    AllLive(v);
    AllLive(r);
    FlattenSnoc(v.lap, [rec]);
  }

  lemma EndsAtWrite(g: Geo, v: View, logStart: nat, logEnd: nat, writePos: nat)
    requires Bounds(g, v, logStart, logEnd, writePos) && v.committed == |v.lap|
    ensures logEnd == writePos
  {
  }

  lemma NonePending(v: View)
    requires v.lap == [] && v.cur == [] && v.committed == 0
    ensures Pending(v) == []
  {
  }

  lemma NoneLive(v: View)
    requires v.lap == [] && v.committed == 0
    ensures Live(v) == []
  {
  }

  lemma FitsEmpty(cd: Codec, b: Block, off: nat)
    requires Building(cd, b, [], off)
    ensures off == BLOCK_HDR
  {
  }

  /** Over a log that starts at the ring's first block neither check sees the ring fill. */
  lemma NeverRetired(g: Geo, v: View, logStart: nat, logEnd: nat, writePos: nat)
    requires Bounds(g, v, logStart, logEnd, writePos) && logStart == g.start && |v.lap| + 1 < g.size
    ensures AfterSync(g, v, logStart, writePos, false, false) == Committed(v.(lap := v.lap + [v.cur], cur := []))
  {
  }

  /** With the bounds equal and the lap not full nothing is live. */
  lemma NothingLive(g: Geo, v: View, logStart: nat, writePos: nat)
    requires Bounds(g, v, logStart, logStart, writePos) && |v.lap| + 1 < g.size
    ensures Live(v) == []
  {
    hide Uncommitted;
    assert v.committed == 0;
  }

  /** A run over a clean log that ends in a sync, asks for no checkpoint and leaves room in the ring is read back in
      full, every accepted record in append order, if and only if no payload is oversized. */
  method SyncedReadsBack(g: Geo, cd: Codec, dev: map<nat, Block>, logStart: nat, ops: seq<Op>) returns (log: Log)
    requires Sound(cd) && LapStored(cd, dev, g, logStart, [])
    requires forall i :: 0 <= i < |ops| && ops[i].WriteOp? ==> |ops[i].rec.data| < 0x1_0000_0000 - REC_HDR
    requires forall i :: 0 <= i < |ops| ==> ops[i] != CheckpointOp
    requires |ops| + 2 < g.size && |ops| <= 4096 && ops != [] && ops[|ops|-1].SyncOp?
    ensures log.Records? <==> forall i :: 0 <= i < |Accepted(ops)| ==> |Accepted(ops)[i].data| <= 4064
    ensures log.Records? ==> |log.recs| == |Accepted(ops)|
    ensures log.Records? ==> forall i :: 0 <= i < |log.recs| ==>
      log.recs[i].0.a == Accepted(ops)[i].typ && log.recs[i].1 == Accepted(ops)[i].data
  {
    hide LapStored, Building, Typed, Uncommitted, Live, Good, History, Pending, FramedAll, Accepted;
    var j := new Journal(g, cd, dev, logStart);
    NoneLive(j.view);
    NonePending(j.view);
    j.Run(ops);
    assert Live(j.view) == Live(j.view) + Pending(j.view) == Accepted(ops);
    if j.logStart == j.logEnd {
      NothingLive(g, j.view, j.logStart, j.writePos);
    }
    log := j.ReadLog();
  }

  /** On a ring of any size, as many one-record syncs as it has record blocks leave every record committed and
      none readable. */
  method FillRing(g: Geo, cd: Codec, dev: map<nat, Block>, recs: seq<Record>) returns (j: Journal, log: Log)
    requires Sound(cd) && LapStored(cd, dev, g, g.start, []) && |recs| + 1 == g.size
    requires forall i :: 0 <= i < |recs| ==>
      ValidType(recs[i].typ) && 0 < |recs[i].data| <= BLOCK_SIZE - BLOCK_HDR - REC_HDR
    ensures j.Valid() && Live(j.view) == recs && log == Records([])
  {
    hide LapStored, Building, Typed, Bounds, Live, Good;
    j := new Journal(g, cd, dev, g.start);
    NoneLive(j.view);
    for i := 0 to |recs|
      invariant fresh(j) && j.Valid() && !j.dirty && !j.inCheckpoint && j.g == g && j.logStart == g.start
      invariant j.view.committed == |j.view.lap| == i && Live(j.view) == recs[..i]
      invariant (j.logEnd == j.logStart <==> i == 0 || i + 1 == g.size)
    {
      CommitOne(j, recs[i]);
      assert recs[..i+1] == recs[..i] + [recs[i]];
    }
    assert recs[..|recs|] == recs;
    log := j.ReadLog();
  }
}
