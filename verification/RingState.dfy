/** The journal ring as a state machine: record appends, commits and checkpoints
    (briefs/journal_write.go) and the ring walk (briefs/journal_replay.go). */
module RingState {
  import opened JournalBlock

  const CHECKPOINT_INTERVAL := 4096

  /** NextRingBlock. */
  function NextRingBlock(cur: nat, journalStart: nat, journalBlocks: nat): (r: nat)
    ensures cur >= journalStart ==> journalStart <= r
    ensures journalBlocks > 0 && cur < journalStart + journalBlocks ==>
      r < journalStart + journalBlocks || r == journalStart
  {
    if cur + 1 >= journalStart + journalBlocks then journalStart else cur + 1
  }

  /** The k-th block after from on a ring of n blocks, k <= n. */
  function Around(start: nat, n: nat, from: nat, k: nat): (r: nat)
    requires start <= from < start + n && k <= n
    ensures start <= r < start + n
  {
    if from + k < start + n then from + k else from + k - n
  }

  /** How many steps lead from one block to another. */
  function Distance(n: nat, from: nat, to: nat): (r: int) {
    if from <= to then to - from else to + n - from
  }

  predicate KnownMagic(cd: Codec, b: Block) {
    BlockHeader(cd, b).a == MAGIC_JOURNAL || BlockHeader(cd, b).a == MAGIC_CHECKPOINT
  }

  /** WalkJournalRing: the blocks handed to the visitor, in order, and whether an unknown magic cut
      the walk short. */
  method WalkJournalRing(cd: Codec, dev: map<nat, Block>, start: nat, n: nat, from: nat, to: nat)
    returns (visited: seq<nat>, badMagic: bool)
    requires start <= from < start + n
    requires forall b :: start <= b < start + n ==> b in dev
    ensures |visited| <= n
    ensures forall i :: 0 <= i < |visited| ==>
      visited[i] == Around(start, n, from, i) && KnownMagic(cd, dev[visited[i]])
    ensures badMagic ==> |visited| < n && !KnownMagic(cd, dev[Around(start, n, from, |visited|)])
    ensures badMagic && from != to && start <= to < start + n ==> |visited| < Distance(n, from, to)
    ensures !badMagic ==>
      |visited| == if from == to then 1 else if start <= to < start + n then Distance(n, from, to) else n
  {
    visited, badMagic := [], false;
    var cur := from;
    for iter := 0 to n
      invariant |visited| == iter && cur == Around(start, n, from, iter)
      invariant forall i :: 0 <= i < |visited| ==>
        visited[i] == Around(start, n, from, i) && KnownMagic(cd, dev[visited[i]])
      invariant iter > 0 ==> from != to
      invariant from != to && start <= to < start + n ==> iter < Distance(n, from, to)
    {
      if !KnownMagic(cd, dev[cur]) {
        return visited, true;
      }
      visited := visited + [cur];
      if from == to {
        return;
      }
      cur := NextRingBlock(cur, start, n);
      if cur == to {
        return;
      }
    }
  }

  function Flatten(ss: seq<seq<Record>>): (r: seq<Record>) {
    if ss == [] then [] else Flatten(ss[..|ss|-1]) + ss[|ss|-1]
  }

  lemma FlattenSnoc(ss: seq<seq<Record>>, s: seq<Record>)
    ensures Flatten(ss + [s]) == Flatten(ss) + s
  {
    assert (ss + [s])[..|ss|] == ss;
  }

  lemma {:induction false} FlattenConcat(a: seq<seq<Record>>, b: seq<seq<Record>>)
    ensures Flatten(a + b) == Flatten(a) + Flatten(b)
  {
    if b == [] {
      assert a + b == a;
    } else {
      var m := |b| - 1;
      FlattenConcat(a, b[..m]);
      assert (a + b)[..|a| + m] == a + b[..m];
      assert Flatten(a) + (Flatten(b[..m]) + b[m]) == Flatten(a) + Flatten(b[..m]) + b[m];
    }
  }

  /** WriteCheckpointBlock; its one record is left out. */
  method CheckpointBlock(cd: Codec, blockSeq: U32) returns (b: Block)
    requires Sound(cd)
    ensures BlockHeader(cd, b) == Header(0x43485053, blockSeq, 1, 0)
  {
    b := CopyAt(seq(BLOCK_SIZE, _ => 0), 0, cd.marshal(Header(MAGIC_CHECKPOINT, blockSeq, 1, 0)));
    HeaderOnly(cd, seq(BLOCK_SIZE, _ => 0), Header(MAGIC_CHECKPOINT, blockSeq, 1, 0));
  }

  // ---------------------------------------------------------------------------
  // What the proofs track

  predicate ValidType(t: U32) {
    JRN_NONE < t < JRN_END
  }

  /** Every record is one writeRecordLocked accepts. */
  predicate Typed(recs: seq<Record>) {
    forall i :: 0 <= i < |recs| ==> ValidType(recs[i].typ) && |recs[i].data| < 0x1_0000_0000
  }

  /** past: records of blocks that checkpoints or later laps have retired. lap: record blocks written
      in the current lap from log_start. committed: how many of those a commit covers. cur: records
      in the current block. unsynced: the blocks holding records that are neither flushed by a
      completed sync nor retired by a checkpoint. safe: no record block was ever written onto such a
      block or onto the checkpoint block. */
  datatype View = View(past: seq<Record>, lap: seq<seq<Record>>, committed: nat, cur: seq<Record>,
                       unsynced: set<nat>, safe: bool)

  /** Every record accepted so far, in append order. */
  function History(v: View): (r: seq<Record>) {
    v.past + Flatten(v.lap) + v.cur
  }

  /** Records appended and neither committed by a sync nor retired by a checkpoint. */
  function Pending(v: View): (r: seq<Record>)
    requires v.committed <= |v.lap|
  {
    Flatten(v.lap[v.committed..]) + v.cur
  }

  /** The records of the blocks in [log_start, log_end). */
  function Live(v: View): (r: seq<Record>)
    requires v.committed <= |v.lap|
  {
    Flatten(v.lap[..v.committed])
  }

  /** The live and the pending records are the tail of the history. */
  lemma HistoryTail(v: View)
    requires v.committed <= |v.lap|
    ensures History(v) == v.past + Live(v) + Pending(v)
  {
    FlattenSplit(v);
    assert v.past + Flatten(v.lap) + v.cur == v.past + (Flatten(v.lap) + v.cur);
  }

  /** A write onto a full lap starts the next one. */
  function NextLap(v: View, size: nat): (r: View)
    ensures History(r) == History(v)
  {
    if |v.lap| + 1 == size then v.(past := v.past + Flatten(v.lap), lap := [], committed := 0) else v
  }

  function Flushed(v: View, start: nat, size: nat, writePos: nat): (r: View) {
    var w := NextLap(v, size);
    w.(lap := w.lap + [w.cur], cur := [], unsynced := w.unsynced + {writePos},
       safe := w.safe && writePos != start + size - 1 && writePos !in w.unsynced)
  }

  function Committed(v: View): (r: View) {
    v.(committed := |v.lap|, unsynced := {})
  }

  function Retired(v: View): (r: View)
    ensures History(r) == History(v)
  {
    v.(past := v.past + Flatten(v.lap), lap := [], committed := 0, unsynced := {})
  }

  lemma FlushHistory(v: View, start: nat, size: nat, writePos: nat)
    ensures History(Flushed(v, start, size, writePos)) == History(v)
  {
    var w := NextLap(v, size);
    FlattenSnoc(w.lap, w.cur);
    assert w.past + Flatten(w.lap) + w.cur == w.past + (Flatten(w.lap) + w.cur) + [];
  }

  // ---------------------------------------------------------------------------
  // The invariant

  /** The ring's first block and its size, checkpoint block included. */
  datatype Geometry = Geometry(start: nat, size: nat)

  type Geo = g: Geometry | g.size >= 4 witness Geometry(0, 4)

  /** Where the k-th record block of a lap goes. */
  function Pos(g: Geo, logStart: nat, k: nat): (r: nat)
    requires g.start <= logStart < g.start + g.size - 1 && k < g.size
    ensures g.start <= r < g.start + g.size - 1
  {
    Around(g.start, g.size - 1, logStart, k)
  }

  /** The position after a record block: the next ring block, never the checkpoint block. */
  function NextWritePos(g: Geo, writePos: nat): (r: nat) {
    var next := NextRingBlock(writePos, g.start, g.size);
    if next == g.start + g.size - 1 then NextRingBlock(next, g.start, g.size) else next
  }

  /** What a sync of a dirty block makes of the log: a full ring is retired first; the pending records are
      committed; and the log is retired when a periodic checkpoint is due or the ring is about to fill. */
  function AfterSync(g: Geo, v: View, logStart: nat, writePos: nat, due: bool, nested: bool): (r: View) {
    var full := |v.lap| + 1 == g.size && !nested;
    var w := Committed(Flushed(if full then Retired(v) else v, g.start, g.size, writePos));
    var start := if full then writePos else logStart;
    var next := NextRingBlock(NextWritePos(g, writePos), g.start, g.size);
    if (due && !full) || (!nested && next == start) then Retired(w) else w
  }

  /** A record that does not fit flushes the block; a ring filled by that is retired. */
  function AfterFlush(g: Geo, v: View, writePos: nat): (r: View) {
    var w := Flushed(v, g.start, g.size, writePos);
    if |w.lap| + 1 == g.size then Retired(w) else w
  }

  lemma Advance(g: Geo, logStart: nat, m: nat)
    requires g.start <= logStart < g.start + g.size - 1 && m + 1 < g.size
    ensures NextWritePos(g, Pos(g, logStart, m)) == Pos(g, logStart, m + 1)
  {
  }

  ghost function Uncommitted(g: Geo, logStart: nat, c: nat, m: nat): (r: set<nat>)
    requires g.start <= logStart < g.start + g.size - 1 && m < g.size
  {
    set k | c <= k < m :: Pos(g, logStart, k)
  }

  lemma OneMoreUncommitted(g: Geo, logStart: nat, c: nat, m: nat)
    requires g.start <= logStart < g.start + g.size - 1 && c <= m && m + 1 < g.size
    ensures Uncommitted(g, logStart, c, m + 1) == Uncommitted(g, logStart, c, m) + {Pos(g, logStart, m)}
    ensures Pos(g, logStart, m) !in Uncommitted(g, logStart, c, m)
  {
  }

  /** Log bounds, write position, lap and unsynced blocks agree. */
  ghost predicate Bounds(g: Geo, v: View, logStart: nat, logEnd: nat, writePos: nat) {
    && g.start <= logStart < g.start + g.size - 1
    && v.committed <= |v.lap| < g.size
    && writePos == Pos(g, logStart, |v.lap|)
    && logEnd == Pos(g, logStart, v.committed)
    && v.unsynced == Uncommitted(g, logStart, v.committed, |v.lap|)
    && v.safe
  }

  /** The device holds the lap's blocks at their ring positions, and a checkpoint block. */
  ghost predicate LapStored(cd: Codec, dev: map<nat, Block>, g: Geo, logStart: nat, lap: seq<seq<Record>>) {
    && g.start <= logStart < g.start + g.size - 1 && |lap| < g.size
    && (forall b :: g.start <= b < g.start + g.size ==> b in dev)
    && BlockHeader(cd, dev[g.start + g.size - 1]).a == MAGIC_CHECKPOINT
    && forall k :: 0 <= k < |lap| ==> ReadsAs(cd, dev[Pos(g, logStart, k)], lap[k]) && Typed(lap[k])
  }

  /** The m blocks of the lap carry consecutive sequence numbers, and next is the one after them. */
  ghost predicate Numbered(cd: Codec, dev: map<nat, Block>, g: Geo, logStart: nat, m: nat, next: U32) {
    && g.start <= logStart < g.start + g.size - 1 && m < g.size
    && forall k: nat :: k < m ==> NumberAt(cd, dev, g, logStart, m, next, k)
  }

  ghost predicate NumberAt(cd: Codec, dev: map<nat, Block>, g: Geo, logStart: nat, m: nat, next: U32, k: nat)
    requires g.start <= logStart < g.start + g.size - 1 && k < g.size
  {
    var p := Pos(g, logStart, k);
    p in dev && BlockHeader(cd, dev[p]).b == (next - m + k) % 0x1_0000_0000
  }

  /** The current block carries the next number. */
  ghost predicate Sequenced(cd: Codec, cur: Block, dev: map<nat, Block>, g: Geo, logStart: nat, m: nat, next: U32) {
    BlockHeader(cd, cur).b == next && Numbered(cd, dev, g, logStart, m, next)
  }

  lemma NumberNext(cd: Codec, dev: map<nat, Block>, g: Geo, logStart: nat, m: nat, next: U32, b: Block)
    requires Numbered(cd, dev, g, logStart, m, next) && m + 1 < g.size && BlockHeader(cd, b).b == next
    ensures Numbered(cd, dev[Pos(g, logStart, m) := b], g, logStart, m + 1, (next + 1) % 0x1_0000_0000)
  {
    hide BlockHeader;
    var dev' := dev[Pos(g, logStart, m) := b];
    var next', m' := (next + 1) % 0x1_0000_0000, m + 1;
    forall k: nat | k < m' ensures NumberAt(cd, dev', g, logStart, m', next', k) {
      assert (next' - m' + k) % 0x1_0000_0000 == (next - m + k) % 0x1_0000_0000;
      if k < m {
        assert NumberAt(cd, dev, g, logStart, m, next, k);
        assert Pos(g, logStart, k) != Pos(g, logStart, m);
      }
    }
  }

  lemma NoneNumbered(cd: Codec, cur: Block, dev: map<nat, Block>, g: Geo, logStart: nat, next: U32)
    requires g.start <= logStart < g.start + g.size - 1 && BlockHeader(cd, cur).b == next
    ensures Sequenced(cd, cur, dev, g, logStart, 0, next)
  {
  }

  lemma StoreNext(cd: Codec, dev: map<nat, Block>, g: Geo, logStart: nat, lap: seq<seq<Record>>, b: Block,
                  recs: seq<Record>)
    requires LapStored(cd, dev, g, logStart, lap) && |lap| + 1 < g.size && ReadsAs(cd, b, recs) && Typed(recs)
    ensures LapStored(cd, dev[Pos(g, logStart, |lap|) := b], g, logStart, lap + [recs])
  {
    var dev', lap' := dev[Pos(g, logStart, |lap|) := b], lap + [recs];
    forall k | 0 <= k < |lap'| ensures ReadsAs(cd, dev'[Pos(g, logStart, k)], lap'[k]) && Typed(lap'[k]) {
      assert k < |lap| ==> ReadsAs(cd, dev[Pos(g, logStart, k)], lap[k]) && Typed(lap[k]);
    }
  }

  lemma StoreCheckpoint(cd: Codec, dev: map<nat, Block>, g: Geo, logStart: nat, lap: seq<seq<Record>>, b: Block,
                        at: nat)
    requires LapStored(cd, dev, g, logStart, lap) && BlockHeader(cd, b).a == MAGIC_CHECKPOINT
    requires g.start <= at < g.start + g.size - 1
    ensures LapStored(cd, dev[g.start + g.size - 1 := b], g, at, [])
  {
  }

  /** A full lap that is committed may be followed by the next lap. */
  lemma NextLapOk(g: Geo, v: View, logStart: nat, logEnd: nat, writePos: nat)
    requires Bounds(g, v, logStart, logEnd, writePos) && (|v.lap| + 1 == g.size ==> v.committed == |v.lap|)
    ensures Bounds(g, NextLap(v, g.size), logStart, logEnd, writePos) && |NextLap(v, g.size).lap| + 1 < g.size
  {
  }

  /** A record-block write never lands on the checkpoint block, nor on a block whose records are
      neither flushed by a completed sync nor retired. */
  lemma FlushBounds(g: Geo, v: View, logStart: nat, logEnd: nat, writePos: nat)
    requires Bounds(g, v, logStart, logEnd, writePos) && (|v.lap| + 1 == g.size ==> v.committed == |v.lap|)
    ensures Bounds(g, Flushed(v, g.start, g.size, writePos), logStart, logEnd, NextWritePos(g, writePos))
    ensures writePos != g.start + g.size - 1 && writePos !in v.unsynced
  {
    NextLapOk(g, v, logStart, logEnd, writePos);
    var w := NextLap(v, g.size);
    OneMoreUncommitted(g, logStart, w.committed, |w.lap|);
    Advance(g, logStart, |w.lap|);
  }

  lemma FlushStored(cd: Codec, dev: map<nat, Block>, g: Geo, v: View, logStart: nat, logEnd: nat, writePos: nat,
                    b: Block, off: nat)
    requires Bounds(g, v, logStart, logEnd, writePos) && (|v.lap| + 1 == g.size ==> v.committed == |v.lap|)
    requires LapStored(cd, dev, g, logStart, v.lap) && Building(cd, b, v.cur, off) && Typed(v.cur)
    ensures LapStored(cd, dev[writePos := b], g, logStart, Flushed(v, g.start, g.size, writePos).lap)
    ensures Flushed(v, g.start, g.size, writePos).cur == [] && Flushed(v, g.start, g.size, writePos).lap != []
  {
    hide Holds, Iterate;
    NextLapOk(g, v, logStart, logEnd, writePos);
    StoreNext(cd, dev, g, logStart, NextLap(v, g.size).lap, b, v.cur);
  }

  lemma FlushNumbers(cd: Codec, dev: map<nat, Block>, g: Geo, v: View, logStart: nat, logEnd: nat, writePos: nat,
                     next: U32, b: Block, cur: Block)
    requires Bounds(g, v, logStart, logEnd, writePos) && (|v.lap| + 1 == g.size ==> v.committed == |v.lap|)
    requires Sequenced(cd, b, dev, g, logStart, |v.lap|, next)
    requires BlockHeader(cd, cur).b == (next + 1) % 0x1_0000_0000
    ensures Sequenced(cd, cur, dev[writePos := b], g, logStart, |Flushed(v, g.start, g.size, writePos).lap|,
      (next + 1) % 0x1_0000_0000)
    ensures BlockHeader(cd, b).b == next
  {
    hide Uncommitted, BlockHeader;
    NextLapOk(g, v, logStart, logEnd, writePos);
    NumberNext(cd, dev, g, logStart, |NextLap(v, g.size).lap|, next, b);
  }

  lemma CommitBounds(g: Geo, v: View, logStart: nat, logEnd: nat, writePos: nat)
    requires Bounds(g, v, logStart, logEnd, writePos)
    ensures Bounds(g, Committed(v), logStart, writePos, writePos)
    ensures Pending(Committed(v)) == v.cur && History(Committed(v)) == History(v)
    ensures v.cur == [] ==> Live(Committed(v)) == Flatten(v.lap)
  {
    assert v.lap[..|v.lap|] == v.lap;
  }

  lemma RetireBounds(g: Geo, v: View, logStart: nat, logEnd: nat, writePos: nat)
    requires Bounds(g, v, logStart, logEnd, writePos)
    ensures Bounds(g, Retired(v), writePos, writePos, writePos) && g.start <= writePos < g.start + g.size - 1
    ensures Retired(v).lap == [] && Retired(v).committed == 0 && Retired(v).cur == v.cur == Pending(Retired(v))
  {
  }

  lemma FlattenSplit(v: View)
    requires v.committed <= |v.lap|
    ensures Flatten(v.lap) + v.cur == Live(v) + Pending(v)
  {
    FlattenConcat(v.lap[..v.committed], v.lap[v.committed..]);
    assert v.lap == v.lap[..v.committed] + v.lap[v.committed..];
    var a, b := Live(v), Flatten(v.lap[v.committed..]);
    assert a + b + v.cur == a + (b + v.cur);
  }

  /** A commit right after a flush covers exactly the live records of the lap, if the ring was not
      full, followed by every pending record. */
  lemma CommitCovers(g: Geo, v: View, writePos: nat)
    requires v.committed <= |v.lap| && (|v.lap| + 1 == g.size ==> v.committed == |v.lap|)
    ensures var w := Committed(Flushed(v, g.start, g.size, writePos));
      && Live(w) == (if |v.lap| + 1 == g.size then [] else Live(v)) + Pending(v)
      && Pending(w) == []
  {
    var u := NextLap(v, g.size);
    var w := Committed(Flushed(v, g.start, g.size, writePos));
    AllLive(w);
    FlattenSnoc(u.lap, v.cur);
    LapSplit(v, g.size);
    hide Flatten, Live, Pending;
    assert w.lap == u.lap + [v.cur];
  }

  lemma AllLive(v: View)
    requires v.committed == |v.lap| && v.cur == []
    ensures Live(v) == Flatten(v.lap) && Pending(v) == []
  {
    assert v.lap[..|v.lap|] == v.lap && v.lap[|v.lap|..] == [];
  }

  lemma LapSplit(v: View, size: nat)
    requires v.committed <= |v.lap| && (|v.lap| + 1 == size ==> v.committed == |v.lap|)
    ensures Flatten(NextLap(v, size).lap) + v.cur == (if |v.lap| + 1 == size then [] else Live(v)) + Pending(v)
  {
    if |v.lap| + 1 == size {
      assert v.lap[v.committed..] == [];
    } else {
      FlattenSplit(v);
    }
  }

  function Appended(v: View, rec: Record): (r: View) {
    v.(cur := v.cur + [rec])
  }

  lemma AppendedOk(g: Geo, v: View, rec: Record, logStart: nat, logEnd: nat, writePos: nat)
    requires Bounds(g, v, logStart, logEnd, writePos)
    ensures Bounds(g, Appended(v, rec), logStart, logEnd, writePos)
    ensures History(Appended(v, rec)) == History(v) + [rec]
    ensures Pending(Appended(v, rec)) == Pending(v) + [rec]
  {
  }

  /** The write position is back at log_start exactly for an empty and a full lap. */
  lemma BackAtStart(g: Geo, v: View, logStart: nat, logEnd: nat, writePos: nat)
    requires Bounds(g, v, logStart, logEnd, writePos)
    ensures writePos == logStart <==> |v.lap| + 1 == g.size || v.lap == []
  {
  }

  lemma NothingPendingWhenFull(g: Geo, v: View, logStart: nat, logEnd: nat, writePos: nat)
    requires Bounds(g, v, logStart, logEnd, writePos) && (|v.lap| + 1 == g.size ==> v.committed == |v.lap|)
    ensures writePos == logStart <==> |v.lap| + 1 == g.size || v.lap == []
    ensures |v.lap| + 1 == g.size ==> Pending(v) == v.cur
  {
    assert |v.lap| + 1 == g.size ==> v.lap[v.committed..] == [];
  }

  /** A sync leaves nothing pending, and what it does not retire it commits: the records committed before, unless
      the ring was full, followed by every pending record. */
  lemma SyncCommits(g: Geo, v: View, logStart: nat, writePos: nat, due: bool, nested: bool)
    requires v.committed <= |v.lap| && (|v.lap| + 1 == g.size ==> v.committed == |v.lap|)
    ensures var r := AfterSync(g, v, logStart, writePos, due, nested);
      && r.committed == |r.lap| && Pending(r) == [] && History(r) == History(v)
      && (r.lap == [] || Live(r) == (if |v.lap| + 1 == g.size then [] else Live(v)) + Pending(v))
  {
    var full := |v.lap| + 1 == g.size;
    var v0 := if full && !nested then Retired(v) else v;
    assert full ==> v.lap[v.committed..] == [];
    CommitCovers(g, v0, writePos);
    FlushHistory(v0, g.start, g.size, writePos);
  }

  /** The log bounds meet over records that are committed: to a reader the log is empty. */
  predicate Hidden(v: View, logStart: nat, logEnd: nat)
    requires v.committed <= |v.lap|
  {
    logStart == logEnd && Live(v) != []
  }

  /** The next block fills the ring exactly when the position after it is log_start. */
  lemma LastFree(g: Geo, v: View, logStart: nat, logEnd: nat, writePos: nat)
    requires Bounds(g, v, logStart, logEnd, writePos)
    ensures NextWritePos(g, writePos) == logStart <==> |v.lap| + 2 == g.size
  {
    if |v.lap| + 1 < g.size { Advance(g, logStart, |v.lap|); }
  }

  lemma HiddenWhenFull(g: Geo, r: View, logStart: nat, logEnd: nat, writePos: nat)
    requires Bounds(g, r, logStart, logEnd, writePos) && r.committed == |r.lap| && r.cur == []
    requires r.lap != [] ==> Flatten(r.lap) != []
    ensures Hidden(r, logStart, logEnd) <==> |r.lap| + 1 == g.size
  {
    hide Uncommitted;
    AllLive(r);
    BackAtStart(g, r, logStart, logEnd, writePos);
  }

  /** The second back-pressure check looks one block past the position that filled the ring. */
  lemma SyncFills(g: Geo, v: View, logStart: nat, logEnd: nat, writePos: nat, due: bool, nested: bool)
    requires Bounds(g, v, logStart, logEnd, writePos) && v.cur != []
    ensures var r := AfterSync(g, v, logStart, writePos, due, nested);
      && (|r.lap| + 1 == g.size <==> |v.lap| + 2 == g.size && !due)
      && r.cur == [] && (r.lap != [] ==> Flatten(r.lap) != [])
  {
    hide Uncommitted, Flatten;
    var v0 := if |v.lap| + 1 == g.size && !nested then Retired(v) else v;
    FlattenSnoc(NextLap(v0, g.size).lap, v.cur);
  }

  /** A sync of a dirty block hides the log exactly when that block takes the last free position and no
      periodic checkpoint is due. */
  lemma SyncHides(g: Geo, v: View, logStart: nat, logEnd: nat, writePos: nat, due: bool, nested: bool,
                  r: View, logStart': nat, logEnd': nat, writePos': nat)
    requires Bounds(g, v, logStart, logEnd, writePos) && v.cur != []
    requires r == AfterSync(g, v, logStart, writePos, due, nested) && r.committed == |r.lap|
    requires Bounds(g, r, logStart', logEnd', writePos')
    ensures Hidden(r, logStart', logEnd') <==> NextWritePos(g, writePos) == logStart && !due
  {
    hide AfterSync, Bounds, Flatten, Hidden, NextWritePos;
    LastFree(g, v, logStart, logEnd, writePos);
    SyncFills(g, v, logStart, logEnd, writePos, due, nested);
    HiddenWhenFull(g, r, logStart', logEnd', writePos');
  }

  /** With room for three more blocks and no checkpoint due a sync retires nothing. */
  lemma SyncKeeps(g: Geo, v: View, logStart: nat, logEnd: nat, writePos: nat, nested: bool)
    requires Bounds(g, v, logStart, logEnd, writePos) && |v.lap| + 3 < g.size
    ensures var r := AfterSync(g, v, logStart, writePos, false, nested);
      r.past == v.past && |r.lap| == |v.lap| + 1
  {
    hide Uncommitted;
    Advance(g, logStart, |v.lap|);
    Advance(g, logStart, |v.lap| + 1);
  }

  /** Nor does a record that does not fit, with room for two. */
  lemma FlushKeeps(g: Geo, v: View, writePos: nat)
    requires |v.lap| + 2 < g.size
    ensures var r := AfterFlush(g, v, writePos);
      r.past == v.past && |r.lap| == |v.lap| + 1
  {
  }

  /** Histories with the same retired records have the same tail. */
  lemma SameTail(v: View, r: View, more: seq<Record>)
    requires v.committed <= |v.lap| && r.committed <= |r.lap| && r.past == v.past
    requires History(r) == History(v) + more
    ensures Live(r) + Pending(r) == Live(v) + Pending(v) + more
  {
    HistoryTail(v);
    HistoryTail(r);
    var a, b := Live(r) + Pending(r), Live(v) + Pending(v) + more;
    assert History(r) == v.past + a && History(v) + more == v.past + b;
    assert (v.past + a)[|v.past|..] == a && (v.past + b)[|v.past|..] == b;
  }

  /** A record that fills its block changes nothing pending, unless the ring filled up and was retired. */
  lemma FlushKeepsPending(g: Geo, v: View, writePos: nat)
    requires v.committed <= |v.lap| && (|v.lap| + 1 == g.size ==> v.committed == |v.lap|)
    ensures var r := AfterFlush(g, v, writePos);
      r.committed <= |r.lap| && History(r) == History(v) && (r.lap == [] || Pending(r) == Pending(v))
  {
    FlushPending(g, v, writePos);
    FlushHistory(v, g.start, g.size, writePos);
  }

  lemma FlushPending(g: Geo, v: View, writePos: nat)
    requires v.committed <= |v.lap| && (|v.lap| + 1 == g.size ==> v.committed == |v.lap|)
    ensures var w := Flushed(v, g.start, g.size, writePos); w.committed <= |w.lap| && Pending(w) == Pending(v)
  {
    var u := NextLap(v, g.size);
    var w := Flushed(v, g.start, g.size, writePos);
    assert w.lap[w.committed..] == u.lap[u.committed..] + [v.cur];
    FlattenSnoc(u.lap[u.committed..], v.cur);
    NextLapPending(v, g.size);
    hide Flatten;
  }

  lemma NextLapPending(v: View, size: nat)
    requires v.committed <= |v.lap| && (|v.lap| + 1 == size ==> v.committed == |v.lap|)
    ensures var u := NextLap(v, size);
      u.committed <= |u.lap| && Flatten(u.lap[u.committed..]) == Flatten(v.lap[v.committed..])
  {
    var u := NextLap(v, size);
    assert u.lap[u.committed..] == v.lap[v.committed..];
  }
}
