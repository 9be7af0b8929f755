/** Replay's walk over the committed log (fuse/journal_replay.go walkJournal, briefs/journal_replay.go). */
module JournalReplay {
  import opened Bytes
  import opened JournalBlock
  import opened RingState

  /** What replay reads from the log: every record, or the block that stops it. */
  datatype Log = Records(recs: seq<(Header, seq<Byte>)>) | Refused(block: nat)

  /** The type range and checksum test of walkJournal; a zero checksum is a legacy record. */
  predicate Accepts(cd: Codec, rec: (Header, seq<Byte>)) {
    ValidType(rec.0.a) && (rec.0.d == 0 || rec.0.d == cd.crc(rec.0.a, rec.1))
  }

  /** Reads one block, whatever it holds: it is taken exactly when no record runs past its end, every type is
      known and every checksum is zero or right. */
  method VisitBlock(cd: Codec, buf: Block) returns (ok: bool, out: seq<(Header, seq<Byte>)>)
    ensures var r := Iterate(cd, buf, BLOCK_HDR, 0, BlockHeader(cd, buf).c);
      && (ok <==> r.Read? && forall i :: 0 <= i < |r.recs| ==>
            0 < r.recs[i].0.a < 13 && (r.recs[i].0.d == 0 || r.recs[i].0.d == cd.crc(r.recs[i].0.a, r.recs[i].1)))
      && (ok ==> out == r.recs)
  {
    var r := IterateJournalBlockRecords(cd, buf, BlockHeader(cd, buf).c);
    if r.Overflow? {
      return false, [];
    }
    return forall i :: 0 <= i < |r.recs| ==> Accepts(cd, r.recs[i]), r.recs;
  }

  /** A block of the writer's yields exactly its records, if and only if none is oversized. */
  method VisitWritten(cd: Codec, buf: Block, ghost recs: seq<Record>)
    returns (ok: bool, out: seq<(Header, seq<Byte>)>)
    requires Sound(cd) && ReadsAs(cd, buf, recs) && Typed(recs)
    ensures ok == Good(recs)
    ensures ok ==> out == FramedAll(cd, recs)
  {
    ok, out := VisitBlock(cd, buf);
    assert Good(recs) ==> forall i :: 0 <= i < |recs| ==> FramedAll(cd, recs)[i] == Framed(cd, recs[i]);
  }

  /** How many record blocks the first i blocks of the walk hold. */
  function LapIndex(g: Geo, logStart: nat, i: nat): (r: int) {
    if logStart + i < g.start + g.size then i else i - 1
  }

  /** The walk from log_start passes the lap's committed blocks in order, and at most one more block,
      the checkpoint block. */
  lemma WalkOrder(g: Geo, v: View, logStart: nat, logEnd: nat, writePos: nat, i: nat)
    requires Bounds(g, v, logStart, logEnd, writePos) && logStart != logEnd
    requires i <= Distance(g.size, logStart, logEnd)
    ensures 0 <= LapIndex(g, logStart, i) <= v.committed
    ensures i == Distance(g.size, logStart, logEnd) ==> LapIndex(g, logStart, i) == v.committed
    ensures i < Distance(g.size, logStart, logEnd) ==> i < g.size
    ensures i < Distance(g.size, logStart, logEnd) ==>
      var b := Around(g.start, g.size, logStart, i);
      if b == g.start + g.size - 1 then LapIndex(g, logStart, i + 1) == LapIndex(g, logStart, i)
      else
        && LapIndex(g, logStart, i + 1) == LapIndex(g, logStart, i) + 1 && LapIndex(g, logStart, i) < v.committed
        && b == Pos(g, logStart, LapIndex(g, logStart, i))
  {
  }

  lemma WalkMagic(cd: Codec, dev: map<nat, Block>, g: Geo, v: View, logStart: nat, logEnd: nat, writePos: nat, i: nat)
    requires Bounds(g, v, logStart, logEnd, writePos) && logStart != logEnd && LapStored(cd, dev, g, logStart, v.lap)
    requires i < Distance(g.size, logStart, logEnd)
    ensures i < g.size && KnownMagic(cd, dev[Around(g.start, g.size, logStart, i)])
  {
    hide Iterate, FramedAll, Good;
    WalkOrder(g, v, logStart, logEnd, writePos, i);
    var b := Around(g.start, g.size, logStart, i);
    if b != g.start + g.size - 1 {
      assert ReadsAs(cd, dev[Pos(g, logStart, LapIndex(g, logStart, i))], v.lap[LapIndex(g, logStart, i)]);
    }
  }

  lemma {:induction false} FlattenAll(lap: seq<seq<Record>>, k: nat)
    requires k <= |lap| && forall j :: 0 <= j < |lap| ==> Typed(lap[j])
    ensures Typed(Flatten(lap[..k]))
    ensures Good(Flatten(lap[..k])) <==> forall j :: 0 <= j < k ==> Good(lap[j])
  {
    if k > 0 {
      FlattenAll(lap, k - 1);
      assert lap[..k][..k-1] == lap[..k-1];
      var a, b := Flatten(lap[..k-1]), lap[k-1];
      assert Flatten(lap[..k]) == a + b;
      GoodConcat(a, b);
    }
  }

  lemma GoodConcat(a: seq<Record>, b: seq<Record>)
    ensures Good(a + b) <==> Good(a) && Good(b)
  {
    assert forall i :: 0 <= i < |a| ==> (a + b)[i] == a[i];
    assert forall i :: 0 <= i < |b| ==> (a + b)[|a| + i] == b[i];
  }

  /** One more record block read. */
  lemma ReadOne(cd: Codec, lap: seq<seq<Record>>, k: nat)
    requires k < |lap| && (forall j :: 0 <= j < |lap| ==> Typed(lap[j]))
    ensures Typed(lap[k]) && Typed(Flatten(lap[..k])) && Typed(Flatten(lap[..k+1]))
    ensures FramedAll(cd, Flatten(lap[..k+1])) == FramedAll(cd, Flatten(lap[..k])) + FramedAll(cd, lap[k])
    ensures Good(Flatten(lap[..k+1])) <==> Good(Flatten(lap[..k])) && Good(lap[k])
  {
    FlattenAll(lap, k);
    FlattenAll(lap, k + 1);
    assert lap[..k+1][..k] == lap[..k];
    assert Typed(lap[k]);
    FramedConcat(cd, Flatten(lap[..k]), lap[k]);
    GoodConcat(Flatten(lap[..k]), lap[k]);
  }

  /** The records of the walk's first i blocks. */
  ghost function Passed(g: Geo, v: View, logStart: nat, i: nat): (r: seq<Record>)
    requires 0 <= LapIndex(g, logStart, i) <= |v.lap|
  {
    Flatten(v.lap[..LapIndex(g, logStart, i)])
  }

  /** Block i of the walk is the checkpoint block, which adds nothing, or holds the lap's next records. */
  lemma WalkStep(cd: Codec, dev: map<nat, Block>, g: Geo, v: View, logStart: nat, logEnd: nat, writePos: nat, i: nat)
    requires Bounds(g, v, logStart, logEnd, writePos) && logStart != logEnd && LapStored(cd, dev, g, logStart, v.lap)
    requires i < Distance(g.size, logStart, logEnd)
    ensures 0 <= LapIndex(g, logStart, i) && LapIndex(g, logStart, i + 1) <= |v.lap|
    ensures LapIndex(g, logStart, i) <= |v.lap|
    ensures 0 <= LapIndex(g, logStart, i + 1) && i < g.size && Around(g.start, g.size, logStart, i) in dev
    ensures Around(g.start, g.size, logStart, i) == g.start + g.size - 1 ==>
      Passed(g, v, logStart, i + 1) == Passed(g, v, logStart, i)
    ensures Around(g.start, g.size, logStart, i) != g.start + g.size - 1 ==>
      var recs := v.lap[LapIndex(g, logStart, i)];
      && LapIndex(g, logStart, i) < |v.lap| && ReadsAs(cd, dev[Around(g.start, g.size, logStart, i)], recs)
      && Typed(recs)
      && Typed(Passed(g, v, logStart, i)) && Typed(Passed(g, v, logStart, i + 1))
      && FramedAll(cd, Passed(g, v, logStart, i + 1)) == FramedAll(cd, Passed(g, v, logStart, i)) + FramedAll(cd, recs)
      && (Good(Passed(g, v, logStart, i + 1)) <==> Good(Passed(g, v, logStart, i)) && Good(recs))
  {
    hide Iterate, FramedAll, Good;
    WalkOrder(g, v, logStart, logEnd, writePos, i);
    if Around(g.start, g.size, logStart, i) != g.start + g.size - 1 {
      ReadOne(cd, v.lap, LapIndex(g, logStart, i));
    }
  }

  lemma WalkEnd(g: Geo, v: View, logStart: nat, logEnd: nat, writePos: nat)
    requires Bounds(g, v, logStart, logEnd, writePos) && logStart != logEnd
    requires (forall j :: 0 <= j < |v.lap| ==> Typed(v.lap[j]))
    ensures LapIndex(g, logStart, 0) == 0 && Passed(g, v, logStart, 0) == []
    ensures var d := Distance(g.size, logStart, logEnd);
      0 <= d <= g.size && 0 <= LapIndex(g, logStart, d) <= |v.lap| && Passed(g, v, logStart, d) == Live(v)
    ensures Typed(Live(v)) && g.start <= logEnd < g.start + g.size
  {
    WalkOrder(g, v, logStart, logEnd, writePos, Distance(g.size, logStart, logEnd));
    FlattenAll(v.lap, v.committed);
  }

  lemma {:induction false} GoodSoFar(cd: Codec, dev: map<nat, Block>, g: Geo, v: View, logStart: nat, logEnd: nat,
                                     writePos: nat, i: nat)
    requires Bounds(g, v, logStart, logEnd, writePos) && logStart != logEnd && LapStored(cd, dev, g, logStart, v.lap)
    requires i <= Distance(g.size, logStart, logEnd)
    ensures 0 <= LapIndex(g, logStart, i) <= |v.lap| && Typed(Live(v))
    ensures Good(Live(v)) ==> Good(Passed(g, v, logStart, i))
    decreases Distance(g.size, logStart, logEnd) - i
  {
    hide LapStored, Bounds, ReadsAs, FramedAll, Good, Typed;
    WalkTyped(cd, dev, g, v, logStart);
    WalkEnd(g, v, logStart, logEnd, writePos);
    if i < Distance(g.size, logStart, logEnd) {
      WalkStep(cd, dev, g, v, logStart, logEnd, writePos, i);
      GoodSoFar(cd, dev, g, v, logStart, logEnd, writePos, i + 1);
    }
  }

  lemma WalkTyped(cd: Codec, dev: map<nat, Block>, g: Geo, v: View, logStart: nat)
    requires LapStored(cd, dev, g, logStart, v.lap)
    ensures forall j :: 0 <= j < |v.lap| ==> Typed(v.lap[j])
    ensures g.start <= logStart < g.start + g.size && forall b :: g.start <= b < g.start + g.size ==> b in dev
  {
  }

  /** walkJournal over [log_start, log_end), for a range that is not empty: it reads back exactly the
      range's records in append order, if and only if no payload exceeds MAX_PAYLOAD. */
  method WalkJournal(cd: Codec, dev: map<nat, Block>, g: Geo, logStart: nat, logEnd: nat, ghost v: View,
                     ghost writePos: nat)
    returns (log: Log)
    requires Sound(cd) && Bounds(g, v, logStart, logEnd, writePos) && LapStored(cd, dev, g, logStart, v.lap)
    requires logStart != logEnd
    ensures Typed(Live(v))
    ensures log.Records? <==> Good(Live(v))
    ensures log.Records? ==> log.recs == FramedAll(cd, Live(v))
    ensures log.Records? <==> forall i :: 0 <= i < |Live(v)| ==> |Live(v)[i].data| <= 4064
    ensures log.Records? ==> |log.recs| == |Live(v)|
    ensures log.Records? ==> forall i :: 0 <= i < |log.recs| ==>
      && log.recs[i].0.a == Live(v)[i].typ && log.recs[i].1 == Live(v)[i].data
      && log.recs[i].0.b == 0 && log.recs[i].0.c == |Live(v)[i].data| &&
        log.recs[i].0.d == cd.crc(Live(v)[i].typ, Live(v)[i].data)
  {
    log := ReadRange(cd, dev, g, logStart, logEnd, v, writePos);
  }

  method ReadRange(cd: Codec, dev: map<nat, Block>, g: Geo, logStart: nat, logEnd: nat, ghost v: View,
                   ghost writePos: nat)
    returns (log: Log)
    requires Sound(cd) && Bounds(g, v, logStart, logEnd, writePos) && LapStored(cd, dev, g, logStart, v.lap)
    requires logStart != logEnd
    ensures Typed(Live(v))
    ensures log.Records? <==> Good(Live(v))
    ensures log.Records? ==> log.recs == FramedAll(cd, Live(v))
  {
    hide LapStored, Bounds, ReadsAs, Good, LapIndex, KnownMagic, Typed, FramedAll, Live, Distance, Flatten;
    WalkTyped(cd, dev, g, v, logStart);
    WalkEnd(g, v, logStart, logEnd, writePos);
    var visited, badMagic := WalkJournalRing(cd, dev, g.start, g.size, logStart, logEnd);
    assert |visited| == Distance(g.size, logStart, logEnd) by {
      if badMagic {
        WalkMagic(cd, dev, g, v, logStart, logEnd, writePos, |visited|);
      }
    }
    var recs: seq<(Header, seq<Byte>)> := [];
    FramedNone(cd);
    var i: nat := 0;
    while i < |visited|
      invariant i <= |visited|
      invariant 0 <= LapIndex(g, logStart, i) <= |v.lap| && Short(Passed(g, v, logStart, i))
      invariant Good(Passed(g, v, logStart, i)) && recs == FramedAll(cd, Passed(g, v, logStart, i))
    {
      WalkStep(cd, dev, g, v, logStart, logEnd, writePos, i);
      var cur := visited[i];
      if cur != g.start + g.size - 1 {
        var ok, out := VisitWritten(cd, dev[cur], v.lap[LapIndex(g, logStart, i)]);
        if !ok {
          GoodSoFar(cd, dev, g, v, logStart, logEnd, writePos, i + 1);
          return Refused(cur);
        }
        recs := recs + out;
      }
      i := i + 1;
    }
    return Records(recs);
  }

  lemma FramedNone(cd: Codec)
    ensures Short([]) && Good([]) && FramedAll(cd, []) == []
  {
  }
}
