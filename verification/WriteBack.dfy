/** The deferred-metadata map, its drain and the deferred block frees (fuse/cache.go), as a state
    machine whose steps are the sections run under one lock. One sync drains at a time; every other
    step may interleave with it anywhere. */
module WriteBack {
  import opened Extents
  import opened Runs

  type Buf = seq<int>

  /** Where a journal sync is: not running; past its commit point; writing its snapshot (todo are the
      blocks still to write); applying the frees it took. The journal lock is held throughout. */
  datatype Drain =
    | Idle
    | Committed
    | Writing(snap: map<nat, Buf>, todo: set<nat>, frees: seq<BlockRun>)
    | Freeing(snap: map<nat, Buf>, frees: seq<BlockRun>)

  /** latest is each block's most recent store; stored and direct are the blocks their owner stores to
      through the deferred map, and writes on the device; logged and durable are the blocks whose freeing
      record is appended to the journal, and committed. */
  datatype State = State(
    dev: map<nat, Buf>, dirty: map<nat, Buf>, latest: map<nat, Buf>,
    free: set<nat>, owned: set<nat>, stored: set<nat>, direct: set<nat>, pending: seq<BlockRun>,
    logged: set<nat>, durable: set<nat>, drain: Drain)

  datatype Step =
    | Store(b: nat, buf: Buf)
    | WriteData(b: nat, buf: Buf)
    | Allocate(b: nat)
    | LogFree(run: BlockRun)
    | DeferFree(run: BlockRun)
    | Commit
    | Snapshot
    | DrainWrite(b: nat)
    | DrainFails(b: nat)
    | FinishWrites
    | FreeOne
    | CasDelete

  function Blocks(run: BlockRun): (r: set<nat>) {
    Span(run.first, run.n)
  }

  /** When a step can happen. Only an owner stores to a block or frees it, by one of the two routes; its
      freeing record goes first, and no record is appended while a sync holds the journal lock. */
  predicate Enabled(s: State, step: Step) {
    match step
    case Store(b, _) => b in s.owned && b !in s.direct
    case WriteData(b, _) => b in s.owned && b !in s.stored
    case Allocate(b) => b in s.free
    case LogFree(run) => s.drain.Idle? && Blocks(run) <= s.owned
    case DeferFree(run) => Blocks(run) <= s.owned && Blocks(run) <= s.logged + s.durable
    case Commit => s.drain.Idle?
    case Snapshot => s.drain.Committed?
    case DrainWrite(b) => s.drain.Writing? && b in s.drain.todo
    case DrainFails(b) => s.drain.Writing? && b in s.drain.todo
    case FinishWrites => s.drain.Writing? && s.drain.todo == {}
    case FreeOne => s.drain.Freeing? && s.drain.frees != []
    case CasDelete => s.drain.Freeing? && s.drain.frees == []
  }

  /** The entries no one re-stored since the snapshot. */
  function Unchanged(dirty: map<nat, Buf>, snap: map<nat, Buf>): (r: set<nat>) {
    set b | b in snap && b in dirty && dirty[b] == snap[b]
  }

  function Apply(s: State, step: Step): (r: State)
    requires Enabled(s, step)
  {
    match step
    case Store(b, buf) => s.(dirty := s.dirty[b := buf], latest := s.latest[b := buf], stored := s.stored + {b})
    case WriteData(b, buf) => s.(dev := s.dev[b := buf], latest := s.latest[b := buf], direct := s.direct + {b})
    case Allocate(b) =>
      s.(free := s.free - {b}, owned := s.owned + {b}, stored := s.stored - {b}, direct := s.direct - {b},
         logged := s.logged - {b}, durable := s.durable - {b})
    case LogFree(run) => s.(logged := s.logged + Blocks(run))
    case DeferFree(run) =>
      s.(owned := s.owned - Blocks(run), stored := s.stored - Blocks(run), direct := s.direct - Blocks(run),
         pending := AddRun(s.pending, run.first, run.n))
    case Commit => s.(durable := s.durable + s.logged, logged := {}, drain := Committed)
    case Snapshot =>
      s.(pending := [], drain := if s.dirty == map[] then Freeing(map[], s.pending)
        else Writing(s.dirty, s.dirty.Keys, s.pending))
    case DrainWrite(b) =>
      if b in s.drain.snap then
        s.(dev := s.dev[b := s.drain.snap[b]], drain := s.drain.(todo := s.drain.todo - {b})) else s
    case DrainFails(b) => s.(pending := s.drain.frees + s.pending, drain := Idle)
    case FinishWrites => s.(drain := Freeing(s.drain.snap, s.drain.frees))
    case FreeOne => s.(free := s.free + Blocks(s.drain.frees[0]), drain := s.drain.(frees := s.drain.frees[1..]))
    case CasDelete => s.(dirty := s.dirty - Unchanged(s.dirty, s.drain.snap), drain := Idle)
  }

  // ---------------------------------------------------------------------------
  // The invariant

  /** dirtyView over the device: the deferred copy if there is one. */
  predicate Sees(s: State, b: nat, buf: Buf) {
    if b in s.dirty then s.dirty[b] == buf else b in s.dev && s.dev[b] == buf
  }

  /** Frees a drain has taken and not yet applied. */
  function Taken(s: State): (r: seq<BlockRun>) {
    if s.drain.Writing? || s.drain.Freeing? then s.drain.frees else []
  }

  ghost predicate Proper(runs: seq<BlockRun>) {
    RunsDisjoint(runs) && forall i :: 0 <= i < |runs| ==> runs[i].n > 0
  }

  /** Every block is in exactly one of free, owned, pending and taken, and listed once. */
  ghost predicate Partition(s: State, all: set<nat>) {
    && s.free + s.owned + RunSet(s.pending) + RunSet(Taken(s)) == all
    && s.free !! s.owned !! RunSet(s.pending) !! RunSet(Taken(s))
    && Proper(s.pending) && Proper(Taken(s))
  }

  ghost predicate ViewIsLatest(s: State) {
    forall b :: b in s.latest ==> Sees(s, b, s.latest[b])
  }

  /** The previous owner's deferred copy hides what the new owner wrote on the device. */
  predicate Shadowed(s: State, b: nat) {
    b in s.direct && b in s.dirty
  }

  /** Every block but a shadowed one reads as its latest store. */
  ghost predicate ViewOk(s: State) {
    forall b :: b in s.latest && !Shadowed(s, b) ==> Sees(s, b, s.latest[b])
  }

  /** The snapshot is still deferred, and its written part is on the device, or replaced there by a new owner. */
  ghost predicate DrainOk(s: State) {
    s.drain.Writing? || s.drain.Freeing? ==>
      && s.drain.snap.Keys <= s.dirty.Keys
      && (s.drain.Writing? ==> s.drain.todo <= s.drain.snap.Keys)
      && forall b :: b in s.drain.snap && b !in s.direct && !(s.drain.Writing? && b in s.drain.todo) ==>
           b in s.dev && s.dev[b] == s.drain.snap[b]
  }

  /** b's deferred copy, if any, is the one the drain will delete. */
  predicate Stale(s: State, b: nat) {
    b in s.dirty ==> (s.drain.Writing? || s.drain.Freeing?) && b in s.drain.snap && s.dirty[b] == s.drain.snap[b]
  }

  /** No block on its way back to the allocator keeps a deferred copy past the drain. */
  ghost predicate NoneLeft(s: State) {
    && (forall b :: b in RunSet(Taken(s)) ==> Stale(s, b))
    && (forall b :: b in s.free ==> if s.drain.Freeing? then Stale(s, b) else b !in s.dirty)
  }

  ghost predicate Logged(s: State) {
    && RunSet(s.pending) <= s.logged + s.durable
    && RunSet(Taken(s)) <= s.durable
    && (!s.drain.Idle? ==> s.logged == {})
  }

  /** The latest store to a block written on the device is there. */
  ghost predicate Direct(s: State) {
    && s.direct <= s.owned && s.stored <= s.owned && s.direct !! s.stored
    && forall b :: b in s.direct ==> b in s.latest && b in s.dev && s.dev[b] == s.latest[b]
  }

  /** An owned block its owner has not stored to is deferred only as a copy the drain will delete, and not at
      all once its freeing record is logged. */
  ghost predicate Inherited(s: State) {
    forall b :: b in s.owned && b !in s.stored && b in s.dirty ==>
      s.drain.Freeing? && b in s.drain.snap && s.dirty[b] == s.drain.snap[b] && b !in s.logged && b !in s.durable
  }

  ghost predicate Inv(s: State, all: set<nat>) {
    Partition(s, all) && ViewOk(s) && DrainOk(s) && NoneLeft(s) && Logged(s) && Direct(s) && Inherited(s)
  }

  // ---------------------------------------------------------------------------
  // Runs

  lemma RunSetConcat(a: seq<BlockRun>, c: seq<BlockRun>)
    ensures RunSet(a + c) == RunSet(a) + RunSet(c)
  {
    forall p: nat ensures p in RunSet(a + c) <==> p in RunSet(a) + RunSet(c) {
      InRunsAppend(a, c, p);
    }
  }

  lemma InRunsAt(runs: seq<BlockRun>, i: nat, p: nat)
    requires i < |runs| && runs[i].first <= p < runs[i].first + runs[i].n
    ensures p in RunSet(runs)
  {
    assert InRuns(runs, p);
  }

  lemma ProperConcat(a: seq<BlockRun>, c: seq<BlockRun>)
    requires Proper(a) && Proper(c) && RunSet(a) !! RunSet(c)
    ensures Proper(a + c)
  {
    forall i, j | 0 <= i < j < |a + c| ensures Apart((a + c)[i], (a + c)[j]) {
      if i < |a| <= j {
        var x, y := a[i], c[j - |a|];
        var p := if x.first < y.first then y.first else x.first;
        if p < x.first + x.n {
          InRunsAt(a, i, p);
        }
        if p < y.first + y.n {
          InRunsAt(c, j - |a|, p);
        }
      }
    }
  }

  lemma ProperAdd(runs: seq<BlockRun>, first: nat, n: nat)
    requires Proper(runs) && RunSet(runs) !! Span(first, n)
    ensures Proper(AddRun(runs, first, n))
  {
    if n > 0 {
      var one := [BlockRun(first, n)];
      InRunsOne(one[0], first);
      forall p: nat ensures p in RunSet(one) <==> p in Span(first, n) {
        InRunsOne(one[0], p);
      }
      ProperConcat(runs, one);
      var r := AddRun(runs, first, n);
      forall i, j | 0 <= i < j < |r| ensures Apart(r[i], r[j]) {
        assert Apart((runs + one)[i], (runs + one)[j]);
        assert i < |runs| ==> Apart((runs + one)[i], (runs + one)[|runs|]);
      }
    }
  }

  /** Applying the first run removes exactly its blocks from the rest. */
  lemma ProperTail(runs: seq<BlockRun>)
    requires Proper(runs) && runs != []
    ensures Proper(runs[1..]) && RunSet(runs) == Blocks(runs[0]) + RunSet(runs[1..])
    ensures Blocks(runs[0]) !! RunSet(runs[1..])
  {
    forall p: nat | p in RunSet(runs[1..]) ensures p !in Blocks(runs[0]) {
      assert InRuns(runs[1..], p);
      var k :| 0 <= k < |runs[1..]| && runs[1..][k].first <= p < runs[1..][k].first + runs[1..][k].n;
      assert Apart(runs[0], runs[k + 1]);
    }
  }

  // ---------------------------------------------------------------------------
  // Every step keeps the invariant

  lemma PartitionDefer(s: State, run: BlockRun, all: set<nat>)
    requires Partition(s, all) && Enabled(s, DeferFree(run))
    ensures Partition(Apply(s, DeferFree(run)), all)
  {
    AddRunSpec(s.pending, run.first, run.n);
    ProperAdd(s.pending, run.first, run.n);
  }

  lemma PartitionFails(s: State, b: nat, all: set<nat>)
    requires Partition(s, all) && Enabled(s, DrainFails(b))
    ensures Partition(Apply(s, DrainFails(b)), all)
  {
    RunSetConcat(s.drain.frees, s.pending);
    ProperConcat(s.drain.frees, s.pending);
  }

  lemma PartitionFree(s: State, all: set<nat>)
    requires Partition(s, all) && Enabled(s, FreeOne)
    ensures Partition(Apply(s, FreeOne), all)
  {
    ProperTail(s.drain.frees);
  }

  lemma PartitionStep(s: State, step: Step, all: set<nat>)
    requires Partition(s, all) && Enabled(s, step)
    ensures Partition(Apply(s, step), all)
  {
    hide Proper, AddRun;
    match step
    case DeferFree(run) => PartitionDefer(s, run, all);
    case DrainFails(b) => PartitionFails(s, b, all);
    case FreeOne => PartitionFree(s, all);
    case Snapshot => ProperNone();
    case CasDelete => ProperNone();
    case _ =>
  }

  lemma ProperNone()
    ensures Proper([]) && RunSet([]) == {}
  {
  }

  lemma ViewStep(s: State, step: Step, all: set<nat>)
    requires Inv(s, all) && Enabled(s, step)
    ensures ViewOk(Apply(s, step))
  {
    hide Proper, RunSet, NoneLeft, Logged, AddRun;
  }

  lemma DrainStep(s: State, step: Step, all: set<nat>)
    requires Inv(s, all) && Enabled(s, step)
    ensures DrainOk(Apply(s, step))
  {
    hide Proper, RunSet, NoneLeft, Logged, ViewOk, AddRun;
  }

  lemma OwnerStep(s: State, step: Step, all: set<nat>)
    requires Inv(s, all) && Enabled(s, step)
    ensures Direct(Apply(s, step)) && Inherited(Apply(s, step))
  {
    hide Proper, RunSet, ViewOk, AddRun;
  }

  lemma NoneLeftStep(s: State, step: Step, all: set<nat>)
    requires Partition(s, all) && DrainOk(s) && NoneLeft(s) && Enabled(s, step)
    ensures NoneLeft(Apply(s, step))
  {
    match step
    case FreeOne =>
      ProperTail(s.drain.frees);
    case _ =>
  }

  lemma LoggedStep(s: State, step: Step, all: set<nat>)
    requires Partition(s, all) && Logged(s) && Enabled(s, step)
    ensures Logged(Apply(s, step))
  {
    match step
    case DeferFree(run) =>
      AddRunSpec(s.pending, run.first, run.n);
    case DrainFails(_) =>
      RunSetConcat(s.drain.frees, s.pending);
    case FreeOne =>
      ProperTail(s.drain.frees);
    case _ =>
  }

  lemma StepKeeps(s: State, step: Step, all: set<nat>)
    requires Inv(s, all) && Enabled(s, step)
    ensures Inv(Apply(s, step), all)
  {
    PartitionStep(s, step, all);
    ViewStep(s, step, all);
    DrainStep(s, step, all);
    NoneLeftStep(s, step, all);
    LoggedStep(s, step, all);
    OwnerStep(s, step, all);
  }

  // ---------------------------------------------------------------------------
  // Runs of the machine

  /** Every step is enabled when its turn comes. */
  predicate Possible(s: State, steps: seq<Step>)
    decreases |steps|
  {
    steps == [] || (Enabled(s, steps[0]) && Possible(Apply(s, steps[0]), steps[1..]))
  }

  function After(s: State, steps: seq<Step>): (r: State)
    requires Possible(s, steps)
    decreases |steps|
  {
    if steps == [] then s else After(Apply(s, steps[0]), steps[1..])
  }

  /** In every interleaving the invariant holds: the view of each block but a shadowed one is its latest store,
      and each block is in exactly one of free, owned, pending and taken. */
  lemma {:induction false} EveryInterleaving(s: State, steps: seq<Step>, all: set<nat>)
    requires Inv(s, all) && Possible(s, steps)
    ensures Inv(After(s, steps), all)
    decreases |steps|
  {
    if steps != [] {
      StepKeeps(s, steps[0], all);
      EveryInterleaving(Apply(s, steps[0]), steps[1..], all);
    }
  }

  // ---------------------------------------------------------------------------
  // What a run leaves

  /** The step writes b: through the deferred map, or on the device. */
  predicate Writes(step: Step, b: nat) {
    (step.Store? || step.WriteData?) && step.b == b
  }

  /** Only writes to b change what was written to it last. */
  lemma {:induction false} LatestStays(s: State, steps: seq<Step>, b: nat)
    requires Possible(s, steps) && forall j :: 0 <= j < |steps| ==> !Writes(steps[j], b)
    ensures b in After(s, steps).latest <==> b in s.latest
    ensures b in s.latest ==> After(s, steps).latest[b] == s.latest[b]
    decreases |steps|
  {
    if steps != [] {
      LatestStays(Apply(s, steps[0]), steps[1..], b);
    }
  }

  /** In every run a block reads as the last write to it, whatever came after, unless the copy of its previous
      owner shadows it. */
  lemma {:induction false} LastWriteSeen(s: State, steps: seq<Step>, all: set<nat>, k: nat)
    requires Inv(s, all) && Possible(s, steps) && k < |steps| && (steps[k].Store? || steps[k].WriteData?)
    requires forall j :: k < j < |steps| ==> !Writes(steps[j], steps[k].b)
    ensures var t, b := After(s, steps), steps[k].b; Shadowed(t, b) || Sees(t, b, steps[k].buf)
    decreases |steps|
  {
    var t, b, buf := Apply(s, steps[0]), steps[k].b, steps[k].buf;
    var rest := steps[1..];
    StepKeeps(s, steps[0], all);
    if k > 0 {
      assert rest[k-1] == steps[k];
      LastWriteSeen(t, rest, all, k - 1);
    } else {
      assert b in t.latest && t.latest[b] == buf;
      LatestStays(t, rest, b);
      EveryInterleaving(t, rest, all);
    }
  }

  /** Between syncs, and whenever no drain is applying its frees, nothing is shadowed. */
  lemma LastWriteRead(s: State, steps: seq<Step>, all: set<nat>, k: nat)
    requires Inv(s, all) && Possible(s, steps) && k < |steps| && (steps[k].Store? || steps[k].WriteData?)
    requires forall j :: k < j < |steps| ==> !Writes(steps[j], steps[k].b)
    ensures !After(s, steps).drain.Freeing? ==> Sees(After(s, steps), steps[k].b, steps[k].buf)
  {
    LastWriteSeen(s, steps, all, k);
    EveryInterleaving(s, steps, all);
  }

  /** A sync in progress blocks no store, no write, no allocation and no deferred free. */
  lemma NeverBlocked(s: State, b: nat, buf: Buf, run: BlockRun)
    ensures b in s.owned && b !in s.direct ==> Enabled(s, Store(b, buf))
    ensures b in s.owned && b !in s.stored ==> Enabled(s, WriteData(b, buf))
    ensures b in s.free ==> Enabled(s, Allocate(b))
    ensures AllOf(run, s.owned) && AllOf(run, s.logged + s.durable) ==> Enabled(s, DeferFree(run))
    ensures s.drain.Idle? && AllOf(run, s.owned) ==> Enabled(s, LogFree(run))
  {
    assert forall p :: p in Blocks(run) ==> run.first <= p < run.first + run.n;
  }

  ghost predicate AllOf(run: BlockRun, bs: set<nat>) {
    forall p: nat :: run.first <= p < run.first + run.n ==> p in bs
  }

  /** A step of the sync itself. */
  predicate OfSync(step: Step) {
    step.Snapshot? || step.DrainWrite? || step.DrainFails? || step.FinishWrites? || step.FreeOne? || step.CasDelete?
  }

  /** What a sync has left to do. */
  function Work(s: State): (n: nat) {
    match s.drain
    case Idle => 0
    case Committed => |s.dirty| + |s.pending| + 3
    case Writing(_, todo, frees) => |todo| + |frees| + 2
    case Freeing(_, frees) => |frees| + 1
  }

  /** A sync can always go on without failing. */
  lemma SyncGoesOn(s: State)
    requires !s.drain.Idle?
    ensures exists next :: OfSync(next) && !next.DrainFails? && Enabled(s, next)
  {
    match s.drain
    case Committed => assert OfSync(Snapshot) && Enabled(s, Snapshot);
    case Writing(snap, todo, frees) =>
      if todo == {} {
        assert OfSync(FinishWrites) && Enabled(s, FinishWrites);
      } else {
        var b :| b in todo;
        assert OfSync(DrainWrite(b)) && Enabled(s, DrainWrite(b));
      }
    case Freeing(snap, frees) =>
      if frees == [] {
        assert OfSync(CasDelete) && Enabled(s, CasDelete);
      } else {
        assert OfSync(FreeOne) && Enabled(s, FreeOne);
      }
  }

  /** Each of its steps brings it nearer to its end, and after its snapshot no other step sets it back: whatever is
      interleaved, it ends. */
  lemma SyncEnds(s: State, all: set<nat>, step: Step)
    requires Inv(s, all) && Enabled(s, step)
    ensures OfSync(step) ==> Work(Apply(s, step)) < Work(s)
    ensures !OfSync(step) && (s.drain.Writing? || s.drain.Freeing?) ==> Work(Apply(s, step)) == Work(s)
  {
    hide Partition, ViewOk, NoneLeft, Logged, Direct, Inherited, AddRun, Blocks, Unchanged;
    if step.Snapshot? { assert |s.dirty.Keys| == |s.dirty|; }
  }

  predicate Frees(step: Step, b: nat) {
    step.DeferFree? && b in Blocks(step.run)
  }

  /** A block belongs to the one it was allocated to until that one frees it. */
  lemma {:induction false} OwnedUntilFreed(s: State, steps: seq<Step>, b: nat)
    requires Possible(s, steps) && (b in s.owned || (steps != [] && steps[0] == Allocate(b)))
    requires forall j :: 0 <= j < |steps| ==> !Frees(steps[j], b)
    ensures b in After(s, steps).owned
    decreases |steps|
  {
    if steps != [] {
      OwnedUntilFreed(Apply(s, steps[0]), steps[1..], b);
    }
  }

  /** A freed block waits, pending or taken by a drain, until a drain frees it: no free is lost and none is early. */
  lemma {:induction false} WaitsUntilFreed(s: State, steps: seq<Step>, all: set<nat>, b: nat)
    requires Inv(s, all) && Possible(s, steps) && forall j :: 0 <= j < |steps| ==> !steps[j].FreeOne?
    requires b in RunSet(s.pending) + RunSet(Taken(s)) || (steps != [] && Frees(steps[0], b))
    ensures b in RunSet(After(s, steps).pending) + RunSet(Taken(After(s, steps)))
    decreases |steps|
  {
    if steps != [] {
      StepKeeps(s, steps[0], all);
      WaitsOne(s, steps[0], b);
      WaitsUntilFreed(Apply(s, steps[0]), steps[1..], all, b);
    }
  }

  lemma WaitsOne(s: State, step: Step, b: nat)
    requires Enabled(s, step) && !step.FreeOne?
    requires b in RunSet(s.pending) + RunSet(Taken(s)) || Frees(step, b)
    requires s.drain.Freeing? && step.CasDelete? ==> s.drain.frees == []
    ensures var t := Apply(s, step); b in RunSet(t.pending) + RunSet(Taken(t))
  {
    ProperNone();
    match step
    case DeferFree(run) => AddRunSpec(s.pending, run.first, run.n);
    case DrainFails(_) => RunSetConcat(s.drain.frees, s.pending);
    case _ =>
  }

  // ---------------------------------------------------------------------------
  // What the invariant gives

  /** A drain writes to no block in the allocator, so to none its own frees returned, and to no block whose
      owner writes it on the device; an allocation
      returns no block whose free is pending or taken; only a sync frees, and only blocks whose freeing
      record its commit point made durable; and a failed drain puts back every free it took. */
  lemma SafeSteps(s: State, step: Step, all: set<nat>)
    requires Inv(s, all) && Enabled(s, step)
    ensures step.DrainWrite? ==> step.b !in s.free && step.b !in s.direct
    ensures step.Allocate? ==> step.b !in RunSet(s.pending) && step.b !in RunSet(Taken(s))
    ensures Apply(s, step).free - s.free <= s.durable
    ensures !step.FreeOne? ==> Apply(s, step).free <= s.free
    ensures step.DrainFails? ==> RunSet(Apply(s, step).pending) == RunSet(s.drain.frees) + RunSet(s.pending)
  {
    match step
    case FreeOne => ProperTail(s.drain.frees);
    case DrainFails(_) => RunSetConcat(s.drain.frees, s.pending);
    case _ =>
  }

  /** Between syncs a block is in exactly one of free, pending and owned, and free blocks have no
      deferred copy. */
  lemma BetweenSyncs(s: State, all: set<nat>)
    requires Inv(s, all) && s.drain.Idle?
    ensures s.free + s.owned + RunSet(s.pending) == all && s.free !! s.owned !! RunSet(s.pending)
    ensures s.free !! s.dirty.Keys && ViewIsLatest(s)
  {
  }

  // ---------------------------------------------------------------------------
  // A drain nothing interleaves with

  /** SyncMeta after a commit point, run alone; a write to a block of bad fails. On success the
      deferred map is empty and exactly the pending blocks became free; on failure nothing is freed,
      no deferred copy and no pending free is lost. Either way every block reads as before. */
  method SyncMeta(s: State, bad: set<nat>, ghost all: set<nat>) returns (t: State, ok: bool)
    requires Inv(s, all) && s.drain.Committed?
    ensures Inv(t, all) && t.drain.Idle? && t.latest == s.latest && t.owned == s.owned && ViewIsLatest(t)
    ensures ok == (s.dirty.Keys !! bad)
    ensures ok ==> t.dirty == map[] && t.pending == [] && t.free == s.free + RunSet(s.pending)
    ensures !ok ==> t.dirty == s.dirty && t.pending == s.pending && t.free == s.free
  {
    StepKeeps(s, Snapshot, all);
    t := Apply(s, Snapshot);
    if t.drain.Writing? {
      t, ok := DrainAll(s, t, bad, all);
      if !ok {
        return;
      }
    }
    t := ApplyFrees(t, all);
    assert Unchanged(t.dirty, t.drain.snap) == t.dirty.Keys;
    StepKeeps(t, CasDelete, all);
    t := Apply(t, CasDelete);
    ok := true;
  }

  /** The write loop over the snapshot, in any order. */
  method DrainAll(s: State, t0: State, bad: set<nat>, ghost all: set<nat>) returns (t: State, ok: bool)
    requires Inv(t0, all) && t0 == s.(pending := [], drain := Writing(s.dirty, s.dirty.Keys, s.pending))
    ensures Inv(t, all)
    ensures ok == (s.dirty.Keys !! bad)
    ensures ok ==> t == t0.(dev := t.dev, drain := Freeing(s.dirty, s.pending))
    ensures !ok ==> t == s.(dev := t.dev, drain := Idle)
  {
    t := t0;
    while t.drain.todo != {}
      invariant Inv(t, all) && t.drain.Writing?
      invariant t == t0.(dev := t.dev, drain := Writing(s.dirty, t.drain.todo, s.pending))
      invariant t.drain.todo <= s.dirty.Keys && (s.dirty.Keys - t.drain.todo) !! bad
      decreases t.drain.todo
    {
      var b :| b in t.drain.todo;
      if b in bad {
        StepKeeps(t, DrainFails(b), all);
        t := Apply(t, DrainFails(b));
        assert s.pending + [] == s.pending;
        return t, false;
      }
      StepKeeps(t, DrainWrite(b), all);
      t := Apply(t, DrainWrite(b));
    }
    StepKeeps(t, FinishWrites, all);
    t := Apply(t, FinishWrites);
    ok := true;
  }

  /** The loop that returns the taken runs to the allocator. */
  method ApplyFrees(t0: State, ghost all: set<nat>) returns (t: State)
    requires Inv(t0, all) && t0.drain.Freeing?
    ensures Inv(t, all) && t == t0.(free := t0.free + RunSet(t0.drain.frees), drain := Freeing(t0.drain.snap, []))
  {
    t := t0;
    while t.drain.frees != []
      invariant Inv(t, all) && t.drain.Freeing?
      invariant t == t0.(free := t.free, drain := Freeing(t0.drain.snap, t.drain.frees))
      invariant t.free + RunSet(t.drain.frees) == t0.free + RunSet(t0.drain.frees)
      decreases |t.drain.frees|
    {
      ProperTail(t.drain.frees);
      StepKeeps(t, FreeOne, all);
      t := Apply(t, FreeOne);
    }
  }

  // ---------------------------------------------------------------------------
  // Where the protocol does not reach

  /** A block reads wrong exactly when the copy that shadows it differs from what its owner wrote. */
  lemma HiddenIff(s: State, all: set<nat>, b: nat)
    requires Inv(s, all) && b in s.latest
    ensures !Sees(s, b, s.latest[b]) <==> Shadowed(s, b) && s.dirty[b] != s.latest[b]
  {
  }

  /** Only a drain that is applying its frees shadows a block, and its last step ends every shadow. */
  lemma ShadowEnds(s: State, all: set<nat>)
    requires Inv(s, all)
    ensures !s.drain.Freeing? ==> ViewIsLatest(s)
    ensures Enabled(s, CasDelete) ==> ViewIsLatest(Apply(s, CasDelete))
  {
    if !s.drain.Freeing? {
      forall b | b in s.latest ensures Sees(s, b, s.latest[b]) {
        assert !Shadowed(s, b);
      }
    }
    if Enabled(s, CasDelete) {
      StepKeeps(s, CasDelete, all);
      var t := Apply(s, CasDelete);
      forall b | b in t.latest ensures Sees(t, b, t.latest[b]) {
        assert !Shadowed(t, b);
      }
    }
  }

  /** What a new owner reads back after writing the block it was just given. */
  predicate ReadsBack(s: State, b: nat, buf: Buf)
    requires b in s.free
  {
    Sees(Apply(Given(s, b), WriteData(b, buf)), b, buf)
  }

  function Given(s: State, b: nat): (t: State)
    requires b in s.free
    ensures Enabled(t, WriteData(b, []))
  {
    Apply(s, Allocate(b))
  }

  /** A new owner reads back whatever it writes on the device, exactly when it was not given the block by a
      drain that has applied the block's free and not yet deleted its copy. */
  lemma VisibleIff(s: State, all: set<nat>, b: nat)
    requires Inv(s, all) && b in s.free
    ensures (forall buf :: ReadsBack(s, b, buf)) <==> !(s.drain.Freeing? && b in s.drain.snap && b in s.dirty)
  {
    if b in s.dirty {
      assert Stale(s, b);
      assert !ReadsBack(s, b, s.dirty[b] + [0]);
    }
  }

  /** A block its old owner stored to and freed. */
  function Freed(): (s: State) {
    State(map[], map[5 := [1]], map[5 := [1]], {}, {}, {}, {}, [BlockRun(5, 1)], {5}, {}, Idle)
  }

  /** The same block once the drain has written it and before its free is applied. */
  function Written(): (s: State) {
    State(map[5 := [1]], map[5 := [1]], map[5 := [1]], {}, {}, {}, {}, [], {}, {5},
      Writing(map[5 := [1]], {}, [BlockRun(5, 1)]))
  }

  lemma OneBlock()
    ensures Span(5, 1) == {5} && RunSet([BlockRun(5, 1)]) == {5}
  {
    assert forall p: nat :: InSpan(5, 1, p) <==> p == 5;
    forall p: nat ensures p in RunSet([BlockRun(5, 1)]) <==> p == 5 {
      InRunsOne(BlockRun(5, 1), p);
    }
  }

  lemma First(s: State, step: Step, rest: seq<Step>)
    requires Enabled(s, step) && Possible(Apply(s, step), rest)
    ensures Possible(s, [step] + rest) && After(s, [step] + rest) == After(Apply(s, step), rest)
  {
    assert ([step] + rest)[1..] == rest;
  }

  /** One free block and nothing deferred. */
  function Unused(): (s: State) {
    State(map[], map[], map[], {5}, {}, {}, {}, [], {}, {}, Idle)
  }

  lemma UnusedInv()
    ensures Inv(Unused(), {5})
  {
    ProperNone();
  }

  lemma ReachFreed()
    ensures Inv(Unused(), {5})
    ensures var steps := [Allocate(5), Store(5, [1]), LogFree(BlockRun(5, 1)), DeferFree(BlockRun(5, 1))];
      Possible(Unused(), steps) && After(Unused(), steps) == Freed()
  {
    hide Possible, After;
    UnusedInv();
    hide Inv;
    OneBlock();
    var run, one := BlockRun(5, 1), map[5 := [1]];
    var s1 := State(map[], map[], map[], {}, {5}, {}, {}, [], {}, {}, Idle);
    var s2 := State(map[], one, one, {}, {5}, {5}, {}, [], {}, {}, Idle);
    var s3 := s2.(logged := {5});
    assert Apply(Unused(), Allocate(5)) == s1;
    assert Apply(s1, Store(5, [1])) == s2;
    assert Apply(s2, LogFree(run)) == s3;
    assert AddRun([], 5, 1) == [run];
    assert Apply(s3, DeferFree(run)) == Freed();
    NoSteps(Freed());
    var r3, r2, r1 := [DeferFree(run)], [LogFree(run), DeferFree(run)], [Store(5, [1]), LogFree(run), DeferFree(run)];
    assert [DeferFree(run)] + [] == r3 && [LogFree(run)] + r3 == r2 && [Store(5, [1])] + r2 == r1;
    assert [Allocate(5)] + r1 == [Allocate(5), Store(5, [1]), LogFree(run), DeferFree(run)];
    First(s3, DeferFree(run), []);
    First(s2, LogFree(run), r3);
    First(s1, Store(5, [1]), r2);
    First(Unused(), Allocate(5), r1);
  }

  lemma ReachWritten()
    ensures Inv(Freed(), {5})
    ensures var steps := [Commit, Snapshot, DrainWrite(5)];
      Possible(Freed(), steps) && After(Freed(), steps) == Written()
  {
    hide Possible, After;
    OneBlock();
    var s0 := Freed();
    var s1 := Apply(s0, Commit);
    assert map[5 := [1]].Keys == {5} && map[5 := [1]] != map[];
    var s2 := Apply(s1, Snapshot);
    assert s2.drain == Writing(map[5 := [1]], {5}, [BlockRun(5, 1)]);
    var s3 := Apply(s2, DrainWrite(5));
    assert s3 == Written();
    NoSteps(s3);
    assert [DrainWrite(5)] + [] == [DrainWrite(5)] && [Snapshot] + [DrainWrite(5)] == [Snapshot, DrainWrite(5)];
    assert [Commit] + [Snapshot, DrainWrite(5)] == [Commit, Snapshot, DrainWrite(5)];
    First(s2, DrainWrite(5), []);
    First(s1, Snapshot, [DrainWrite(5)]);
    First(s0, Commit, [Snapshot, DrainWrite(5)]);
  }

  lemma NoSteps(s: State)
    ensures Possible(s, []) && After(s, []) == s
  {
  }

  /** The block after its free is applied and a new owner has written it. */
  function Rewritten(): (s: State) {
    State(map[5 := [2]], map[5 := [1]], map[5 := [2]], {}, {5}, {}, {5}, [], {}, {}, Freeing(map[5 := [1]], []))
  }

  lemma ReachRewritten()
    ensures var steps := [FinishWrites, FreeOne, Allocate(5), WriteData(5, [2])];
      Possible(Written(), steps) && After(Written(), steps) == Rewritten()
  {
    hide Possible, After;
    OneBlock();
    var s4 := Apply(Written(), FinishWrites);
    var s5 := Apply(s4, FreeOne);
    var s6 := Apply(s5, Allocate(5));
    assert s6 ==
      State(map[5 := [1]], map[5 := [1]], map[5 := [1]], {}, {5}, {}, {}, [], {}, {}, Freeing(map[5 := [1]], []));
    assert Apply(s6, WriteData(5, [2])) == Rewritten();
    NoSteps(Rewritten());
    var r3, r2, r1 := [WriteData(5, [2])], [Allocate(5), WriteData(5, [2])], [FreeOne, Allocate(5), WriteData(5, [2])];
    assert [WriteData(5, [2])] + [] == r3 && [Allocate(5)] + r3 == r2 && [FreeOne] + r2 == r1;
    assert [FinishWrites] + r1 == [FinishWrites, FreeOne, Allocate(5), WriteData(5, [2])];
    First(s6, WriteData(5, [2]), []);
    First(s5, Allocate(5), r3);
    First(s4, FreeOne, r2);
    First(Written(), FinishWrites, r1);
  }

  /** SyncMeta applies its frees before it deletes the drained copies: from the state ReachWritten reaches, a
      new owner gets the block and writes it, reads the old copy, and its own only once the copies are deleted. */
  lemma ShadowWindow()
    ensures var steps := [FinishWrites, FreeOne, Allocate(5), WriteData(5, [2])];
      && Possible(Written(), steps)
      && var s := After(Written(), steps);
        Sees(s, 5, [1]) && !Sees(s, 5, [2]) && Enabled(s, CasDelete) && Sees(Apply(s, CasDelete), 5, [2])
  {
    hide Possible, After;
    ReachRewritten();
    assert Unchanged(map[5 := [1]], map[5 := [1]]) == {5};
  }
}
