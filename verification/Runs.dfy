/** Run-encoded block lists (fuse/runlist.go). */
module Runs {
  import opened Extents

  /** Total blocks across all runs, with multiplicity. */
  function Count(runs: seq<BlockRun>): (n: nat) {
    if runs == [] then 0 else Count(runs[..|runs|-1]) + runs[|runs|-1].n
  }

  /** Add [first, first+n), extending the last run when adjacent. */
  function AddRun(runs: seq<BlockRun>, first: nat, n: nat): (r: seq<BlockRun>) {
    if n == 0 then runs
    else if runs != [] && runs[|runs|-1].first + runs[|runs|-1].n == first then
      runs[|runs|-1 := BlockRun(runs[|runs|-1].first, runs[|runs|-1].n + n)]
    else runs + [BlockRun(first, n)]
  }

  predicate Extends(runs: seq<BlockRun>, first: nat) {
    runs != [] && runs[|runs|-1].first + runs[|runs|-1].n == first
  }

  /** Extending the last run by n blocks adds exactly those blocks. */
  lemma ExtendLast(pre: seq<BlockRun>, last: BlockRun, n: nat, p: nat)
    ensures InRuns(pre + [BlockRun(last.first, last.n + n)], p)
      <==> InRuns(pre + [last], p) || InSpan(last.first + last.n, n, p)
  {
    hide InRuns;
    InRunsAppend(pre, [last], p);
    InRunsAppend(pre, [BlockRun(last.first, last.n + n)], p);
    InRunsOne(last, p);
    InRunsOne(BlockRun(last.first, last.n + n), p);
  }

  lemma AddRunMember(runs: seq<BlockRun>, first: nat, n: nat, p: nat)
    ensures InRuns(AddRun(runs, first, n), p) <==> InRuns(runs, p) || InSpan(first, n, p)
  {
    hide InRuns;
    if n > 0 && Extends(runs, first) {
      var pre, last := runs[..|runs|-1], runs[|runs|-1];
      assert runs == pre + [last] && AddRun(runs, first, n) == pre + [BlockRun(last.first, last.n + n)];
      ExtendLast(pre, last, n, p);
    } else if n > 0 {
      InRunsAppend(runs, [BlockRun(first, n)], p);
      InRunsOne(BlockRun(first, n), p);
    }
  }

  lemma AddRunCount(runs: seq<BlockRun>, first: nat, n: nat)
    ensures Count(AddRun(runs, first, n)) == Count(runs) + n
  {
    if n > 0 {
      var r := AddRun(runs, first, n);
      assert r[..|r|-1] == if Extends(runs, first) then runs[..|runs|-1] else runs;
    }
  }

  /** The accumulator holds exactly the added blocks, and its count grows by n. */
  lemma AddRunSpec(runs: seq<BlockRun>, first: nat, n: nat)
    ensures RunSet(AddRun(runs, first, n)) == RunSet(runs) + Span(first, n)
    ensures Count(AddRun(runs, first, n)) == Count(runs) + n
  {
    hide AddRun, Count, InRuns, InSpan;
    AddRunCount(runs, first, n);
    forall p: nat ensures p in RunSet(AddRun(runs, first, n)) <==> p in RunSet(runs) + Span(first, n) {
      AddRunMember(runs, first, n, p);
    }
  }

  lemma InRunsOne(run: BlockRun, p: nat)
    ensures InRuns([run], p) <==> InSpan(run.first, run.n, p)
  {
    assert [run][0] == run;
  }

  /** Accumulate single blocks, in order. */
  method AddBlocks(runs: seq<BlockRun>, blocks: seq<nat>) returns (r: seq<BlockRun>)
    ensures forall p: nat :: p in RunSet(r) <==> p in RunSet(runs) || p in blocks
    ensures Count(r) == Count(runs) + |blocks|
  {
    r := runs;
    for i := 0 to |blocks|
      invariant forall p: nat :: p in RunSet(r) <==> p in RunSet(runs) || p in blocks[..i]
      invariant Count(r) == Count(runs) + i
    {
      AddRunSpec(r, blocks[i], 1);
      assert blocks[..i+1] == blocks[..i] + [blocks[i]];
      assert forall p: nat :: InSpan(blocks[i], 1, p) <==> p == blocks[i];
      r := AddRun(r, blocks[i], 1);
    }
    assert blocks[..|blocks|] == blocks;
  }
}
