/** The runtime block allocator (fuse/fs.go): single, contiguous and fragmented allocation over the
    bitmap pyramid, above the metadata shield. */
module Allocator {
  import opened AllocCore
  import opened Extents
  import opened RunScan
  import opened Runs
  import opened Sets
  import opened Words

  /** Free blocks a request may draw on: metadata ignores the shield. */
  function Available(freeCount: int, shield: nat, forMeta: bool): (r: int) {
    if forMeta then freeCount else if freeCount > shield then freeCount - shield else 0
  }

  ghost predicate IsLeast(s: set<nat>, x: nat) {
    x in s && forall y :: y in s ==> x <= y
  }

  // ---------------------------------------------------------------------------
  // The least free block

  /** The lowest bit of the first word that is not empty is the level's lowest bit. */
  lemma LeastBit(ws: Level, w: nat)
    requires WordsOk(ws) && w < |ws| && ws[w] != {} && forall j :: 0 <= j < w ==> ws[j] == {}
    ensures var x := 64 * w + TrailingZeros(ws[w]);
      TrailingZeros(ws[w]) < 64 && BitAt(ws, x) && forall y: nat :: y < x ==> !BitAt(ws, y)
  {
    LowestBit(ws[w]);
    var b := TrailingZeros(ws[w]);
    var x := 64 * w + b;
    assert x / 64 == w && x % 64 == b;
    forall y: nat | y < x ensures !BitAt(ws, y) {
      if y / 64 == w {
        assert y % 64 < b;
      }
    }
  }

  /** The lowest bit of the first summary word that is not empty names the first word below that is
      not empty. */
  lemma Descend(up: Level, down: Level, w: nat)
    requires WordsOk(up) && Summary(up, down) && w < |up| && up[w] != {} && forall j :: 0 <= j < w ==> up[j] == {}
    ensures var x := 64 * w + TrailingZeros(up[w]);
      x < |down| && down[x] != {} && forall j :: 0 <= j < x ==> down[j] == {}
  {
    hide TrailingZeros;
    LeastBit(up, w);
    var x := 64 * w + TrailingZeros(up[w]);
    forall j | 0 <= j < x ensures down[j] == {} {
      assert !BitAt(up, j);
    }
  }

  /** An empty top level means no free block. */
  lemma NothingFree(l0: Level, l1: Level, l2: Level, freeCount: int, blockCount: nat)
    requires Pyramid(l0, l1, l2, freeCount, blockCount) && forall j :: 0 <= j < |l0| ==> l0[j] == {}
    ensures freeCount == 0
  {
    forall x: nat ensures !BitAt(l2, x) {
      assert !BitAt(l0, x / 64 / 64);
      assert !BitAt(l1, x / 64);
    }
    assert FreeSet(l2) == {};
  }

  /** The lowest bit of the first L2 word that is not empty is the least free block. */
  lemma LeastBlock(l0: Level, l1: Level, l2: Level, freeCount: int, blockCount: nat, w2: nat)
    requires Pyramid(l0, l1, l2, freeCount, blockCount) && w2 < |l2| && l2[w2] != {}
    requires forall j :: 0 <= j < w2 ==> l2[j] == {}
    ensures var x := 64 * w2 + TrailingZeros(l2[w2]);
      x < blockCount && BitAt(l2, x) && IsLeast(FreeSet(l2), x)
  {
    hide TrailingZeros, Summary, FreeSet, BitAt;
    LeastBit(l2, w2);
    FreeSetHas(l2);
  }

  /** Clears a block's bit and every summary bit whose word that empties. */
  function Taken0(l0: Level, l1: Level, l2: Level, x: nat): (r: Level)
    requires x / 64 < |l2| && x / 64 / 64 < |l1| && x / 64 / 64 / 64 < |l0|
  {
    if ClearAt(l2, x)[x / 64] == {} && ClearAt(l1, x / 64)[x / 64 / 64] == {} then ClearAt(l0, x / 64 / 64) else l0
  }

  function Taken1(l1: Level, l2: Level, x: nat): (r: Level)
    requires x / 64 < |l2| && x / 64 / 64 < |l1|
  {
    if ClearAt(l2, x)[x / 64] == {} then ClearAt(l1, x / 64) else l1
  }

  lemma TakenOk(l0: Level, l1: Level, l2: Level, freeCount: int, blockCount: nat, x: nat)
    requires Pyramid(l0, l1, l2, freeCount, blockCount) && BitAt(l2, x)
    ensures x / 64 < |l2| && x / 64 / 64 < |l1| && x / 64 / 64 / 64 < |l0|
    ensures Pyramid(Taken0(l0, l1, l2, x), Taken1(l1, l2, x), ClearAt(l2, x), freeCount - 1, blockCount)
    ensures FreeSet(ClearAt(l2, x)) == FreeSet(l2) - {x}
  {
    assert BitAt(l1, x / 64) && BitAt(l0, x / 64 / 64);
    ClearSpec(l2, x);
    assert FreeSet(ClearAt(l2, x)) == FreeSet(l2) - {x};
    var w := x / 64;
    if ClearAt(l2, x)[w] == {} {
      SummaryClear(l1, l2, w);
      ClearSpec(l1, w);
      assert ClearAt(l2, x) == l2[w := {}];
      if ClearAt(l1, w)[w / 64] == {} {
        SummaryClear(l0, l1, w / 64);
        ClearSpec(l0, w / 64);
        assert ClearAt(l1, w) == l1[w / 64 := {}];
      } else {
        SummaryKeep(l0, l1, w / 64, ClearAt(l1, w)[w / 64]);
      }
    } else {
      SummaryKeep(l1, l2, w, ClearAt(l2, x)[w]);
    }
  }

  /** How the descent from an L0 word ends: at an L2 word with a free block, at a stale summary bit it
      repaired, or past the end of a level. */
  datatype Descent = Found | Repaired | Missing

  /** Only bits over empty words were cleared. */
  ghost predicate KeepsLive(l: Level, m: Level, below: Level) {
    forall w: nat :: w < |below| && below[w] != {} ==> (BitAt(m, w) <==> BitAt(l, w))
  }

  method DescendRepair(l0: Level, l1: Level, l2: Level, w0: nat)
    returns (m0: Level, m1: Level, end: Descent, w1: nat, w2: nat)
    requires WordsOk(l0) && WordsOk(l1) && WordsOk(l2) && w0 < |l0| && l0[w0] != {}
    ensures WordsOk(m0) && WordsOk(m1) && |m0| == |l0| && |m1| == |l1|
    ensures end.Found? ==> m0 == l0 && m1 == l1 && w2 < |l2| && l2[w2] != {} && w2 / 64 == w1 < |l1| && w1 / 64 == w0
    ensures KeepsLive(l1, m1, l2) && KeepsLive(l0, m0, m1)
    ensures w1 / 64 == w0 && BitAt(l0, w1)
    ensures end.Missing? ==> m0 == l0 && m1 == l1
    ensures end.Repaired? ==> w1 < |l1| && !BitAt(if l1[w1] == {} then m0 else m1, if l1[w1] == {} then w1 else w2)
    ensures end.Repaired? && l1[w1] == {} ==> m1 == l1 && m0 == ClearAt(l0, w1)
    ensures end.Repaired? && l1[w1] != {} ==> w2 < |l2| && w2 / 64 == w1 && l2[w2] == {} && m1 == ClearAt(l1, w2)
    ensures end.Repaired? && l1[w1] != {} ==> m0 == if m1[w1] == {} then ClearAt(l0, w1) else l0
    ensures Summary(l0, l1) && Summary(l1, l2) && (forall j :: 0 <= j < w0 ==> l0[j] == {}) ==>
      end.Found? && forall j :: 0 <= j < w2 < |l2| ==> l2[j] == {}
  {
    hide TrailingZeros, Summary;
    m0, m1, w2 := l0, l1, 0;
    ghost var ok := Summary(l0, l1) && Summary(l1, l2) && (forall j :: 0 <= j < w0 ==> l0[j] == {});
    LowestBit(l0[w0]);
    w1 := 64 * w0 + TrailingZeros(l0[w0]);
    if ok {
      Descend(l0, l1, w0);
    }
    if w1 >= |l1| {
      return m0, m1, Missing, w1, w2;
    }
    if l1[w1] == {} {
      m0 := l0[w0 := l0[w0] - {TrailingZeros(l0[w0])}];
      return m0, m1, Repaired, w1, w2;
    }
    LowestBit(l1[w1]);
    w2 := 64 * w1 + TrailingZeros(l1[w1]);
    if ok {
      Descend(l1, l2, w1);
    }
    if w2 >= |l2| {
      return m0, m1, Missing, w1, w2;
    }
    if l2[w2] == {} {
      m1 := l1[w1 := l1[w1] - {TrailingZeros(l1[w1])}];
      if m1[w1] == {} {
        m0 := l0[w0 := l0[w0] - {TrailingZeros(l0[w0])}];
      }
      return m0, m1, Repaired, w1, w2;
    }
    return m0, m1, Found, w1, w2;
  }

  /** Clears the bit and propagates up the words that became empty. */
  method Take(l0: Level, l1: Level, l2: Level, w0: nat, w1: nat, w2: nat, block: nat)
    returns (m0: Level, m1: Level, m2: Level)
    requires block / 64 == w2 < |l2| && w2 / 64 == w1 < |l1| && w1 / 64 == w0 < |l0|
    ensures m0 == Taken0(l0, l1, l2, block) && m1 == Taken1(l1, l2, block) && m2 == ClearAt(l2, block)
  {
    m0, m1, m2 := l0, l1, ClearAt(l2, block);
    if m2[w2] == {} {
      m1 := ClearAt(l1, w2);
      if m1[w1] == {} {
        m0 := ClearAt(l0, w1);
      }
    }
  }

  /** tryAllocBlock, with its repair of stale summary bits. Whatever the summaries hold, only a free block is taken.
      On a pyramid the repair is not needed: the least free block is taken, and the call fails only when nothing
      is available. */
  method TryAllocBlock(l0: Level, l1: Level, l2: Level, freeCount: int, blockCount: nat, shield: nat, forMeta: bool)
    returns (m0: Level, m1: Level, m2: Level, count: int, taken: bool, rel: nat)
    requires WordsOk(l0) && WordsOk(l1) && WordsOk(l2)
    ensures |m0| == |l0| && |m1| == |l1| && |m2| == |l2|
    ensures taken ==> BitAt(l2, rel) && rel < blockCount && m2 == ClearAt(l2, rel) && count == freeCount - 1
    ensures !taken ==> m2 == l2 && count == freeCount && rel == 0
    ensures Pyramid(l0, l1, l2, freeCount, blockCount) ==> Pyramid(m0, m1, m2, count, blockCount)
    ensures Pyramid(l0, l1, l2, freeCount, blockCount) ==>
      taken == if forMeta then freeCount > 0 else freeCount > shield
    ensures Pyramid(l0, l1, l2, freeCount, blockCount) && taken ==>
      IsLeast(FreeSet(l2), rel) && FreeSet(m2) == FreeSet(l2) - {rel}
  {
    hide FreeSet, TrailingZeros;
    ghost var ok := Pyramid(l0, l1, l2, freeCount, blockCount);
    m0, m1, m2, count, taken, rel := l0, l1, l2, freeCount, false, 0;
    if Available(freeCount, shield, forMeta) == 0 {
      return;
    }
    var w0 := 0;
    while w0 < |m0|
      invariant 0 <= w0 <= |m0| == |l0| && |m1| == |l1|
      invariant WordsOk(m0) && WordsOk(m1)
      invariant ok ==> m0 == l0 && m1 == l1 && forall j :: 0 <= j < w0 ==> l0[j] == {}
    {
      if m0[w0] != {} {
        var found, w1, w2;
        m0, m1, found, w1, w2 := DescendRepair(m0, m1, l2, w0);
        if found.Missing? {
          assert !ok;
          return m0, m1, l2, freeCount, false, 0;
        }
        if found.Found? {
          LowestBit(l2[w2]);
          var block := 64 * w2 + TrailingZeros(l2[w2]);
          if ok {
            LeastBlock(l0, l1, l2, freeCount, blockCount, w2);
            TakenOk(l0, l1, l2, freeCount, blockCount, block);
          }
          if block >= blockCount {
            return m0, m1, l2, freeCount, false, 0;
          }
          m0, m1, m2 := Take(m0, m1, l2, w0, w1, w2, block);
          return m0, m1, m2, freeCount - 1, true, block;
        }
      }
      w0 := w0 + 1;
    }
    if ok {
      NothingFree(l0, l1, l2, freeCount, blockCount);
    }
  }

  // ---------------------------------------------------------------------------
  // Contiguous runs

  /** reserveBlockZeroLocked. */
  method ReserveBlockZero(l0: Level, l1: Level, l2: Level, freeCount: int, blockCount: nat)
    returns (m0: Level, m1: Level, m2: Level, count: int)
    requires Pyramid(l0, l1, l2, freeCount, blockCount) && blockCount > 0
    ensures Pyramid(m0, m1, m2, count, blockCount) && FreeSet(m2) == FreeSet(l2) - {0}
    ensures |m0| == |l0| && |m1| == |l1| && |m2| == |l2|
  {
    var changed;
    m0, m1, m2, count, changed := AllocMarkAllocated(l0, l1, l2, freeCount, blockCount, 0);
  }

  /** Summaries while a clear is propagating: the words [lo, hi) may still have their bit. */
  ghost predicate Stale(up: Level, down: Level, lo: nat, hi: nat) {
    && |down| <= 64 * |up|
    && forall i: nat :: BitAt(up, i) <==> i < |down| && (down[i] != {} || lo <= i < hi)
  }

  /** Clearing bits block by block. */
  method ClearBits(l2: Level, start: nat, n: nat) returns (m2: Level)
    requires WordsOk(l2) && start + n <= 64 * |l2|
    ensures WordsOk(m2) && |m2| == |l2|
    ensures forall x: nat :: BitAt(m2, x) <==> BitAt(l2, x) && !InSpan(start, n, x)
    ensures forall w :: 0 <= w < |l2| && !(start / 64 <= w <= (start + n - 1) / 64) ==> m2[w] == l2[w]
  {
    m2 := l2;
    for i := 0 to n
      invariant WordsOk(m2) && |m2| == |l2|
      invariant forall x: nat :: BitAt(m2, x) <==> BitAt(l2, x) && !InSpan(start, i, x)
      invariant forall w :: 0 <= w < |l2| && !(start / 64 <= w <= (start + n - 1) / 64) ==> m2[w] == l2[w]
    {
      ClearSpec(m2, start + i);
      assert start / 64 <= (start + i) / 64 <= (start + n - 1) / 64;
      m2 := ClearAt(m2, start + i);
    }
  }

  /** One word of the upward propagation. */
  lemma StaleStep(l1: Level, l2: Level, w: nat, hi: nat)
    requires WordsOk(l1) && Stale(l1, l2, w, hi) && w < hi && w < |l2|
    ensures w / 64 < |l1|
    ensures l2[w] == {} ==> Stale(ClearAt(l1, w), l2, w + 1, hi)
    ensures l2[w] != {} ==> Stale(l1, l2, w + 1, hi)
  {
    assert BitAt(l1, w);
    ClearSpec(l1, w);
  }

  /** The propagation loop of tryAllocBlocks. */
  method PropagateRange(l0: Level, l1: Level, l2: Level, first: nat, last: nat) returns (m0: Level, m1: Level)
    requires WordsOk(l0) && WordsOk(l1) && Summary(l0, l1) && first <= last < |l2| && Stale(l1, l2, first, last + 1)
    ensures WordsOk(m0) && WordsOk(m1) && Summary(m0, m1) && Summary(m1, l2)
    ensures |m0| == |l0| && |m1| == |l1|
  {
    m0, m1 := l0, l1;
    var w := first;
    while w <= last
      invariant first <= w <= last + 1
      invariant WordsOk(m0) && WordsOk(m1) && |m0| == |l0| && |m1| == |l1|
      invariant Summary(m0, m1) && Stale(m1, l2, w, last + 1)
      decreases last + 1 - w
    {
      StaleStep(m1, l2, w, last + 1);
      if l2[w] == {} {
        m0, m1 := ClearSummary(m0, m1, w);
      }
      w := w + 1;
    }
  }

  method ClearSummary(l0: Level, l1: Level, w: nat) returns (m0: Level, m1: Level)
    requires WordsOk(l0) && WordsOk(l1) && Summary(l0, l1) && w / 64 < |l1| && BitAt(l1, w)
    ensures WordsOk(m0) && m1 == ClearAt(l1, w) && WordsOk(m1) && Summary(m0, m1) && |m0| == |l0|
  {
    ClearSpec(l1, w);
    m0, m1 := l0, ClearAt(l1, w);
    if m1[w / 64] == {} {
      SummaryClear(l0, l1, w / 64);
      ClearSpec(l0, w / 64);
      m0 := ClearAt(l0, w / 64);
      assert m1 == l1[w / 64 := {}];
    } else {
      SummaryKeep(l0, l1, w / 64, m1[w / 64]);
    }
  }

  /** Before the propagation the touched words held free blocks, so their bits are set. */
  lemma StaleStart(l1: Level, l2: Level, m2: Level, start: nat, n: nat)
    requires Summary(l1, l2) && |m2| == |l2| && n > 0 && forall x: nat :: InSpan(start, n, x) ==> BitAt(l2, x)
    requires forall w :: 0 <= w < |l2| && !(start / 64 <= w <= (start + n - 1) / 64) ==> m2[w] == l2[w]
    ensures (start + n - 1) / 64 < |l2| && Stale(l1, m2, start / 64, (start + n - 1) / 64 + 1)
  {
    assert InSpan(start, n, start + n - 1);
    forall i: nat ensures BitAt(l1, i) <==> i < |m2| && (m2[i] != {} || start / 64 <= i < (start + n - 1) / 64 + 1) {
      if start / 64 <= i <= (start + n - 1) / 64 {
        var x := if start / 64 == i then start else 64 * i;
        assert InSpan(start, n, x) && x / 64 == i;
      }
    }
  }

  /** Clears a run of free blocks in all three levels. */
  method ClearRun(l0: Level, l1: Level, l2: Level, freeCount: int, blockCount: nat, start: nat, n: nat)
    returns (m0: Level, m1: Level, m2: Level, count: int)
    requires Pyramid(l0, l1, l2, freeCount, blockCount) && n > 0 && AllFree(l2, blockCount, start, n)
    ensures Pyramid(m0, m1, m2, count, blockCount) && FreeSet(m2) == FreeSet(l2) - Span(start, n)
    ensures |m0| == |l0| && |m1| == |l1| && |m2| == |l2|
  {
    assert InSpan(start, n, start + n - 1);
    m2 := ClearBits(l2, start, n);
    StaleStart(l1, l2, m2, start, n);
    m0, m1 := PropagateRange(l0, l1, m2, start / 64, (start + n - 1) / 64);
    count := freeCount - n;
    RemoveSpan(l2, m2, start, n);
  }

  lemma RemoveSpan(l2: Level, m2: Level, start: nat, n: nat)
    requires (forall x: nat :: InSpan(start, n, x) ==> BitAt(l2, x))
    requires |m2| == |l2| && forall x: nat :: BitAt(m2, x) <==> BitAt(l2, x) && !InSpan(start, n, x)
    ensures FreeSet(m2) == FreeSet(l2) - Span(start, n) && |FreeSet(m2)| == |FreeSet(l2)| - n
  {
    SpanSize(start, n);
    assert Span(start, n) <= FreeSet(l2);
    assert FreeSet(m2) == FreeSet(l2) - Span(start, n);
  }


  lemma FreeSpan(l0: Level, l1: Level, l2: Level, freeCount: int, blockCount: nat, s: nat, n: nat)
    requires Pyramid(l0, l1, l2, freeCount, blockCount)
    ensures AllFree(l2, blockCount, s, n) <==> Span(s, n) <= FreeSet(l2)
  {
    hide Summary;
    if AllFree(l2, blockCount, s, n) {
      forall x | x in Span(s, n) ensures x in FreeSet(l2) {
        assert IsFree(l2, blockCount, x);
      }
    }
    if Span(s, n) <= FreeSet(l2) {
      forall x: nat | InSpan(s, n, x) ensures IsFree(l2, blockCount, x) {
        assert x in Span(s, n);
      }
    }
  }

  /** rel is the least start of n blocks in a row in free. */
  ghost predicate LeastRun(free: set<nat>, rel: nat, n: nat) {
    Span(rel, n) <= free && forall s: nat :: Span(s, n) <= free ==> rel <= s
  }

  ghost predicate HasRun(free: set<nat>, n: nat) {
    exists s: nat :: Span(s, n) <= free
  }

  /** The first-fit choice made from the scan's runs. */
  lemma FirstFit(l0: Level, l1: Level, l2: Level, freeCount: int, blockCount: nat, n: nat, runs: seq<BlockRun>)
    requires Pyramid(l0, l1, l2, freeCount, blockCount) && n > 0 && Outcome(l2, blockCount, n, runs)
    ensures (runs != [] && runs[|runs|-1].n >= n) ==>
      LeastRun(FreeSet(l2), runs[|runs|-1].first, n) && AllFree(l2, blockCount, runs[|runs|-1].first, n)
    ensures !(runs != [] && runs[|runs|-1].n >= n) ==> forall s: nat :: !(Span(s, n) <= FreeSet(l2))
  {
    hide Pyramid;
    forall s: nat ensures AllFree(l2, blockCount, s, n) <==> Span(s, n) <= FreeSet(l2) {
      FreeSpan(l0, l1, l2, freeCount, blockCount, s, n);
    }
    if runs != [] && runs[|runs|-1].n >= n {
      var last := runs[|runs|-1];
      forall x: nat | InSpan(last.first, n, x) ensures IsFree(l2, blockCount, x) {
        InRun(runs, |runs| - 1, x);
      }
      forall s: nat | Span(s, n) <= FreeSet(l2) ensures last.first <= s {
        LeastStart(runs, l2, blockCount, n, s);
      }
    } else {
      forall s: nat ensures !(Span(s, n) <= FreeSet(l2)) {
        NoneLongEnough(runs, l2, blockCount, n, s);
      }
    }
  }

  /** tryAllocBlocks for n > 0: after block 0 is reserved, the least start of n free blocks in a row,
      or 0 if there is none. A request above what the shield leaves changes nothing. */
  method TryAllocBlocks(l0: Level, l1: Level, l2: Level, freeCount: int, blockCount: nat, shield: nat, n: nat)
    returns (m0: Level, m1: Level, m2: Level, count: int, rel: nat)
    requires Pyramid(l0, l1, l2, freeCount, blockCount) && blockCount > 0 && |l2| == (blockCount + 63) / 64 && n > 0
    ensures Pyramid(m0, m1, m2, count, blockCount)
    ensures |m0| == |l0| && |m1| == |l1| && |m2| == |l2|
    ensures n > freeCount - shield || n > blockCount ==> rel == 0 && m2 == l2
    ensures n <= freeCount - shield && n <= blockCount ==>
      var free := FreeSet(l2) - {0};
      if exists s: nat :: Span(s, n) <= free then LeastRun(free, rel, n) && rel > 0 &&
        FreeSet(m2) == free - Span(rel, n)
      else rel == 0 && FreeSet(m2) == free
  {
    hide Pyramid, FreeSet, Outcome, AllFree, Span;
    m0, m1, m2, count, rel := l0, l1, l2, freeCount, 0;
    if n > Available(freeCount, shield, false) || n > blockCount {
      return;
    }
    m0, m1, m2, count := ReserveBlockZero(l0, l1, l2, freeCount, blockCount);
    PyramidWords(m0, m1, m2, count, blockCount);
    var runs := ScanMaximalRuns(m2, blockCount, n);
    FirstFit(m0, m1, m2, count, blockCount, n, runs);
    if runs == [] || runs[|runs|-1].n < n {
      return;
    }
    rel := runs[|runs|-1].first;
    StartsPositive(FreeSet(l2), rel, n);
    m0, m1, m2, count := ClearRun(m0, m1, m2, count, blockCount, rel, n);
  }

  lemma PyramidWords(l0: Level, l1: Level, l2: Level, freeCount: int, blockCount: nat)
    requires Pyramid(l0, l1, l2, freeCount, blockCount)
    ensures WordsOk(l2)
  {
  }

  lemma StartsPositive(free: set<nat>, rel: nat, n: nat)
    requires n > 0 && Span(rel, n) <= free - {0}
    ensures rel > 0
  {
    assert InSpan(rel, n, rel);
  }

  // ---------------------------------------------------------------------------
  // Fragmented allocation

  /** The visitor of tryAllocRunsUpTo: whole runs until want blocks are gathered, then a prefix. */
  method Harvest(runs: seq<BlockRun>, want: nat) returns (taken: seq<BlockRun>)
    requires Gapped(runs)
    ensures Gapped(taken) && |taken| <= |runs|
    ensures forall i :: 0 <= i < |taken| ==> taken[i].first == runs[i].first && taken[i].n <= runs[i].n
    ensures Count(taken) == if want < Count(runs) then want else Count(runs)
  {
    hide Count, Gapped;
    taken := [];
    var remaining := want;
    var i := 0;
    CountNone(runs);
    while i < |runs| && remaining > 0
      invariant 0 <= i <= |runs| && remaining >= 0
      invariant Prefixes(taken, runs) && |taken| == i
      invariant Count(taken) + remaining == want
      invariant if remaining > 0 then Count(taken) == Count(runs[..i]) else want <= Count(runs[..i])
    {
      RunPositive(runs, i);
      var n := if runs[i].n > remaining then remaining else runs[i].n;
      CountSnoc(runs[..i], runs[i]);
      assert runs[..i+1] == runs[..i] + [runs[i]];
      CountSnoc(taken, BlockRun(runs[i].first, n));
      taken := taken + [BlockRun(runs[i].first, n)];
      remaining := remaining - n;
      i := i + 1;
    }
    CountPrefix(runs, i);
    assert i == |runs| ==> runs[..i] == runs;
    PrefixesGapped(taken, runs);
  }

  /** Each taken run is a non-empty prefix of the run at the same place. */
  predicate Prefixes(taken: seq<BlockRun>, runs: seq<BlockRun>) {
    |taken| <= |runs| && forall j :: 0 <= j < |taken| ==> taken[j].first == runs[j].first && 0 < taken[j].n <= runs[j].n
  }

  lemma PrefixesGapped(taken: seq<BlockRun>, runs: seq<BlockRun>)
    requires Gapped(runs) && Prefixes(taken, runs)
    ensures Gapped(taken)
  {
    forall a, b | 0 <= a < b < |taken| ensures taken[a].first + taken[a].n < taken[b].first {
      assert runs[a].first + runs[a].n < runs[b].first;
    }
  }

  lemma RunPositive(runs: seq<BlockRun>, i: nat)
    requires Gapped(runs) && i < |runs|
    ensures runs[i].n > 0
  {
  }

  lemma CountNone(runs: seq<BlockRun>)
    ensures Count([]) == 0 && Count(runs[..0]) == 0
  {
  }

  lemma CountSnoc(runs: seq<BlockRun>, r: BlockRun)
    ensures Count(runs + [r]) == Count(runs) + r.n
  {
    assert (runs + [r])[..|runs|] == runs;
  }

  lemma {:induction false} CountPrefix(runs: seq<BlockRun>, k: nat)
    requires k <= |runs|
    ensures Count(runs[..k]) <= Count(runs)
    decreases |runs|
  {
    if k < |runs| {
      CountPrefix(runs[..|runs|-1], k);
      assert runs[..|runs|-1][..k] == runs[..k];
    } else {
      assert runs[..k] == runs;
    }
  }

  lemma RunSetSnoc(rest: seq<BlockRun>, last: BlockRun)
    ensures RunSet(rest + [last]) == RunSet(rest) + Span(last.first, last.n)
  {
    forall x: nat ensures x in RunSet(rest + [last]) <==> x in RunSet(rest) + Span(last.first, last.n) {
      InRunsAppend(rest, [last], x);
      InRunsOne(last, x);
    }
  }

  lemma {:induction false} CountRuns(runs: seq<BlockRun>)
    requires Gapped(runs)
    ensures Count(runs) == |RunSet(runs)|
  {
    if runs != [] {
      hide RunSet, Span, Gapped;
      var m := |runs| - 1;
      var rest, last := runs[..m], runs[m];
      SpanSize(last.first, last.n);
      GappedPrefix(runs, m);
      CountRuns(rest);
      LastApart(runs);
      var a, b := RunSet(rest), Span(last.first, last.n);
      assert RunSet(runs) == a + b && a !! b;
    }
  }

  lemma GappedPrefix(runs: seq<BlockRun>, m: nat)
    requires Gapped(runs) && m <= |runs|
    ensures Gapped(runs[..m])
  {
  }

  lemma LastApart(runs: seq<BlockRun>)
    requires Gapped(runs) && runs != []
    ensures var m := |runs| - 1;
      && RunSet(runs) == RunSet(runs[..m]) + Span(runs[m].first, runs[m].n)
      && RunSet(runs[..m]) !! Span(runs[m].first, runs[m].n)
  {
    var m := |runs| - 1;
    assert runs == runs[..m] + [runs[m]];
    RunSetSnoc(runs[..m], runs[m]);
    RunsBefore(runs, m);
  }

  lemma RunsBefore(runs: seq<BlockRun>, m: nat)
    requires Gapped(runs) && m < |runs|
    ensures forall x :: x in RunSet(runs[..m]) ==> x < runs[m].first
  {
    forall x | x in RunSet(runs[..m]) ensures x < runs[m].first {
      assert InRuns(runs[..m], x);
      var k :| 0 <= k < m && runs[k].first <= x < runs[k].first + runs[k].n;
      assert runs[k].first + runs[k].n < runs[m].first;
    }
  }

  /** One run cleared word by word, each emptied word propagated at once. */
  method DrainRun(l0: Level, l1: Level, l2: Level, first: nat, n: nat) returns (m0: Level, m1: Level, m2: Level)
    requires WordsOk(l0) && WordsOk(l1) && WordsOk(l2) && Summary(l0, l1) && Summary(l1, l2)
    requires n > 0 && first + n <= 64 * |l2|
    ensures WordsOk(m0) && WordsOk(m1) && WordsOk(m2) && Summary(m0, m1) && Summary(m1, m2)
    ensures |m0| == |l0| && |m1| == |l1| && |m2| == |l2|
    ensures FreeSet(m2) == FreeSet(l2) - Span(first, n)
  {
    hide Summary, WordsOk, FreeSet, Lift, Before, Mask, Span;
    m0, m1, m2 := l0, l1, l2;
    var wLast := (first + n - 1) / 64;
    var w := first / 64;
    BeforeAll(first, n);
    while w <= wLast
      invariant first / 64 <= w <= wLast + 1
      invariant WordsOk(m0) && WordsOk(m1) && WordsOk(m2) && Summary(m0, m1) && Summary(m1, m2)
      invariant |m0| == |l0| && |m1| == |l1| && |m2| == |l2|
      invariant FreeSet(m2) == FreeSet(l2) - Before(first, n, w)
      decreases wLast + 1 - w
    {
      var lo := if first > 64 * w then first - 64 * w else 0;
      var mask := Mask(lo, first + n - 64 * w);
      MaskForms(first, n, w);
      BeforeStep(first, n, w, mask);
      m0, m1, m2 := DrainWord(m0, m1, m2, w, mask);
      w := w + 1;
    }
  }

  /** The masks of the bulk free and of the fragmented allocation are the same. */
  lemma MaskForms(first: nat, n: nat, w: nat)
    requires n > 0 && first / 64 <= w <= (first + n - 1) / 64
    ensures 64 * w < first + n
    ensures Mask(if first > 64 * w then first - 64 * w else 0, first + n - 64 * w) ==
      Mask(if w == first / 64 then first % 64 else 0, if w == (first + n - 1) / 64 then (first + n - 1) % 64 + 1
        else 64)
    ensures IsWord(Mask(if first > 64 * w then first - 64 * w else 0, first + n - 64 * w))
  {
    var a, b := Mask(if first > 64 * w then first - 64 * w else 0, first + n - 64 * w),
      Mask(if w == first / 64 then first % 64 else 0, if w == (first + n - 1) / 64 then (first + n - 1) % 64 + 1
        else 64);
    forall x: nat ensures x in a <==> x in b {
    }
  }

  method DrainWord(l0: Level, l1: Level, l2: Level, w: nat, mask: Word) returns (m0: Level, m1: Level, m2: Level)
    requires WordsOk(l0) && WordsOk(l1) && WordsOk(l2) && Summary(l0, l1) && Summary(l1, l2) && w < |l2| && IsWord(mask)
    ensures WordsOk(m0) && WordsOk(m1) && WordsOk(m2) && Summary(m0, m1) && Summary(m1, m2)
    ensures |m0| == |l0| && |m1| == |l1| && |m2| == |l2|
    ensures FreeSet(m2) == FreeSet(l2) - Lift(w, mask)
  {
    DrainSpec(l2, w, mask);
    m0, m1, m2 := l0, l1, l2[w := l2[w] - mask];
    if m2[w] == {} {
      m0, m1 := PropagateEmpty(l0, l1, w, l2);
    } else {
      SummaryKeep(l1, l2, w, m2[w]);
    }
  }

  /** All the taken runs cleared. */
  method DrainRuns(l0: Level, l1: Level, l2: Level, runs: seq<BlockRun>) returns (m0: Level, m1: Level, m2: Level)
    requires WordsOk(l0) && WordsOk(l1) && WordsOk(l2) && Summary(l0, l1) && Summary(l1, l2)
    requires Gapped(runs) && forall i :: 0 <= i < |runs| ==> runs[i].first + runs[i].n <= 64 * |l2|
    ensures WordsOk(m0) && WordsOk(m1) && WordsOk(m2) && Summary(m0, m1) && Summary(m1, m2)
    ensures |m0| == |l0| && |m1| == |l1| && |m2| == |l2|
    ensures FreeSet(m2) == FreeSet(l2) - RunSet(runs)
  {
    hide Summary, WordsOk, FreeSet, Span;
    m0, m1, m2 := l0, l1, l2;
    for i := 0 to |runs|
      invariant WordsOk(m0) && WordsOk(m1) && WordsOk(m2) && Summary(m0, m1) && Summary(m1, m2)
      invariant |m0| == |l0| && |m1| == |l1| && |m2| == |l2|
      invariant FreeSet(m2) == FreeSet(l2) - RunSet(runs[..i])
    {
      RunSetSnoc(runs[..i], runs[i]);
      assert runs[..i+1] == runs[..i] + [runs[i]];
      m0, m1, m2 := DrainRun(m0, m1, m2, runs[i].first, runs[i].n);
    }
    assert runs[..|runs|] == runs;
  }

  /** What Harvest took is part of what the scan found. */
  lemma TakenInside(l0: Level, l1: Level, l2: Level, freeCount: int, blockCount: nat, runs: seq<BlockRun>,
                    taken: seq<BlockRun>)
    requires Pyramid(l0, l1, l2, freeCount, blockCount) && Exact(runs, l2, blockCount, blockCount) && Gapped(taken)
    requires |taken| <= |runs|
    requires forall i :: 0 <= i < |taken| ==> taken[i].first == runs[i].first && taken[i].n <= runs[i].n
    ensures RunSet(runs) == FreeSet(l2) && RunSet(taken) <= FreeSet(l2)
    ensures Count(runs) == freeCount && Count(taken) == |RunSet(taken)|
    ensures forall i :: 0 <= i < |taken| ==> taken[i].first + taken[i].n <= 64 * |l2|
  {
    hide Summary;
    CountRuns(runs);
    CountRuns(taken);
    assert RunSet(runs) == FreeSet(l2);
    forall x | x in RunSet(taken) ensures x in RunSet(runs) {
      assert InRuns(taken, x);
      var k :| 0 <= k < |taken| && taken[k].first <= x < taken[k].first + taken[k].n;
      InRun(runs, k, x);
    }
    forall i | 0 <= i < |taken| ensures taken[i].first + taken[i].n <= 64 * |l2| {
      RunsEndBy(runs, l2, blockCount, blockCount, i);
    }
  }

  /** tryAllocRunsUpTo for n > 0: after block 0 is reserved, disjoint runs of formerly free blocks, as
      many blocks as asked for, as the shield leaves and as are free, whichever is least. */
  method TryAllocRunsUpTo(l0: Level, l1: Level, l2: Level, freeCount: int, blockCount: nat, shield: nat, n: nat)
    returns (m0: Level, m1: Level, m2: Level, count: int, runs: seq<BlockRun>)
    requires Pyramid(l0, l1, l2, freeCount, blockCount) && blockCount > 0 && |l2| == (blockCount + 63) / 64 && n > 0
    ensures Pyramid(m0, m1, m2, count, blockCount)
    ensures |m0| == |l0| && |m1| == |l1| && |m2| == |l2|
    ensures Gapped(runs) && RunSet(runs) <= FreeSet(l2) - {0}
    ensures freeCount <= shield ==> runs == [] && m2 == l2
    ensures freeCount > shield ==> FreeSet(m2) == FreeSet(l2) - {0} - RunSet(runs)
    ensures freeCount > shield ==> Count(runs) == Min(Min(n, freeCount - shield), |FreeSet(l2) - {0}|)
  {
    hide Pyramid, FreeSet, Exact, RunSet, Gapped;
    m0, m1, m2, count, runs := l0, l1, l2, freeCount, [];
    var avail := Available(freeCount, shield, false);
    CountNonNegative(l0, l1, l2, freeCount, blockCount);
    if avail == 0 {
      NoRuns(FreeSet(l2) - {0});
      return;
    }
    var remaining := Min(n, avail);
    m0, m1, m2, count := ReserveBlockZero(l0, l1, l2, freeCount, blockCount);
    PyramidWords(m0, m1, m2, count, blockCount);
    var all := ScanMaximalRuns(m2, blockCount, 0);
    ExactGapped(all, m2, blockCount);
    runs := Harvest(all, remaining);
    TakenInside(m0, m1, m2, count, blockCount, all, runs);
    m0, m1, m2, count := ClearTaken(m0, m1, m2, count, blockCount, runs);
  }

  function Min(a: int, b: int): (r: int) {
    if a < b then a else b
  }

  lemma CountNonNegative(l0: Level, l1: Level, l2: Level, freeCount: int, blockCount: nat)
    requires Pyramid(l0, l1, l2, freeCount, blockCount)
    ensures freeCount >= 0
  {
  }

  lemma NoRuns(s: set<nat>)
    ensures Gapped([]) && RunSet([]) <= s
  {
  }

  lemma ExactGapped(runs: seq<BlockRun>, l2: Level, blockCount: nat)
    requires Exact(runs, l2, blockCount, blockCount)
    ensures Gapped(runs)
  {
  }

  method ClearTaken(l0: Level, l1: Level, l2: Level, freeCount: int, blockCount: nat, runs: seq<BlockRun>)
    returns (m0: Level, m1: Level, m2: Level, count: int)
    requires Pyramid(l0, l1, l2, freeCount, blockCount) && Gapped(runs) && RunSet(runs) <= FreeSet(l2)
    requires Count(runs) == |RunSet(runs)| && forall i :: 0 <= i < |runs| ==> runs[i].first + runs[i].n <= 64 * |l2|
    ensures Pyramid(m0, m1, m2, count, blockCount) && FreeSet(m2) == FreeSet(l2) - RunSet(runs)
    ensures |m0| == |l0| && |m1| == |l1| && |m2| == |l2|
  {
    m0, m1, m2 := DrainRuns(l0, l1, l2, runs);
    count := freeCount - Count(runs);
    assert |FreeSet(m2)| == |FreeSet(l2)| - |RunSet(runs)|;
    forall x: nat | BitAt(m2, x) ensures x < blockCount {
      assert x in FreeSet(m2);
    }
  }

  // ---------------------------------------------------------------------------
  // The allocator object

  datatype Op =
    | AllocOp(forMeta: bool)
    | BlocksOp(n: nat)
    | RunsOp(n: nat)
    | FreeOp(rel: nat)
    | FreeRunOp(first: nat, n: nat)
    | ReserveOp(rel: nat)
    | ShieldOp(shield: nat)

  // ---------------------------------------------------------------------------
  // What an operation does to the set of free blocks

  datatype Snap = Snap(free: set<nat>, shield: nat)

  /** One block: the least free one, if the shield leaves any. */
  ghost predicate TakesOne(s: Snap, forMeta: bool, got: set<nat>, free: set<nat>) {
    if if forMeta then s.free == {} else |s.free| <= s.shield then got == {} && free == s.free
    else free == s.free - got && exists rel: nat :: IsLeast(s.free, rel) && got == {rel}
  }

  /** n contiguous blocks: the lowest such run, if there is one; block 0 is never free again. */
  ghost predicate TakesBlocks(blockCount: nat, s: Snap, n: nat, got: set<nat>, free: set<nat>) {
    if n == 0 || n > |s.free| - s.shield || n > blockCount then got == {} && free == s.free
    else
      var rest := s.free - {0};
      && free == rest - got
      && if HasRun(rest, n) then exists rel: nat :: LeastRun(rest, rel, n) && got == Span(rel, n) else got == {}
  }

  /** Up to n blocks in runs: as many as are there and the shield leaves. */
  ghost predicate TakesRuns(s: Snap, n: nat, got: set<nat>, free: set<nat>) {
    if n == 0 || |s.free| <= s.shield then got == {} && free == s.free
    else
      var rest := s.free - {0};
      free == rest - got && got <= rest && |got| == Min(Min(n, |s.free| - s.shield), |rest|)
  }

  /** got is what the operation hands out. */
  ghost predicate PoolStep(blockCount: nat, op: Op, s: Snap, got: set<nat>, t: Snap) {
    && t.shield == (if op.ShieldOp? then op.shield else s.shield)
    && match op
       case AllocOp(forMeta) => TakesOne(s, forMeta, got, t.free)
       case BlocksOp(n) => TakesBlocks(blockCount, s, n, got, t.free)
       case RunsOp(n) => TakesRuns(s, n, got, t.free)
       case FreeOp(rel) => got == {} && t.free == s.free + if rel < blockCount then {rel} else {}
       case FreeRunOp(first, n) => got == {} && t.free == s.free + Clipped(first, n, blockCount)
       case ReserveOp(rel) => got == {} && t.free == s.free - {rel}
       case ShieldOp(_) => got == {} && t.free == s.free
  }

  predicate Returns(op: Op, x: nat) {
    match op
    case FreeOp(rel) => rel == x
    case FreeRunOp(first, n) => first <= x < first + n
    case _ => false
  }

  /** What is handed out was free and is not free after; nothing but a free of x makes x free. */
  lemma StepSafe(blockCount: nat, op: Op, s: Snap, got: set<nat>, t: Snap, x: nat)
    requires PoolStep(blockCount, op, s, got, t)
    ensures got <= s.free && t.free !! got
    ensures x in t.free && x !in s.free ==> Returns(op, x)
  {
    match op
    case BlocksOp(n) =>
    case FreeRunOp(first, n) => assert x in Clipped(first, n, blockCount) ==> first <= x < first + n;
    case _ =>
  }

  ghost predicate History(blockCount: nat, ops: seq<Op>, trace: seq<Snap>, gots: seq<set<nat>>) {
    && |trace| == |ops| + 1 && |gots| == |ops|
    && forall k :: 0 <= k < |ops| ==> PoolStep(blockCount, ops[k], trace[k], gots[k], trace[k+1])
  }

  lemma {:induction false} StaysTaken(blockCount: nat, ops: seq<Op>, trace: seq<Snap>, gots: seq<set<nat>>, j: nat,
                                      k: nat, x: nat)
    requires History(blockCount, ops, trace, gots) && j <= k <= |ops| && x !in trace[j].free
    requires forall m :: j <= m < k ==> !Returns(ops[m], x)
    ensures x !in trace[k].free
    decreases k - j
  {
    if j < k {
      StepSafe(blockCount, ops[j], trace[j], gots[j], trace[j+1], x);
      StaysTaken(blockCount, ops, trace, gots, j + 1, k, x);
    }
  }

  /** In every history a block is handed out again only after it was freed in between. */
  lemma NeverTwice(blockCount: nat, ops: seq<Op>, trace: seq<Snap>, gots: seq<set<nat>>, j: nat, k: nat, x: nat)
    requires History(blockCount, ops, trace, gots) && j < k < |ops| && x in gots[j] && x in gots[k]
    ensures exists m :: (
      j < m < k && (ops[m] == FreeOp(x) || (ops[m].FreeRunOp? && ops[m].first <= x < ops[m].first + ops[m].n)))
  {
    if forall m :: j < m < k ==> !Returns(ops[m], x) {
      StepSafe(blockCount, ops[j], trace[j], gots[j], trace[j+1], x);
      StaysTaken(blockCount, ops, trace, gots, j + 1, k, x);
      StepSafe(blockCount, ops[k], trace[k], gots[k], trace[k+1], x);
    }
  }

  /** Takes blocks for data: held to the shield. */
  predicate ForData(op: Op) {
    op.BlocksOp? || op.RunsOp? || (op.AllocOp? && !op.forMeta)
  }

  /** In every history a data request that gets blocks leaves as many free as the shield holds, those it hands
      out not counted. */
  lemma DataAboveShield(blockCount: nat, ops: seq<Op>, trace: seq<Snap>, gots: seq<set<nat>>, k: nat)
    requires History(blockCount, ops, trace, gots) && k < |ops| && ForData(ops[k]) && gots[k] != {}
    ensures |gots[k]| + trace[k].shield <= |trace[k].free|
  {
    StepAboveShield(blockCount, ops[k], trace[k], gots[k], trace[k+1]);
  }

  lemma StepAboveShield(blockCount: nat, op: Op, s: Snap, got: set<nat>, t: Snap)
    requires PoolStep(blockCount, op, s, got, t) && ForData(op)
    ensures got != {} ==> |got| + s.shield <= |s.free|
  {
    if op.BlocksOp? && got != {} {
      var rel: nat :| LeastRun(s.free - {0}, rel, op.n) && got == Span(rel, op.n);
      SpanSize(rel, op.n);
    }
  }

  /** Data requests and frees alone never bring the free blocks below the shield, so that as long as it is not
      empty a metadata request gets a block. */
  lemma {:induction false} ShieldKept(blockCount: nat, ops: seq<Op>, trace: seq<Snap>, gots: seq<set<nat>>, k: nat)
    requires History(blockCount, ops, trace, gots) && k <= |ops| && 0 !in trace[0].free
    requires |trace[0].free| >= trace[0].shield
    requires forall j :: 0 <= j < k ==>
      (ForData(ops[j]) || ops[j].FreeOp? || ops[j].FreeRunOp?) && !Returns(ops[j], 0)
    ensures |trace[k].free| >= trace[k].shield == trace[0].shield && 0 !in trace[k].free
    ensures k < |ops| && ops[k] == AllocOp(true) && trace[0].shield > 0 ==> gots[k] != {}
  {
    if k > 0 {
      ShieldKept(blockCount, ops, trace, gots, k - 1);
      var s, t, got := trace[k-1], trace[k], gots[k-1];
      assert PoolStep(blockCount, ops[k-1], s, got, t);
      StepSafe(blockCount, ops[k-1], s, got, t, 0);
      ShieldStep(blockCount, ops[k-1], s, got, t);
    }
    if k < |ops| { assert PoolStep(blockCount, ops[k], trace[k], gots[k], trace[k+1]); }
  }

  lemma ShieldStep(blockCount: nat, op: Op, s: Snap, got: set<nat>, t: Snap)
    requires PoolStep(blockCount, op, s, got, t) && 0 !in s.free && |s.free| >= s.shield
    requires ForData(op) || op.FreeOp? || op.FreeRunOp?
    ensures |t.free| >= t.shield == s.shield
  {
    hide Span, LeastRun, HasRun, Clipped, IsLeast, Min;
    assert s.free - {0} == s.free;
    if ForData(op) {
      StepAboveShield(blockCount, op, s, got, t);
      StepSafe(blockCount, op, s, got, t, 0);
      assert t.free == s.free - got;
      hide PoolStep;
      assert |t.free| == |s.free| - |got|;
    } else {
      assert s.free <= t.free;
      SubsetSize(s.free, t.free);
    }
  }

  lemma Extended(blockCount: nat, ops: seq<Op>, n: nat, trace: seq<Snap>, gots: seq<set<nat>>, got: set<nat>, t: Snap)
    requires n < |ops| && History(blockCount, ops[..n], trace, gots) && PoolStep(blockCount, ops[n], trace[n], got, t)
    ensures History(blockCount, ops[..n+1], trace + [t], gots + [got])
  {
    hide PoolStep;
    var trace', gots' := trace + [t], gots + [got];
    forall k | 0 <= k < n + 1 ensures PoolStep(blockCount, ops[..n+1][k], trace'[k], gots'[k], trace'[k+1]) {
      if k < n { assert PoolStep(blockCount, ops[..n][k], trace[k], gots[k], trace[k+1]); }
    }
  }

  class Pool {
    var l0: Level
    var l1: Level
    var l2: Level
    var freeCount: int
    var metaShield: nat
    const blockCount: nat

    /** AllocLevelWords fixes the level sizes; the bitmap is a pyramid. */
    ghost predicate Valid()
      reads this
    {
      && blockCount > 0 && |l2| == (blockCount + 63) / 64 && |l1| == (|l2| + 63) / 64 && |l0| == (|l1| + 63) / 64
      && Pyramid(l0, l1, l2, freeCount, blockCount)
    }

    ghost function Free(): (r: set<nat>)
      reads this
    {
      FreeSet(l2)
    }

    /** OpenAllocator over a well-formed pool. */
    constructor (l0: Level, l1: Level, l2: Level, freeCount: int, blockCount: nat)
      requires blockCount > 0 && |l2| == (blockCount + 63) / 64 && |l1| == (|l2| + 63) / 64 && |l0| == (|l1| + 63) / 64
      requires Pyramid(l0, l1, l2, freeCount, blockCount)
      ensures Valid() && Free() == FreeSet(l2) && metaShield == 0 && this.blockCount == blockCount
    {
      this.l0, this.l1, this.l2, this.freeCount, this.blockCount, metaShield := l0, l1, l2, freeCount, blockCount, 0;
    }

    /** AllocBlock and AllocBlockMeta: the least free block, or 0 when the shield leaves none. With
        block 0 reserved the result tells the two apart. */
    method AllocBlock(forMeta: bool) returns (rel: nat)
      requires Valid()
      modifies this
      ensures Valid() && metaShield == old(metaShield)
      ensures !forMeta && old(freeCount) <= metaShield ==> rel == 0 && Free() == old(Free())
      ensures !forMeta && old(freeCount) > metaShield ==> IsLeast(old(Free()), rel) && Free() == old(Free()) - {rel}
      ensures forMeta && old(Free()) == {} ==> rel == 0 && Free() == old(Free())
      ensures forMeta && old(Free()) != {} ==> IsLeast(old(Free()), rel) && Free() == old(Free()) - {rel}
    {
      hide FreeSet, Summary;
      var taken;
      l0, l1, l2, freeCount, taken, rel := TryAllocBlock(l0, l1, l2, freeCount, blockCount, metaShield, forMeta);
    }

    /** AllocBlocks. */
    method AllocBlocks(n: nat) returns (rel: nat)
      requires Valid()
      modifies this
      ensures Valid() && metaShield == old(metaShield)
      ensures n == 0 || n > old(freeCount) - metaShield || n > blockCount ==> rel == 0 && Free() == old(Free())
      ensures 0 < n <= old(freeCount) - metaShield && n <= blockCount ==>
        var free := old(Free()) - {0};
        if HasRun(free, n) then LeastRun(free, rel, n) && rel > 0 && Free() == free - Span(rel, n)
        else rel == 0 && Free() == free
    {
      hide FreeSet, Pyramid, Span;
      if n == 0 {
        return 0;
      }
      l0, l1, l2, freeCount, rel := TryAllocBlocks(l0, l1, l2, freeCount, blockCount, metaShield, n);
    }

    /** AllocRunsUpTo. */
    method AllocRunsUpTo(n: nat) returns (runs: seq<BlockRun>)
      requires Valid()
      modifies this
      ensures Valid() && metaShield == old(metaShield)
      ensures Gapped(runs) && RunSet(runs) <= old(Free()) - {0}
      ensures n == 0 || old(freeCount) <= metaShield ==> runs == [] && Free() == old(Free())
      ensures n > 0 && old(freeCount) > metaShield ==> Free() == old(Free()) - {0} - RunSet(runs)
      ensures n > 0 && old(freeCount) > metaShield ==>
        Count(runs) == Min(Min(n, old(freeCount) - metaShield), |old(Free()) - {0}|)
    {
      hide FreeSet, Pyramid, RunSet, Gapped;
      if n == 0 {
        NoRuns(FreeSet(l2) - {0});
        return [];
      }
      l0, l1, l2, freeCount, runs := TryAllocRunsUpTo(l0, l1, l2, freeCount, blockCount, metaShield, n);
    }

    /** FreeBlock. */
    method FreeBlock(rel: nat)
      requires Valid()
      modifies this
      ensures Valid() && metaShield == old(metaShield)
      ensures Free() == old(Free()) + if rel < blockCount then {rel} else {}
    {
      hide FreeSet, Pyramid;
      var changed;
      l0, l1, l2, freeCount, changed := AllocMarkFree(l0, l1, l2, freeCount, blockCount, rel);
    }

    /** FreeRun: the same as FreeBlock on every block of the run (see BulkEqualsSingles). */
    method FreeRun(first: nat, n: nat)
      requires Valid()
      modifies this
      ensures Valid() && metaShield == old(metaShield)
      ensures Free() == old(Free()) + Clipped(first, n, blockCount)
    {
      hide FreeSet, Pyramid;
      var freed;
      l0, l1, l2, freeCount, freed := AllocMarkFreeRun(l0, l1, l2, freeCount, blockCount, first, n);
    }

    /** ReserveBlock. */
    method ReserveBlock(rel: nat)
      requires Valid()
      modifies this
      ensures Valid() && metaShield == old(metaShield)
      ensures Free() == old(Free()) - {rel}
    {
      hide FreeSet, Pyramid;
      var changed;
      l0, l1, l2, freeCount, changed := AllocMarkAllocated(l0, l1, l2, freeCount, blockCount, rel);
    }

    ghost function State(): (s: Snap)
      reads this
    {
      Snap(Free(), metaShield)
    }

    method TakeOne(forMeta: bool) returns (ghost got: set<nat>)
      requires Valid()
      modifies this
      ensures Valid() && metaShield == old(metaShield) && TakesOne(old(State()), forMeta, got, Free())
    {
      CountExact(l0, l1, l2, freeCount, blockCount);
      hide FreeSet, Pyramid, IsLeast;
      var rel := AllocBlock(forMeta);
      got := if if forMeta then old(freeCount) > 0 else old(freeCount) > metaShield then {rel} else {};
    }

    method TakeBlocks(n: nat) returns (ghost got: set<nat>)
      requires Valid()
      modifies this
      ensures Valid() && metaShield == old(metaShield) && TakesBlocks(blockCount, old(State()), n, got, Free())
    {
      CountExact(l0, l1, l2, freeCount, blockCount);
      hide FreeSet, Pyramid, LeastRun, HasRun, Span;
      var rel := AllocBlocks(n);
      got := if rel > 0 then Span(rel, n) else {};
    }

    method TakeRuns(n: nat) returns (ghost got: set<nat>)
      requires Valid()
      modifies this
      ensures Valid() && metaShield == old(metaShield) && TakesRuns(old(State()), n, got, Free())
    {
      CountExact(l0, l1, l2, freeCount, blockCount);
      hide FreeSet, Pyramid, Gapped, RunSet, Count;
      var runs := AllocRunsUpTo(n);
      CountRuns(runs);
      got := RunSet(runs);
      NothingTaken();
    }

    /** One operation. */
    method Step(op: Op) returns (ghost got: set<nat>)
      requires Valid()
      modifies this
      ensures Valid() && PoolStep(blockCount, op, old(State()), got, State())
    {
      hide FreeSet, Pyramid, TakesOne, TakesBlocks, TakesRuns, Clipped;
      got := {};
      match op {
        case AllocOp(forMeta) => got := TakeOne(forMeta);
        case BlocksOp(n) => got := TakeBlocks(n);
        case RunsOp(n) => got := TakeRuns(n);
        case FreeOp(rel) => FreeBlock(rel);
        case FreeRunOp(first, n) => FreeRun(first, n);
        case ReserveOp(rel) => ReserveBlock(rel);
        case ShieldOp(shield) => metaShield := shield;
      }
    }

    /** Every history keeps the pyramid and an exact free count, and each operation has its effect on the free set. */
    method Run(ops: seq<Op>) returns (ghost trace: seq<Snap>, ghost gots: seq<set<nat>>)
      requires Valid()
      modifies this
      ensures Valid() && freeCount == |Free()|
      ensures History(blockCount, ops, trace, gots) && trace[0] == old(State()) && trace[|ops|] == State()
    {
      hide PoolStep, Pyramid, FreeSet;
      trace, gots := [State()], [];
      for i := 0 to |ops|
        invariant Valid() && History(blockCount, ops[..i], trace, gots) && trace[0] == old(State())
        invariant trace[i] == State()
      {
        ghost var got := Step(ops[i]);
        Extended(blockCount, ops, i, trace, gots, got, State());
        trace, gots := trace + [State()], gots + [got];
      }
      assert ops[..|ops|] == ops;
      CountExact(l0, l1, l2, freeCount, blockCount);
    }
  }

  lemma NothingTaken()
    ensures RunSet([]) == {}
  {
  }

  lemma CountExact(l0: Level, l1: Level, l2: Level, freeCount: int, blockCount: nat)
    requires Pyramid(l0, l1, l2, freeCount, blockCount)
    ensures freeCount == |FreeSet(l2)|
  {
  }
}
