/** The three-level free-block bitmap (briefs/allocator_core.go): a bit of L2 is a free block, a bit of
    L1 or L0 says that a word of the level below is not empty. */
module AllocCore {
  import opened Extents
  import opened Words

  type Level = seq<Word>

  /** Bit x of a level. */
  predicate BitAt(ws: Level, x: nat) {
    x / 64 < |ws| && x % 64 in ws[x / 64]
  }

  predicate WordsOk(ws: Level) {
    forall i :: 0 <= i < |ws| ==> IsWord(ws[i])
  }

  /** Each summary bit is set exactly when its word is not empty. */
  ghost predicate Summary(up: Level, down: Level) {
    && |down| <= 64 * |up|
    && forall i: nat :: BitAt(up, i) <==> i < |down| && down[i] != {}
  }

  function FreeSet(l2: Level): (r: set<nat>) {
    set x: nat | x < 64 * |l2| && BitAt(l2, x)
  }

  lemma FreeSetHas(l2: Level)
    ensures forall x: nat :: x in FreeSet(l2) <==> BitAt(l2, x)
  {
  }

  /** The pyramid invariant: exact summaries, no bit at or past the block count, an exact free count. */
  ghost predicate Pyramid(l0: Level, l1: Level, l2: Level, freeCount: int, blockCount: nat) {
    && WordsOk(l0) && WordsOk(l1) && WordsOk(l2)
    && Summary(l0, l1) && Summary(l1, l2) && blockCount <= 64 * |l2|
    && (forall x: nat :: BitAt(l2, x) ==> x < blockCount)
    && freeCount == |FreeSet(l2)|
  }

  // ---------------------------------------------------------------------------
  // Updates of one level

  function ClearAt(ws: Level, x: nat): (r: Level)
    requires x / 64 < |ws|
  {
    ws[x / 64 := ws[x / 64] - {x % 64}]
  }

  function SetAt(ws: Level, x: nat): (r: Level)
    requires x / 64 < |ws|
  {
    ws[x / 64 := ws[x / 64] + {x % 64}]
  }

  lemma SameBit(x: nat, y: nat)
    ensures x / 64 == y / 64 && x % 64 == y % 64 ==> x == y
  {
  }

  lemma ClearSpec(ws: Level, x: nat)
    requires x / 64 < |ws| && WordsOk(ws)
    ensures WordsOk(ClearAt(ws, x)) && |ClearAt(ws, x)| == |ws|
    ensures forall y: nat :: BitAt(ClearAt(ws, x), y) <==> BitAt(ws, y) && y != x
  {
    forall y: nat ensures BitAt(ClearAt(ws, x), y) <==> BitAt(ws, y) && y != x {
      SameBit(x, y);
    }
  }

  lemma SetSpec(ws: Level, x: nat)
    requires x / 64 < |ws| && WordsOk(ws)
    ensures WordsOk(SetAt(ws, x)) && |SetAt(ws, x)| == |ws|
    ensures forall y: nat :: BitAt(SetAt(ws, x), y) <==> BitAt(ws, y) || y == x
  {
    forall y: nat ensures BitAt(SetAt(ws, x), y) <==> BitAt(ws, y) || y == x {
      SameBit(x, y);
    }
  }

  /** A word changed without becoming or ceasing to be empty. */
  lemma SummaryKeep(up: Level, down: Level, w: nat, v: Word)
    requires Summary(up, down) && w < |down| && (v == {} <==> down[w] == {})
    ensures Summary(up, down[w := v])
  {
  }

  lemma SummaryClear(up: Level, down: Level, w: nat)
    requires Summary(up, down) && w < |down| && WordsOk(up)
    ensures w / 64 < |up| && Summary(ClearAt(up, w), down[w := {}])
  {
    ClearSpec(up, w);
  }

  lemma SummarySet(up: Level, down: Level, w: nat, v: Word)
    requires Summary(up, down) && w < |down| && WordsOk(up) && v != {}
    ensures w / 64 < |up| && Summary(SetAt(up, w), down[w := v])
  {
    SetSpec(up, w);
  }

  // ---------------------------------------------------------------------------
  // Marking one block

  /** The upward half of a clear: word w of down was just emptied. */
  method PropagateEmpty(l0: Level, l1: Level, w: nat, ghost l2: Level) returns (m0: Level, m1: Level)
    requires WordsOk(l0) && WordsOk(l1) && Summary(l0, l1) && Summary(l1, l2) && w < |l2|
    ensures WordsOk(m0) && WordsOk(m1) && Summary(m0, m1) && Summary(m1, l2[w := {}])
    ensures |m0| == |l0| && |m1| == |l1|
  {
    SummaryClear(l1, l2, w);
    ClearSpec(l1, w);
    m0, m1 := l0, ClearAt(l1, w);
    if m1[w / 64] == {} {
      SummaryClear(l0, l1, w / 64);
      ClearSpec(l0, w / 64);
      m0 := ClearAt(l0, w / 64);
      assert m1 == l1[w / 64 := {}];
    } else {
      SummaryKeep(l0, l1, w / 64, m1[w / 64]);
    }
  }

  /** AllocMarkAllocated. */
  method AllocMarkAllocated(l0: Level, l1: Level, l2: Level, freeCount: int, blockCount: nat, rel: nat)
    returns (m0: Level, m1: Level, m2: Level, count: int, changed: bool)
    requires Pyramid(l0, l1, l2, freeCount, blockCount)
    ensures Pyramid(m0, m1, m2, count, blockCount)
    ensures FreeSet(m2) == FreeSet(l2) - {rel}
    ensures changed == (rel in FreeSet(l2))
    ensures |m0| == |l0| && |m1| == |l1| && |m2| == |l2|
  {
    m0, m1, m2, count := l0, l1, l2, freeCount;
    if rel >= blockCount {
      return m0, m1, m2, count, false;
    }
    var w2 := rel / 64;
    if rel % 64 !in l2[w2] {
      return m0, m1, m2, count, false;
    }
    ClearSpec(l2, rel);
    m2 := ClearAt(l2, rel);
    count := count - 1;
    assert FreeSet(m2) == FreeSet(l2) - {rel};
    if m2[w2] == {} {
      m0, m1 := PropagateEmpty(l0, l1, w2, l2);
      assert m2 == l2[w2 := {}];
    } else {
      SummaryKeep(l1, l2, w2, m2[w2]);
    }
    changed := true;
  }

  /** The upward half of a set: word w of down, empty before, is now v. */
  method PropagateFilled(l0: Level, l1: Level, w: nat, ghost l2: Level, ghost v: Word) returns (m0: Level, m1: Level)
    requires WordsOk(l0) && WordsOk(l1) && Summary(l0, l1) && Summary(l1, l2) && w < |l2| && l2[w] == {} != v
    ensures WordsOk(m0) && WordsOk(m1) && Summary(m0, m1) && Summary(m1, l2[w := v])
    ensures |m0| == |l0| && |m1| == |l1|
  {
    SummarySet(l1, l2, w, v);
    SetSpec(l1, w);
    m0, m1 := l0, SetAt(l1, w);
    assert w % 64 !in l1[w / 64] by {
      assert !BitAt(l1, w);
    }
    if m1[w / 64] == {w % 64} {
      SummarySet(l0, l1, w / 64, m1[w / 64]);
      SetSpec(l0, w / 64);
      m0 := SetAt(l0, w / 64);
    } else {
      assert l1[w / 64] != {};
      SummaryKeep(l0, l1, w / 64, m1[w / 64]);
    }
  }

  /** AllocMarkFree. */
  method AllocMarkFree(l0: Level, l1: Level, l2: Level, freeCount: int, blockCount: nat, rel: nat)
    returns (m0: Level, m1: Level, m2: Level, count: int, changed: bool)
    requires Pyramid(l0, l1, l2, freeCount, blockCount)
    ensures Pyramid(m0, m1, m2, count, blockCount)
    ensures FreeSet(m2) == FreeSet(l2) + (if rel < blockCount then {rel} else {})
    ensures changed == (rel < blockCount && rel !in FreeSet(l2)) && count == freeCount + if changed then 1 else 0
    ensures |m0| == |l0| && |m1| == |l1| && |m2| == |l2|
  {
    m0, m1, m2, count := l0, l1, l2, freeCount;
    if rel >= blockCount {
      return m0, m1, m2, count, false;
    }
    var w2 := rel / 64;
    if rel % 64 in l2[w2] {
      assert rel in FreeSet(l2);
      return m0, m1, m2, count, false;
    }
    SetSpec(l2, rel);
    m2 := SetAt(l2, rel);
    count := count + 1;
    assert FreeSet(m2) == FreeSet(l2) + {rel};
    if m2[w2] == {rel % 64} {
      m0, m1 := PropagateFilled(l0, l1, w2, l2, m2[w2]);
    } else {
      assert l2[w2] != {};
      SummaryKeep(l1, l2, w2, m2[w2]);
    }
    changed := true;
  }

  // ---------------------------------------------------------------------------
  // Freeing a run

  /** The blocks that word w's bits stand for. */
  function Lift(w: nat, bits: Word): (r: set<nat>) {
    set x: nat | 64 * w <= x < 64 * w + 64 && InWord(w, bits, x)
  }

  predicate InWord(w: nat, bits: Word, x: nat) {
    x / 64 == w && x % 64 in bits
  }

  lemma {:induction false} LiftCount(w: nat, bits: Word)
    requires IsWord(bits)
    ensures |Lift(w, bits)| == |bits|
  {
    if bits == {} {
      assert Lift(w, bits) == {};
    } else {
      var b :| b in bits;
      LiftCount(w, bits - {b});
      var x := 64 * w + b;
      assert x / 64 == w && x % 64 == b;
      assert Lift(w, bits) == Lift(w, bits - {b}) + {x} && x !in Lift(w, bits - {b});
    }
  }

  lemma FillSpec(l2: Level, w: nat, mask: Word)
    requires WordsOk(l2) && w < |l2| && IsWord(mask)
    ensures WordsOk(l2[w := l2[w] + mask])
    ensures FreeSet(l2[w := l2[w] + mask]) == FreeSet(l2) + Lift(w, mask)
    ensures |FreeSet(l2[w := l2[w] + mask])| == |FreeSet(l2)| + |mask - l2[w]|
  {
    var added := mask - l2[w];
    LiftCount(w, added);
    assert FreeSet(l2[w := l2[w] + mask]) == FreeSet(l2) + Lift(w, mask);
    assert FreeSet(l2) + Lift(w, mask) == FreeSet(l2) + Lift(w, added) && FreeSet(l2) !! Lift(w, added);
  }

  lemma DrainSpec(l2: Level, w: nat, mask: Word)
    requires WordsOk(l2) && w < |l2| && IsWord(mask)
    ensures WordsOk(l2[w := l2[w] - mask])
    ensures FreeSet(l2[w := l2[w] - mask]) == FreeSet(l2) - Lift(w, mask)
  {
  }

  /** The part of [first, first + n) in words before w. */
  function Before(first: nat, n: nat, w: nat): (r: set<nat>) {
    set x | x in Span(first, n) && x / 64 < w
  }

  /** One word of a run: its bits are those between the word's cut of the run. */
  lemma BeforeStep(first: nat, n: nat, w: nat, mask: Word)
    requires n > 0 && first / 64 <= w <= (first + n - 1) / 64
    requires mask == Mask(if w == first / 64 then first % 64
      else 0, if w == (first + n - 1) / 64 then (first + n - 1) % 64 + 1 else 64)
    ensures Before(first, n, w + 1) == Before(first, n, w) + Lift(w, mask)
  {
    forall x: nat ensures x in Before(first, n, w + 1) <==> x in Before(first, n, w) + Lift(w, mask) {
      if x / 64 == w {
        assert Between(if w == first / 64 then first % 64
          else 0, if w == (first + n - 1) / 64 then (first + n - 1) % 64 + 1 else 64, x % 64)
          <==> InSpan(first, n, x);
      }
    }
  }

  lemma BeforeAll(first: nat, n: nat)
    requires n > 0
    ensures Before(first, n, first / 64) == {} && Before(first, n, (first + n - 1) / 64 + 1) == Span(first, n)
  {
  }

  /** [first, first + n) below the block count. */
  function Clipped(first: nat, n: nat, blockCount: nat): (r: set<nat>) {
    set x | x in Span(first, n) && x < blockCount
  }

  lemma ClippedRun(first: nat, n: nat, blockCount: nat)
    requires first < blockCount
    ensures Clipped(first, n, blockCount) == Span(first, if n > blockCount - first then blockCount - first else n)
  {
    var len := if n > blockCount - first then blockCount - first else n;
    assert forall x: nat :: InSpan(first, n, x) && x < blockCount <==> InSpan(first, len, x);
  }

  lemma ClippedNone(first: nat, n: nat, blockCount: nat)
    requires n == 0 || first >= blockCount
    ensures Clipped(first, n, blockCount) == {}
  {
  }

  lemma ClippedStep(first: nat, n: nat, blockCount: nat)
    ensures Clipped(first, n + 1, blockCount) == Clipped(first, n, blockCount) + if first + n < blockCount then
      {first + n} else {}
  {
    assert forall x: nat :: InSpan(first, n + 1, x) <==> InSpan(first, n, x) || x == first + n;
  }

  lemma LastWord(l0: Level, l1: Level, l2: Level, freeCount: int, blockCount: nat, x: nat)
    requires Pyramid(l0, l1, l2, freeCount, blockCount) && x < blockCount
    ensures x / 64 < |l2|
  {
  }

  /** AllocMarkFreeRun: one pass over the touched words frees exactly the blocks of the run that are
      below the block count. */
  method AllocMarkFreeRun(l0: Level, l1: Level, l2: Level, freeCount: int, blockCount: nat, first: nat, n: nat)
    returns (m0: Level, m1: Level, m2: Level, count: int, freed: nat)
    requires Pyramid(l0, l1, l2, freeCount, blockCount)
    ensures Pyramid(m0, m1, m2, count, blockCount)
    ensures FreeSet(m2) == FreeSet(l2) + Clipped(first, n, blockCount)
    ensures freed == count - freeCount
    ensures |m0| == |l0| && |m1| == |l1| && |m2| == |l2|
  {
    hide Pyramid, FreeSet, Before, Lift, Span, Clipped, Mask;
    m0, m1, m2, count, freed := l0, l1, l2, freeCount, 0;
    if n == 0 || first >= blockCount {
      ClippedNone(first, n, blockCount);
      return;
    }
    var len := if n > blockCount - first then blockCount - first else n;
    ClippedRun(first, n, blockCount);
    LastWord(l0, l1, l2, freeCount, blockCount, first + len - 1);
    var wStart, wEnd := first / 64, (first + len - 1) / 64;
    BeforeAll(first, len);
    var w := wStart;
    while w <= wEnd
      invariant wStart <= w <= wEnd + 1 && wEnd < |l2|
      invariant |m0| == |l0| && |m1| == |l1| && |m2| == |l2|
      invariant Pyramid(m0, m1, m2, count, blockCount)
      invariant FreeSet(m2) == FreeSet(l2) + Before(first, len, w)
      invariant freed == count - freeCount
      decreases wEnd + 1 - w
    {
      var mask := Mask(if w == wStart then first % 64 else 0, if w == wEnd then (first + len - 1) % 64 + 1 else 64);
      BeforeStep(first, len, w, mask);
      BeforeBound(first, len, w + 1, blockCount);
      var was := count;
      m0, m1, m2, count := FillWord(m0, m1, m2, count, blockCount, w, mask);
      freed := freed + (count - was);
      w := w + 1;
    }
  }

  lemma BeforeBound(first: nat, n: nat, w: nat, blockCount: nat)
    requires first + n <= blockCount
    ensures forall x :: x in Before(first, n, w) ==> x < blockCount
  {
  }

  /** The body of the bulk-free loop: the bits of mask not yet set are freed and counted. */
  method FillWord(l0: Level, l1: Level, l2: Level, freeCount: int, blockCount: nat, w: nat, mask: Word)
    returns (m0: Level, m1: Level, m2: Level, count: int)
    requires Pyramid(l0, l1, l2, freeCount, blockCount) && w < |l2| && IsWord(mask)
    requires forall x :: x in Lift(w, mask) ==> x < blockCount
    ensures Pyramid(m0, m1, m2, count, blockCount) && count >= freeCount
    ensures FreeSet(m2) == FreeSet(l2) + Lift(w, mask)
    ensures |m0| == |l0| && |m1| == |l1| && |m2| == |l2|
  {
    m0, m1, m2, count := l0, l1, l2, freeCount;
    var added := mask - l2[w];
    FillSpec(l2, w, mask);
    if added == {} {
      forall b | b in mask ensures b in l2[w] {
        assert b !in added;
      }
      assert l2[w] + mask == l2[w];
      return;
    }
    m0, m1 := FillUp(l0, l1, l2, w, mask);
    m2 := l2[w := l2[w] + mask];
    count := count + |added|;
    assert forall x: nat :: BitAt(m2, x) <==> x in FreeSet(m2);
  }

  /** A word goes from empty to not: its L1 bit was clear; if the L1 word was empty too, so was the L0 bit. */
  method FillUp(l0: Level, l1: Level, l2: Level, w: nat, mask: Word) returns (m0: Level, m1: Level)
    requires WordsOk(l0) && WordsOk(l1) && Summary(l0, l1) && Summary(l1, l2) && w < |l2| && mask != {}
    ensures WordsOk(m0) && WordsOk(m1) && Summary(m0, m1) && Summary(m1, l2[w := l2[w] + mask])
    ensures |m0| == |l0| && |m1| == |l1|
  {
    m0, m1 := l0, l1;
    if l2[w] == {} {
      SummarySet(l1, l2, w, l2[w] + mask);
      SetSpec(l1, w);
      if l1[w / 64] == {} {
        SummarySet(l0, l1, w / 64, l1[w / 64] + {w % 64});
        SetSpec(l0, w / 64);
        m0 := SetAt(l0, w / 64);
      } else {
        SummaryKeep(l0, l1, w / 64, l1[w / 64] + {w % 64});
      }
      m1 := SetAt(l1, w);
    } else {
      SummaryKeep(l1, l2, w, l2[w] + mask);
    }
  }

  // ---------------------------------------------------------------------------
  // The pyramid is determined by its free set

  lemma LevelEqual(a: Level, c: Level)
    requires WordsOk(a) && WordsOk(c) && |a| == |c| && (forall x: nat :: BitAt(a, x) <==> BitAt(c, x))
    ensures a == c
  {
    forall i | 0 <= i < |a| ensures a[i] == c[i] {
      forall b: nat ensures b in a[i] <==> b in c[i] {
        var x := 64 * i + b;
        assert b < 64 ==> x / 64 == i && x % 64 == b;
        assert BitAt(a, x) <==> BitAt(c, x);
      }
    }
  }

  /** Two pyramids of the same size with the same free blocks are equal word for word. */
  lemma Canonical(a0: Level, a1: Level, a2: Level, m: int, c0: Level, c1: Level, c2: Level, n: int, blockCount: nat)
    requires Pyramid(a0, a1, a2, m, blockCount) && Pyramid(c0, c1, c2, n, blockCount)
    requires |a0| == |c0| && |a1| == |c1| && |a2| == |c2| && FreeSet(a2) == FreeSet(c2)
    ensures a0 == c0 && a1 == c1 && a2 == c2 && m == n
  {
    forall x: nat ensures BitAt(a2, x) <==> BitAt(c2, x) {
      assert x in FreeSet(a2) <==> x in FreeSet(c2);
    }
    LevelEqual(a2, c2);
    LevelEqual(a1, c1);
    LevelEqual(a0, c0);
  }

  /** n calls of AllocMarkFree. */
  method FreeOneByOne(l0: Level, l1: Level, l2: Level, freeCount: int, blockCount: nat, first: nat, n: nat)
    returns (m0: Level, m1: Level, m2: Level, count: int, freed: nat)
    requires Pyramid(l0, l1, l2, freeCount, blockCount)
    ensures Pyramid(m0, m1, m2, count, blockCount)
    ensures FreeSet(m2) == FreeSet(l2) + Clipped(first, n, blockCount)
    ensures freed == count - freeCount
    ensures |m0| == |l0| && |m1| == |l1| && |m2| == |l2|
  {
    hide Pyramid, FreeSet, Clipped;
    m0, m1, m2, count, freed := l0, l1, l2, freeCount, 0;
    ClippedNone(first, 0, blockCount);
    for i := 0 to n
      invariant Pyramid(m0, m1, m2, count, blockCount)
      invariant FreeSet(m2) == FreeSet(l2) + Clipped(first, i, blockCount) && freed == count - freeCount
      invariant |m0| == |l0| && |m1| == |l1| && |m2| == |l2|
    {
      var changed;
      m0, m1, m2, count, changed := AllocMarkFree(m0, m1, m2, count, blockCount, first + i);
      freed := freed + if changed then 1 else 0;
      ClippedStep(first, i, blockCount);
    }
  }

  /** The bulk free leaves the same three levels and count as n single frees, and reports as many freed blocks. */
  method BulkEqualsSingles(l0: Level, l1: Level, l2: Level, freeCount: int, blockCount: nat, first: nat, n: nat)
    returns (bulk: (Level, Level, Level, int, nat), singles: (Level, Level, Level, int, nat))
    requires Pyramid(l0, l1, l2, freeCount, blockCount)
    ensures bulk == singles && FreeSet(bulk.2) == FreeSet(l2) + Clipped(first, n, blockCount)
    ensures bulk.4 == bulk.3 - freeCount
  {
    var a0, a1, a2, m, x := AllocMarkFreeRun(l0, l1, l2, freeCount, blockCount, first, n);
    var c0, c1, c2, k, y := FreeOneByOne(l0, l1, l2, freeCount, blockCount, first, n);
    Canonical(a0, a1, a2, m, c0, c1, c2, k, blockCount);
    return (a0, a1, a2, m, x), (c0, c1, c2, k, y);
  }
}
