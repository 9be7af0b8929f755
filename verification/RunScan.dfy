/** The scan for maximal runs of free blocks (fuse/fs.go scanMaximalRuns). */
module RunScan {
  import opened AllocCore
  import opened Extents
  import opened Runs
  import opened Words

  predicate IsFree(l2: Level, blockCount: nat, x: nat) {
    BitAt(l2, x) && x < blockCount
  }

  /** Ascending runs with at least one block between neighbours. */
  predicate Gapped(runs: seq<BlockRun>) {
    && (forall i :: 0 <= i < |runs| ==> runs[i].n > 0)
    && forall i, j :: 0 <= i < j < |runs| ==> runs[i].first + runs[i].n < runs[j].first
  }

  /** The runs hold exactly the free blocks below p. */
  ghost predicate Exact(runs: seq<BlockRun>, l2: Level, blockCount: nat, p: nat) {
    && Gapped(runs)
    && forall x: nat :: InRuns(runs, x) <==> IsFree(l2, blockCount, x) && x < p
  }

  ghost predicate AllFree(l2: Level, blockCount: nat, s: nat, n: nat) {
    forall x: nat :: InSpan(s, n, x) ==> IsFree(l2, blockCount, x)
  }

  // ---------------------------------------------------------------------------
  // What exact runs mean

  lemma InRun(runs: seq<BlockRun>, i: nat, x: nat)
    requires i < |runs| && InSpan(runs[i].first, runs[i].n, x)
    ensures InRuns(runs, x)
  {
  }

  /** The blocks just past a run, and just before it, are in no run. */
  lemma RunEdges(runs: seq<BlockRun>, i: nat)
    requires Gapped(runs) && i < |runs|
    ensures !InRuns(runs, runs[i].first + runs[i].n)
    ensures runs[i].first > 0 ==> !InRuns(runs, runs[i].first - 1)
  {
    var r := runs[i];
    forall k | 0 <= k < |runs|
      ensures !InSpan(runs[k].first, runs[k].n, r.first + r.n)
      ensures (r.first > 0 ==> !InSpan(runs[k].first, runs[k].n, r.first - 1))
    {
      if k < i {
        assert runs[k].first + runs[k].n < runs[i].first;
      } else if i < k {
        assert runs[i].first + runs[i].n < runs[k].first;
      }
    }
  }

  /** Every listed run is a maximal free run. */
  lemma ListedIsMaximal(runs: seq<BlockRun>, l2: Level, blockCount: nat, i: nat)
    requires Exact(runs, l2, blockCount, blockCount) && i < |runs|
    ensures AllFree(l2, blockCount, runs[i].first, runs[i].n)
    ensures !IsFree(l2, blockCount, runs[i].first + runs[i].n)
    ensures runs[i].first > 0 ==> !IsFree(l2, blockCount, runs[i].first - 1)
  {
    RunEdges(runs, i);
    forall x: nat | InSpan(runs[i].first, runs[i].n, x) ensures IsFree(l2, blockCount, x) {
      InRun(runs, i, x);
    }
  }

  lemma {:induction false} StaysInRun(runs: seq<BlockRun>, l2: Level, blockCount: nat, p: nat, i: nat, s: nat, n: nat)
    requires Exact(runs, l2, blockCount, p) && i < |runs| && InSpan(runs[i].first, runs[i].n, s)
    requires AllFree(l2, blockCount, s, n) && s + n <= p
    ensures s + n <= runs[i].first + runs[i].n
  {
    var end := runs[i].first + runs[i].n;
    RunEdges(runs, i);
    var free := IsFree(l2, blockCount, end);
    assert InRuns(runs, end) <==> free && end < p;
    assert InSpan(s, n, end) <==> s <= end < s + n;
  }

  /** Every maximal free run is listed. */
  lemma MaximalIsListed(runs: seq<BlockRun>, l2: Level, blockCount: nat, s: nat, n: nat)
    requires Exact(runs, l2, blockCount, blockCount) && n > 0 && AllFree(l2, blockCount, s, n)
    requires !IsFree(l2, blockCount, s + n) && (s > 0 ==> !IsFree(l2, blockCount, s - 1))
    ensures BlockRun(s, n) in runs
  {
    assert InSpan(s, n, s) && InSpan(s, n, s + n - 1);
    var i :| 0 <= i < |runs| && runs[i].first <= s < runs[i].first + runs[i].n;
    var r := runs[i];
    StaysInRun(runs, l2, blockCount, blockCount, i, s, n);
    assert InSpan(r.first, r.n, s + n) <==> s + n < r.first + r.n;
    assert s > 0 ==> (InSpan(r.first, r.n, s - 1) <==> r.first < s);
    ListedIsMaximal(runs, l2, blockCount, i);
    assert r == BlockRun(s, n);
  }

  /** If every run but the last is shorter than n and the last reaches n, the last run's start is the
      least start of n free blocks in a row. */
  lemma LeastStart(runs: seq<BlockRun>, l2: Level, blockCount: nat, n: nat, s: nat)
    requires runs != [] && n > 0
    requires Exact(runs, l2, blockCount, runs[|runs|-1].first + runs[|runs|-1].n)
    requires forall i :: 0 <= i < |runs| - 1 ==> runs[i].n < n
    requires runs[|runs|-1].n >= n && AllFree(l2, blockCount, s, n)
    ensures runs[|runs|-1].first <= s
  {
    var last := runs[|runs|-1];
    if s < last.first {
      assert InSpan(s, n, s);
      var i :| 0 <= i < |runs| && runs[i].first <= s < runs[i].first + runs[i].n;
      assert runs[i].first + runs[i].n < last.first;
      RunEdges(runs, i);
      assert InSpan(s, n, runs[i].first + runs[i].n);
    }
  }

  /** If every run is shorter than n, no n blocks in a row are free. */
  lemma NoneLongEnough(runs: seq<BlockRun>, l2: Level, blockCount: nat, n: nat, s: nat)
    requires Exact(runs, l2, blockCount, blockCount) && n > 0
    requires forall i :: 0 <= i < |runs| ==> runs[i].n < n
    ensures !AllFree(l2, blockCount, s, n)
  {
    if AllFree(l2, blockCount, s, n) {
      assert InSpan(s, n, s) && InSpan(s, n, s + n - 1);
      var i :| 0 <= i < |runs| && runs[i].first <= s < runs[i].first + runs[i].n;
      StaysInRun(runs, l2, blockCount, blockCount, i, s, n);
    }
  }

  // ---------------------------------------------------------------------------
  // Building the list

  lemma ExactSkip(runs: seq<BlockRun>, l2: Level, blockCount: nat, p: nat, q: nat)
    requires Exact(runs, l2, blockCount, p) && p <= q
    requires forall x: nat :: p <= x < q ==> !IsFree(l2, blockCount, x)
    ensures Exact(runs, l2, blockCount, q)
  {
  }

  lemma RunsEndBy(runs: seq<BlockRun>, l2: Level, blockCount: nat, p: nat, i: nat)
    requires Exact(runs, l2, blockCount, p) && i < |runs|
    ensures runs[i].first + runs[i].n <= p
  {
    InRun(runs, i, runs[i].first + runs[i].n - 1);
  }

  lemma GappedAdd(runs: seq<BlockRun>, s: nat, n: nat)
    requires Gapped(runs) && n > 0 && (runs != [] ==> runs[|runs|-1].first + runs[|runs|-1].n <= s)
    ensures Gapped(AddRun(runs, s, n))
  {
    var r := AddRun(runs, s, n);
    forall i, j | 0 <= i < j < |r| ensures r[i].first + r[i].n < r[j].first {
      if i < |runs| - 1 {
        assert runs[i].first + runs[i].n < runs[|runs|-1].first;
      }
    }
  }

  /** A run of free blocks from s, with none free between p and s, extends the list. */
  lemma ExactAdd(runs: seq<BlockRun>, l2: Level, blockCount: nat, p: nat, s: nat, n: nat)
    requires Exact(runs, l2, blockCount, p) && p <= s && n > 0
    requires (forall x: nat :: p <= x < s ==> !IsFree(l2, blockCount, x)) && AllFree(l2, blockCount, s, n)
    ensures Exact(AddRun(runs, s, n), l2, blockCount, s + n)
  {
    hide AddRun, IsFree;
    if runs != [] {
      RunsEndBy(runs, l2, blockCount, p, |runs| - 1);
    }
    GappedAdd(runs, s, n);
    AddRunSpec(runs, s, n);
    forall x: nat ensures InRuns(AddRun(runs, s, n), x) <==> IsFree(l2, blockCount, x) && x < s + n {
      assert x in RunSet(AddRun(runs, s, n)) <==> x in RunSet(runs) + Span(s, n);
      assert InSpan(s, n, x) <==> s <= x < s + n;
    }
  }

  /** The closed runs and the open one. */
  function All(runs: seq<BlockRun>, start: nat, len: nat): (r: seq<BlockRun>) {
    if len > 0 then runs + [BlockRun(start, len)] else runs
  }

  /** The word the scan looks at: the last one is masked to the block count. */
  function Masked(l2: Level, blockCount: nat, w: nat): (r: Word)
    requires w < |l2|
  {
    if w == |l2| - 1 && blockCount % 64 != 0 then l2[w] * Mask(0, blockCount % 64) else l2[w]
  }

  lemma MaskedSpec(l2: Level, blockCount: nat, w: nat, x: nat)
    requires WordsOk(l2) && blockCount > 0 && |l2| == (blockCount + 63) / 64 && w < |l2| && x / 64 == w
    ensures x % 64 in Masked(l2, blockCount, w) <==> IsFree(l2, blockCount, x)
    ensures IsWord(Masked(l2, blockCount, w))
  {
    assert Between(0, blockCount % 64, x % 64) <==> x % 64 < blockCount % 64;
  }

  /** What the scan knows when every block below p is behind it: the runs found are exact, and with a
      minimum length none reaches it. */
  ghost predicate Scanned(l2: Level, blockCount: nat, minLen: nat, runs: seq<BlockRun>, start: nat, len: nat, p: nat) {
    && Exact(All(runs, start, len), l2, blockCount, p)
    && (minLen > 0 ==> len < minLen && forall i :: 0 <= i < |runs| ==> runs[i].n < minLen)
    && (len == 0 && runs != [] ==> runs[|runs|-1].first + runs[|runs|-1].n < p)
  }

  /** The outcome: all maximal runs, or with a minimum length the runs up to the first that reaches it. */
  ghost predicate Outcome(l2: Level, blockCount: nat, minLen: nat, runs: seq<BlockRun>) {
    if minLen == 0 || (forall i :: 0 <= i < |runs| ==> runs[i].n < minLen) then Exact(runs, l2, blockCount, blockCount)
    else
      && Exact(runs, l2, blockCount, runs[|runs|-1].first + runs[|runs|-1].n)
      && runs[|runs|-1].n >= minLen && forall i :: 0 <= i < |runs| - 1 ==> runs[i].n < minLen
  }

  /** One segment of set bits [s, s + cnt), reached with nothing free since p. */
  method TakeSegment(l2: Level, blockCount: nat, minLen: nat, runs: seq<BlockRun>, start: nat, len: nat,
                     ghost p: nat, s: nat, cnt: nat)
    returns (runs': seq<BlockRun>, start': nat, len': nat)
    requires Scanned(l2, blockCount, minLen, runs, start, len, p) && p <= s && cnt > 0
    requires (forall x: nat :: p <= x < s ==> !IsFree(l2, blockCount, x)) && AllFree(l2, blockCount, s, cnt)
    ensures Exact(All(runs', start', len'), l2, blockCount, s + cnt) && len' > 0 && start' + len' == s + cnt
    ensures minLen > 0 ==> forall i :: 0 <= i < |runs'| ==> runs'[i].n < minLen
  {
    ExactAdd(All(runs, start, len), l2, blockCount, p, s, cnt);
    if len > 0 && s == start + len {
      runs', start', len' := runs, start, len + cnt;
      assert AddRun(All(runs, start, len), s, cnt) == All(runs', start', len');
    } else {
      runs', start', len' := All(runs, start, len), s, cnt;
      if runs != [] && len == 0 {
        assert runs[|runs|-1].first + runs[|runs|-1].n < s;
      }
      assert AddRun(All(runs, start, len), s, cnt) == All(runs', start', len');
    }
  }

  lemma NothingYet(l2: Level, blockCount: nat)
    ensures Exact([], l2, blockCount, 0)
  {
  }

  lemma EmptyWord(l2: Level, blockCount: nat, all: seq<BlockRun>, w: nat)
    requires WordsOk(l2) && blockCount > 0 && |l2| == (blockCount + 63) / 64 && w < |l2|
    requires Masked(l2, blockCount, w) == {}
    requires Exact(all, l2, blockCount, 64 * w)
    ensures Exact(all, l2, blockCount, 64 * w + 64)
    ensures all != [] ==> all[|all|-1].first + all[|all|-1].n <= 64 * w
  {
    forall x: nat | 64 * w <= x < 64 * w + 64 ensures !IsFree(l2, blockCount, x) {
      MaskedSpec(l2, blockCount, w, x);
    }
    ExactSkip(all, l2, blockCount, 64 * w, 64 * w + 64);
    if all != [] {
      RunsEndBy(all, l2, blockCount, 64 * w, |all| - 1);
    }
  }

  lemma ScanEnd(l2: Level, blockCount: nat, all: seq<BlockRun>)
    requires Exact(all, l2, blockCount, 64 * |l2|)
    ensures Exact(all, l2, blockCount, blockCount)
  {
  }

  predicate AtLeast(q: nat, b: nat) {
    b >= q
  }

  function Upper(word: Word, q: nat): (r: Word) {
    set b | b in word && AtLeast(q, b)
  }

  lemma UpperAll(word: Word)
    ensures Upper(word, 0) == word
  {
    assert forall b: nat :: AtLeast(0, b);
  }

  lemma UpperStep(word: Word, q: nat, b: nat, cnt: nat)
    requires IsWord(word) && q <= b && b + cnt <= 64 && forall c: nat :: q <= c < b ==> c !in word
    ensures Upper(word, b + cnt) == Upper(word, q) - Mask(b, b + cnt)
    ensures cnt >= 64 ==> Upper(word, b + cnt) == {}
  {
    var l, r := Upper(word, b + cnt), Upper(word, q) - Mask(b, b + cnt);
    forall c | c in l ensures c in r {
      assert AtLeast(q, c) && !Between(b, b + cnt, c);
    }
    forall c | c in r ensures c in l {
      assert c !in Mask(b, b + cnt) && !Between(b, b + cnt, c);
      assert AtLeast(b + cnt, c);
    }
  }

  /** The next run of set bits in a word, found by the two bit counts. */
  lemma SegmentBits(word: Word, q: nat, wbits: Word)
    requires IsWord(word) && wbits == Upper(word, q) && wbits != {}
    ensures var b := TrailingZeros(wbits); var cnt := TrailingZeros(Not(ShiftRight(wbits, b)));
      && q <= b && 1 <= cnt && b + cnt <= 64
      && (forall c: nat :: b <= c < b + cnt ==> c in word) && (forall c: nat :: q <= c < b ==> c !in word)
  {
    LowestBit(wbits);
    var b := TrailingZeros(wbits);
    assert b in wbits && AtLeast(q, b);
    RunLength(wbits, b);
    var cnt := TrailingZeros(Not(ShiftRight(wbits, b)));
    forall c: nat | b <= c < b + cnt ensures c in word {
      assert c in wbits;
    }
    forall c: nat | q <= c < b ensures c !in word {
      assert c !in wbits && AtLeast(q, c);
    }
  }

  lemma SegmentFree(l2: Level, blockCount: nat, w: nat, word: Word, q: nat, b: nat, cnt: nat)
    requires WordsOk(l2) && blockCount > 0 && |l2| == (blockCount + 63) / 64 && w < |l2|
    requires word == Masked(l2, blockCount, w)
    requires q <= b && b + cnt <= 64
    requires (forall c: nat :: b <= c < b + cnt ==> c in word) && (forall c: nat :: q <= c < b ==> c !in word)
    ensures AllFree(l2, blockCount, 64 * w + b, cnt)
    ensures forall x: nat :: 64 * w + q <= x < 64 * w + b ==> !IsFree(l2, blockCount, x)
  {
    hide Masked, IsFree;
    forall x: nat | InSpan(64 * w + b, cnt, x) ensures IsFree(l2, blockCount, x) {
      assert x / 64 == w && x % 64 == x - 64 * w;
      MaskedSpec(l2, blockCount, w, x);
    }
    forall x: nat | 64 * w + q <= x < 64 * w + b ensures !IsFree(l2, blockCount, x) {
      assert x / 64 == w && x % 64 == x - 64 * w;
      MaskedSpec(l2, blockCount, w, x);
    }
  }

  lemma RestEmpty(l2: Level, blockCount: nat, all: seq<BlockRun>, w: nat, word: Word, q: nat)
    requires WordsOk(l2) && blockCount > 0 && |l2| == (blockCount + 63) / 64 && w < |l2|
    requires word == Masked(l2, blockCount, w)
    requires Upper(word, q) == {} && q <= 64 && Exact(all, l2, blockCount, 64 * w + q)
    ensures Exact(all, l2, blockCount, 64 * w + 64)
  {
    forall x: nat | 64 * w + q <= x < 64 * w + 64 ensures !IsFree(l2, blockCount, x) {
      MaskedSpec(l2, blockCount, w, x);
      assert x % 64 == x - 64 * w && AtLeast(q, x % 64) && x % 64 !in Upper(word, q);
    }
    ExactSkip(all, l2, blockCount, 64 * w + q, 64 * w + 64);
  }

  /** scanMaximalRuns: the runs handed to the visitor. */
  method ScanMaximalRuns(l2: Level, blockCount: nat, minLen: nat) returns (runs: seq<BlockRun>)
    requires WordsOk(l2) && blockCount > 0 && |l2| == (blockCount + 63) / 64
    ensures Outcome(l2, blockCount, minLen, runs)
  {
    hide Exact, IsFree, WordsOk;
    runs := [];
    var start: nat, len: nat := 0, 0;
    NothingYet(l2, blockCount);
    for w2 := 0 to |l2|
      invariant Scanned(l2, blockCount, minLen, runs, start, len, 64 * w2)
    {
      var word := Masked(l2, blockCount, w2);
      if word == {} {
        EmptyWord(l2, blockCount, All(runs, start, len), w2);
        runs, len := All(runs, start, len), 0;
      } else {
        var done;
        runs, start, len, done := ScanWord(l2, blockCount, minLen, runs, start, len, w2, word);
        if done {
          return All(runs, start, len);
        }
      }
    }
    ScanEnd(l2, blockCount, All(runs, start, len));
    runs := All(runs, start, len);
  }

  /** The inner loop over one word's bits. */
  method ScanWord(l2: Level, blockCount: nat, minLen: nat, runs0: seq<BlockRun>, start0: nat, len0: nat, w2: nat,
                  word: Word)
    returns (runs: seq<BlockRun>, start: nat, len: nat, done: bool)
    requires WordsOk(l2) && blockCount > 0 && |l2| == (blockCount + 63) / 64 && w2 < |l2|
    requires word == Masked(l2, blockCount, w2)
    requires Scanned(l2, blockCount, minLen, runs0, start0, len0, 64 * w2) && word != {}
    ensures !done ==> Scanned(l2, blockCount, minLen, runs, start, len, 64 * w2 + 64)
    ensures done ==> minLen > 0 && Outcome(l2, blockCount, minLen, All(runs, start, len))
  {
    hide Exact, IsFree, WordsOk, Masked, TrailingZeros, Not, ShiftRight, Upper;
    MaskedSpec(l2, blockCount, w2, 64 * w2);
    runs, start, len, done := runs0, start0, len0, false;
    var wbits := word;
    ghost var q: nat := 0;
    UpperAll(word);
    while wbits != {}
      invariant q <= 64 && wbits == Upper(word, q)
      invariant Scanned(l2, blockCount, minLen, runs, start, len, 64 * w2 + q)
      invariant q > 0 ==> len > 0
      decreases 64 - q
    {
      var b := TrailingZeros(wbits);
      var cnt := TrailingZeros(Not(ShiftRight(wbits, b)));
      SegmentBits(word, q, wbits);
      SegmentFree(l2, blockCount, w2, word, q, b, cnt);
      UpperStep(word, q, b, cnt);
      runs, start, len := TakeSegment(l2, blockCount, minLen, runs, start, len, 64 * w2 + q, 64 * w2 + b, cnt);
      q := b + cnt;
      if minLen > 0 && len >= minLen {
        done := true;
        return;
      }
      wbits := if cnt >= 64 then {} else wbits - Mask(b, b + cnt);
    }
    RestEmpty(l2, blockCount, All(runs, start, len), w2, word, q);
  }
}
