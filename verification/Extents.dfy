/** Sorted extent lists as compressed block maps (fuse/file_ops.go, fuse/extent_ops.go).

    A file's extent list maps file blocks to device blocks.  Its meaning is the
    partial function `At`; every list rewrite below is specified by the exact
    change it makes to that function. */
module Extents {
  import opened Options

  /** File blocks [offset, offset+len) stored in device blocks [phys, phys+len). */
  datatype Extent = Extent(offset: nat, phys: nat, len: nat, unwritten: bool)

  /** What one file block maps to. */
  datatype Cell = Cell(phys: nat, unwritten: bool)

  /** A contiguous run of device blocks. */
  datatype BlockRun = BlockRun(first: nat, n: nat)

  predicate Covers(e: Extent, b: nat) {
    e.offset <= b < e.offset + e.len
  }

  function CellOf(e: Extent, b: nat): (c: Cell)
    requires Covers(e, b)
  {
    Cell(e.phys + (b - e.offset), e.unwritten)
  }

  /** The cell file block b maps to, or None for a hole. */
  function At(exts: seq<Extent>, b: nat): (c: Option<Cell>) {
    if exts == [] then None
    else if Covers(exts[0], b) then Some(CellOf(exts[0], b))
    else At(exts[1..], b)
  }

  ghost predicate Mapped(exts: seq<Extent>) {
    forall i :: 0 <= i < |exts| ==> exts[i].len > 0 && exts[i].phys > 0
  }

  /** Mapped extents in ascending, pairwise disjoint file order. */
  ghost predicate Sorted(exts: seq<Extent>) {
    && Mapped(exts)
    && forall i, j :: 0 <= i < j < |exts| ==> exts[i].offset + exts[i].len <= exts[j].offset
  }

  /** No two file blocks share a device block. */
  ghost predicate Injective(exts: seq<Extent>) {
    forall a: nat, b: nat ::
      At(exts, a).Some? && At(exts, b).Some? && At(exts, a).value.phys == At(exts, b).value.phys ==> a == b
  }

  ghost predicate InRuns(runs: seq<BlockRun>, p: nat) {
    exists k :: 0 <= k < |runs| && runs[k].first <= p < runs[k].first + runs[k].n
  }

  // ---------------------------------------------------------------------------
  // Lemmas about At

  lemma {:induction false} AtConcat(a: seq<Extent>, c: seq<Extent>, b: nat)
    ensures At(a + c, b) == if At(a, b).Some? then At(a, b) else At(c, b)
  {
    if a == [] {
      assert a + c == c;
    } else {
      assert (a + c)[1..] == a[1..] + c;
      AtConcat(a[1..], c, b);
    }
  }

  lemma AtConcatAll(a: seq<Extent>, c: seq<Extent>)
    ensures forall b: nat :: At(a + c, b) == if At(a, b).Some? then At(a, b) else At(c, b)
  {
    forall b: nat ensures At(a + c, b) == if At(a, b).Some? then At(a, b) else At(c, b) {
      AtConcat(a, c, b);
    }
  }

  lemma AtSingle(e: Extent)
    ensures forall b: nat :: At([e], b) == if Covers(e, b) then Some(CellOf(e, b)) else None
  {
    forall b: nat ensures At([e], b) == if Covers(e, b) then Some(CellOf(e, b)) else None {
      assert [e][1..] == [];
    }
  }

  /** A mapped block is mapped by the extent that covers it. */
  lemma {:induction false} AtSome(exts: seq<Extent>, b: nat) returns (i: nat)
    requires At(exts, b).Some?
    ensures i < |exts| && Covers(exts[i], b) && At(exts, b) == Some(CellOf(exts[i], b))
  {
    if Covers(exts[0], b) {
      i := 0;
    } else {
      var k := AtSome(exts[1..], b);
      i := k + 1;
    }
  }

  lemma {:induction false} AtIndex(exts: seq<Extent>, i: nat, b: nat)
    requires Sorted(exts) && i < |exts| && Covers(exts[i], b)
    ensures At(exts, b) == Some(CellOf(exts[i], b))
  {
    if i > 0 {
      AtIndex(exts[1..], i - 1, b);
    }
  }

  lemma {:induction false} AtHole(exts: seq<Extent>, b: nat)
    requires forall i :: 0 <= i < |exts| ==> !Covers(exts[i], b)
    ensures At(exts, b) == None
  {
    if exts != [] {
      AtHole(exts[1..], b);
    }
  }

  /** Everything a sorted list maps lies between its first and last block. */
  lemma AtBounded(exts: seq<Extent>, lo: nat, hi: nat)
    requires Sorted(exts)
    requires exts != [] ==> lo <= exts[0].offset && exts[|exts|-1].offset + exts[|exts|-1].len <= hi
    ensures forall b: nat :: At(exts, b).Some? ==> lo <= b < hi
  {
    forall b: nat | At(exts, b).Some? ensures lo <= b < hi {
      var i := AtSome(exts, b);
    }
  }

  // ---------------------------------------------------------------------------
  // Device blocks of a list

  predicate InSpan(first: nat, n: nat, p: nat) {
    first <= p < first + n
  }

  /** The block numbers [first, first+n). */
  function Span(first: nat, n: nat): (s: set<nat>)
    ensures forall p: nat :: p in s <==> InSpan(first, n, p)
  {
    set p: nat | first <= p < first + n && InSpan(first, n, p)
  }

  lemma {:induction false} SpanSize(start: nat, n: nat)
    ensures |Span(start, n)| == n
  {
    if n > 0 {
      SpanSize(start, n - 1);
      assert forall x: nat :: InSpan(start, n, x) <==> InSpan(start, n - 1, x) || x == start + n - 1;
      assert Span(start, n) == Span(start, n - 1) + {start + n - 1};
    } else {
      assert Span(start, 0) == {};
    }
  }

  /** The device blocks of a list of runs. */
  function RunSet(runs: seq<BlockRun>): (s: set<nat>)
    ensures forall p: nat :: p in s <==> InRuns(runs, p)
  {
    if runs == [] then {}
    else
      var rest := RunSet(runs[1..]);
      InRunsHead(runs);
      Span(runs[0].first, runs[0].n) + rest
  }

  lemma InRunsHead(runs: seq<BlockRun>)
    requires runs != []
    ensures forall p: nat :: InRuns(runs, p) <==> runs[0].first <= p < runs[0].first + runs[0].n || InRuns(runs[1..], p)
  {
    forall p: nat ensures InRuns(runs, p) <==> runs[0].first <= p < runs[0].first + runs[0].n || InRuns(runs[1..], p) {
      InRunsAppend([runs[0]], runs[1..], p);
      assert runs == [runs[0]] + runs[1..];
    }
  }

  /** Some file block is stored in device block p. */
  ghost predicate Owns(exts: seq<Extent>, p: nat) {
    exists b: nat :: At(exts, b).Some? && At(exts, b).value.phys == p
  }

  /** The device blocks an extent list holds. */
  function PhysSet(exts: seq<Extent>): (s: set<nat>) {
    if exts == [] then {} else Span(exts[0].phys, exts[0].len) + PhysSet(exts[1..])
  }

  lemma {:induction false} PhysSetOwns(exts: seq<Extent>)
    requires Sorted(exts)
    ensures forall p: nat :: p in PhysSet(exts) <==> Owns(exts, p)
  {
    if exts != [] {
      var e, rest := exts[0], exts[1..];
      PhysSetOwns(rest);
      forall p: nat ensures p in PhysSet(exts) <==> Owns(exts, p) {
        if e.phys <= p < e.phys + e.len {
          assert At(exts, e.offset + (p - e.phys)).Some?;
        } else if p in PhysSet(rest) {
          var b: nat :| At(rest, b).Some? && At(rest, b).value.phys == p;
          var i := AtSome(rest, b);
          assert exts[0].offset + exts[0].len <= exts[i+1].offset;
          assert At(exts, b) == At(rest, b);
        } else {
          assert forall b: nat :: At(exts, b).Some? && !Covers(e, b) ==> At(exts, b) == At(rest, b);
        }
      }
    }
  }

  // ---------------------------------------------------------------------------
  // lookupExtent

  /** Binary search for the extent covering a block. */
  method LookupExtent(exts: seq<Extent>, iblock: nat) returns (ext: Extent, found: bool)
    requires Sorted(exts)
    ensures found <==> At(exts, iblock).Some?
    ensures found ==> ext in exts && Covers(ext, iblock) && At(exts, iblock) == Some(CellOf(ext, iblock))
  {
    var lo, hi := 0, |exts|;
    while lo < hi
      invariant 0 <= lo <= hi <= |exts|
      invariant forall i :: 0 <= i < lo ==> exts[i].offset <= iblock
      invariant forall i :: hi <= i < |exts| ==> exts[i].offset > iblock
    {
      var mid := (lo + hi) / 2;
      if exts[mid].offset <= iblock {
        forall i | 0 <= i <= mid ensures exts[i].offset <= iblock {
          if i < mid { assert exts[i].offset + exts[i].len <= exts[mid].offset; }
        }
        lo := mid + 1;
      } else {
        forall i | mid <= i < |exts| ensures exts[i].offset > iblock {
          if mid < i { assert exts[mid].offset + exts[mid].len <= exts[i].offset; }
        }
        hi := mid;
      }
    }
    if lo == 0 {
      AtHole(exts, iblock);
      return Extent(0, 0, 0, false), false;
    }
    ext := exts[lo - 1];
    if iblock < ext.offset + ext.len {
      AtIndex(exts, lo - 1, iblock);
      return ext, true;
    }
    forall i | 0 <= i < |exts| ensures !Covers(exts[i], iblock) {
      if i < lo - 1 { assert exts[i].offset + exts[i].len <= exts[lo - 1].offset; }
    }
    AtHole(exts, iblock);
    return Extent(0, 0, 0, false), false;
  }

  // ---------------------------------------------------------------------------
  // insertExtentSorted

  /** ext lands in a hole of exts. */
  ghost predicate Room(exts: seq<Extent>, ext: Extent) {
    && ext.len > 0 && ext.phys > 0
    && forall b: nat :: Covers(ext, b) ==> At(exts, b) == None
  }

  /** r is exts with the hole under ext filled by ext, and nothing else changed. */
  ghost predicate Inserted(r: seq<Extent>, exts: seq<Extent>, ext: Extent) {
    && Sorted(r)
    && forall b: nat :: At(r, b) == if Covers(ext, b) then Some(CellOf(ext, b)) else At(exts, b)
  }

  predicate Mergeable(l: Extent, r: Extent) {
    l.offset + l.len == r.offset && l.phys + l.len == r.phys && l.unwritten == r.unwritten
  }

  lemma SortedConcat(a: seq<Extent>, c: seq<Extent>)
    requires Sorted(a) && Sorted(c)
    requires a != [] && c != [] ==> a[|a|-1].offset + a[|a|-1].len <= c[0].offset
    ensures Sorted(a + c)
  {
    var s := a + c;
    forall i, j | 0 <= i < j < |s| ensures s[i].offset + s[i].len <= s[j].offset {
      if i < |a| <= j {
        assert i < |a| - 1 ==> a[i].offset + a[i].len <= a[|a|-1].offset;
        assert 0 < j - |a| ==> c[0].offset + c[0].len <= c[j - |a|].offset;
      }
    }
  }

  /** An extent in a hole sits strictly between its list neighbours. */
  lemma NeighboursClear(exts: seq<Extent>, i: nat, ext: Extent)
    requires Sorted(exts) && Room(exts, ext) && i <= |exts|
    requires forall k :: 0 <= k < i ==> exts[k].offset < ext.offset
    requires forall k :: i <= k < |exts| ==> ext.offset <= exts[k].offset
    ensures i > 0 ==> exts[i-1].offset + exts[i-1].len <= ext.offset
    ensures i < |exts| ==> ext.offset + ext.len <= exts[i].offset
  {
    if i > 0 && exts[i-1].offset + exts[i-1].len > ext.offset {
      AtIndex(exts, i - 1, ext.offset);
      assert Covers(ext, ext.offset);
    }
    if i < |exts| && ext.offset + ext.len > exts[i].offset {
      AtIndex(exts, i, exts[i].offset);
      assert Covers(ext, exts[i].offset);
    }
  }

  /** Replacing the middle of a sorted list by one extent covering old and ext. */
  lemma SpliceInserted(left: seq<Extent>, mid: seq<Extent>, right: seq<Extent>, m: Extent, ext: Extent)
    requires Sorted(left + mid + right) && m.len > 0 && m.phys > 0
    requires left != [] ==> left[|left|-1].offset + left[|left|-1].len <= m.offset
    requires right != [] ==> m.offset + m.len <= right[0].offset
    requires forall b: nat :: (if Covers(m, b) then Some(CellOf(m, b)) else None)
                              == if Covers(ext, b) then Some(CellOf(ext, b)) else At(mid, b)
    ensures Inserted(left + [m] + right, left + mid + right, ext)
  {
    var all := left + mid + right;
    assert left == all[..|left|] && right == all[|left| + |mid|..];
    assert Sorted(left) && Sorted(right);
    SortedConcat(left, [m]);
    SortedConcat(left + [m], right);
    AtConcatAll(left, [m]);
    AtConcatAll(left + [m], right);
    AtConcatAll(left, mid);
    AtConcatAll(left + mid, right);
    AtSingle(m);
    AtBounded(left, 0, m.offset);
    if right != [] { AtBounded(right, m.offset + m.len, right[|right|-1].offset + right[|right|-1].len); }
    forall b: nat ensures At(left + [m] + right, b) == if Covers(ext, b) then Some(CellOf(ext, b)) else At(all, b) {
      assert Covers(ext, b) ==> Covers(m, b);
    }
  }

  lemma MergeLeft(exts: seq<Extent>, i: nat, ext: Extent, l: Extent)
    requires Sorted(exts) && 0 < i <= |exts| && Mergeable(exts[i-1], ext) && ext.len > 0
    requires l == exts[i-1].(len := exts[i-1].len + ext.len)
    requires i < |exts| ==> ext.offset + ext.len <= exts[i].offset
    ensures Inserted(exts[..i-1] + [l] + exts[i..], exts, ext)
  {
    AtSingle(exts[i-1]);
    assert exts == exts[..i-1] + [exts[i-1]] + exts[i..];
    SpliceInserted(exts[..i-1], [exts[i-1]], exts[i..], l, ext);
  }

  lemma MergeRight(exts: seq<Extent>, i: nat, ext: Extent, r: Extent)
    requires Sorted(exts) && i < |exts| && Mergeable(ext, exts[i]) && ext.len > 0 && ext.phys > 0
    requires r == Extent(ext.offset, ext.phys, exts[i].len + ext.len, exts[i].unwritten)
    requires i > 0 ==> exts[i-1].offset + exts[i-1].len <= ext.offset
    ensures Inserted(exts[..i] + [r] + exts[i+1..], exts, ext)
  {
    AtSingle(exts[i]);
    assert exts == exts[..i] + [exts[i]] + exts[i+1..];
    SpliceInserted(exts[..i], [exts[i]], exts[i+1..], r, ext);
  }

  lemma MergeBoth(exts: seq<Extent>, i: nat, ext: Extent, m: Extent)
    requires Sorted(exts) && 0 < i < |exts| && ext.len > 0
    requires Mergeable(exts[i-1], ext) && Mergeable(ext, exts[i])
    requires m == exts[i-1].(len := exts[i-1].len + ext.len + exts[i].len)
    ensures Inserted(exts[..i-1] + [m] + exts[i+1..], exts, ext)
  {
    var both := [exts[i-1]] + [exts[i]];
    AtSingle(exts[i-1]);
    AtSingle(exts[i]);
    AtConcatAll([exts[i-1]], [exts[i]]);
    assert exts == exts[..i-1] + both + exts[i+1..];
    SpliceInserted(exts[..i-1], both, exts[i+1..], m, ext);
  }

  lemma NoMerge(exts: seq<Extent>, i: nat, ext: Extent)
    requires Sorted(exts) && i <= |exts| && ext.len > 0 && ext.phys > 0
    requires i > 0 ==> exts[i-1].offset + exts[i-1].len <= ext.offset
    requires i < |exts| ==> ext.offset + ext.len <= exts[i].offset
    ensures Inserted(exts[..i] + [ext] + exts[i..], exts, ext)
  {
    assert exts == exts[..i] + [] + exts[i..];
    SpliceInserted(exts[..i], [], exts[i..], ext, ext);
  }

  /** sort.Search: the first index whose offset reaches the given one. */
  method SearchOffset(exts: seq<Extent>, offset: nat) returns (i: nat)
    requires Sorted(exts)
    ensures i <= |exts|
    ensures forall k :: 0 <= k < i ==> exts[k].offset < offset
    ensures forall k :: i <= k < |exts| ==> offset <= exts[k].offset
  {
    i := 0;
    var hi := |exts|;
    while i < hi
      invariant 0 <= i <= hi <= |exts|
      invariant forall k :: 0 <= k < i ==> exts[k].offset < offset
      invariant forall k :: hi <= k < |exts| ==> offset <= exts[k].offset
    {
      var mid := (i + hi) / 2;
      if exts[mid].offset >= offset {
        forall k | mid <= k < |exts| ensures offset <= exts[k].offset {
          if mid < k { assert exts[mid].offset + exts[mid].len <= exts[k].offset; }
        }
        hi := mid;
      } else {
        forall k | 0 <= k <= mid ensures exts[k].offset < offset {
          if k < mid { assert exts[k].offset + exts[k].len <= exts[mid].offset; }
        }
        i := mid + 1;
      }
    }
  }

  /** Insert into a hole, merging with neighbours contiguous in offset, phys and flags. */
  method InsertExtentSorted(exts: seq<Extent>, ext: Extent) returns (r: seq<Extent>)
    requires Sorted(exts) && Room(exts, ext)
    ensures Inserted(r, exts, ext)
  {
    var i := SearchOffset(exts, ext.offset);
    NeighboursClear(exts, i, ext);
    if i > 0 && Mergeable(exts[i-1], ext) {
      var left := exts[i-1].(len := exts[i-1].len + ext.len);
      if i < |exts| && Mergeable(left, exts[i]) {
        var m := left.(len := left.len + exts[i].len);
        MergeBoth(exts, i, ext, m);
        return exts[..i-1] + [m] + exts[i+1..];
      }
      MergeLeft(exts, i, ext, left);
      return exts[..i-1] + [left] + exts[i..];
    }
    if i < |exts| && Mergeable(ext, exts[i]) {
      var right := Extent(ext.offset, ext.phys, exts[i].len + ext.len, exts[i].unwritten);
      MergeRight(exts, i, ext, right);
      return exts[..i] + [right] + exts[i+1..];
    }
    NoMerge(exts, i, ext);
    return exts[..i] + [ext] + exts[i..];
  }

  /** Folding a sorted list through InsertExtentSorted only merges neighbours. */
  method FoldSorted(raw: seq<Extent>) returns (r: seq<Extent>)
    requires Sorted(raw)
    ensures Sorted(r) && forall b: nat :: At(r, b) == At(raw, b)
  {
    r := [];
    for k := 0 to |raw|
      invariant Sorted(r) && forall b: nat :: At(r, b) == At(raw[..k], b)
    {
      AtBounded(raw[..k], 0, raw[k].offset);
      r := InsertExtentSorted(r, raw[k]);
      assert raw[..k+1] == raw[..k] + [raw[k]];
      AtConcatAll(raw[..k], [raw[k]]);
      AtSingle(raw[k]);
    }
    assert raw[..|raw|] == raw;
  }

  /** The part of ext covering blocks [lo, hi), as zero or one extent. */
  function Clip(ext: Extent, lo: nat, hi: nat): (r: seq<Extent>)
    requires lo < hi ==> ext.offset <= lo && hi <= ext.offset + ext.len
  {
    if lo < hi then [Extent(lo, ext.phys + (lo - ext.offset), hi - lo, ext.unwritten)] else []
  }

  lemma ClipSpec(ext: Extent, lo: nat, hi: nat)
    requires lo < hi ==> ext.offset <= lo && hi <= ext.offset + ext.len
    requires ext.phys > 0
    ensures Sorted(Clip(ext, lo, hi)) && Within(Clip(ext, lo, hi), lo, hi)
    ensures forall b: nat :: At(Clip(ext, lo, hi), b) == if lo <= b < hi then Some(CellOf(ext, b)) else None
  {
    if lo < hi { AtSingle(Clip(ext, lo, hi)[0]); }
  }

  lemma ClipAt(ext: Extent, lo: nat, hi: nat, b: nat)
    requires lo < hi ==> ext.offset <= lo && hi <= ext.offset + ext.len
    ensures At(Clip(ext, lo, hi), b) == if lo <= b < hi then Some(CellOf(ext, b)) else None
  {
  }

  /** The list lies within blocks [lo, hi). */
  ghost predicate Within(exts: seq<Extent>, lo: nat, hi: nat) {
    forall x :: x in exts ==> lo <= x.offset && x.offset + x.len <= hi
  }

  /** Appending a sorted group that lies after the list. */
  lemma AppendGroup(raw: seq<Extent>, group: seq<Extent>, lo: nat, hi: nat)
    requires Sorted(raw) && Within(raw, 0, lo) && Sorted(group) && Within(group, lo, hi) && lo <= hi
    ensures Sorted(raw + group) && Within(raw + group, 0, hi)
    ensures forall b: nat :: At(raw + group, b) == if At(raw, b).Some? then At(raw, b) else At(group, b)
  {
    SortedConcat(raw, group);
    AtConcatAll(raw, group);
  }

  lemma PrefixStep(exts: seq<Extent>, k: nat)
    requires Sorted(exts) && k < |exts|
    ensures exts[..k+1] == exts[..k] + [exts[k]]
    ensures forall b: nat :: At(exts[..k+1], b) == if Covers(exts[k], b) then Some(CellOf(exts[k], b))
      else At(exts[..k], b)
    ensures forall b: nat :: At(exts[..k], b).Some? ==> b < exts[k].offset
  {
    assert exts[..k+1] == exts[..k] + [exts[k]];
    AtConcatAll(exts[..k], [exts[k]]);
    AtSingle(exts[k]);
    AtBounded(exts[..k], 0, exts[k].offset);
  }

  // ---------------------------------------------------------------------------
  // freeExtentRange

  /** What survives of one extent when blocks [s, e) are removed. */
  function Remaining(ext: Extent, s: nat, e: nat): (r: seq<Extent>) {
    var extEnd := ext.offset + ext.len;
    if extEnd <= s || ext.offset >= e then [ext]
    else
      var ovStart := if ext.offset < s then s else ext.offset;
      var ovEnd := if extEnd > e then e else extEnd;
      Clip(ext, ext.offset, ovStart) + Clip(ext, ovEnd, extEnd)
  }

  /** The device run of one extent's overlap with [s, e). */
  function Released(ext: Extent, s: nat, e: nat): (r: seq<BlockRun>) {
    var extEnd := ext.offset + ext.len;
    if extEnd <= s || ext.offset >= e then []
    else
      var ovStart := if ext.offset < s then s else ext.offset;
      var ovEnd := if extEnd > e then e else extEnd;
      if ext.phys != 0 && ovStart < ovEnd then [BlockRun(ext.phys + (ovStart - ext.offset), ovEnd - ovStart)] else []
  }

  predicate Apart(a: BlockRun, c: BlockRun) {
    a.first + a.n <= c.first || c.first + c.n <= a.first
  }

  ghost predicate RunsDisjoint(runs: seq<BlockRun>) {
    forall i, j :: 0 <= i < j < |runs| ==> Apart(runs[i], runs[j])
  }

  /** Some file block of [s, e) is stored in device block p. */
  ghost predicate MapsTo(exts: seq<Extent>, s: nat, e: nat, p: nat) {
    exists b: nat :: s <= b < e && At(exts, b).Some? && At(exts, b).value.phys == p
  }

  /** Exactly the device blocks mapped by file blocks [s, e), each listed once. */
  ghost predicate FreedExactly(freed: seq<BlockRun>, exts: seq<Extent>, s: nat, e: nat) {
    && (forall p: nat :: InRuns(freed, p) <==> MapsTo(exts, s, e, p))
    && RunsDisjoint(freed)
    && forall i :: 0 <= i < |freed| ==> freed[i].n > 0
  }

  lemma RemainingSpec(ext: Extent, s: nat, e: nat)
    requires ext.len > 0 && ext.phys > 0 && s <= e
    ensures Sorted(Remaining(ext, s, e)) && Within(Remaining(ext, s, e), ext.offset, ext.offset + ext.len)
    ensures forall b: nat ::
      At(Remaining(ext, s, e), b) == if Covers(ext, b) && !(s <= b < e) then Some(CellOf(ext, b)) else None
  {
    var extEnd := ext.offset + ext.len;
    if extEnd <= s || ext.offset >= e {
      AtSingle(ext);
      hide At;
    } else {
      var ovStart := if ext.offset < s then s else ext.offset;
      var ovEnd := if extEnd > e then e else extEnd;
      TwoClips(ext, ovStart, ovEnd);
      hide At, Clip, Sorted, Within;
      assert Remaining(ext, s, e) == Clip(ext, ext.offset, ovStart) + Clip(ext, ovEnd, extEnd);
    }
  }

  /** Cutting blocks [lo, hi) out of an extent leaves its head and its tail. */
  lemma TwoClips(ext: Extent, lo: nat, hi: nat)
    requires ext.len > 0 && ext.phys > 0 && ext.offset <= lo <= hi <= ext.offset + ext.len
    ensures var r := Clip(ext, ext.offset, lo) + Clip(ext, hi, ext.offset + ext.len);
      && Sorted(r) && Within(r, ext.offset, ext.offset + ext.len)
      && forall b: nat :: At(r, b) == if Covers(ext, b) && !(lo <= b < hi) then Some(CellOf(ext, b)) else None
  {
    TwoClipsShape(ext, lo, hi);
    hide *;
    forall b: nat ensures At(Clip(ext, ext.offset, lo) + Clip(ext, hi, ext.offset + ext.len), b)
                          == if Covers(ext, b) && !(lo <= b < hi) then Some(CellOf(ext, b)) else None {
      TwoClipsAt(ext, lo, hi, b);
    }
  }

  lemma TwoClipsShape(ext: Extent, lo: nat, hi: nat)
    requires ext.len > 0 && ext.phys > 0 && ext.offset <= lo <= hi <= ext.offset + ext.len
    ensures var r := Clip(ext, ext.offset, lo) + Clip(ext, hi, ext.offset + ext.len);
      Sorted(r) && Within(r, ext.offset, ext.offset + ext.len)
  {
  }

  lemma TwoClipsAt(ext: Extent, lo: nat, hi: nat, b: nat)
    requires ext.len > 0 && ext.phys > 0 && ext.offset <= lo <= hi <= ext.offset + ext.len
    ensures At(Clip(ext, ext.offset, lo) + Clip(ext, hi, ext.offset + ext.len), b)
         == if Covers(ext, b) && !(lo <= b < hi) then Some(CellOf(ext, b)) else None
  {
    AtConcat(Clip(ext, ext.offset, lo), Clip(ext, hi, ext.offset + ext.len), b);
    ClipAt(ext, ext.offset, lo, b);
    ClipAt(ext, hi, ext.offset + ext.len, b);
    hide At, Clip;
  }

  lemma InRunsAppend(runs: seq<BlockRun>, more: seq<BlockRun>, p: nat)
    ensures InRuns(runs + more, p) <==> InRuns(runs, p) || InRuns(more, p)
  {
    var all := runs + more;
    if InRuns(all, p) {
      var k :| 0 <= k < |all| && all[k].first <= p < all[k].first + all[k].n;
      assert if k < |runs| then runs[k] == all[k] else more[k - |runs|] == all[k];
    }
    if InRuns(runs, p) {
      var k :| 0 <= k < |runs| && runs[k].first <= p < runs[k].first + runs[k].n;
      assert all[k] == runs[k];
    }
    if InRuns(more, p) {
      var k :| 0 <= k < |more| && more[k].first <= p < more[k].first + more[k].n;
      assert all[|runs| + k] == more[k];
    }
  }

  lemma ReleasedSpec(ext: Extent, s: nat, e: nat, p: nat)
    requires ext.len > 0 && ext.phys > 0 && s <= e
    ensures InRuns(Released(ext, s, e), p)
      <==> ext.phys <= p < ext.phys + ext.len && s <= ext.offset + (p - ext.phys) < e
  {
    var r := Released(ext, s, e);
    if r != [] { assert r[0].n > 0; }
  }

  lemma FreedStep(exts: seq<Extent>, k: nat, freed: seq<BlockRun>, s: nat, e: nat)
    requires Sorted(exts) && Injective(exts) && k < |exts| && s <= e
    requires FreedExactly(freed, exts[..k], s, e)
    ensures FreedExactly(freed + Released(exts[k], s, e), exts[..k+1], s, e)
  {
    var ext := exts[k];
    var rel := Released(ext, s, e);
    PrefixStep(exts, k);
    forall p: nat ensures InRuns(freed + rel, p) <==> MapsTo(exts[..k+1], s, e, p) {
      InRunsAppend(freed, rel, p);
      ReleasedSpec(ext, s, e, p);
      if InRuns(freed, p) {
        var b: nat :| s <= b < e && At(exts[..k], b).Some? && At(exts[..k], b).value.phys == p;
        assert At(exts[..k+1], b) == At(exts[..k], b);
      }
      if InRuns(rel, p) {
        var b := ext.offset + (p - ext.phys);
        assert At(exts[..k+1], b) == Some(CellOf(ext, b));
      }
      if MapsTo(exts[..k+1], s, e, p) {
        var b: nat :| s <= b < e && At(exts[..k+1], b).Some? && At(exts[..k+1], b).value.phys == p;
        if !Covers(ext, b) { assert MapsTo(exts[..k], s, e, p); }
      }
    }
    if rel != [] {
      forall i | 0 <= i < |freed| ensures Apart(freed[i], rel[0]) {
        var p := if freed[i].first < rel[0].first then rel[0].first else freed[i].first;
        NotFreedTwice(exts, k, s, e, p);
        var f := freed[i];
        assert InSpan(f.first, f.n, p) ==> InRuns(freed, p);
        assert freed[i].n > 0 && rel[0].n > 0;
      }
    }
  }

  /** No device block of extent k is mapped by an earlier extent. */
  lemma NotFreedTwice(exts: seq<Extent>, k: nat, s: nat, e: nat, p: nat)
    requires Sorted(exts) && Injective(exts) && k < |exts|
    ensures exts[k].phys <= p < exts[k].phys + exts[k].len ==> !MapsTo(exts[..k], s, e, p)
  {
    hide Sorted;
    var ext := exts[k];
    if ext.phys <= p < ext.phys + ext.len {
      var c := ext.offset + (p - ext.phys);
      AtIndex(exts, k, c);
      PrefixStep(exts, k);
      forall b: nat | s <= b < e && At(exts[..k], b).Some? ensures At(exts[..k], b).value.phys != p {
        assert exts == exts[..k] + exts[k..];
        AtConcat(exts[..k], exts[k..], b);
        assert b < c && At(exts, b) == At(exts[..k], b);
      }
    }
  }

  /** Turn blocks [startBlk, endBlk) into a hole: the rest of the map is untouched
      and the freed runs are exactly the device blocks that were mapped there. */
  method FreeExtentRange(exts: seq<Extent>, startBlk: nat, endBlk: nat)
    returns (newExts: seq<Extent>, freed: seq<BlockRun>)
    requires Sorted(exts) && Injective(exts) && startBlk <= endBlk
    ensures Sorted(newExts)
    ensures forall b: nat :: At(newExts, b) == if startBlk <= b < endBlk then None else At(exts, b)
    ensures FreedExactly(freed, exts, startBlk, endBlk)
  {
    newExts, freed := [], [];
    ghost var hi: nat := 0;
    for k := 0 to |exts|
      invariant Sorted(newExts) && Within(newExts, 0, hi)
      invariant k < |exts| ==> hi <= exts[k].offset
      invariant FreedExactly(freed, exts[..k], startBlk, endBlk)
      invariant forall b: nat :: At(newExts, b) == if startBlk <= b < endBlk then None else At(exts[..k], b)
    {
      var keep := Remaining(exts[k], startBlk, endBlk);
      RemainingSpec(exts[k], startBlk, endBlk);
      hi := exts[k].offset + exts[k].len;
      AppendGroup(newExts, keep, exts[k].offset, hi);
      FreedStep(exts, k, freed, startBlk, endBlk);
      PrefixStep(exts, k);
      newExts, freed := newExts + keep, freed + Released(exts[k], startBlk, endBlk);
    }
    assert exts[..|exts|] == exts;
  }

  // ---------------------------------------------------------------------------
  // shiftExtents

  /** One extent's survivors when [s, s+l) is cut out and the tail moves down by l. */
  function CollapsePieces(e: Extent, s: nat, l: nat): (r: seq<Extent>) {
    var eend := e.offset + e.len;
    if eend <= s then [e]
    else if e.offset >= s + l then [e.(offset := e.offset - l)]
    else if e.offset >= s && eend <= s + l then []
    else
      Clip(e, e.offset, s) +
      (if eend > s + l then [Extent(s, e.phys + (s + l - e.offset), eend - (s + l), e.unwritten)] else [])
  }

  /** One extent when a hole [s, s+l) is opened and the tail moves up by l. */
  function InsertPieces(e: Extent, s: nat, l: nat): (r: seq<Extent>) {
    var eend := e.offset + e.len;
    if eend <= s then [e]
    else if e.offset >= s then [e.(offset := e.offset + l)]
    else Clip(e, e.offset, s) + [Extent(s + l, e.phys + (s - e.offset), eend - s, e.unwritten)]
  }

  /** Where block b sits after the collapse. */
  function Down(b: nat, s: nat, l: nat): (r: nat) {
    if b <= s then b else if b <= s + l then s else b - l
  }

  function Up(b: nat, s: nat, l: nat): (r: nat) {
    if b < s then b else b + l
  }

  /** The map after COLLAPSE_RANGE. */
  function DownAt(exts: seq<Extent>, s: nat, l: nat, b: nat): (c: Option<Cell>) {
    At(exts, if b < s then b else b + l)
  }

  /** The map after INSERT_RANGE. */
  function UpAt(exts: seq<Extent>, s: nat, l: nat, b: nat): (c: Option<Cell>) {
    if b < s then At(exts, b) else if b < s + l then None else At(exts, b - l)
  }

  lemma CollapseStraddler(e: Extent, s: nat, l: nat, tail: Extent)
    requires e.phys > 0 && e.offset < s + l < e.offset + e.len
    requires tail == Extent(s, e.phys + (s + l - e.offset), e.offset + e.len - (s + l), e.unwritten)
    ensures var r := Clip(e, e.offset, s) + [tail];
      && Sorted(r) && Within(r, Down(e.offset, s, l), Down(e.offset + e.len, s, l))
      && forall b: nat :: At(r, b) == DownAt([e], s, l, b)
  {
    var pre := Clip(e, e.offset, s);
    ClipSpec(e, e.offset, s);
    SortedConcat(pre, [tail]);
    AtSingle(e);
    AtSingle(tail);
    forall b: nat ensures At(pre + [tail], b) == DownAt([e], s, l, b) {
      AtConcat(pre, [tail], b);
    }
  }

  /** Survivors r of extent e are in order, in their new place, and map what e mapped. */
  ghost predicate CollapsedTo(e: Extent, s: nat, l: nat, r: seq<Extent>) {
    && Sorted(r) && Within(r, Down(e.offset, s, l), Down(e.offset + e.len, s, l))
    && forall b: nat :: At(r, b) == DownAt([e], s, l, b)
  }

  lemma CollapseOutside(e: Extent, s: nat, l: nat)
    requires e.len > 0 && e.phys > 0 && (e.offset + e.len <= s || e.offset >= s + l)
    ensures CollapsedTo(e, s, l, CollapsePieces(e, s, l))
  {
    AtSingle(e);
    AtSingle(CollapsePieces(e, s, l)[0]);
    hide At;
  }

  lemma CollapseInside(e: Extent, s: nat, l: nat)
    requires e.len > 0 && e.phys > 0 && e.offset < s + l && s < e.offset + e.len <= s + l
    ensures CollapsedTo(e, s, l, CollapsePieces(e, s, l))
  {
    AtSingle(e);
    ClipSpec(e, e.offset, s);
    var r := CollapsePieces(e, s, l);
    assert r == Clip(e, e.offset, s);
    hide At, Clip, Sorted, CollapsePieces;
    forall b: nat ensures At(r, b) == DownAt([e], s, l, b) {
      assert Covers(e, b) || !Covers(e, b);
    }
  }

  lemma CollapsePiecesSpec(e: Extent, s: nat, l: nat)
    requires e.len > 0 && e.phys > 0
    ensures Sorted(CollapsePieces(e, s, l))
    ensures Within(CollapsePieces(e, s, l), Down(e.offset, s, l), Down(e.offset + e.len, s, l))
    ensures forall b: nat :: At(CollapsePieces(e, s, l), b) == DownAt([e], s, l, b)
  {
    hide At, Clip, Sorted, Within, Down, DownAt;
    var eend := e.offset + e.len;
    if eend <= s || e.offset >= s + l {
      CollapseOutside(e, s, l);
    } else if eend <= s + l {
      CollapseInside(e, s, l);
    } else {
      CollapseStraddler(e, s, l, Extent(s, e.phys + (s + l - e.offset), eend - (s + l), e.unwritten));
    }
  }

  lemma InsertPiecesSpec(e: Extent, s: nat, l: nat)
    requires e.len > 0 && e.phys > 0
    ensures Sorted(InsertPieces(e, s, l))
    ensures Within(InsertPieces(e, s, l), Up(e.offset, s, l), e.offset + e.len + if e.offset + e.len <= s then 0 else l)
    ensures forall b: nat ::
      At(InsertPieces(e, s, l), b) == UpAt([e], s, l, b)
  {
    var r := InsertPieces(e, s, l);
    var eend := e.offset + e.len;
    AtSingle(e);
    if eend <= s || e.offset >= s {
      AtSingle(r[0]);
    } else {
      ClipSpec(e, e.offset, s);
      var tail := Extent(s + l, e.phys + (s - e.offset), eend - s, e.unwritten);
      AtSingle(tail);
      AppendGroup(Clip(e, e.offset, s), [tail], s + l, eend + l);
    }
  }

  lemma ShiftDownStep(exts: seq<Extent>, k: nat, raw: seq<Extent>, s: nat, l: nat)
    requires Sorted(exts) && k < |exts| && Sorted(raw) && Within(raw, 0, Down(exts[k].offset, s, l))
    requires forall b: nat :: At(raw, b) == DownAt(exts[..k], s, l, b)
    ensures var r := raw + CollapsePieces(exts[k], s, l);
      && Sorted(r) && Within(r, 0, Down(exts[k].offset + exts[k].len, s, l))
      && forall b: nat :: At(r, b) == DownAt(exts[..k+1], s, l, b)
  {
    CollapsePiecesSpec(exts[k], s, l);
    AppendGroup(raw, CollapsePieces(exts[k], s, l), Down(exts[k].offset, s, l),
      Down(exts[k].offset + exts[k].len, s, l));
    PrefixStep(exts, k);
    AtSingle(exts[k]);
  }

  lemma ShiftUpStep(exts: seq<Extent>, k: nat, raw: seq<Extent>, s: nat, l: nat)
    requires Sorted(exts) && k < |exts| && Sorted(raw) && Within(raw, 0, Up(exts[k].offset, s, l))
    requires forall b: nat ::
      At(raw, b) == UpAt(exts[..k], s, l, b)
    ensures var r := raw + InsertPieces(exts[k], s, l);
      && Sorted(r) && Within(r, 0, Up(exts[k].offset + exts[k].len, s, l))
      && forall b: nat ::
        At(r, b) == UpAt(exts[..k+1], s, l, b)
  {
    InsertPiecesSpec(exts[k], s, l);
    AppendGroup(raw, InsertPieces(exts[k], s, l), Up(exts[k].offset, s, l), Up(exts[k].offset + exts[k].len, s, l));
    PrefixStep(exts, k);
    AtSingle(exts[k]);
  }

  /** COLLAPSE_RANGE: drop blocks [s, s+l), freeing what they mapped, and move the tail down. */
  method ShiftExtentsDown(exts: seq<Extent>, s: nat, l: nat) returns (newExts: seq<Extent>, freed: seq<BlockRun>)
    requires Sorted(exts) && Injective(exts)
    ensures Sorted(newExts)
    ensures forall b: nat :: At(newExts, b) == DownAt(exts, s, l, b)
    ensures FreedExactly(freed, exts, s, s + l)
  {
    var raw := [];
    freed := [];
    for k := 0 to |exts|
      invariant Sorted(raw) && (k < |exts| ==> Within(raw, 0, Down(exts[k].offset, s, l)))
      invariant FreedExactly(freed, exts[..k], s, s + l)
      invariant forall b: nat :: At(raw, b) == DownAt(exts[..k], s, l, b)
    {
      ShiftDownStep(exts, k, raw, s, l);
      FreedStep(exts, k, freed, s, s + l);
      assert k + 1 < |exts| ==> exts[k].offset + exts[k].len <= exts[k+1].offset;
      raw, freed := raw + CollapsePieces(exts[k], s, l), freed + Released(exts[k], s, s + l);
    }
    assert exts[..|exts|] == exts;
    newExts := FoldSorted(raw);
  }

  /** INSERT_RANGE: open a hole [s, s+l) and move the tail up; nothing is freed. */
  method ShiftExtentsUp(exts: seq<Extent>, s: nat, l: nat) returns (newExts: seq<Extent>)
    requires Sorted(exts)
    ensures Sorted(newExts)
    ensures forall b: nat ::
      At(newExts, b) == UpAt(exts, s, l, b)
  {
    var raw := [];
    for k := 0 to |exts|
      invariant Sorted(raw) && (k < |exts| ==> Within(raw, 0, Up(exts[k].offset, s, l)))
      invariant forall b: nat ::
        At(raw, b) == UpAt(exts[..k], s, l, b)
    {
      ShiftUpStep(exts, k, raw, s, l);
      assert k + 1 < |exts| ==> exts[k].offset + exts[k].len <= exts[k+1].offset;
      raw := raw + InsertPieces(exts[k], s, l);
    }
    assert exts[..|exts|] == exts;
    newExts := FoldSorted(raw);
  }

  lemma NothingFreed(freed: seq<BlockRun>)
    ensures (forall i :: 0 <= i < |freed| ==> freed[i].n > 0) && (forall p: nat :: !InRuns(freed, p)) ==> freed == []
  {
    if freed != [] && freed[0].n > 0 { assert InRuns(freed, freed[0].first); }
  }

  /** Collapsing the range just inserted frees nothing and restores the map. */
  method InsertThenCollapse(exts: seq<Extent>, s: nat, l: nat) returns (r: seq<Extent>, freed: seq<BlockRun>)
    requires Sorted(exts) && Injective(exts)
    ensures Sorted(r) && forall b: nat :: At(r, b) == At(exts, b)
    ensures freed == []
  {
    var up := ShiftExtentsUp(exts, s, l);
    assert Injective(up) by {
      forall a: nat, b: nat | At(up, a).Some? && At(up, b).Some? && At(up, a).value.phys == At(up, b).value.phys
        ensures a == b
      {
        assert At(up, a) == UpAt(exts, s, l, a) && At(up, b) == UpAt(exts, s, l, b);
      }
    }
    r, freed := ShiftExtentsDown(up, s, l);
    forall b: nat ensures At(r, b) == At(exts, b) {
      assert At(r, b) == DownAt(up, s, l, b);
    }
    assert forall b: nat :: s <= b < s + l ==> At(up, b) == None;
    NothingFreed(freed);
  }

  // ---------------------------------------------------------------------------
  // splitUnwrittenAt

  lemma RemoveAt(exts: seq<Extent>, i: nat, b: nat)
    requires Sorted(exts) && i < |exts|
    ensures Covers(exts[i], b) ==> At(exts, b) == Some(CellOf(exts[i], b))
    ensures At(exts[..i] + exts[i+1..], b) == if Covers(exts[i], b) then None else At(exts, b)
  {
    var e, pre, post := exts[i], exts[..i], exts[i+1..];
    AtConcat(pre, post, b);
    assert exts == pre + ([e] + post);
    AtConcat(pre, [e] + post, b);
    assert ([e] + post)[1..] == post;
    if Covers(e, b) {
      AtIndex(exts, i, b);
      AtHole(pre, b);
      AtHole(post, b);
    }
  }

  lemma RemoveIndex(exts: seq<Extent>, i: nat)
    requires Sorted(exts) && i < |exts|
    ensures Sorted(exts[..i] + exts[i+1..])
    ensures forall b: nat :: Covers(exts[i], b) ==> At(exts, b) == Some(CellOf(exts[i], b))
    ensures forall b: nat :: At(exts[..i] + exts[i+1..], b) == if Covers(exts[i], b) then None else At(exts, b)
  {
    SortedConcat(exts[..i], exts[i+1..]);
    forall b: nat
      ensures Covers(exts[i], b) ==> At(exts, b) == Some(CellOf(exts[i], b))
      ensures At(exts[..i] + exts[i+1..], b) == if Covers(exts[i], b) then None else At(exts, b)
    {
      RemoveAt(exts, i, b);
    }
  }

  lemma SameOffset(exts: seq<Extent>, i: nat, j: nat)
    requires Sorted(exts) && i <= j < |exts| && exts[i].offset == exts[j].offset
    ensures i == j
  {
  }

  /** A write into an unwritten extent: exactly one block turns written. */
  method SplitUnwrittenAt(exts: seq<Extent>, ext: Extent, iblock: nat) returns (r: seq<Extent>)
    requires Sorted(exts) && ext in exts && ext.unwritten && Covers(ext, iblock)
    ensures Sorted(r)
    ensures forall b: nat :: At(r, b) == if b == iblock then Some(CellOf(ext, b).(unwritten := false)) else At(exts, b)
  {
    var i := 0;
    while !(exts[i].offset == ext.offset && exts[i].phys == ext.phys)
      invariant i < |exts| && ext in exts[i..]
      decreases |exts| - i
    {
      assert exts[i..] == [exts[i]] + exts[i+1..];
      i := i + 1;
    }
    var j :| i <= j < |exts| && exts[j] == ext;
    SameOffset(exts, i, j);
    r := ReplaceByPieces(exts, i, iblock);
  }

  /** Remove extent i and insert its three pieces: unwritten, written at iblock, unwritten. */
  method ReplaceByPieces(exts: seq<Extent>, i: nat, iblock: nat) returns (r: seq<Extent>)
    requires Sorted(exts) && i < |exts| && exts[i].unwritten && Covers(exts[i], iblock)
    ensures Sorted(r)
    ensures forall b: nat ::
      At(r, b) == if b == iblock then Some(CellOf(exts[i], b).(unwritten := false)) else At(exts, b)
  {
    var e := exts[i];
    RemoveIndex(exts, i);
    r := exts[..i] + exts[i+1..];
    ghost var bare := r;
    var before := Extent(e.offset, e.phys, iblock - e.offset, true);
    var written := Extent(iblock, e.phys + (iblock - e.offset), 1, false);
    var extEnd := e.offset + e.len;
    assert forall b: nat :: Covers(before, b) || Covers(written, b) ==> Covers(e, b);
    if iblock > e.offset {
      r := InsertExtentSorted(r, before);
    }
    r := InsertExtentSorted(r, written);
    assert forall b: nat :: At(r, b) == if e.offset <= b < iblock then Some(CellOf(e, b))
                            else if b == iblock then Some(CellOf(e, b).(unwritten := false)) else At(bare, b);
    if iblock + 1 < extEnd {
      var after := Extent(iblock + 1, e.phys + (iblock + 1 - e.offset), extEnd - (iblock + 1), true);
      assert forall b: nat :: Covers(after, b) ==> Covers(e, b);
      r := InsertExtentSorted(r, after);
    }
  }
}
