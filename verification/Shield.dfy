/** The unwritten-extent metadata reserve (fuse/meta_shield.go, fuse/fs.go). */
module Shield {
  import opened Extents
  import opened BtreeWalk
  import opened BtreeBuild

  /** Worst-case index nodes for n unwritten blocks written one by one. */
  function MetaReserveSize(n: nat): (r: nat) {
    if n == 0 then 0
    else
      var leaves := (n + LEAF_FANOUT - 1) / LEAF_FANOUT;
      var internals := (leaves + IDX_FANOUT - 1) / IDX_FANOUT;
      leaves + internals + 1
  }

  // ---------------------------------------------------------------------------
  // When the reserve is enough

  /** Child slots left unused in the index nodes over m children, on all levels. */
  function Slack(m: nat): (r: nat) {
    if m <= 1 then 0 else MAX_CHILDREN * LevelNodes(m) - m + Slack(LevelNodes(m))
  }

  /** Every child and every index node but the root takes one slot; the rest are unused. */
  lemma {:induction false} SlackCounts(m: nat)
    requires m >= 1
    ensures IDX_FANOUT * IdxCount(m) + 1 == m + Slack(m)
  {
    if m > 1 { SlackCounts(LevelNodes(m)); }
  }

  lemma {:induction false} SlackBound(m: nat)
    ensures Slack(m) <= IDX_FANOUT * Height(m)
  {
    if m > 1 { SlackBound(LevelNodes(m)); }
  }

  /** The reserve covers every node the builder allocates exactly when the index nodes leave at most two
      nodes' worth of slots unused. */
  lemma ReserveExact(n: nat)
    ensures NodeCount(n) <= MetaReserveSize(n) <==> Slack(CeilDiv(n, LEAF_FANOUT)) <= 2 * IDX_FANOUT
  {
    var leaves := CeilDiv(n, LEAF_FANOUT);
    if n > 0 { SlackCounts(leaves); }
  }

  /** The largest extent count a tree with two index levels holds. */
  const RESERVE_LIMIT := LEAF_FANOUT * MAX_CHILDREN * MAX_CHILDREN

  /** Two index levels never leave more. */
  lemma ReserveCovers(n: nat)
    requires n <= RESERVE_LIMIT
    ensures NodeCount(n) <= MetaReserveSize(n)
  {
    var leaves := CeilDiv(n, LEAF_FANOUT);
    var l1 := LevelNodes(leaves);
    assert leaves <= MAX_CHILDREN * MAX_CHILDREN && l1 <= MAX_CHILDREN && LevelNodes(l1) <= 1;
    assert Height(l1) <= 1 by { assert Height(LevelNodes(l1)) == 0; }
    SlackBound(leaves);
    ReserveExact(n);
  }

  /** With three index levels, by the node counts of the two lower ones. */
  lemma ReserveThirdLevel(n: nat)
    requires RESERVE_LIMIT < n <= RESERVE_LIMIT * MAX_CHILDREN
    ensures var leaves := CeilDiv(n, LEAF_FANOUT);
      var l1 := CeilDiv(leaves, MAX_CHILDREN);
      NodeCount(n) <= MetaReserveSize(n) <==> leaves > IDX_FANOUT * (l1 + CeilDiv(l1, MAX_CHILDREN) - 1)
  {
    var leaves := CeilDiv(n, LEAF_FANOUT);
    var l1 := LevelNodes(leaves);
    var l2 := LevelNodes(l1);
    assert 1 < l2 <= MAX_CHILDREN;
    assert IdxCount(l2) == 1 + IdxCount(1);
    assert IdxCount(leaves) == l1 + IdxCount(l1) && IdxCount(l1) == l2 + IdxCount(l2);
  }

  function Power(k: nat): (p: nat)
    ensures p > 0
  {
    if k == 0 then 1 else MAX_CHILDREN * Power(k - 1)
  }

  lemma {:induction false} SlackPastPower(k: nat)
    ensures Slack(Power(k) + 1) == IDX_FANOUT * k + MAX_CHILDREN - 2
  {
    if k == 0 {
      assert LevelNodes(2) == 1 && Slack(1) == 0;
    } else {
      SlackPastPower(k - 1);
      assert LevelNodes(Power(k) + 1) == Power(k - 1) + 1;
    }
  }

  /** On every height past the second, one leaf more than the lower tree holds outgrows the reserve. */
  lemma ReserveFails(k: nat)
    requires k >= 2
    ensures var n := LEAF_FANOUT * Power(k) + 1; NodeCount(n) > MetaReserveSize(n)
  {
    var n := LEAF_FANOUT * Power(k) + 1;
    assert CeilDiv(n, LEAF_FANOUT) == Power(k) + 1;
    SlackPastPower(k);
    assert IDX_FANOUT * k >= IDX_FANOUT * 2;
    ReserveExact(n);
  }

  /** No bound on the extent count decides it: the reserve fails, holds again, and fails again. */
  lemma ReserveNotMonotone()
    ensures NodeCount(RESERVE_LIMIT + 1) > MetaReserveSize(RESERVE_LIMIT + 1)
    ensures NodeCount(8160769) <= MetaReserveSize(8160769)
    ensures NodeCount(8161021) > MetaReserveSize(8161021)
  {
    hide NodeCount, MetaReserveSize;
    ReserveThirdLevel(RESERVE_LIMIT + 1);
    ReserveThirdLevel(8160769);
    ReserveThirdLevel(8161021);
  }

  // ---------------------------------------------------------------------------
  // Counting unwritten blocks

  /** The file blocks that are mapped but unwritten. */
  ghost function UnwrittenSet(exts: seq<Extent>): (s: set<nat>) {
    if exts == [] then {}
    else UnwrittenSet(exts[..|exts|-1]) +
         (if exts[|exts|-1].unwritten then Span(exts[|exts|-1].offset, exts[|exts|-1].len) else {})
  }

  lemma {:induction false} UnwrittenSetSpec(exts: seq<Extent>)
    requires Sorted(exts)
    ensures forall b: nat :: b in UnwrittenSet(exts) <==> At(exts, b).Some? && At(exts, b).value.unwritten
  {
    if exts != [] {
      var m := |exts| - 1;
      UnwrittenSetSpec(exts[..m]);
      PrefixStep(exts, m);
      assert exts[..m+1] == exts;
      assert forall b: nat :: Covers(exts[m], b) <==> InSpan(exts[m].offset, exts[m].len, b);
    }
  }

  /** countUnwrittenBlocks counts exactly the mapped-but-unwritten file blocks. */
  method CountUnwrittenBlocks(exts: seq<Extent>) returns (n: nat)
    requires Sorted(exts)
    ensures n == |UnwrittenSet(exts)|
  {
    n := 0;
    for i := 0 to |exts|
      invariant n == |UnwrittenSet(exts[..i])|
    {
      var e := exts[i];
      PrefixStep(exts, i);
      UnwrittenSetSpec(exts[..i]);
      SpanSize(e.offset, e.len);
      assert exts[..i+1][..i] == exts[..i];
      assert UnwrittenSet(exts[..i]) !! Span(e.offset, e.len);
      if e.unwritten { n := n + e.len; }
    }
    assert exts[..|exts|] == exts;
  }

  // ---------------------------------------------------------------------------
  // The shield

  /** The sum of the reserves of all tracked inodes. */
  ghost function Total(m: map<nat, nat>): (t: nat)
    decreases |m.Keys|
  {
    if m.Keys == {} then 0
    else
      var k :| k in m;
      MetaReserveSize(m[k]) + Total(m - {k})
  }

  /** The order in which the inodes are summed does not matter. */
  lemma {:induction false} TotalRemove(m: map<nat, nat>, k: nat)
    requires k in m
    ensures Total(m) == MetaReserveSize(m[k]) + Total(m - {k})
    decreases |m.Keys|
  {
    var j :| j in m && Total(m) == MetaReserveSize(m[j]) + Total(m - {j});
    if j != k {
      assert (m - {j}).Keys == m.Keys - {j};
      TotalRemove(m - {j}, k);
      assert (m - {k}).Keys == m.Keys - {k};
      TotalRemove(m - {k}, j);
      assert m - {j} - {k} == m - {k} - {j};
    }
  }

  /** Tracked unwritten counts and the allocator's shield. */
  class Reserve {
    var unwrittenRes: map<nat, nat>
    var shield: nat

    ghost predicate Valid()
      reads this
    {
      shield == Total(unwrittenRes) && forall k :: k in unwrittenRes ==> unwrittenRes[k] > 0
    }

    constructor ()
      ensures Valid() && unwrittenRes == map[]
    {
      unwrittenRes, shield := map[], 0;
    }

    /** setUnwrittenRes: the shield stays the sum of the reserves.  Its decrease never
        exceeds it, so the unsigned subtraction in AdjustShield cannot wrap. */
    method SetUnwrittenRes(ino: nat, n: nat)
      requires Valid()
      modifies this
      ensures Valid()
      ensures unwrittenRes == if n == 0 then old(unwrittenRes) - {ino} else old(unwrittenRes)[ino := n]
    {
      var was := if ino in unwrittenRes then unwrittenRes[ino] else 0;
      if n == was {
        assert n == 0 ==> unwrittenRes - {ino} == unwrittenRes;
        assert n != 0 ==> unwrittenRes[ino := n] == unwrittenRes;
        return;
      }
      ghost var rest := unwrittenRes - {ino};
      if ino in unwrittenRes {
        TotalRemove(unwrittenRes, ino);
      } else {
        assert rest == unwrittenRes;
      }
      if n == 0 {
        unwrittenRes := unwrittenRes - {ino};
      } else {
        unwrittenRes := unwrittenRes[ino := n];
        assert unwrittenRes - {ino} == rest;
        TotalRemove(unwrittenRes, ino);
      }
      // AdjustShield(reserve(n) - reserve(was)).
      if MetaReserveSize(n) >= MetaReserveSize(was) {
        shield := shield + (MetaReserveSize(n) - MetaReserveSize(was));
      } else {
        assert shield >= MetaReserveSize(was) - MetaReserveSize(n);
        shield := shield - (MetaReserveSize(was) - MetaReserveSize(n));
      }
    }
  }
}
