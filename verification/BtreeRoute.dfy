/** What the separators of an extent index are for: a lookup that takes, in each index node, the first child whose
    high key is above the offset ends at the leaf of the extent (briefs/btree.go, briefs/btree_build.go). */
module BtreeRoute {
  import opened BtreeBuild
  import opened BtreeProofs
  import opened BtreeWalk
  import opened Extents

  /** The first separator above key from the i-th on; a high key of 0 is above everything. */
  function Pick(idx: seq<Entry>, key: nat, i: nat): (k: nat)
    requires i <= |idx|
    ensures i <= k <= |idx|
    ensures forall j :: i <= j < k ==> idx[j].highKey != 0 && idx[j].highKey <= key
    ensures k < |idx| ==> idx[k].highKey == 0 || key < idx[k].highKey
    decreases |idx| - i
  {
    if i == |idx| || idx[i].highKey == 0 || key < idx[i].highKey then i else Pick(idx, key, i + 1)
  }

  /** The node that h steps down from a block lead to. */
  function Route(dev: NodeDev, block: nat, key: nat, h: nat): (leaf: nat)
    decreases h
  {
    if h == 0 || block !in dev || dev[block].Leaf? then block
    else Route(dev, Children(dev[block])[Pick(dev[block].idx, key, 0)], key, h - 1)
  }

  /** e is the last of the extents that starts at or before key. */
  ghost predicate Floor(exts: seq<Extent>, e: Extent, key: nat) {
    e in exts && e.offset <= key && forall x :: x in exts && x.offset <= key ==> x.offset <= e.offset
  }

  lemma {:induction false} FindKid(kids: seq<Tree>, e: Extent) returns (m: nat)
    requires e in ExtsAll(kids)
    ensures m < |kids| && e in Exts(kids[m])
  {
    if e in Exts(kids[0]) {
      m := 0;
    } else {
      m := FindKid(kids[1..], e);
      m := m + 1;
    }
  }

  lemma KidInAll(kids: seq<Tree>, m: nat, e: Extent)
    requires m < |kids| && e in Exts(kids[m])
    ensures e in ExtsAll(kids)
  {
    assert kids == kids[..m] + kids[m..];
    ExtsAllConcat(kids[..m], kids[m..]);
  }

  /** In an ascending list the extents of one child come before those of the next ones. */
  lemma KidsOrdered(kids: seq<Tree>, a: nat, b: nat, x: Extent, y: Extent)
    requires Ascending(ExtsAll(kids)) && a < b < |kids| && x in Exts(kids[a]) && y in Exts(kids[b])
    ensures x.offset < y.offset
  {
    var front, back := kids[..b], kids[b..];
    assert kids == front + back && front[a] == kids[a] && back[0] == kids[b];
    ExtsAllConcat(front, back);
    KidInAll(front, a, x);
    KidInAll(back, 0, y);
    hide ExtsAll, Ascending;
    PartsOrdered(ExtsAll(front), ExtsAll(back), x, y);
  }

  lemma PartsOrdered(p: seq<Extent>, q: seq<Extent>, x: Extent, y: Extent)
    requires Ascending(p + q) && x in p && y in q
    ensures x.offset < y.offset
  {
    var i :| 0 <= i < |p| && p[i] == x;
    var j :| 0 <= j < |q| && q[j] == y;
    assert (p + q)[i] == x && (p + q)[|p| + j] == y;
    AscendingPair(p + q, i, |p| + j);
  }

  lemma {:induction false} KidAscending(kids: seq<Tree>, m: nat)
    requires Ascending(ExtsAll(kids)) && m < |kids|
    ensures Ascending(Exts(kids[m]))
    decreases m
  {
    hide Ascending;
    AscendingParts(Exts(kids[0]), ExtsAll(kids[1..]));
    if m > 0 { KidAscending(kids[1..], m - 1); }
  }

  lemma FirstLeast(exts: seq<Extent>, e: Extent)
    requires Ascending(exts) && e in exts
    ensures exts[0].offset <= e.offset
  {
    var j :| 0 <= j < |exts| && exts[j] == e;
    if j > 0 { AscendingPair(exts, 0, j); }
  }

  lemma StoredNotEmpty(dev: NodeDev, t: Tree, h: nat)
    requires Stored(dev, t, h)
    ensures Exts(t) != []
  {
    if t.NodeT? {
      assert MinKeyIs(t.kids[1], dev[t.block].idx[0].highKey);
      KidInAll(t.kids, 1, Exts(t.kids[1])[0]);
    }
  }

  /** The child a lookup takes is the one that holds the extent. */
  lemma PicksKid(n: Node, kids: seq<Tree>, e: Extent, key: nat, m: nat)
    requires kids != [] && Linked(n, kids) && Exts(kids[0]) != []
    requires Ascending(ExtsAll(kids)) && Floor(ExtsAll(kids), e, key) && m < |kids| && e in Exts(kids[m])
    ensures Pick(n.idx, key, 0) == m
  {
    var k := Pick(n.idx, key, 0);
    if m < k {
      assert MinKeyIs(kids[k - 1 + 1], n.idx[k-1].highKey);
      var f := Exts(kids[k])[0];
      KidInAll(kids, k, f);
      KidsOrdered(kids, m, k, e, f);
    } else if k < m {
      assert MinKeyIs(kids[k+1], n.idx[k].highKey);
      var f := Exts(kids[k+1])[0];
      if k > 0 { assert MinKeyIs(kids[k - 1 + 1], n.idx[k-1].highKey); }
      KidsOrdered(kids, k, k + 1, Exts(kids[k])[0], f);
      if k + 1 < m {
        KidsOrdered(kids, k + 1, m, f, e);
      } else {
        KidAscending(kids, m);
        FirstLeast(Exts(kids[m]), e);
      }
    }
  }

  /** A lookup over a stored tree ends at the leaf that holds the last extent at or before the key. */
  lemma {:induction false} RouteFinds(dev: NodeDev, t: Tree, h: nat, e: Extent, key: nat)
    requires Stored(dev, t, h) && Ascending(Exts(t)) && Floor(Exts(t), e, key)
    ensures var leaf := Route(dev, t.block, key, h); leaf in dev && dev[leaf].Leaf? && e in dev[leaf].exts
    decreases h
  {
    if t.NodeT? {
      var n, kids := dev[t.block], t.kids;
      var m := FindKid(kids, e);
      StoredNotEmpty(dev, kids[0], h - 1);
      PicksKid(n, kids, e, key, m);
      KidAscending(kids, m);
      forall x | x in Exts(kids[m]) ensures x in ExtsAll(kids) { KidInAll(kids, m, x); }
      assert Children(n)[m] == kids[m].block;
      RouteFinds(dev, kids[m], h - 1, e, key);
    }
  }

  /** An index the builder wrote routes every offset of the file to the leaf of its extent. */
  lemma BuiltRoutes(dev: NodeDev, t: Tree, extents: seq<Extent>, nodes: set<nat>, e: Extent, key: nat)
    requires Indexable(extents) && Built(dev, t, extents, nodes) && Floor(extents, e, key)
    ensures var leaf := Route(dev, t.block, key, Height(CeilDiv(|extents|, 126)));
      leaf in dev && dev[leaf].Leaf? && e in dev[leaf].exts && |dev[leaf].exts| <= 126
  {
    var h := Height(CeilDiv(|extents|, LEAF_FANOUT));
    RouteFinds(dev, t, h, e, key);
    RouteLeaf(dev, t, key, h);
  }

  lemma {:induction false} RouteLeaf(dev: NodeDev, t: Tree, key: nat, h: nat)
    requires Stored(dev, t, h)
    ensures var leaf := Route(dev, t.block, key, h); leaf in dev && dev[leaf].Leaf? && 0 < |dev[leaf].exts| <= 126
    decreases h
  {
    if t.NodeT? {
      var k := Pick(dev[t.block].idx, key, 0);
      assert Children(dev[t.block])[k] == t.kids[k].block;
      RouteLeaf(dev, t.kids[k], key, h - 1);
    }
  }
}
