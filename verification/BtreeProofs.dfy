/** A stored tree walks back to its extents and passes every fsck check. */
module BtreeProofs {
  import opened Extents
  import opened BtreeWalk
  import opened Options

  // ---------------------------------------------------------------------------
  // Concatenation and order

  lemma {:induction false} ExtsAllConcat(a: seq<Tree>, b: seq<Tree>)
    ensures ExtsAll(a + b) == ExtsAll(a) + ExtsAll(b)
  {
    if a == [] {
      assert a + b == b;
    } else {
      assert (a + b)[1..] == a[1..] + b;
      ExtsAllConcat(a[1..], b);
    }
  }

  lemma {:induction false} BagAllConcat(a: seq<Tree>, b: seq<Tree>)
    ensures BagAll(a + b) == BagAll(a) + BagAll(b)
  {
    if a == [] {
      assert a + b == b;
    } else {
      assert (a + b)[1..] == a[1..] + b;
      BagAllConcat(a[1..], b);
    }
  }

  lemma {:induction false} ChunksConcat(a: seq<Info>, b: seq<Info>)
    ensures Chunks(a + b) == Chunks(a) + Chunks(b)
  {
    if a == [] {
      assert a + b == b;
    } else {
      assert (a + b)[1..] == a[1..] + b;
      ChunksConcat(a[1..], b);
    }
  }

  lemma {:induction false} FlattenConcat(a: seq<seq<Extent>>, b: seq<seq<Extent>>)
    ensures Flatten(a + b) == Flatten(a) + Flatten(b)
  {
    if a == [] {
      assert a + b == b;
    } else {
      assert (a + b)[1..] == a[1..] + b;
      FlattenConcat(a[1..], b);
      assert a[0] + (Flatten(a[1..]) + Flatten(b)) == (a[0] + Flatten(a[1..])) + Flatten(b);
    }
  }

  lemma AscendingParts(a: seq<Extent>, b: seq<Extent>)
    requires Ascending(a + b)
    ensures Ascending(a) && Ascending(b)
  {
    var s := a + b;
    forall i | 0 < i < |a| ensures a[i-1].offset < a[i].offset { assert s[i-1].offset < s[i].offset; }
    forall i | 0 < i < |b| ensures b[i-1].offset < b[i].offset {
      assert s[|a| + i - 1].offset < s[|a| + i].offset;
    }
  }

  lemma {:induction false} AscendingPair(exts: seq<Extent>, i: nat, j: nat)
    requires Ascending(exts) && i < j < |exts|
    ensures exts[i].offset < exts[j].offset
  {
    if i + 1 < j { AscendingPair(exts, i, j - 1); }
  }

  // ---------------------------------------------------------------------------
  // The walk of a stored tree

  /** The visits the walk makes, in preorder. */
  function Visits(dev: NodeDev, t: Tree, depth: nat, isRoot: bool, lvl: nat): (r: seq<Info>)
    requires Covered(dev, t)
    decreases t, 1
  {
    [Info(t.block, dev[t.block], depth, isRoot, lvl)] +
    match t case LeafT(_, _) => [] case NodeT(b, kids) => VisitsAll(dev, kids, depth + 1,
      (dev[b].level + 0xFFFF) % 0x1_0000)
  }

  function VisitsAll(dev: NodeDev, ts: seq<Tree>, depth: nat, lvl: nat): (r: seq<Info>)
    requires forall i :: 0 <= i < |ts| ==> Covered(dev, ts[i])
    decreases ts, 0
  {
    if ts == [] then [] else Visits(dev, ts[0], depth, false, lvl) + VisitsAll(dev, ts[1..], depth, lvl)
  }

  /** Every node block of t is readable. */
  predicate Covered(dev: NodeDev, t: Tree)
    decreases t
  {
    t.block in dev &&
      match t case LeafT(_, _) => true case NodeT(_, kids) => forall i :: 0 <= i < |kids| ==> Covered(dev, kids[i])
  }

  lemma {:induction false} StoredCovered(dev: NodeDev, t: Tree, h: nat)
    requires Stored(dev, t, h)
    ensures Covered(dev, t)
    decreases h
  {
    if t.NodeT? {
      forall i | 0 <= i < |t.kids| ensures Covered(dev, t.kids[i]) { StoredCovered(dev, t.kids[i], h - 1); }
    }
  }

  ghost predicate StoredAll(dev: NodeDev, ts: seq<Tree>, h: nat) {
    forall i :: 0 <= i < |ts| ==> Stored(dev, ts[i], h)
  }

  function BlocksOf(ts: seq<Tree>): (r: seq<nat>) {
    seq(|ts|, i requires 0 <= i < |ts| => ts[i].block)
  }

  lemma BagSplit(a: multiset<nat>, b: multiset<nat>, visited: set<nat>)
    requires NoDup(a + b) && BagSet(a + b) !! visited
    ensures NoDup(a) && NoDup(b) && BagSet(a) !! visited && BagSet(b) !! visited + BagSet(a)
    ensures visited + BagSet(a) + BagSet(b) == visited + BagSet(a + b)
  {
    forall x: nat ensures a[x] <= 1 && b[x] <= 1 && !(x in a && x in b) {
      assert (a + b)[x] <= 1;
    }
  }

  lemma {:induction false} WalkStored(dev: NodeDev, t: Tree, h: nat, visited: set<nat>, depth: nat, lvl: nat,
                                      isRoot: bool)
    requires Stored(dev, t, h) && Covered(dev, t) && NoDup(Bag(t)) && BagSet(Bag(t)) !! visited
    requires depth + h <= MAX_DEPTH && Ascending(Exts(t))
    ensures WalkNode(dev, t.block, visited, depth, lvl, isRoot)
         == Walked(visited + BagSet(Bag(t)), Visits(dev, t, depth, isRoot, lvl))
    decreases t, 1
  {
    assert t.block in BagSet(Bag(t));
    match t
    case LeafT(b, exts) =>
      assert BagSet(Bag(t)) == {b};
    case NodeT(b, kids) =>
      assert Children(dev[b]) == BlocksOf(kids);
      BagSplit(multiset{b}, BagAll(kids), visited);
      assert BagSet(multiset{b}) == {b};
      WalkStoredAll(dev, kids, h - 1, visited + {b}, depth + 1, (dev[b].level + 0xFFFF) % 0x1_0000);
  }

  lemma {:induction false} WalkStoredAll(dev: NodeDev, ts: seq<Tree>, h: nat, visited: set<nat>, depth: nat, lvl: nat)
    requires StoredAll(dev, ts, h) && (forall i :: 0 <= i < |ts| ==> Covered(dev, ts[i]))
    requires NoDup(BagAll(ts)) && BagSet(BagAll(ts)) !! visited
    requires depth + h <= MAX_DEPTH && Ascending(ExtsAll(ts))
    ensures WalkChildren(dev, BlocksOf(ts), visited, depth, lvl)
         == Walked(visited + BagSet(BagAll(ts)), VisitsAll(dev, ts, depth, lvl))
    decreases ts, 0
  {
    if ts == [] {
      assert BagSet(BagAll(ts)) == {};
    } else {
      var t, rest := ts[0], ts[1..];
      BagSplit(Bag(t), BagAll(rest), visited);
      AscendingParts(Exts(t), ExtsAll(rest));
      WalkStored(dev, t, h, visited, depth, lvl, false);
      WalkStoredAll(dev, rest, h, visited + BagSet(Bag(t)), depth, lvl);
      hide Stored, StoredAll, Covered, NoDup, WalkNode, BagSet, Exts, ExtsAll, Ascending;
      assert BlocksOf(ts)[1..] == BlocksOf(rest);
    }
  }

  // ---------------------------------------------------------------------------
  // The visits carry the tree's leaves and pass visitNode

  lemma {:induction false} VisitChunks(dev: NodeDev, t: Tree, h: nat, depth: nat, isRoot: bool, lvl: nat)
    requires Stored(dev, t, h) && Covered(dev, t)
    ensures Chunks(Visits(dev, t, depth, isRoot, lvl)) == LeafChunks(t)
    decreases t, 1
  {
    var info := Info(t.block, dev[t.block], depth, isRoot, lvl);
    match t
    case LeafT(_, exts) =>
      assert Visits(dev, t, depth, isRoot, lvl) == [info];
      assert Chunks([info]) == [exts] + Chunks([info][1..]);
    case NodeT(b, kids) =>
      var all := VisitsAll(dev, kids, depth + 1, (dev[b].level + 0xFFFF) % 0x1_0000);
      VisitChunksAll(dev, kids, h - 1, depth + 1, (dev[b].level + 0xFFFF) % 0x1_0000);
      assert Visits(dev, t, depth, isRoot, lvl) == [info] + all;
      assert ([info] + all)[1..] == all;
  }

  lemma {:induction false} VisitChunksAll(dev: NodeDev, ts: seq<Tree>, h: nat, depth: nat, lvl: nat)
    requires StoredAll(dev, ts, h) && (forall i :: 0 <= i < |ts| ==> Covered(dev, ts[i]))
    ensures Chunks(VisitsAll(dev, ts, depth, lvl)) == LeafChunksAll(ts)
    decreases ts, 0
  {
    if ts != [] {
      VisitChunks(dev, ts[0], h, depth, false, lvl);
      VisitChunksAll(dev, ts[1..], h, depth, lvl);
      ChunksConcat(Visits(dev, ts[0], depth, false, lvl), VisitsAll(dev, ts[1..], depth, lvl));
    }
  }

  lemma {:induction false} LeafChunksFlatten(t: Tree)
    ensures Flatten(LeafChunks(t)) == Exts(t)
    decreases t, 1
  {
    match t
    case LeafT(_, exts) =>
      assert LeafChunks(t)[1..] == [];
      assert Flatten([exts]) == exts + Flatten([]);
    case NodeT(_, kids) => LeafChunksFlattenAll(kids);
  }

  lemma {:induction false} LeafChunksFlattenAll(ts: seq<Tree>)
    ensures Flatten(LeafChunksAll(ts)) == ExtsAll(ts)
    decreases ts, 0
  {
    if ts != [] {
      LeafChunksFlatten(ts[0]);
      LeafChunksFlattenAll(ts[1..]);
      FlattenConcat(LeafChunks(ts[0]), LeafChunksAll(ts[1..]));
    }
  }

  lemma {:induction false} StoredNonEmpty(dev: NodeDev, t: Tree, h: nat)
    requires Stored(dev, t, h)
    ensures Exts(t) != []
    decreases h
  {
    if t.NodeT? { StoredNonEmpty(dev, t.kids[0], h - 1); }
  }

  /** Where kid i's extents start in the parent's extents. */
  lemma KidStart(kids: seq<Tree>, i: nat)
    requires i < |kids| && Exts(kids[i]) != []
    ensures |ExtsAll(kids[..i])| < |ExtsAll(kids)| && ExtsAll(kids)[|ExtsAll(kids[..i])|] == Exts(kids[i])[0]
    ensures |ExtsAll(kids[..i+1])| == |ExtsAll(kids[..i])| + |Exts(kids[i])|
  {
    ExtsAllConcat(kids[..i], kids[i..]);
    assert kids == kids[..i] + kids[i..];
    assert ExtsAll(kids[i..]) == Exts(kids[i]) + ExtsAll(kids[i..][1..]);
    ExtsAllConcat(kids[..i], [kids[i]]);
    assert kids[..i+1] == kids[..i] + [kids[i]];
    assert [kids[i]][1..] == [];
    assert ExtsAll([kids[i]]) == Exts(kids[i]) + ExtsAll([]);
  }

  lemma KidOrder(kids: seq<Tree>, i: nat)
    requires i + 1 < |kids| && Exts(kids[i]) != [] && Exts(kids[i+1]) != [] && Ascending(ExtsAll(kids))
    ensures Exts(kids[i])[0].offset < Exts(kids[i+1])[0].offset
  {
    KidStart(kids, i);
    KidStart(kids, i + 1);
    AscendingPair(ExtsAll(kids), |ExtsAll(kids[..i])|, |ExtsAll(kids[..i+1])|);
  }

  lemma SeparatorsOk(dev: NodeDev, t: Tree, h: nat)
    requires Stored(dev, t, h) && t.NodeT? && Ascending(Exts(t))
    ensures HighKeysOk(dev[t.block].idx)
  {
    var idx, kids := dev[t.block].idx, t.kids;
    forall i | 0 <= i < |kids| ensures Exts(kids[i]) != [] { StoredNonEmpty(dev, kids[i], h - 1); }
    forall i | 0 <= i < |idx|
      ensures idx[i].highKey != 0 && (i > 0 ==> idx[i-1].highKey < idx[i].highKey)
    {
      KidOrder(kids, i);
    }
  }

  /** An index node has 2 to 254 children. */
  predicate FanoutOk(n: Node) {
    n.Internal? ==> 2 <= |Children(n)| <= IDX_FANOUT + 1
  }

  ghost predicate AllVisitsOk(seen: seq<Info>) {
    forall i :: 0 <= i < |seen| ==> VisitNodeOk(seen[i]) && FanoutOk(seen[i].node)
  }

  lemma {:induction false} VisitsPass(dev: NodeDev, t: Tree, h: nat, depth: nat, isRoot: bool, lvl: nat)
    requires Stored(dev, t, h) && Covered(dev, t) && Ascending(Exts(t)) && (isRoot || lvl == h)
    ensures AllVisitsOk(Visits(dev, t, depth, isRoot, lvl))
    decreases t, 1
  {
    if t.NodeT? {
      SeparatorsOk(dev, t, h);
      assert (h + 0xFFFF) % 0x1_0000 == h - 1;
      VisitsPassAll(dev, t.kids, h - 1, depth + 1, h - 1);
    }
  }

  lemma {:induction false} VisitsPassAll(dev: NodeDev, ts: seq<Tree>, h: nat, depth: nat, lvl: nat)
    requires StoredAll(dev, ts, h) && (forall i :: 0 <= i < |ts| ==> Covered(dev, ts[i]))
    requires Ascending(ExtsAll(ts)) && lvl == h
    ensures AllVisitsOk(VisitsAll(dev, ts, depth, lvl))
    decreases ts, 0
  {
    if ts != [] {
      AscendingParts(Exts(ts[0]), ExtsAll(ts[1..]));
      VisitsPass(dev, ts[0], h, depth, false, lvl);
      VisitsPassAll(dev, ts[1..], h, depth, lvl);
    }
  }

  lemma {:induction false} LeafChunksNonEmpty(dev: NodeDev, t: Tree, h: nat)
    requires Stored(dev, t, h)
    ensures forall i :: 0 <= i < |LeafChunks(t)| ==> LeafChunks(t)[i] != []
    decreases t, 1
  {
    if t.NodeT? { LeafChunksNonEmptyAll(dev, t.kids, h - 1); }
  }

  lemma {:induction false} LeafChunksNonEmptyAll(dev: NodeDev, ts: seq<Tree>, h: nat)
    requires StoredAll(dev, ts, h)
    ensures forall i :: 0 <= i < |LeafChunksAll(ts)| ==> LeafChunksAll(ts)[i] != []
    decreases ts, 0
  {
    if ts != [] {
      LeafChunksNonEmpty(dev, ts[0], h);
      LeafChunksNonEmptyAll(dev, ts[1..], h);
    }
  }

  lemma {:induction false} CrossLeafSorted(chunks: seq<seq<Extent>>, prev: Option<nat>)
    requires forall i :: 0 <= i < |chunks| ==> chunks[i] != []
    requires Ascending(Flatten(chunks)) && (prev.Some? && chunks != [] ==> prev.value < chunks[0][0].offset)
    ensures CrossLeafOk(chunks, prev)
  {
    if chunks != [] {
      var c, rest := chunks[0], chunks[1..];
      var all := c + Flatten(rest);
      AscendingParts(c, Flatten(rest));
      if rest != [] {
        assert Flatten(rest) == rest[0] + Flatten(rest[1..]);
        assert all[|c|] == rest[0][0];
        assert all[|c| - 1].offset < all[|c|].offset;
      }
      CrossLeafSorted(rest, Some(c[|c|-1].offset));
    }
  }

  /** A stored tree of at most 16 levels over ascending extents walks back to exactly those
      extents, visits exactly its node blocks, and passes every fsck check. */
  lemma StoredTreeWalks(dev: NodeDev, t: Tree, h: nat)
    requires Stored(dev, t, h) && NoDup(Bag(t)) && h <= MAX_DEPTH && Ascending(Exts(t))
    ensures var r := WalkBtree(dev, t.block);
      && r.Walked? && WalkedExtents(r) == Exts(t) && Chunks(r.seen) == LeafChunks(t)
      && r.visited == BagSet(Bag(t))
      && FsckAccepts(r, |Exts(t)|)
      && forall i :: 0 <= i < |r.seen| ==> FanoutOk(r.seen[i].node)
  {
    StoredCovered(dev, t, h);
    WalkStored(dev, t, h, {}, 0, 0, true);
    VisitChunks(dev, t, h, 0, true, 0);
    LeafChunksFlatten(t);
    VisitsPass(dev, t, h, 0, true, 0);
    LeafChunksNonEmpty(dev, t, h);
    CrossLeafSorted(LeafChunks(t), None);
  }

  // ---------------------------------------------------------------------------
  // What any completed walk reports, on any device contents

  /** The seen nodes are readable, non-null, new and pairwise distinct, and are exactly what
      the walk added to the visited set. */
  ghost predicate SeenOk(dev: NodeDev, visited: set<nat>, r: WalkResult)
    requires r.Walked?
  {
    && (forall i :: 0 <= i < |r.seen| ==>
          r.seen[i].block != 0 && r.seen[i].block in dev && r.seen[i].node == dev[r.seen[i].block]
          && r.seen[i].block !in visited && r.seen[i].block in r.visited)
    && (forall i, j :: 0 <= i < j < |r.seen| ==> r.seen[i].block != r.seen[j].block)
    && visited <= r.visited
    && forall b: nat :: b in r.visited && b !in visited ==> exists i :: 0 <= i < |r.seen| && r.seen[i].block == b
  }

  lemma SeenJoin(dev: NodeDev, visited: set<nat>, r: WalkResult, rest: WalkResult)
    requires r.Walked? && rest.Walked? && SeenOk(dev, visited, r) && SeenOk(dev, r.visited, rest)
    ensures SeenOk(dev, visited, Walked(rest.visited, r.seen + rest.seen))
  {
    var all := r.seen + rest.seen;
    forall i, j | 0 <= i < j < |all| ensures all[i].block != all[j].block {
      if i < |r.seen| <= j { assert rest.seen[j - |r.seen|].block !in r.visited; }
    }
    forall b: nat | b in rest.visited && b !in visited ensures exists i :: 0 <= i < |all| && all[i].block == b {
      if b in r.visited {
        var i :| 0 <= i < |r.seen| && r.seen[i].block == b;
        assert all[i].block == b;
      } else {
        var i :| 0 <= i < |rest.seen| && rest.seen[i].block == b;
        assert all[|r.seen| + i].block == b;
      }
    }
  }

  lemma {:induction false} WalkSeen(dev: NodeDev, block: nat, visited: set<nat>, depth: nat, lvl: nat, isRoot: bool)
    requires depth <= MAX_DEPTH + 1 && WalkNode(dev, block, visited, depth, lvl, isRoot).Walked?
    ensures SeenOk(dev, visited, WalkNode(dev, block, visited, depth, lvl, isRoot))
    decreases MAX_DEPTH + 1 - depth, 0, 0
  {
    var r := WalkNode(dev, block, visited, depth, lvl, isRoot);
    if block != 0 {
      var node := dev[block];
      var info := Info(block, node, depth, isRoot, lvl);
      var one := Walked(visited + {block}, [info]);
      assert [info][0].block == block;
      assert SeenOk(dev, visited, one);
      if node.Internal? {
        var kids := WalkChildren(dev, Children(node), visited + {block}, depth + 1, (node.level + 0xFFFF) % 0x1_0000);
        WalkSeenAll(dev, Children(node), visited + {block}, depth + 1, (node.level + 0xFFFF) % 0x1_0000);
        SeenJoin(dev, visited, one, kids);
      }
    }
  }

  lemma {:induction false} WalkSeenAll(dev: NodeDev, kids: seq<nat>, visited: set<nat>, depth: nat, lvl: nat)
    requires depth <= MAX_DEPTH + 1 && WalkChildren(dev, kids, visited, depth, lvl).Walked?
    ensures SeenOk(dev, visited, WalkChildren(dev, kids, visited, depth, lvl))
    decreases MAX_DEPTH + 1 - depth, 1, |kids|
  {
    if kids != [] {
      var r := WalkNode(dev, kids[0], visited, depth, lvl, false);
      WalkSeen(dev, kids[0], visited, depth, lvl, false);
      WalkSeenAll(dev, kids[1..], r.visited, depth, lvl);
      SeenJoin(dev, visited, r, WalkChildren(dev, kids[1..], r.visited, depth, lvl));
    }
  }
}
