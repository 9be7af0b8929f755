/** What the index-descent walk and fsck's checks accept, on arbitrary node blocks (briefs/btree.go,
    cmd/fsck/btree_verify.go). */
module BtreeExact {
  import opened BtreeProofs
  import opened BtreeWalk
  import opened Extents
  import opened Options
  import opened Sets

  // ---------------------------------------------------------------------------
  // The walk succeeds exactly on a tree

  /** What hangs below one child pointer; a null pointer is skipped. */
  datatype Branch = Null | LeafB(block: nat, exts: seq<Extent>) | NodeB(block: nat, kids: seq<Branch>)

  /** The device holds the branch at this pointer, within the fan-out and depth the reader allows. */
  ghost predicate Holds(dev: NodeDev, t: Branch, block: nat, depth: nat)
    decreases t, 1
  {
    match t
    case Null => block == 0
    case LeafB(b, exts) =>
      && b == block != 0 && depth <= 16 && b in dev && dev[b].Leaf? && dev[b].exts == exts
      && |exts| <= 126 && forall i :: 0 < i < |exts| ==> exts[i-1].offset < exts[i].offset
    case NodeB(b, kids) =>
      && b == block != 0 && depth <= 16 && b in dev && dev[b].Internal?
      && |dev[b].idx| <= 253 && HoldsAll(dev, kids, Children(dev[b]), depth + 1)
  }

  ghost predicate HoldsAll(dev: NodeDev, ts: seq<Branch>, blocks: seq<nat>, depth: nat)
    decreases ts, 0
  {
    |ts| == |blocks| && forall i :: 0 <= i < |ts| ==> Holds(dev, ts[i], blocks[i], depth)
  }

  /** The node blocks in the order of the walk, and the extents. */
  function Nodes(t: Branch): (r: seq<nat>)
    decreases t, 1
  {
    match t case Null => [] case LeafB(b, _) => [b] case NodeB(b, kids) => [b] + NodesAll(kids)
  }

  function NodesAll(ts: seq<Branch>): (r: seq<nat>)
    decreases ts, 0
  {
    if ts == [] then [] else Nodes(ts[0]) + NodesAll(ts[1..])
  }

  function ExtentsOf(t: Branch): (r: seq<Extent>)
    decreases t, 1
  {
    match t case Null => [] case LeafB(_, exts) => exts case NodeB(_, kids) => ExtentsOfAll(kids)
  }

  function ExtentsOfAll(ts: seq<Branch>): (r: seq<Extent>)
    decreases ts, 0
  {
    if ts == [] then [] else ExtentsOf(ts[0]) + ExtentsOfAll(ts[1..])
  }

  predicate NoRepeat(bs: seq<nat>) {
    forall i, j :: 0 <= i < j < |bs| ==> bs[i] != bs[j]
  }

  predicate Unseen(bs: seq<nat>, visited: set<nat>) {
    forall i :: 0 <= i < |bs| ==> bs[i] !in visited
  }

  /** The walk's report of a branch. */
  ghost predicate Reports(r: WalkResult, visited: set<nat>, nodes: seq<nat>, exts: seq<Extent>) {
    && r.Walked? && r.visited == visited + SeqSet(nodes) && |r.seen| == |nodes|
    && (forall i :: 0 <= i < |nodes| ==> r.seen[i].block == nodes[i])
    && WalkedExtents(r) == exts
  }

  lemma SplitUnseen(a: seq<nat>, b: seq<nat>, visited: set<nat>)
    ensures NoRepeat(a + b) && Unseen(a + b, visited) <==>
      NoRepeat(a) && Unseen(a, visited) && NoRepeat(b) && Unseen(b, visited + SeqSet(a))
  {
    var c := a + b;
    if NoRepeat(c) && Unseen(c, visited) {
      forall i, j | 0 <= i < j < |a| ensures a[i] != a[j] { assert c[i] != c[j]; }
      forall i, j | 0 <= i < j < |b| ensures b[i] != b[j] { assert c[|a| + i] != c[|a| + j]; }
      forall i | 0 <= i < |a| ensures a[i] !in visited { assert c[i] !in visited; }
      forall i | 0 <= i < |b| ensures b[i] !in visited + SeqSet(a) {
        assert c[|a| + i] !in visited;
        forall j | 0 <= j < |a| ensures a[j] != b[i] { assert c[j] != c[|a| + i]; }
      }
    }
    if NoRepeat(a) && Unseen(a, visited) && NoRepeat(b) && Unseen(b, visited + SeqSet(a)) {
      forall i, j | 0 <= i < j < |c| ensures c[i] != c[j] {
        if i < |a| <= j { assert b[j - |a|] !in SeqSet(a); }
      }
    }
  }

  lemma JoinReports(r: WalkResult, rest: WalkResult, visited: set<nat>, a: seq<nat>, b: seq<nat>, xs: seq<Extent>,
                    ys: seq<Extent>)
    requires Reports(r, visited, a, xs) && Reports(rest, visited + SeqSet(a), b, ys)
    ensures Reports(Walked(rest.visited, r.seen + rest.seen), visited, a + b, xs + ys)
  {
    ChunksConcat(r.seen, rest.seen);
    FlattenConcat(Chunks(r.seen), Chunks(rest.seen));
    assert SeqSet(a + b) == SeqSet(a) + SeqSet(b);
  }

  /** A walk that succeeds has walked a branch that the device holds, visiting each node once. */
  lemma {:induction false} WalkSound(dev: NodeDev, block: nat, visited: set<nat>, depth: nat, lvl: nat, isRoot: bool)
    returns (t: Branch)
    requires depth <= MAX_DEPTH + 1 && WalkNode(dev, block, visited, depth, lvl, isRoot).Walked?
    ensures Holds(dev, t, block, depth) && NoRepeat(Nodes(t)) && Unseen(Nodes(t), visited)
    ensures Reports(WalkNode(dev, block, visited, depth, lvl, isRoot), visited, Nodes(t), ExtentsOf(t))
    decreases MAX_DEPTH + 1 - depth, 0, 0
  {
    var r := WalkNode(dev, block, visited, depth, lvl, isRoot);
    if block == 0 {
      t := Null;
    } else if dev[block].Leaf? {
      t := LeafB(block, dev[block].exts);
      OneLeaf(r.seen[0]);
    } else {
      var node := dev[block];
      var kids := WalkSoundAll(dev, Children(node), visited + {block}, depth + 1, (node.level + 0xFFFF) % 0x1_0000);
      t := NodeB(block, kids);
      var sub := WalkChildren(dev, Children(node), visited + {block}, depth + 1, (node.level + 0xFFFF) % 0x1_0000);
      NodeReport(dev, block, visited, depth, lvl, isRoot, sub, kids);
    }
  }

  lemma OneLeaf(i: Info)
    requires i.node.Leaf?
    ensures Flatten(Chunks([i])) == i.node.exts
  {
    assert Chunks([i]) == [i.node.exts] + Chunks([]);
    assert Flatten([i.node.exts]) == i.node.exts + Flatten([]);
  }

  lemma NodeReport(dev: NodeDev, block: nat, visited: set<nat>, depth: nat, lvl: nat, isRoot: bool, sub: WalkResult,
                   kids: seq<Branch>)
    requires depth <= MAX_DEPTH && block != 0 && block !in visited && block in dev && dev[block].Internal?
    requires |dev[block].idx| <= IDX_FANOUT
    requires sub ==
      WalkChildren(dev, Children(dev[block]), visited + {block}, depth + 1, (dev[block].level + 0xFFFF) % 0x1_0000)
    requires Reports(sub, visited + {block}, NodesAll(kids), ExtentsOfAll(kids))
    requires NoRepeat(NodesAll(kids)) && Unseen(NodesAll(kids), visited + {block})
    ensures Reports(WalkNode(dev, block, visited, depth, lvl, isRoot), visited, [block] + NodesAll(kids),
      ExtentsOfAll(kids))
    ensures NoRepeat([block] + NodesAll(kids)) && Unseen([block] + NodesAll(kids), visited)
  {
    var info := Info(block, dev[block], depth, isRoot, lvl);
    assert SeqSet([block]) == {block};
    assert Chunks([info]) == [] + Chunks([]);
    JoinReports(Walked(visited + {block}, [info]), sub, visited, [block], NodesAll(kids), [], ExtentsOfAll(kids));
    SplitUnseen([block], NodesAll(kids), visited);
    assert [] + ExtentsOfAll(kids) == ExtentsOfAll(kids);
  }

  lemma {:induction false} WalkSoundAll(dev: NodeDev, kids: seq<nat>, visited: set<nat>, depth: nat, lvl: nat)
    returns (ts: seq<Branch>)
    requires depth <= MAX_DEPTH + 1 && WalkChildren(dev, kids, visited, depth, lvl).Walked?
    ensures HoldsAll(dev, ts, kids, depth) && NoRepeat(NodesAll(ts)) && Unseen(NodesAll(ts), visited)
    ensures Reports(WalkChildren(dev, kids, visited, depth, lvl), visited, NodesAll(ts), ExtentsOfAll(ts))
    decreases MAX_DEPTH + 1 - depth, 1, |kids|
  {
    if kids == [] {
      ts := [];
    } else {
      var t := WalkSound(dev, kids[0], visited, depth, lvl, false);
      var r := WalkNode(dev, kids[0], visited, depth, lvl, false);
      var rest := WalkSoundAll(dev, kids[1..], r.visited, depth, lvl);
      ts := [t] + rest;
      assert ts[1..] == rest;
      SplitUnseen(Nodes(t), NodesAll(rest), visited);
      JoinReports(r, WalkChildren(dev, kids[1..], r.visited, depth, lvl), visited, Nodes(t), NodesAll(rest),
        ExtentsOf(t), ExtentsOfAll(rest));
    }
  }

  /** And every such branch is walked. */
  lemma {:induction false} WalkComplete(dev: NodeDev, t: Branch, block: nat, visited: set<nat>, depth: nat,
                                        lvl: nat, isRoot: bool)
    requires depth <= MAX_DEPTH + 1 && Holds(dev, t, block, depth) && NoRepeat(Nodes(t)) && Unseen(Nodes(t), visited)
    ensures Reports(WalkNode(dev, block, visited, depth, lvl, isRoot), visited, Nodes(t), ExtentsOf(t))
    decreases t, 1
  {
    match t
    case Null =>
    case LeafB(b, exts) =>
      assert Nodes(t)[0] == b;
      OneLeaf(Info(b, dev[b], depth, isRoot, lvl));
    case NodeB(b, kids) =>
      assert Nodes(t)[0] == b;
      SplitUnseen([b], NodesAll(kids), visited);
      assert SeqSet([b]) == {b};
      WalkCompleteAll(dev, kids, Children(dev[b]), visited + {b}, depth + 1, (dev[b].level + 0xFFFF) % 0x1_0000);
      var sub := WalkChildren(dev, Children(dev[b]), visited + {b}, depth + 1, (dev[b].level + 0xFFFF) % 0x1_0000);
      NodeReport(dev, b, visited, depth, lvl, isRoot, sub, kids);
  }

  lemma {:induction false} WalkCompleteAll(dev: NodeDev, ts: seq<Branch>, kids: seq<nat>, visited: set<nat>,
                                           depth: nat, lvl: nat)
    requires depth <= MAX_DEPTH + 1 && HoldsAll(dev, ts, kids, depth) && NoRepeat(NodesAll(ts))
    requires Unseen(NodesAll(ts), visited)
    ensures Reports(WalkChildren(dev, kids, visited, depth, lvl), visited, NodesAll(ts), ExtentsOfAll(ts))
    decreases ts, 0
  {
    if ts != [] {
      SplitUnseen(Nodes(ts[0]), NodesAll(ts[1..]), visited);
      WalkComplete(dev, ts[0], kids[0], visited, depth, lvl, false);
      var r := WalkNode(dev, kids[0], visited, depth, lvl, false);
      WalkCompleteAll(dev, ts[1..], kids[1..], r.visited, depth, lvl);
      JoinReports(r, WalkChildren(dev, kids[1..], r.visited, depth, lvl), visited, Nodes(ts[0]), NodesAll(ts[1..]),
        ExtentsOf(ts[0]), ExtentsOfAll(ts[1..]));
    }
  }

  /** A tree hangs from the root, no node twice. */
  ghost predicate Rooted(dev: NodeDev, t: Branch, root: nat) {
    Holds(dev, t, root, 0) && NoRepeat(Nodes(t))
  }

  /** The strict walk succeeds exactly when a finite tree hangs from the root, at most 17 nodes deep, with fan-out
      in bounds, sorted leaves and no node twice; it then reports that tree's nodes and extents in order. */
  lemma WalkExact(dev: NodeDev, root: nat)
    ensures WalkBtree(dev, root).Walked? <==> exists t :: Rooted(dev, t, root)
    ensures forall t :: Rooted(dev, t, root) ==> Reports(WalkBtree(dev, root), {}, Nodes(t), ExtentsOf(t))
  {
    if WalkBtree(dev, root).Walked? {
      var t := WalkSound(dev, root, {}, 0, 0, true);
      assert Rooted(dev, t, root);
    }
    forall t | Rooted(dev, t, root) ensures Reports(WalkBtree(dev, root), {}, Nodes(t), ExtentsOf(t)) {
      WalkComplete(dev, t, root, {}, 0, 0, true);
    }
  }

  // ---------------------------------------------------------------------------
  // What fsck adds

  /** Checking each leaf against the one before is checking the whole list. */
  lemma {:induction false} CrossLeafExact(chunks: seq<seq<Extent>>, prev: Option<nat>)
    requires forall i :: 0 <= i < |chunks| ==> Ascending(chunks[i])
    ensures CrossLeafOk(chunks, prev) <==>
      Ascending(Flatten(chunks)) && (prev.Some? && Flatten(chunks) != [] ==> prev.value < Flatten(chunks)[0].offset)
  {
    if chunks != [] {
      var c, rest := chunks[0], chunks[1..];
      if c == [] {
        CrossLeafExact(rest, prev);
        assert Flatten(chunks) == Flatten(rest);
      } else {
        CrossLeafExact(rest, Some(c[|c|-1].offset));
        AscendingJoin(c, Flatten(rest));
      }
    }
  }

  lemma AscendingJoin(a: seq<Extent>, b: seq<Extent>)
    requires a != []
    ensures Ascending(a + b) <==> Ascending(a) && Ascending(b) && (b != [] ==> a[|a|-1].offset < b[0].offset)
  {
    var c := a + b;
    if Ascending(c) {
      forall i | 0 < i < |a| ensures a[i-1].offset < a[i].offset { assert c[i-1].offset < c[i].offset; }
      forall i | 0 < i < |b| ensures b[i-1].offset < b[i].offset { assert c[|a| + i - 1].offset < c[|a| + i].offset; }
      if b != [] { assert c[|a| - 1].offset < c[|a|].offset; }
    }
  }

  lemma {:induction false} LeavesSorted(dev: NodeDev, block: nat, visited: set<nat>, depth: nat, lvl: nat, isRoot: bool)
    requires depth <= MAX_DEPTH + 1 && WalkNode(dev, block, visited, depth, lvl, isRoot).Walked?
    ensures forall i :: 0 <= i < |Chunks(WalkNode(dev, block, visited, depth, lvl, isRoot).seen)| ==>
      Ascending(Chunks(WalkNode(dev, block, visited, depth, lvl, isRoot).seen)[i])
    decreases MAX_DEPTH + 1 - depth, 0, 0
  {
    var r := WalkNode(dev, block, visited, depth, lvl, isRoot);
    if block != 0 {
      if dev[block].Leaf? {
        assert Chunks(r.seen) == [dev[block].exts] + Chunks([]);
      } else {
        LeavesSortedAll(dev, Children(dev[block]), visited + {block}, depth + 1,
          (dev[block].level + 0xFFFF) % 0x1_0000);
        assert r.seen[1..] ==
          WalkChildren(dev, Children(dev[block]), visited + {block}, depth + 1,
            (dev[block].level + 0xFFFF) % 0x1_0000).seen;
      }
    }
  }

  lemma {:induction false} LeavesSortedAll(dev: NodeDev, kids: seq<nat>, visited: set<nat>, depth: nat, lvl: nat)
    requires depth <= MAX_DEPTH + 1 && WalkChildren(dev, kids, visited, depth, lvl).Walked?
    ensures forall i :: 0 <= i < |Chunks(WalkChildren(dev, kids, visited, depth, lvl).seen)| ==>
      Ascending(Chunks(WalkChildren(dev, kids, visited, depth, lvl).seen)[i])
    decreases MAX_DEPTH + 1 - depth, 1, |kids|
  {
    if kids != [] {
      var r := WalkNode(dev, kids[0], visited, depth, lvl, false);
      LeavesSorted(dev, kids[0], visited, depth, lvl, false);
      LeavesSortedAll(dev, kids[1..], r.visited, depth, lvl);
      ChunksConcat(r.seen, WalkChildren(dev, kids[1..], r.visited, depth, lvl).seen);
    }
  }

  /** Levels are 16-bit fields. */
  ghost predicate LevelsFit(dev: NodeDev) {
    forall b :: b in dev ==> dev[b].level < 0x1_0000
  }

  /** Separators: none is zero but perhaps the last, and the others strictly ascend. */
  ghost predicate KeysAscend(idx: seq<Entry>) {
    && (forall i :: 0 <= i < |idx| - 1 ==> idx[i].highKey != 0)
    && forall i, j :: 0 <= i < j < |idx| && idx[j].highKey != 0 ==> idx[i].highKey < idx[j].highKey
  }

  lemma {:induction false} KeysPairwise(idx: seq<Entry>, i: nat, j: nat)
    requires HighKeysOk(idx) && i < j < |idx| && idx[j].highKey != 0
    ensures idx[i].highKey < idx[j].highKey
  {
    if i + 1 < j { KeysPairwise(idx, i, j - 1); }
  }

  lemma KeysExact(idx: seq<Entry>)
    ensures HighKeysOk(idx) <==> KeysAscend(idx)
  {
    if HighKeysOk(idx) {
      forall i, j | 0 <= i < j < |idx| && idx[j].highKey != 0 ensures idx[i].highKey < idx[j].highKey {
        KeysPairwise(idx, i, j);
      }
    }
  }

  /** What fsck checks of a branch: leaves are at level 0; an index node is above it, has no null child, ascending
      separators, and index nodes only one level below. A leaf may hang from any index node. */
  ghost predicate Checked(dev: NodeDev, t: Branch)
    decreases t, 1
  {
    match t
    case Null => true
    case LeafB(b, _) => b in dev && dev[b].level == 0
    case NodeB(b, kids) =>
      && b in dev && dev[b].Internal? && dev[b].level > 0 && KeysAscend(dev[b].idx)
      && CheckedAll(dev, kids, dev[b].level)
  }

  ghost predicate CheckedAll(dev: NodeDev, ts: seq<Branch>, level: nat)
    decreases ts, 0
  {
    forall i :: 0 <= i < |ts| ==>
      && !ts[i].Null? && Checked(dev, ts[i])
      && (ts[i].NodeB? ==> ts[i].block in dev && dev[ts[i].block].level + 1 == level)
  }

  ghost predicate AllOk(seen: seq<Info>) {
    forall i :: 0 <= i < |seen| ==> VisitNodeOk(seen[i])
  }

  lemma AllOkConcat(a: seq<Info>, b: seq<Info>)
    ensures AllOk(a + b) <==> AllOk(a) && AllOk(b)
  {
    var c := a + b;
    if AllOk(c) {
      forall i | 0 <= i < |a| ensures VisitNodeOk(a[i]) { assert VisitNodeOk(c[i]); }
      forall i | 0 <= i < |b| ensures VisitNodeOk(b[i]) { assert VisitNodeOk(c[|a| + i]); }
    }
  }

  lemma {:induction false} VisitsExact(dev: NodeDev, t: Branch, block: nat, visited: set<nat>, depth: nat, lvl: nat,
                                       isRoot: bool)
    requires LevelsFit(dev) && depth <= MAX_DEPTH + 1 && Holds(dev, t, block, depth)
    requires NoRepeat(Nodes(t)) && Unseen(Nodes(t), visited)
    ensures WalkNode(dev, block, visited, depth, lvl, isRoot).Walked?
    ensures AllOk(WalkNode(dev, block, visited, depth, lvl, isRoot).seen) <==>
      Checked(dev, t) && (t.NodeB? && !isRoot ==> dev[block].level == lvl)
    decreases t, 1
  {
    match t
    case Null =>
    case LeafB(b, exts) =>
      WalkComplete(dev, t, block, visited, depth, lvl, isRoot);
      assert WalkNode(dev, block, visited, depth, lvl, isRoot).seen == [Info(b, dev[b], depth, isRoot, lvl)];
    case NodeB(b, kids) =>
      FirstNode(t, visited);
      var below := (dev[b].level + 0xFFFF) % 0x1_0000;
      VisitsExactAll(dev, kids, Children(dev[b]), visited + {b}, depth + 1, below);
      VisitsNode(dev, b, kids, visited, depth, lvl, isRoot);
  }

  lemma FirstNode(t: Branch, visited: set<nat>)
    requires t.NodeB? && NoRepeat(Nodes(t)) && Unseen(Nodes(t), visited)
    ensures t.block !in visited && NoRepeat(NodesAll(t.kids)) && Unseen(NodesAll(t.kids), visited + {t.block})
  {
    SplitUnseen([t.block], NodesAll(t.kids), visited);
    assert SeqSet([t.block]) == {t.block};
    assert Nodes(t)[0] == t.block;
  }

  lemma VisitsNode(dev: NodeDev, b: nat, kids: seq<Branch>, visited: set<nat>, depth: nat, lvl: nat, isRoot: bool)
    requires LevelsFit(dev) && depth <= MAX_DEPTH + 1 && Holds(dev, NodeB(b, kids), b, depth) && b !in visited
    requires var below := (dev[b].level + 0xFFFF) % 0x1_0000;
      var sub := WalkChildren(dev, Children(dev[b]), visited + {b}, depth + 1, below);
      sub.Walked? && (AllOk(sub.seen) <==> KidsOk(dev, kids, below))
    ensures WalkNode(dev, b, visited, depth, lvl, isRoot).Walked?
    ensures AllOk(WalkNode(dev, b, visited, depth, lvl, isRoot).seen) <==>
      Checked(dev, NodeB(b, kids)) && (!isRoot ==> dev[b].level == lvl)
  {
    var info, below := Info(b, dev[b], depth, isRoot, lvl), (dev[b].level + 0xFFFF) % 0x1_0000;
    var sub := WalkChildren(dev, Children(dev[b]), visited + {b}, depth + 1, below);
    NodeExact(dev, info, kids);
    hide Checked, KidsOk, VisitNodeOk;
    AllOkConcat([info], sub.seen);
    assert AllOk([info]) <==> VisitNodeOk(info) by { assert [info][0] == info; }
    assert WalkNode(dev, b, visited, depth, lvl, isRoot).seen == [info] + sub.seen;
  }

  /** One index node's own checks, with those of its children. */
  lemma NodeExact(dev: NodeDev, info: Info, kids: seq<Branch>)
    requires LevelsFit(dev) && info.block in dev && info.node == dev[info.block] && info.node.Internal?
    requires HoldsAll(dev, kids, Children(info.node), info.depth + 1)
    ensures VisitNodeOk(info) && KidsOk(dev, kids, (info.node.level + 0xFFFF) % 0x1_0000) <==>
      Checked(dev, NodeB(info.block, kids)) && (!info.isRoot ==> info.node.level == info.expectedLevel)
  {
    var node, below := info.node, (info.node.level + 0xFFFF) % 0x1_0000;
    KeysExact(node.idx);
    assert node.level < 0x1_0000;
    assert node.level > 0 ==> below == node.level - 1;
    var kid := Children(node);
    assert forall i :: 0 <= i < |kids| ==> Holds(dev, kids[i], kid[i], info.depth + 1);
    assert forall i :: 0 <= i < |kids| ==> (kids[i].Null? <==> kid[i] == 0);
    assert kid[|node.idx|] == node.trailing;
    assert (forall i :: 0 <= i < |kids| ==> !kids[i].Null?) <==>
      (forall i :: 0 <= i < |node.idx| ==> node.idx[i].child != 0) && node.trailing != 0 by {
      if forall i :: 0 <= i < |kids| ==> !kids[i].Null? {
        forall i | 0 <= i < |node.idx|
          ensures node.idx[i].child != 0 { assert !kids[i].Null? && kid[i] == node.idx[i].child; }
        assert !kids[|node.idx|].Null?;
      }
    }
  }

  ghost predicate KidsOk(dev: NodeDev, ts: seq<Branch>, lvl: nat) {
    forall i :: 0 <= i < |ts| ==>
      Checked(dev, ts[i]) && (ts[i].NodeB? ==> ts[i].block in dev && dev[ts[i].block].level == lvl)
  }

  lemma {:induction false} VisitsExactAll(dev: NodeDev, ts: seq<Branch>, kids: seq<nat>, visited: set<nat>,
                                          depth: nat, lvl: nat)
    requires LevelsFit(dev) && depth <= MAX_DEPTH + 1 && HoldsAll(dev, ts, kids, depth)
    requires NoRepeat(NodesAll(ts)) && Unseen(NodesAll(ts), visited)
    ensures WalkChildren(dev, kids, visited, depth, lvl).Walked?
    ensures AllOk(WalkChildren(dev, kids, visited, depth, lvl).seen) <==> KidsOk(dev, ts, lvl)
    decreases ts, 0
  {
    WalkCompleteAll(dev, ts, kids, visited, depth, lvl);
    if ts != [] {
      SplitUnseen(Nodes(ts[0]), NodesAll(ts[1..]), visited);
      WalkComplete(dev, ts[0], kids[0], visited, depth, lvl, false);
      var r := WalkNode(dev, kids[0], visited, depth, lvl, false);
      VisitsExact(dev, ts[0], kids[0], visited, depth, lvl, false);
      VisitsExactAll(dev, ts[1..], kids[1..], r.visited, depth, lvl);
      AllOkConcat(r.seen, WalkChildren(dev, kids[1..], r.visited, depth, lvl).seen);
      KidsSplit(dev, ts, lvl);
    }
  }

  lemma KidsSplit(dev: NodeDev, ts: seq<Branch>, lvl: nat)
    requires ts != []
    ensures KidsOk(dev, ts, lvl) <==>
      && Checked(dev, ts[0]) && (ts[0].NodeB? ==> ts[0].block in dev && dev[ts[0].block].level == lvl)
      && KidsOk(dev, ts[1..], lvl)
  {
    assert forall i :: 0 < i < |ts| ==> ts[i] == ts[1..][i-1];
  }

  predicate OffsetsAscend(exts: seq<Extent>) {
    forall i, j :: 0 <= i < j < |exts| ==> exts[i].offset < exts[j].offset
  }

  /** fsck accepts exactly the devices that hold, from the root, a tree the walk allows whose nodes pass its checks,
      with offsets ascending through all leaves and as many extents as the inode says. */
  lemma FsckExact(dev: NodeDev, root: nat, total: nat)
    requires LevelsFit(dev)
    ensures FsckAccepts(WalkBtree(dev, root), total) <==>
      exists t :: Accepted(dev, t, root, total)
  {
    var r := WalkBtree(dev, root);
    if FsckAccepts(r, total) {
      var t := WalkSound(dev, root, {}, 0, 0, true);
      FsckOnTree(dev, root, total, t);
    }
    if exists t :: Accepted(dev, t, root, total) {
      var t :| Accepted(dev, t, root, total);
      FsckOnTree(dev, root, total, t);
    }
  }

  ghost predicate Accepted(dev: NodeDev, t: Branch, root: nat, total: nat) {
    && Rooted(dev, t, root) && Checked(dev, t)
    && OffsetsAscend(ExtentsOf(t)) && |ExtentsOf(t)| == total
  }

  lemma FsckOnTree(dev: NodeDev, root: nat, total: nat, t: Branch)
    requires LevelsFit(dev) && Rooted(dev, t, root)
    ensures FsckAccepts(WalkBtree(dev, root), total) <==> Accepted(dev, t, root, total)
  {
    var r := WalkBtree(dev, root);
    WalkComplete(dev, t, root, {}, 0, 0, true);
    VisitsExact(dev, t, root, {}, 0, 0, true);
    LeavesSorted(dev, root, {}, 0, 0, true);
    CrossLeafExact(Chunks(r.seen), None);
    var xs := ExtentsOf(t);
    if Ascending(xs) {
      forall i, j | 0 <= i < j < |xs| ensures xs[i].offset < xs[j].offset {
        AscendingPair(xs, i, j);
      }
    }
  }
}
