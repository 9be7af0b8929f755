/** The localized extent-index rebuild (fuse/extent_rebuild.go): a prefix of unchanged leaf
    blocks is kept, everything else is re-emitted into fresh blocks. */
module BtreeRebuild {
  import opened Extents
  import opened Runs
  import opened BtreeWalk
  import opened BtreeProofs
  import opened BtreeBuild
  import opened Options
  import opened Sets

  datatype ExtLeaf = ExtLeaf(block: nat, chunk: seq<Extent>)

  /** The on-disk index as walked: extents, leaves with their chunks, internal blocks. */
  datatype ExtentTree = ExtentTree(exts: seq<Extent>, leaves: seq<ExtLeaf>, idx: seq<nat>)

  function LeavesOf(seen: seq<Info>): (r: seq<ExtLeaf>) {
    if seen == [] then []
    else (if seen[0].node.Leaf? then [ExtLeaf(seen[0].block, seen[0].node.exts)] else []) + LeavesOf(seen[1..])
  }

  function IdxOf(seen: seq<Info>): (r: seq<nat>) {
    if seen == [] then [] else (if seen[0].node.Leaf? then [] else [seen[0].block]) + IdxOf(seen[1..])
  }

  function SeenBlocks(seen: seq<Info>): (r: seq<nat>)
    ensures |r| == |seen| && forall i :: 0 <= i < |seen| ==> r[i] == seen[i].block
  {
    if seen == [] then [] else [seen[0].block] + SeenBlocks(seen[1..])
  }

  function LeafBlocks(leaves: seq<ExtLeaf>): (r: seq<nat>)
    ensures |r| == |leaves| && forall i :: 0 <= i < |leaves| ==> r[i] == leaves[i].block
  {
    if leaves == [] then [] else [leaves[0].block] + LeafBlocks(leaves[1..])
  }

  /** collectExtentTree on a tree-backed inode. */
  function CollectExtentTree(r: WalkResult): (t: ExtentTree)
    requires r.Walked?
  {
    ExtentTree(WalkedExtents(r), LeavesOf(r.seen), IdxOf(r.seen))
  }

  // ---------------------------------------------------------------------------
  // What collecting a walked tree yields

  lemma DistinctInsert(a: seq<nat>, x: nat, c: seq<nat>)
    requires Distinct(a + c) && x !in a + c
    ensures Distinct(a + ([x] + c))
  {
    var all, s := a + c, a + ([x] + c);
    forall i, j | 0 <= i < j < |s| ensures s[i] != s[j] {
      var i', j' := if i < |a| then i else i - 1, if j < |a| then j else j - 1;
      assert i != |a| ==> s[i] == all[i'];
      assert j != |a| ==> s[j] == all[j'];
    }
  }

  lemma DistinctFront(a: seq<nat>, x: nat, c: seq<nat>)
    requires Distinct(a + c) && x !in a + c
    ensures Distinct(([x] + a) + c)
  {
    var all, s := a + c, ([x] + a) + c;
    assert s == [x] + all;
  }

  lemma {:induction false} CollectedMembers(seen: seq<Info>)
    ensures forall b: nat :: b in LeafBlocks(LeavesOf(seen)) + IdxOf(seen) <==> b in SeenBlocks(seen)
  {
    if seen != [] {
      var x, rest := seen[0].block, seen[1..];
      CollectedMembers(rest);
      if seen[0].node.Leaf? { CollectLeafStep(seen); } else { CollectNodeStep(seen); }
    }
  }

  lemma DistinctJoin(a: seq<nat>, c: seq<nat>)
    requires Distinct(a) && Distinct(c) && forall b: nat :: b in c ==> b !in a
    ensures Distinct(a + c)
  {
    var s := a + c;
    forall i, j | 0 <= i < j < |s| ensures s[i] != s[j] {
      if i < |a| <= j {
        assert s[j] == c[j - |a|] && s[i] in a;
      } else if |a| <= i {
        assert s[i] == c[i - |a|] && s[j] == c[j - |a|];
      }
    }
  }

  lemma DistinctPrefix(s: seq<nat>, n: nat)
    requires Distinct(s) && n <= |s|
    ensures Distinct(s[..n]) && forall b: nat :: b in s[n..] ==> b !in s[..n]
  {
    assert s == s[..n] + s[n..];
    forall b: nat | b in s[n..] ensures b !in s[..n] {
      NotInEarlier(s[..n], s[n..], b);
    }
  }

  lemma DistinctTail(s: seq<nat>)
    requires s != [] && Distinct(s)
    ensures Distinct(s[1..]) && s[0] !in s[1..]
  {
  }

  /** Leaves and index blocks together are the seen blocks, each once. */
  lemma {:induction false} CollectedBlocks(seen: seq<Info>)
    requires Distinct(SeenBlocks(seen))
    ensures Distinct(LeafBlocks(LeavesOf(seen)) + IdxOf(seen))
  {
    if seen != [] {
      var x, rest := seen[0].block, seen[1..];
      var lb, idx := LeafBlocks(LeavesOf(rest)), IdxOf(rest);
      DistinctTail(SeenBlocks(seen));
      assert SeenBlocks(seen)[1..] == SeenBlocks(rest);
      CollectedBlocks(rest);
      CollectedMembers(rest);
      hide LeavesOf, IdxOf, LeafBlocks, SeenBlocks, Distinct;
      assert x !in lb + idx;
      if seen[0].node.Leaf? {
        CollectLeafStep(seen);
        DistinctFront(lb, x, idx);
      } else {
        CollectNodeStep(seen);
        DistinctInsert(lb, x, idx);
      }
    }
  }

  lemma {:induction false} CollectNodeStep(seen: seq<Info>)
    requires seen != [] && seen[0].node.Internal?
    ensures LeavesOf(seen) == LeavesOf(seen[1..]) && IdxOf(seen) == [seen[0].block] + IdxOf(seen[1..])
  {
  }

  lemma {:induction false} CollectLeafStep(seen: seq<Info>)
    requires seen != [] && seen[0].node.Leaf?
    ensures LeafBlocks(LeavesOf(seen)) == [seen[0].block] + LeafBlocks(LeavesOf(seen[1..]))
    ensures IdxOf(seen) == IdxOf(seen[1..])
  {
    assert LeavesOf(seen)[1..] == LeavesOf(seen[1..]);
  }

  lemma {:induction false} CollectedLeaf(seen: seq<Info>, i: nat) returns (k: nat)
    requires i < |LeavesOf(seen)|
    ensures k < |seen| && seen[k].node.Leaf? && LeavesOf(seen)[i] == ExtLeaf(seen[k].block, seen[k].node.exts)
  {
    if seen[0].node.Leaf? && i == 0 {
      k := 0;
    } else {
      var j := CollectedLeaf(seen[1..], if seen[0].node.Leaf? then i - 1 else i);
      k := j + 1;
    }
  }

  lemma CollectedDistinct(dev: NodeDev, r: WalkResult, tree: ExtentTree)
    requires r.Walked? && SeenOk(dev, {}, r) && tree == CollectExtentTree(r)
    ensures Distinct(LeafBlocks(tree.leaves) + tree.idx)
    ensures SeqSet(LeafBlocks(tree.leaves) + tree.idx) == r.visited
  {
    var sb := SeenBlocks(r.seen);
    CollectedBlocks(r.seen);
    CollectedMembers(r.seen);
    forall b: nat ensures b in sb <==> b in r.visited {
      if b in r.visited {
        var i :| 0 <= i < |r.seen| && r.seen[i].block == b;
        assert sb[i] == b;
      }
    }
  }

  lemma CollectedLeaves(dev: NodeDev, r: WalkResult, tree: ExtentTree, i: nat)
    requires r.Walked? && SeenOk(dev, {}, r) && tree == CollectExtentTree(r) && i < |tree.leaves|
    requires FsckAccepts(r, |tree.exts|)
    ensures var b := tree.leaves[i].block;
      b != 0 && b in dev && dev[b].Leaf? && dev[b].level == 0 && dev[b].exts == tree.leaves[i].chunk
  {
    var k := CollectedLeaf(r.seen, i);
    assert VisitNodeOk(r.seen[k]);
  }

  // ---------------------------------------------------------------------------
  // The localized rebuild

  /** The length of the longest common prefix of the new and the old chunks. */
  function CommonPrefix(newChunks: seq<seq<Extent>>, leaves: seq<ExtLeaf>): (p: nat)
    ensures p <= |newChunks| && p <= |leaves|
    ensures forall i :: 0 <= i < p ==> newChunks[i] == leaves[i].chunk
  {
    if newChunks == [] || leaves == [] || newChunks[0] != leaves[0].chunk then 0
    else 1 + CommonPrefix(newChunks[1..], leaves[1..])
  }

  lemma {:induction false} PrefixIs(newChunks: seq<seq<Extent>>, leaves: seq<ExtLeaf>, p: nat)
    requires p <= |newChunks| && p <= |leaves| && forall i :: 0 <= i < p ==> newChunks[i] == leaves[i].chunk
    requires p < |newChunks| && p < |leaves| ==> newChunks[p] != leaves[p].chunk
    ensures CommonPrefix(newChunks, leaves) == p
  {
    if p > 0 { PrefixIs(newChunks[1..], leaves[1..], p - 1); }
  }

  /** The extents that leaf i of a list holds: at most 126 of them. */
  ghost function LeafShare(exts: seq<Extent>, i: nat): seq<Extent>
    requires 126 * i <= |exts|
  {
    exts[126 * i..if 126 * i + 126 <= |exts| then 126 * i + 126 else |exts|]
  }

  /** Exactly the first p old leaves already hold their share of the new list. */
  ghost predicate SharedPrefix(exts: seq<Extent>, leaves: seq<ExtLeaf>, p: nat) {
    && p <= |leaves| && (p > 0 ==> 126 * (p - 1) < |exts|)
    && (forall i: nat :: i < p ==> leaves[i].chunk == LeafShare(exts, i))
    && (p < |leaves| && 126 * p < |exts| ==> leaves[p].chunk != LeafShare(exts, p))
  }

  /** All but the last of those leaves are kept. */
  ghost predicate KeepsPrefix(exts: seq<Extent>, leaves: seq<ExtLeaf>, reuse: nat) {
    exists p: nat :: SharedPrefix(exts, leaves, p) && reuse == if p >= 2 then p - 1 else 0
  }

  lemma ChunkIsShare(exts: seq<Extent>, chunks: seq<seq<Extent>>, i: nat)
    requires ChunkedBy(exts, chunks) && i < |chunks|
    ensures 126 * i < |exts| && chunks[i] == LeafShare(exts, i)
  {
  }

  lemma {:induction false} PrefixEnds(newChunks: seq<seq<Extent>>, leaves: seq<ExtLeaf>)
    ensures var p := CommonPrefix(newChunks, leaves);
      p < |newChunks| && p < |leaves| ==> newChunks[p] != leaves[p].chunk
  {
    if newChunks != [] && leaves != [] && newChunks[0] == leaves[0].chunk {
      PrefixEnds(newChunks[1..], leaves[1..]);
    }
  }

  lemma ReuseKeepsPrefix(exts: seq<Extent>, chunks: seq<seq<Extent>>, leaves: seq<ExtLeaf>)
    requires ChunkedBy(exts, chunks)
    ensures KeepsPrefix(exts, leaves, if CommonPrefix(chunks, leaves) >= 2 then CommonPrefix(chunks, leaves) - 1 else 0)
  {
    var p := CommonPrefix(chunks, leaves);
    PrefixEnds(chunks, leaves);
    forall i: nat | i < |chunks| ensures 126 * i < |exts| && chunks[i] == LeafShare(exts, i) {
      ChunkIsShare(exts, chunks, i);
    }
    assert SharedPrefix(exts, leaves, p);
  }

  /** How many leading leaves keep their block: the longest equal prefix minus its boundary. */
  method ReuseCount(newChunks: seq<seq<Extent>>, leaves: seq<ExtLeaf>) returns (reuse: nat)
    ensures reuse == if CommonPrefix(newChunks, leaves) >= 2 then CommonPrefix(newChunks, leaves) - 1 else 0
  {
    var p := 0;
    while p < |newChunks| && p < |leaves| && newChunks[p] == leaves[p].chunk
      invariant 0 <= p <= |newChunks| && p <= |leaves|
      invariant forall i :: 0 <= i < p ==> newChunks[i] == leaves[i].chunk
    {
      p := p + 1;
    }
    PrefixIs(newChunks, leaves, p);
    reuse := if p >= 2 then p - 1 else 0;
  }

  /** The fresh leaf buffers, chained to their successors. */
  method EmitLeaves(newChunks: seq<seq<Extent>>, leafBlocks: seq<nat>, reuse: nat)
    returns (bufs: seq<Node>, keys: seq<nat>)
    requires |newChunks| == |leafBlocks| && reuse <= |newChunks|
    requires forall i :: 0 <= i < |newChunks| ==> newChunks[i] != []
    ensures |bufs| == |newChunks| - reuse && |keys| == |newChunks|
    ensures forall i :: 0 <= i < |bufs| ==>
      bufs[i] == Leaf(0, newChunks[reuse + i], if reuse + i + 1 < |newChunks| then leafBlocks[reuse + i + 1] else 0)
    ensures forall i :: 0 <= i < |newChunks| ==> keys[i] == newChunks[i][0].offset
  {
    bufs, keys := [], [];
    for i := reuse to |newChunks|
      invariant |bufs| == i - reuse
      invariant forall k :: 0 <= k < |bufs| ==>
        bufs[k] == Leaf(0, newChunks[reuse + k], if reuse + k + 1 < |newChunks| then leafBlocks[reuse + k + 1] else 0)
    {
      bufs := bufs + [Leaf(0, newChunks[i], if i + 1 < |newChunks| then leafBlocks[i+1] else 0)];
    }
    for i := 0 to |newChunks|
      invariant |keys| == i && forall k :: 0 <= k < i ==> keys[k] == newChunks[k][0].offset
    {
      keys := keys + [newChunks[i][0].offset];
    }
  }

  /** The state the rebuild starts from: a tree the walker and fsck accept. */
  ghost predicate OldTree(dev: NodeDev, r: WalkResult, tree: ExtentTree) {
    r.Walked? && SeenOk(dev, {}, r) && tree == CollectExtentTree(r) && FsckAccepts(r, |tree.exts|)
  }

  /** No block of nodes was rewritten. */
  ghost predicate Untouched(dev: NodeDev, dev': NodeDev, nodes: set<nat>) {
    forall b: nat :: b in nodes && b in dev ==> b in dev' && dev'[b] == dev[b]
  }

  /** The leaves from reuse on are the new chunks' leaves, each naming its successor. */
  ghost predicate Emitted(dev: NodeDev, chunks: seq<seq<Extent>>, leafBlocks: seq<nat>, reuse: nat) {
    && |leafBlocks| == |chunks|
    && forall i :: reuse <= i < |chunks| ==> LeafAt(dev, chunks, leafBlocks, i)
  }

  ghost predicate LeafAt(dev: NodeDev, chunks: seq<seq<Extent>>, leafBlocks: seq<nat>, i: nat)
    requires i < |chunks| == |leafBlocks|
  {
    leafBlocks[i] in dev && dev[leafBlocks[i]] == Leaf(0, chunks[i], if i + 1 < |chunks| then leafBlocks[i+1] else 0)
  }

  lemma LeavesEmitted(dev: NodeDev, chunks: seq<seq<Extent>>, leafBlocks: seq<nat>, reuse: nat, bufs: seq<Node>)
    requires reuse <= |chunks| == |leafBlocks| && |bufs| == |chunks| - reuse && Distinct(leafBlocks)
    requires forall i :: 0 <= i < |bufs| ==>
      bufs[i] == Leaf(0, chunks[reuse + i], if reuse + i + 1 < |chunks| then leafBlocks[reuse + i + 1] else 0)
    ensures Emitted(WriteAll(dev, leafBlocks[reuse..], bufs), chunks, leafBlocks, reuse)
  {
    hide WriteAll;
    var w := leafBlocks[reuse..];
    WriteAllAt(dev, w, bufs);
    forall i | reuse <= i < |chunks| ensures LeafAt(WriteAll(dev, w, bufs), chunks, leafBlocks, i) {
      assert w[i - reuse] == leafBlocks[i] &&
        bufs[i - reuse] == Leaf(0, chunks[i], if i + 1 < |chunks| then leafBlocks[i+1] else 0);
    }
  }

  /** Fresh blocks: distinct, non-null and outside the old tree. */
  ghost predicate FreshFor(blocks: seq<nat>, nodes: set<nat>) {
    Distinct(blocks) && 0 !in blocks && forall b :: b in blocks ==> b !in nodes
  }

  /** Reused leaf blocks followed by fresh ones. */
  lemma MixedLeaves(dev: NodeDev, r: WalkResult, tree: ExtentTree, blocks: seq<nat>, chunks: seq<seq<Extent>>,
                    reuse: nat,
                    leafBlocks: seq<nat>)
    requires OldTree(dev, r, tree) && FreshFor(blocks, r.visited)
    requires reuse <= |tree.leaves| && reuse <= |chunks| && |chunks| - reuse <= |blocks|
    requires leafBlocks == LeafBlocks(tree.leaves)[..reuse] + blocks[..|chunks| - reuse]
    ensures Distinct(leafBlocks) && 0 !in leafBlocks
    ensures forall b :: b in blocks[|chunks| - reuse..] ==> b !in leafBlocks
  {
    var kept, n := LeafBlocks(tree.leaves)[..reuse], |chunks| - reuse;
    KeptLeaves(dev, r, tree, reuse);
    DistinctPrefix(blocks, n);
    hide OldTree, LeafBlocks, Distinct;
    forall b: nat | b in blocks[..n] ensures b !in kept {
      assert b in blocks;
    }
    DistinctJoin(kept, blocks[..n]);
    forall b: nat | b in blocks[n..] ensures b !in leafBlocks {
      assert b in blocks;
    }
  }

  lemma KeptLeaves(dev: NodeDev, r: WalkResult, tree: ExtentTree, reuse: nat)
    requires OldTree(dev, r, tree) && reuse <= |tree.leaves|
    ensures var kept := LeafBlocks(tree.leaves)[..reuse];
      Distinct(kept) && 0 !in kept && forall b: nat :: b in kept ==> b in r.visited
  {
    CollectedDistinct(dev, r, tree);
    var lb := LeafBlocks(tree.leaves);
    var all := lb + tree.idx;
    DistinctPrefix(all, reuse);
    assert all[..reuse] == lb[..reuse];
    forall b: nat | b in lb[..reuse] ensures b in r.visited && b != 0 {
      var i :| 0 <= i < reuse && lb[i] == b;
      assert all[i] == b;
      CollectedLeaves(dev, r, tree, i);
    }
  }

  lemma ReusedStored(dev: NodeDev, r: WalkResult, tree: ExtentTree, chunks: seq<seq<Extent>>, reuse: nat,
                     leafBlocks: seq<nat>)
    requires OldTree(dev, r, tree) && reuse <= |tree.leaves| && reuse <= |chunks| && reuse <= |leafBlocks|
    requires leafBlocks[..reuse] == LeafBlocks(tree.leaves)[..reuse]
    requires forall i :: 0 <= i < reuse ==> chunks[i] == tree.leaves[i].chunk
    ensures forall i :: 0 <= i < reuse ==>
      leafBlocks[i] in dev && dev[leafBlocks[i]].Leaf? && dev[leafBlocks[i]].level == 0 &&
        dev[leafBlocks[i]].exts == chunks[i]
  {
    forall i | 0 <= i < reuse
      ensures leafBlocks[i] in dev && dev[leafBlocks[i]].Leaf? && dev[leafBlocks[i]].level == 0
      ensures dev[leafBlocks[i]].exts == chunks[i]
    {
      CollectedLeaves(dev, r, tree, i);
      assert leafBlocks[i] == leafBlocks[..reuse][i] == LeafBlocks(tree.leaves)[i];
    }
  }

  lemma MixedStored(dev: NodeDev, chunks: seq<seq<Extent>>, reuse: nat, leafBlocks: seq<nat>, bufs: seq<Node>)
    requires reuse <= |chunks| == |leafBlocks| && |chunks| - reuse == |bufs| && Distinct(leafBlocks) && 0 !in leafBlocks
    requires forall i :: 0 <= i < |chunks| ==> 0 < |chunks[i]| <= LEAF_FANOUT
    requires forall i :: 0 <= i < reuse ==>
      leafBlocks[i] in dev && dev[leafBlocks[i]].Leaf? && dev[leafBlocks[i]].level == 0 &&
        dev[leafBlocks[i]].exts == chunks[i]
    requires forall i :: 0 <= i < |bufs| ==> bufs[i].Leaf? && bufs[i].level == 0 && bufs[i].exts == chunks[reuse + i]
    ensures StoredAll(WriteAll(dev, leafBlocks[reuse..], bufs), LeafTrees(leafBlocks, chunks), 0)
  {
    var padded := seq(reuse, _ => Leaf(0, [], 0)) + bufs;
    forall i | reuse <= i < |chunks| ensures padded[i].Leaf? && padded[i].level == 0 && padded[i].exts == chunks[i] {
      assert padded[i] == bufs[i - reuse];
    }
    LeavesStored(dev, chunks, leafBlocks, padded, reuse);
    assert padded[reuse..] == bufs;
  }

  /** The old node blocks split into the kept leaves and the freed rest. */
  lemma OldPartition(dev: NodeDev, r: WalkResult, tree: ExtentTree, reuse: nat, freed: set<nat>)
    requires OldTree(dev, r, tree) && reuse <= |tree.leaves|
    requires freed == SeqSet(LeafBlocks(tree.leaves)[reuse..] + tree.idx)
    ensures var kept := SeqSet(LeafBlocks(tree.leaves)[..reuse]);
      r.visited == kept + freed && kept !! freed
  {
    CollectedDistinct(dev, r, tree);
    var lb := LeafBlocks(tree.leaves);
    assert lb + tree.idx == lb[..reuse] + (lb[reuse..] + tree.idx);
    forall b | b in lb[reuse..] + tree.idx ensures b !in lb[..reuse] {
      NotInEarlier(lb[..reuse], lb[reuse..] + tree.idx, b);
    }
  }

  lemma MixedDistinct(blocks: seq<nat>, n: nat, leafBlocks: seq<nat>, idxBlocks: seq<nat>)
    requires Distinct(blocks) && n + |idxBlocks| <= |blocks| && Distinct(leafBlocks)
    requires idxBlocks == blocks[n..][..|idxBlocks|] && forall b :: b in blocks[n..] ==> b !in leafBlocks
    ensures Distinct(leafBlocks + idxBlocks)
  {
    var all := leafBlocks + idxBlocks;
    forall j | 0 <= j < |idxBlocks| ensures idxBlocks[j] == blocks[n + j] && idxBlocks[j] !in leafBlocks {
      assert idxBlocks[j] == blocks[n..][j];
    }
    forall i, j | 0 <= i < j < |all| ensures all[i] != all[j] {
      if i < |leafBlocks| <= j {
        assert all[j] == idxBlocks[j - |leafBlocks|];
      } else if |leafBlocks| <= i {
        assert all[i] == blocks[n + (i - |leafBlocks|)] && all[j] == blocks[n + (j - |leafBlocks|)];
      }
    }
  }

  lemma NewNodes(kept: seq<nat>, blocks: seq<nat>, n: nat, leafBlocks: seq<nat>, idxBlocks: seq<nat>, t: Tree)
    requires n + |idxBlocks| <= |blocks| && leafBlocks == kept + blocks[..n] && Distinct(leafBlocks + idxBlocks)
    requires idxBlocks == blocks[n..][..|idxBlocks|]
    requires Bag(t) == multiset(idxBlocks) + multiset(leafBlocks)
    ensures NoDup(Bag(t)) && BagSet(Bag(t)) == SeqSet(kept) + SeqSet(blocks[..n + |idxBlocks|])
  {
    hide Distinct, SeqSet, BagSet, NoDup, Bag;
    TreeBag(t, leafBlocks, idxBlocks, leafBlocks + idxBlocks);
    SliceJoin(blocks, n, n + |idxBlocks|);
    var more := blocks[..n + |idxBlocks|];
    assert leafBlocks + idxBlocks == kept + more;
    SeqSetJoin(kept, more);
  }

  lemma SliceJoin(s: seq<nat>, n: nat, m: nat)
    requires n <= m <= |s|
    ensures s[..m] == s[..n] + s[n..][..m - n]
  {
  }

  lemma SeqSetJoin(a: seq<nat>, c: seq<nat>)
    ensures SeqSet(a + c) == SeqSet(a) + SeqSet(c)
  {
  }

  /** Chunk the new list, keep the equal prefix, and write the fresh leaves. */
  method MixLeaves(dev: NodeDev, tree: ExtentTree, exts: seq<Extent>, blocks: seq<nat>, ghost r: WalkResult)
    returns (ok: bool, chunks: seq<seq<Extent>>, reuse: nat, leafBlocks: seq<nat>, keys: seq<nat>, dev': NodeDev)
    requires OldTree(dev, r, tree) && FreshFor(blocks, r.visited) && exts != []
    ensures ChunkedBy(exts, chunks)
    ensures reuse == if CommonPrefix(chunks, tree.leaves) >= 2 then CommonPrefix(chunks, tree.leaves) - 1 else 0
    ensures |chunks| == CeilDiv(|exts|, LEAF_FANOUT) && (ok <==> |chunks| - reuse <= |blocks|)
    ensures ok ==> Flatten(chunks) == exts && |keys| == |chunks|
    ensures ok ==> Emitted(dev', chunks, leafBlocks, reuse)
    ensures ok ==> reuse <= |tree.leaves| && reuse <= |chunks| && |chunks| - reuse <= |blocks|
    ensures ok ==> leafBlocks == LeafBlocks(tree.leaves)[..reuse] + blocks[..|chunks| - reuse]
    ensures ok ==> Distinct(leafBlocks) && forall b :: b in blocks[|chunks| - reuse..] ==> b !in leafBlocks
    ensures ok ==>
      StoredAll(dev', LeafTrees(leafBlocks, chunks), 0) && Heads(LeafTrees(leafBlocks, chunks), leafBlocks, keys)
    ensures ok ==> forall b: nat :: b in dev && b !in blocks ==> b in dev' && dev'[b] == dev[b]
  {
    dev', leafBlocks, keys := dev, [], [];
    chunks := ChunkBtreeExtents(exts);
    reuse := ReuseCount(chunks, tree.leaves);
    var n := |chunks| - reuse;
    if n > |blocks| { return false, chunks, reuse, leafBlocks, keys, dev'; }
    leafBlocks := LeafBlocks(tree.leaves)[..reuse] + blocks[..n];
    var bufs;
    bufs, keys := EmitLeaves(chunks, leafBlocks, reuse);
    MixedLeaves(dev, r, tree, blocks, chunks, reuse, leafBlocks);
    ReusedStored(dev, r, tree, chunks, reuse, leafBlocks);
    MixedStored(dev, chunks, reuse, leafBlocks, bufs);
    LeafHeads(leafBlocks, chunks, keys);
    dev' := WriteAll(dev, leafBlocks[reuse..], bufs);
    assert leafBlocks[reuse..] == blocks[..n];
    LeavesEmitted(dev, chunks, leafBlocks, reuse, bufs);
    FrameBlocks(dev, leafBlocks[reuse..], bufs, blocks);
    ok := true;
  }

  /** Keeping a leaf keeps its next_leaf. The last kept leaf still names the old block of its successor, whose
      chunk went to a fresh block; so, of a threaded tree, the new leaves are threaded exactly when none was kept. */
  lemma ThreadedIff(dev: NodeDev, dev': NodeDev, was: seq<nat>, leaves: seq<nat>, chunks: seq<seq<Extent>>, reuse: nat)
    requires Threaded(dev, was) && Emitted(dev', chunks, leaves, reuse)
    requires (reuse > 0 ==> reuse < |was| && reuse < |leaves|)
    requires forall i :: 0 <= i < reuse ==>
      leaves[i] == was[i] && was[i] in dev' && was[i] in dev && dev'[was[i]] == dev[was[i]]
    requires reuse > 0 ==> leaves[reuse] != was[reuse]
    ensures forall i :: 0 <= i < |leaves| && i != reuse - 1 ==> Link(dev', leaves, i)
    ensures reuse > 0 ==>
      leaves[reuse - 1] in dev' && dev'[leaves[reuse - 1]].Leaf? && dev'[leaves[reuse - 1]].next == was[reuse]
    ensures Threaded(dev', leaves) <==> reuse == 0
  {
    forall i | 0 <= i < |leaves| && i != reuse - 1 ensures Link(dev', leaves, i) {
      if i < reuse {
        assert Link(dev, was, i);
      } else {
        assert LeafAt(dev', chunks, leaves, i);
      }
    }
    if reuse > 0 {
      assert Link(dev, was, reuse - 1) && !Link(dev', leaves, reuse - 1);
    }
  }

  /** The tree a rebuild caches is what the next walk would collect; index blocks as a set. */
  ghost predicate SameTree(cached: ExtentTree, walked: ExtentTree) {
    cached.exts == walked.exts && cached.leaves == walked.leaves && SeqSet(cached.idx) == SeqSet(walked.idx)
  }

  /** The kept leaves are the longest common prefix without its last one; a threaded chain stays threaded exactly
      when none is kept, and otherwise the last kept leaf names a freed block. */
  ghost predicate ChainKept(dev: NodeDev, dev': NodeDev, was: seq<ExtLeaf>, leaves: seq<ExtLeaf>, reuse: nat,
                            freed: set<nat>) {
    && (var p := CommonPrefix(LeafData(leaves), was); reuse == if p >= 2 then p - 1 else 0)
    && (Threaded(dev, LeafBlocks(was)) ==> (Threaded(dev', LeafBlocks(leaves)) <==> reuse == 0))
    && (Threaded(dev, LeafBlocks(was)) && reuse > 0 ==>
          && reuse <= |leaves| && leaves[reuse - 1].block in dev'
          && dev'[leaves[reuse - 1].block].Leaf? && dev'[leaves[reuse - 1].block].next in freed)
  }

  /** rebuildExtentIndexWrite's tree path.  The new tree indexes exactly exts; its nodes are the
      kept leaves plus fresh blocks; the old nodes are the kept leaves plus the freed runs;
      no old block is rewritten; the cached tree is the tree a walk collects; and a threaded leaf
      chain stays threaded exactly when no leaf is kept, else its one stale link names a freed block. */
  method RebuildLocalized(dev: NodeDev, tree: ExtentTree, exts: seq<Extent>, blocks: seq<nat>, ghost r: WalkResult)
    returns (ok: bool, root: nat, dev': NodeDev, freed: seq<BlockRun>, cached: ExtentTree, reuse: nat, used: nat,
      ghost t: Tree)
    requires OldTree(dev, r, tree) && FreshFor(blocks, r.visited) && Indexable(exts) && exts != []
    ensures NodeCount(|exts|) <= |blocks| ==> ok
    ensures ok ==> reuse <= |tree.leaves| && used <= |blocks| && root == t.block
    ensures ok ==> KeepsPrefix(exts, tree.leaves, reuse)
    ensures ok ==> Built(dev', t, exts, SeqSet(LeafBlocks(tree.leaves)[..reuse]) + SeqSet(blocks[..used]))
    ensures ok ==> r.visited == SeqSet(LeafBlocks(tree.leaves)[..reuse]) + RunSet(freed)
    ensures ok ==> SeqSet(LeafBlocks(tree.leaves)[..reuse]) !! RunSet(freed)
    ensures ok ==> Untouched(dev, dev', r.visited)
    ensures ok ==> WalkBtree(dev', root).Walked? && SameTree(cached, CollectExtentTree(WalkBtree(dev', root)))
    ensures ok ==> ChainKept(dev, dev', tree.leaves, cached.leaves, reuse, RunSet(freed))
  {
    assert r.Walked?;
    hide Built, Distinct, LeafTrees, LeafBlocks, ChunkedBy, Flatten, SeqSet, CommonPrefix, CollectExtentTree,
      Threaded, Height, IdxCount, OldTree, SameTree, ChainKept, LeafList, Untouched, RunSet, Emitted, Heads,
      KeepsPrefix;
    t, root, freed, used, cached := LeafT(0, []), 0, [], 0, ExtentTree([], [], []);
    var chunks, leafBlocks, keys;
    ok, chunks, reuse, leafBlocks, keys, dev' := MixLeaves(dev, tree, exts, blocks, r);
    if !ok { return; }
    ReuseKeepsPrefix(exts, chunks, tree.leaves);
    ghost var dev1 := dev';
    var idxBlocks;
    ok, root, dev', idxBlocks, t := IndexMixed(dev', exts, chunks, leafBlocks, keys, blocks, |chunks| - reuse,
                                               LeafBlocks(tree.leaves)[..reuse]);
    if !ok { return; }
    used := |chunks| - reuse + |idxBlocks|;
    cached := ExtentTree(exts, LeafList(leafBlocks, chunks), idxBlocks);
    freed := AddBlocks([], LeafBlocks(tree.leaves)[reuse..] + tree.idx);
    FreedSet(freed, LeafBlocks(tree.leaves)[reuse..] + tree.idx);
    OldPartition(dev, r, tree, reuse, RunSet(freed));
    KeptFrame(dev, dev1, dev', r, blocks, |chunks| - reuse);
    LeavesInPlace(dev1, dev', chunks, leafBlocks, blocks[|chunks| - reuse..], reuse);
    CachedIsWalked(dev', t, exts, chunks, leafBlocks, idxBlocks);
    StaleLink(dev, dev', r, tree, chunks, leafBlocks, reuse, blocks, RunSet(freed));
  }

  lemma FreedSet(freed: seq<BlockRun>, blocks: seq<nat>)
    requires forall p: nat :: p in RunSet(freed) <==> p in RunSet([]) || p in blocks
    ensures RunSet(freed) == SeqSet(blocks)
  {
  }

  /** Appending to a list of at least two full leaves keeps their chunks, so it keeps a leaf and its stale link. */
  lemma AppendKeepsLeaf(exts: seq<Extent>, more: seq<Extent>, was: seq<ExtLeaf>, chunks: seq<seq<Extent>>)
    requires |exts| >= 2 * LEAF_FANOUT && ChunkedBy(exts, LeafData(was)) && ChunkedBy(exts + more, chunks)
    ensures CommonPrefix(chunks, was) >= 2
  {
    var all := exts + more;
    assert forall i :: 0 <= i < 2 ==> chunks[i] == all[i * LEAF_FANOUT..(i + 1) * LEAF_FANOUT];
    assert all[..LEAF_FANOUT] == exts[..LEAF_FANOUT] &&
      all[LEAF_FANOUT..2 * LEAF_FANOUT] == exts[LEAF_FANOUT..2 * LEAF_FANOUT];
    assert chunks[0] == LeafData(was)[0] && chunks[1] == LeafData(was)[1];
    assert chunks[1..][0] == was[1..][0].chunk;
  }

  /** Neither the new leaves nor the new index blocks touch the old tree. */
  lemma KeptFrame(dev: NodeDev, dev1: NodeDev, dev': NodeDev, r: WalkResult, blocks: seq<nat>, n: nat)
    requires r.Walked? && FreshFor(blocks, r.visited) && n <= |blocks|
    requires forall b: nat :: b in dev && b !in blocks ==> b in dev1 && dev1[b] == dev[b]
    requires forall b: nat :: b in dev1 && b !in blocks[n..] ==> b in dev' && dev'[b] == dev1[b]
    ensures Untouched(dev, dev', r.visited)
  {
    hide Distinct;
    forall b: nat | b in r.visited && b in dev ensures b in dev' && dev'[b] == dev[b] {
      assert b !in blocks;
    }
  }

  /** Writing the index levels leaves the leaves alone. */
  lemma LeavesInPlace(dev1: NodeDev, dev': NodeDev, chunks: seq<seq<Extent>>, leafBlocks: seq<nat>, rest: seq<nat>,
                      reuse: nat)
    requires |chunks| == |leafBlocks| && StoredAll(dev1, LeafTrees(leafBlocks, chunks), 0)
    requires Emitted(dev1, chunks, leafBlocks, reuse)
    requires forall b: nat :: b in rest ==> b !in leafBlocks
    requires forall b: nat :: b in dev1 && b !in rest ==> b in dev' && dev'[b] == dev1[b]
    ensures Emitted(dev', chunks, leafBlocks, reuse) && InPlace(dev', chunks, leafBlocks)
  {
    hide LeafTrees;
    forall i | 0 <= i < |leafBlocks|
      ensures leafBlocks[i] in dev1 && leafBlocks[i] in dev' && dev'[leafBlocks[i]] == dev1[leafBlocks[i]]
      ensures dev'[leafBlocks[i]].Leaf? && dev'[leafBlocks[i]].exts == chunks[i]
    {
      var t := LeafTrees(leafBlocks, chunks)[i];
      assert t == LeafT(leafBlocks[i], chunks[i]) && Stored(dev1, t, 0) && leafBlocks[i] !in rest;
    }
    forall i | reuse <= i < |chunks| ensures LeafAt(dev', chunks, leafBlocks, i) {
      assert LeafAt(dev1, chunks, leafBlocks, i);
    }
  }

  lemma StaleLink(dev: NodeDev, dev': NodeDev, r: WalkResult, tree: ExtentTree, chunks: seq<seq<Extent>>,
                  leafBlocks: seq<nat>,
                  reuse: nat, blocks: seq<nat>, freed: set<nat>)
    requires OldTree(dev, r, tree) && FreshFor(blocks, r.visited) && Emitted(dev', chunks, leafBlocks, reuse)
    requires reuse == if CommonPrefix(chunks, tree.leaves) >= 2 then CommonPrefix(chunks, tree.leaves) - 1 else 0
    requires |chunks| - reuse <= |blocks| && leafBlocks == LeafBlocks(tree.leaves)[..reuse] + blocks[..|chunks| - reuse]
    requires freed == SeqSet(LeafBlocks(tree.leaves)[reuse..] + tree.idx)
    requires Untouched(dev, dev', r.visited)
    ensures ChainKept(dev, dev', tree.leaves, LeafList(leafBlocks, chunks), reuse, freed)
  {
    OldLeaves(dev, r, tree);
    LeafListData(leafBlocks, chunks);
    hide OldTree, Distinct, CommonPrefix, LeafBlocks, LeafList, LeafData, Emitted, Threaded, Untouched, FreshFor,
      SeqSet;
    if Threaded(dev, LeafBlocks(tree.leaves)) {
      StaleThread(dev, dev', LeafBlocks(tree.leaves), tree.idx, chunks, leafBlocks, reuse, blocks, r.visited, freed);
      assert reuse > 0 ==> LeafList(leafBlocks, chunks)[reuse - 1].block == leafBlocks[reuse - 1];
    }
  }

  lemma StaleThread(dev: NodeDev, dev': NodeDev, was: seq<nat>, idx: seq<nat>, chunks: seq<seq<Extent>>,
                    leafBlocks: seq<nat>,
                    reuse: nat, blocks: seq<nat>, visited: set<nat>, freed: set<nat>)
    requires FreshFor(blocks, visited) && Threaded(dev, was) && Emitted(dev', chunks, leafBlocks, reuse)
    requires (reuse > 0 ==> reuse < |was| && reuse < |chunks|) && reuse <= |was| && reuse <= |chunks|
    requires |chunks| - reuse <= |blocks| && leafBlocks == was[..reuse] + blocks[..|chunks| - reuse]
    requires forall i :: 0 <= i < |was| ==> was[i] in visited
    requires freed == SeqSet(was[reuse..] + idx)
    requires Untouched(dev, dev', visited)
    ensures Threaded(dev', leafBlocks) <==> reuse == 0
    ensures reuse > 0 ==>
      leafBlocks[reuse - 1] in dev' && dev'[leafBlocks[reuse - 1]].Leaf? && dev'[leafBlocks[reuse - 1]].next in freed
  {
    hide Distinct;
    FreshLeaf(was, idx, blocks, leafBlocks, visited, freed, reuse);
    forall i | 0 <= i < reuse
      ensures leafBlocks[i] == was[i] && was[i] in dev && was[i] in dev' && dev'[was[i]] == dev[was[i]]
    {
      assert Link(dev, was, i);
    }
    hide Link, LeafAt;
    ThreadedIff(dev, dev', was, leafBlocks, chunks, reuse);
  }

  lemma OldLeaves(dev: NodeDev, r: WalkResult, tree: ExtentTree)
    requires OldTree(dev, r, tree)
    ensures forall i :: 0 <= i < |tree.leaves| ==> LeafBlocks(tree.leaves)[i] in r.visited
  {
    var was := LeafBlocks(tree.leaves);
    KeptLeaves(dev, r, tree, |was|);
    hide OldTree, LeafBlocks;
    assert was[..|was|] == was;
  }

  lemma FreshLeaf(was: seq<nat>, idx: seq<nat>, blocks: seq<nat>, leafBlocks: seq<nat>, visited: set<nat>,
                  freed: set<nat>, reuse: nat)
    requires FreshFor(blocks, visited) && (reuse > 0 ==> reuse < |was| && reuse < |leafBlocks|) && reuse <= |was|
    requires |leafBlocks| - reuse <= |blocks| && reuse <= |leafBlocks|
    requires leafBlocks == was[..reuse] + blocks[..|leafBlocks| - reuse]
    requires forall i :: 0 <= i < |was| ==> was[i] in visited
    requires freed == SeqSet(was[reuse..] + idx)
    ensures forall i :: 0 <= i < reuse ==> leafBlocks[i] == was[i]
    ensures reuse > 0 ==> leafBlocks[reuse] != was[reuse] && was[reuse] in freed
  {
    hide Distinct;
    if reuse > 0 {
      assert leafBlocks[reuse] == blocks[0] && blocks[0] in blocks;
      assert was[reuse..][0] == was[reuse];
    }
  }

  // ---------------------------------------------------------------------------
  // The cached tree

  /** The leaves of a new tree, in order. */
  function LeafList(bs: seq<nat>, chunks: seq<seq<Extent>>): (r: seq<ExtLeaf>)
    requires |bs| == |chunks|
    ensures |r| == |bs| && forall i :: 0 <= i < |r| ==> r[i] == ExtLeaf(bs[i], chunks[i])
  {
    seq(|bs|, i requires 0 <= i < |bs| => ExtLeaf(bs[i], chunks[i]))
  }

  function LeafData(leaves: seq<ExtLeaf>): (r: seq<seq<Extent>>)
    ensures |r| == |leaves| && forall i :: 0 <= i < |r| ==> r[i] == leaves[i].chunk
  {
    seq(|leaves|, i requires 0 <= i < |leaves| => leaves[i].chunk)
  }

  lemma LeafListData(bs: seq<nat>, chunks: seq<seq<Extent>>)
    requires |bs| == |chunks|
    ensures LeafBlocks(LeafList(bs, chunks)) == bs && LeafData(LeafList(bs, chunks)) == chunks
  {
  }

  ghost predicate InPlace(dev: NodeDev, chunks: seq<seq<Extent>>, leafBlocks: seq<nat>)
    requires |chunks| == |leafBlocks|
  {
    forall i :: 0 <= i < |leafBlocks| ==>
      leafBlocks[i] in dev && dev[leafBlocks[i]].Leaf? && dev[leafBlocks[i]].exts == chunks[i]
  }

  /** Chunks of a strictly ascending list differ. */
  lemma ChunksDiffer(exts: seq<Extent>, chunks: seq<seq<Extent>>, i: nat, j: nat)
    requires Ascending(exts) && ChunkedBy(exts, chunks) && i < |chunks| && j < |chunks| && chunks[i] == chunks[j]
    ensures i == j
  {
    assert chunks[i][0] == exts[i * LEAF_FANOUT] && chunks[j][0] == exts[j * LEAF_FANOUT];
    if i < j {
      AscendingPair(exts, i * LEAF_FANOUT, j * LEAF_FANOUT);
    } else if j < i {
      AscendingPair(exts, j * LEAF_FANOUT, i * LEAF_FANOUT);
    }
  }

  lemma {:induction false} CollectedChunk(seen: seq<Info>)
    ensures LeafData(LeavesOf(seen)) == Chunks(seen)
  {
    if seen != [] {
      CollectedChunk(seen[1..]);
      if seen[0].node.Leaf? {
        assert LeavesOf(seen) == [ExtLeaf(seen[0].block, seen[0].node.exts)] + LeavesOf(seen[1..]);
      } else {
        assert LeavesOf(seen) == LeavesOf(seen[1..]);
      }
    }
  }

  lemma SameRest(a: seq<nat>, x: seq<nat>, y: seq<nat>)
    requires Distinct(a + x) && Distinct(a + y) && SeqSet(a + x) == SeqSet(a + y)
    ensures SeqSet(x) == SeqSet(y)
  {
    SubRest(a, x, y);
    SubRest(a, y, x);
  }

  lemma SubRest(a: seq<nat>, x: seq<nat>, y: seq<nat>)
    requires Distinct(a + x) && SeqSet(a + x) == SeqSet(a + y)
    ensures SeqSet(x) <= SeqSet(y)
  {
    forall b: nat | b in x ensures b in y {
      NotInEarlier(a, x, b);
      assert b in SeqSet(a + x);
    }
  }

  /** Walking the new tree collects the leaves and index blocks the rebuild cached. */
  lemma CachedIsWalked(dev: NodeDev, t: Tree, exts: seq<Extent>, chunks: seq<seq<Extent>>, leafBlocks: seq<nat>,
                       idxBlocks: seq<nat>)
    requires Indexable(exts) && Built(dev, t, exts, SeqSet(leafBlocks + idxBlocks)) && LeafChunks(t) == chunks
    requires ChunkedBy(exts, chunks) && |chunks| == |leafBlocks| && InPlace(dev, chunks, leafBlocks)
    requires Distinct(leafBlocks + idxBlocks) && forall b :: b in idxBlocks ==> b in dev && dev[b].Internal?
    ensures WalkBtree(dev, t.block).Walked?
    ensures SameTree(ExtentTree(exts, LeafList(leafBlocks, chunks), idxBlocks),
      CollectExtentTree(WalkBtree(dev, t.block)))
  {
    hide Built, Distinct, LeafChunks;
    BuiltWalks(dev, t, exts, SeqSet(leafBlocks + idxBlocks));
    var r := WalkBtree(dev, t.block);
    WalkSeen(dev, t.block, {}, 0, 0, true);
    CollectedChunk(r.seen);
    var leaves := LeavesOf(r.seen);
    hide WalkNode;
    forall i | 0 <= i < |leaves| ensures leaves[i] == ExtLeaf(leafBlocks[i], chunks[i]) {
      assert LeafData(leaves)[i] == chunks[i];
      CachedLeaf(dev, r, exts, chunks, leafBlocks, idxBlocks, i);
    }
    assert leaves == LeafList(leafBlocks, chunks);
    LeafListData(leafBlocks, chunks);
    CollectedDistinct(dev, r, CollectExtentTree(r));
    SameRest(leafBlocks, idxBlocks, IdxOf(r.seen));
  }

  lemma CachedLeaf(dev: NodeDev, r: WalkResult, exts: seq<Extent>, chunks: seq<seq<Extent>>, leafBlocks: seq<nat>,
                   idxBlocks: seq<nat>, i: nat)
    requires r.Walked? && SeenOk(dev, {}, r) && r.visited == SeqSet(leafBlocks + idxBlocks) && i < |LeavesOf(r.seen)|
    requires i < |chunks|
    requires LeavesOf(r.seen)[i].chunk == chunks[i] && Ascending(exts) && ChunkedBy(exts, chunks)
    requires |chunks| == |leafBlocks| && InPlace(dev, chunks, leafBlocks)
    requires forall b :: b in idxBlocks ==> b in dev && dev[b].Internal?
    ensures LeavesOf(r.seen)[i].block == leafBlocks[i]
  {
    var k := CollectedLeaf(r.seen, i);
    var b := r.seen[k].block;
    assert b in leafBlocks + idxBlocks;
    var j :| 0 <= j < |leafBlocks| && leafBlocks[j] == b;
    ChunksDiffer(exts, chunks, i, j);
  }

  /** The index levels over the mixed leaf list, rebuilt fresh. */
  method IndexMixed(dev: NodeDev, exts: seq<Extent>, chunks: seq<seq<Extent>>, leafBlocks: seq<nat>, keys: seq<nat>,
                    blocks: seq<nat>, n: nat, ghost kept: seq<nat>)
    returns (ok: bool, root: nat, dev': NodeDev, idxBlocks: seq<nat>, ghost t: Tree)
    requires Indexable(exts) && exts != [] && ChunkedBy(exts, chunks) && Flatten(chunks) == exts
    requires |keys| == |chunks| == |leafBlocks| && n <= |blocks| && Distinct(blocks) && 0 !in blocks
    requires leafBlocks == kept + blocks[..n] && Distinct(leafBlocks)
    requires forall b :: b in blocks[n..] ==> b !in leafBlocks
    requires StoredAll(dev, LeafTrees(leafBlocks, chunks), 0) && Heads(LeafTrees(leafBlocks, chunks), leafBlocks, keys)
    ensures ok <==> n + IdxCount(|chunks|) <= |blocks|
    ensures ok ==>
      n + |idxBlocks| <= |blocks| && root == t.block &&
        Built(dev', t, exts, SeqSet(kept) + SeqSet(blocks[..n + |idxBlocks|]))
    ensures ok ==> forall b: nat :: b in dev && b !in blocks[n..] ==> b in dev' && dev'[b] == dev[b]
    ensures ok ==>
      Distinct(leafBlocks + idxBlocks) && Built(dev', t, exts, SeqSet(leafBlocks + idxBlocks)) &&
        LeafChunks(t) == chunks
    ensures ok ==> forall b :: b in idxBlocks ==> b in dev' && dev'[b].Internal?
  {
    hide Built, Distinct, WriteAll, LeafTrees, LeafBlocks, ChunkedBy, Flatten, Stored, Bag, BagSet, SeqSet, NoDup,
      MinKeyIs, Height, IdxCount;
    dev' := dev;
    IndexReady(exts, leafBlocks, chunks, blocks, n);
    var rk, idxBufs;
    ok, root, rk, idxBlocks, idxBufs,
      t := BuildBtreeIndex(leafBlocks, keys, blocks[n..], dev, LeafTrees(leafBlocks, chunks));
    if !ok { return; }
    dev' := WriteAll(dev, idxBlocks, idxBufs);
    FrameBlocks(dev, idxBlocks, idxBufs, blocks[n..]);
    IndexPlaced(dev, idxBlocks, idxBufs, blocks, n);
    MixedDistinct(blocks, n, leafBlocks, idxBlocks);
    MixedBuilt(dev', t, exts, kept, blocks, n, leafBlocks, idxBlocks);
  }

  lemma IndexPlaced(dev: NodeDev, idxBlocks: seq<nat>, idxBufs: seq<Node>, blocks: seq<nat>, n: nat)
    requires |idxBlocks| == |idxBufs| && n <= |blocks| && Distinct(blocks[n..]) && idxBlocks <= blocks[n..]
    requires forall k :: 0 <= k < |idxBufs| ==> idxBufs[k].Internal?
    ensures forall b :: b in idxBlocks ==>
      b in WriteAll(dev, idxBlocks, idxBufs) && WriteAll(dev, idxBlocks, idxBufs)[b].Internal?
  {
    hide WriteAll;
    assert Distinct(idxBlocks);
    WriteAllAt(dev, idxBlocks, idxBufs);
  }

  lemma MixedBuilt(dev: NodeDev, t: Tree, exts: seq<Extent>, kept: seq<nat>, blocks: seq<nat>, n: nat,
                   leafBlocks: seq<nat>, idxBlocks: seq<nat>)
    requires n + |idxBlocks| <= |blocks| && leafBlocks == kept + blocks[..n] && Distinct(leafBlocks + idxBlocks)
    requires idxBlocks == blocks[n..][..|idxBlocks|] && Bag(t) == multiset(idxBlocks) + multiset(leafBlocks)
    requires Exts(t) == exts && |leafBlocks| == CeilDiv(|exts|, LEAF_FANOUT) && Stored(dev, t, Height(|leafBlocks|))
    ensures Built(dev, t, exts, SeqSet(kept) + SeqSet(blocks[..n + |idxBlocks|]))
    ensures Built(dev, t, exts, SeqSet(leafBlocks + idxBlocks))
  {
    hide Distinct, Bag, BagSet, SeqSet, NoDup, Stored, Exts;
    NewNodes(kept, blocks, n, leafBlocks, idxBlocks, t);
    TreeBag(t, leafBlocks, idxBlocks, leafBlocks + idxBlocks);
  }

  lemma IndexReady(exts: seq<Extent>, leafBlocks: seq<nat>, chunks: seq<seq<Extent>>, blocks: seq<nat>, n: nat)
    requires Indexable(exts) && exts != [] && ChunkedBy(exts, chunks) && Flatten(chunks) == exts
    requires |leafBlocks| == |chunks|
    requires n <= |blocks| && Distinct(blocks) && 0 !in blocks && forall b :: b in blocks[n..] ==> b !in leafBlocks
    ensures leafBlocks != [] && Height(|leafBlocks|) <= 9 && |leafBlocks| == CeilDiv(|exts|, LEAF_FANOUT)
    ensures LeafChunksAll(LeafTrees(leafBlocks, chunks)) == chunks
    ensures ExtsAll(LeafTrees(leafBlocks, chunks)) == exts
    ensures BagAll(LeafTrees(leafBlocks, chunks)) == multiset(leafBlocks)
    ensures Distinct(blocks[n..]) && 0 !in blocks[n..]
    ensures forall b :: b in blocks[n..] ==> b !in BagAll(LeafTrees(leafBlocks, chunks))
  {
    DepthFits(exts);
    LeafTreesExts(leafBlocks, chunks);
    SplitFresh(blocks, n);
  }

  // ---------------------------------------------------------------------------
  // The inode's extent index

  /** The index fields of an inode: up to 8 inline extents, or the root of a tree. */
  datatype Index = Index(indexed: bool, root: nat, total: nat, inlineExts: seq<Extent>)

  /** IterateInodeExtents. */
  function ReadIndex(ix: Index, dev: NodeDev): (r: Option<seq<Extent>>) {
    if !ix.indexed then Some(if |ix.inlineExts| > 8 then ix.inlineExts[..8] else ix.inlineExts)
    else if ix.root == 0 then Some([])
    else
      var r := WalkBtree(dev, ix.root);
      if r.Walked? then Some(WalkedExtents(r)) else None
  }

  /** The walked tree an operation starts from: nothing for an inline index, otherwise the
      collected tree of an index the walker and fsck accept. */
  ghost predicate StartsFrom(ix: Index, dev: NodeDev, tree: ExtentTree, r: WalkResult) {
    if !ix.indexed then tree.leaves == [] && tree.idx == [] && r == Walked({}, [])
    else
      && ix.root != 0 && r == WalkBtree(dev, ix.root) && r.Walked?
      && tree == CollectExtentTree(r) && FsckAccepts(r, |tree.exts|)
  }

  lemma StartsFromOld(ix: Index, dev: NodeDev, tree: ExtentTree, r: WalkResult)
    requires StartsFrom(ix, dev, tree, r) && ix.indexed
    ensures OldTree(dev, r, tree)
  {
    WalkSeen(dev, ix.root, {}, 0, 0, true);
  }

  lemma AllNodesFreed(ix: Index, dev: NodeDev, tree: ExtentTree, r: WalkResult, freed: set<nat>)
    requires StartsFrom(ix, dev, tree, r)
    requires forall p: nat :: p in freed <==> p in LeafBlocks(tree.leaves) + tree.idx
    ensures freed == r.visited
  {
    if ix.indexed {
      StartsFromOld(ix, dev, tree, r);
      CollectedDistinct(dev, r, tree);
    } else {
      assert LeafBlocks(tree.leaves) + tree.idx == [];
    }
  }

  lemma ReadsBack(ix: Index, dev: NodeDev, t: Tree, exts: seq<Extent>, nodes: set<nat>)
    requires ix.indexed && ix.root == t.block && Indexable(exts) && Built(dev, t, exts, nodes)
    ensures ReadIndex(ix, dev) == Some(exts)
  {
    BuiltWalks(dev, t, exts, nodes);
  }

  /** The old nodes freed are all but the leaves that a common prefix lets the new tree keep. */
  ghost predicate FreesAllButKept(exts: seq<Extent>, tree: ExtentTree, visited: set<nat>, freed: set<nat>) {
    exists reuse: nat :: reuse <= |tree.leaves| && KeepsPrefix(exts, tree.leaves, reuse)
      && freed == visited - SeqSet(LeafBlocks(tree.leaves)[..reuse])
  }

  lemma KeepsNothing(exts: seq<Extent>, tree: ExtentTree, visited: set<nat>)
    requires tree.leaves == []
    ensures FreesAllButKept(exts, tree, visited, visited)
  {
    assert SharedPrefix(exts, tree.leaves, 0);
    assert KeepsPrefix(exts, tree.leaves, 0);
    assert SeqSet(LeafBlocks(tree.leaves)[..0]) == {};
    assert visited == visited - SeqSet(LeafBlocks(tree.leaves)[..0]);
  }

  lemma KeepsLeaves(exts: seq<Extent>, tree: ExtentTree, visited: set<nat>, reuse: nat, freed: set<nat>)
    requires reuse <= |tree.leaves| && KeepsPrefix(exts, tree.leaves, reuse)
    requires visited == SeqSet(LeafBlocks(tree.leaves)[..reuse]) + freed
    requires SeqSet(LeafBlocks(tree.leaves)[..reuse]) !! freed
    ensures FreesAllButKept(exts, tree, visited, freed)
  {
    assert freed == visited - SeqSet(LeafBlocks(tree.leaves)[..reuse]);
  }

  /** rebuildExtentIndexWrite: whatever shape the index takes, reading it back yields exactly
      the new list; the list stays inline when it is empty, or when it was inline and has at most
      eight extents, and then every old node is freed; otherwise a tree is written, and the old
      nodes freed are all but the leaves of the common prefix; no old node is rewritten. */
  method RebuildExtentIndexWrite(ix: Index, dev: NodeDev, tree: ExtentTree, exts: seq<Extent>, blocks: seq<nat>,
                                 ghost r: WalkResult)
    returns (ok: bool, ix': Index, dev': NodeDev, freed: seq<BlockRun>, ghost nodes: set<nat>)
    requires StartsFrom(ix, dev, tree, r) && FreshFor(blocks, r.visited) && Indexable(exts)
    ensures NodeCount(|exts|) <= |blocks| ==> ok
    ensures ok ==> ReadIndex(ix', dev') == Some(exts) && ix'.total == |exts|
    ensures ok ==> (ix'.indexed <==> |exts| != 0 && (|exts| > 8 || ix.indexed))
    ensures ok && !ix'.indexed ==> ix' == Index(false, 0, |exts|, exts) && RunSet(freed) == r.visited && dev' == dev
    ensures ok && ix'.indexed ==> FreesAllButKept(exts, tree, r.visited, RunSet(freed))
    ensures ok ==> RunSet(freed) <= r.visited && nodes !! RunSet(freed) && r.visited - RunSet(freed) <= nodes
    ensures ok && ix'.indexed ==> WalkBtree(dev', ix'.root).Walked? && WalkBtree(dev', ix'.root).visited == nodes
    ensures ok ==> Untouched(dev, dev', r.visited)
  {
    hide KeepsPrefix, SharedPrefix, FreesAllButKept, SeqSet, LeafBlocks, RunSet, Distinct;
    ix', dev', freed, nodes := ix, dev, [], {};
    if |exts| == 0 || (|exts| <= 8 && !ix.indexed) {
      freed := AddBlocks([], LeafBlocks(tree.leaves) + tree.idx);
      AllNodesFreed(ix, dev, tree, r, RunSet(freed));
      ix' := Index(false, 0, |exts|, exts);
      return true, ix', dev', freed, nodes;
    }
    var root;
    ghost var t;
    if !ix.indexed || |tree.leaves| == 0 {
      freed := AddBlocks([], LeafBlocks(tree.leaves) + tree.idx);
      AllNodesFreed(ix, dev, tree, r, RunSet(freed));
      ok, root, dev', t := BuildTree(exts, blocks, dev);
      if !ok { return; }
      nodes := SeqSet(blocks[..NodeCount(|exts|)]);
      KeepsNothing(exts, tree, r.visited);
    } else {
      StartsFromOld(ix, dev, tree, r);
      var reuse, used, cached;
      ok, root, dev', freed, cached, reuse, used, t := RebuildLocalized(dev, tree, exts, blocks, r);
      if !ok { return; }
      nodes := SeqSet(LeafBlocks(tree.leaves)[..reuse]) + SeqSet(blocks[..used]);
      KeepsLeaves(exts, tree, r.visited, reuse, RunSet(freed));
    }
    ix' := Index(true, root, |exts|, []);
    ReadsBack(ix', dev', t, exts, nodes);
    BuiltWalks(dev', t, exts, nodes);
  }
}
