/** The bottom-up B+ tree builder (briefs/btree_build.go). */
module BtreeBuild {
  import opened Extents
  import opened BtreeWalk
  import opened BtreeProofs
  import opened Sets

  const MAX_CHILDREN := IDX_FANOUT + 1

  function CeilDiv(n: nat, d: nat): (r: nat)
    requires d > 0
  {
    (n + d - 1) / d
  }

  // ---------------------------------------------------------------------------
  // Writing node buffers

  ghost predicate Distinct(bs: seq<nat>) {
    forall i, j :: 0 <= i < j < |bs| ==> bs[i] != bs[j]
  }

  /** WriteBtreeNodes: each buffer to its block, in order. */
  function WriteAll(dev: NodeDev, bs: seq<nat>, ns: seq<Node>): (r: NodeDev)
    requires |bs| == |ns|
  {
    if bs == [] then dev else WriteAll(dev, bs[..|bs|-1], ns[..|ns|-1])[bs[|bs|-1] := ns[|ns|-1]]
  }

  lemma {:induction false} WriteAllAt(dev: NodeDev, bs: seq<nat>, ns: seq<Node>)
    requires |bs| == |ns| && Distinct(bs)
    ensures forall i :: 0 <= i < |bs| ==> bs[i] in WriteAll(dev, bs, ns) && WriteAll(dev, bs, ns)[bs[i]] == ns[i]
    ensures forall b: nat :: b !in bs ==> (b in WriteAll(dev, bs, ns) <==> b in dev)
    ensures forall b: nat :: b !in bs && b in dev ==> WriteAll(dev, bs, ns)[b] == dev[b]
  {
    if bs != [] { WriteAllAt(dev, bs[..|bs|-1], ns[..|ns|-1]); }
  }

  lemma {:induction false} WriteAllConcat(dev: NodeDev, bs: seq<nat>, ns: seq<Node>, bs2: seq<nat>, ns2: seq<Node>)
    requires |bs| == |ns| && |bs2| == |ns2|
    ensures WriteAll(dev, bs + bs2, ns + ns2) == WriteAll(WriteAll(dev, bs, ns), bs2, ns2)
  {
    if bs2 == [] {
      assert bs + bs2 == bs && ns + ns2 == ns;
    } else {
      var m := |bs2| - 1;
      WriteAllConcat(dev, bs, ns, bs2[..m], ns2[..m]);
      assert (bs + bs2)[..|bs + bs2| - 1] == bs + bs2[..m];
      assert (ns + ns2)[..|ns + ns2| - 1] == ns + ns2[..m];
    }
  }

  /** Blocks outside a tree may change freely. */
  lemma {:induction false} StoredFrame(dev: NodeDev, dev': NodeDev, t: Tree, h: nat)
    requires Stored(dev, t, h)
    requires forall b: nat :: b in Bag(t) && b in dev ==> b in dev' && dev'[b] == dev[b]
    ensures Stored(dev', t, h)
    decreases h
  {
    if t.NodeT? {
      forall i | 0 <= i < |t.kids| ensures Stored(dev', t.kids[i], h - 1) {
        BagMember(t.kids, i);
        StoredFrame(dev, dev', t.kids[i], h - 1);
      }
    }
  }

  lemma {:induction false} BagMember(ts: seq<Tree>, i: nat)
    requires i < |ts|
    ensures Bag(ts[i]) <= BagAll(ts)
  {
    if i > 0 { BagMember(ts[1..], i - 1); }
  }

  lemma StoredAllFrame(dev: NodeDev, dev': NodeDev, ts: seq<Tree>, h: nat)
    requires StoredAll(dev, ts, h)
    requires forall b: nat :: b in BagAll(ts) && b in dev ==> b in dev' && dev'[b] == dev[b]
    ensures StoredAll(dev', ts, h)
  {
    forall i | 0 <= i < |ts| ensures Stored(dev', ts[i], h) {
      BagMember(ts, i);
      StoredFrame(dev, dev', ts[i], h);
    }
  }

  // ---------------------------------------------------------------------------
  // Chunks and leaves

  /** Chunk i holds extents [126*i, 126*(i+1)), the last one possibly fewer. */
  ghost predicate ChunkedBy(extents: seq<Extent>, chunks: seq<seq<Extent>>) {
    && |chunks| == CeilDiv(|extents|, LEAF_FANOUT)
    && forall i :: 0 <= i < |chunks| ==>
        0 < |chunks[i]| <= LEAF_FANOUT && i * LEAF_FANOUT + |chunks[i]| <= |extents|
        && chunks[i] == extents[i * LEAF_FANOUT..i * LEAF_FANOUT + |chunks[i]|]
        && (|chunks[i]| == LEAF_FANOUT || i * LEAF_FANOUT + |chunks[i]| == |extents|)
  }

  method ChunkBtreeExtents(extents: seq<Extent>) returns (chunks: seq<seq<Extent>>)
    ensures ChunkedBy(extents, chunks) && Flatten(chunks) == extents
  {
    chunks := [];
    var start := 0;
    while start < |extents|
      invariant start == if |chunks| * LEAF_FANOUT < |extents| then |chunks| * LEAF_FANOUT else |extents|
      invariant |chunks| <= CeilDiv(|extents|, LEAF_FANOUT)
      invariant forall i :: 0 <= i < |chunks| ==>
        0 < |chunks[i]| <= LEAF_FANOUT && i * LEAF_FANOUT + |chunks[i]| <= |extents|
        && chunks[i] == extents[i * LEAF_FANOUT..i * LEAF_FANOUT + |chunks[i]|]
        && (|chunks[i]| == LEAF_FANOUT || i * LEAF_FANOUT + |chunks[i]| == |extents|)
      invariant Flatten(chunks) == extents[..start]
      decreases |extents| - start
    {
      var end := if start + LEAF_FANOUT > |extents| then |extents| else start + LEAF_FANOUT;
      var c := extents[start..end];
      FlattenConcat(chunks, [c]);
      assert [c][1..] == [] && Flatten([c]) == c + Flatten([]);
      assert extents[..start] + c == extents[..end];
      chunks := chunks + [c];
      start := end;
    }
    assert extents[..start] == extents;
  }

  /** Leaves as trees over their blocks. */
  function LeafTrees(bs: seq<nat>, chunks: seq<seq<Extent>>): (ts: seq<Tree>)
    requires |bs| == |chunks|
    ensures |ts| == |bs| && forall i :: 0 <= i < |ts| ==> ts[i] == LeafT(bs[i], chunks[i])
  {
    seq(|bs|, i requires 0 <= i < |bs| => LeafT(bs[i], chunks[i]))
  }

  lemma LeafTreesTail(bs: seq<nat>, chunks: seq<seq<Extent>>)
    requires |bs| == |chunks| > 0
    ensures LeafTrees(bs, chunks)[1..] == LeafTrees(bs[1..], chunks[1..])
  {
    hide LeafTrees;
  }

  lemma {:induction false} LeafTreesFlatten(bs: seq<nat>, chunks: seq<seq<Extent>>)
    requires |bs| == |chunks|
    ensures ExtsAll(LeafTrees(bs, chunks)) == Flatten(chunks)
  {
    hide LeafTrees;
    if bs != [] {
      LeafTreesFlatten(bs[1..], chunks[1..]);
      LeafTreesTail(bs, chunks);
    }
  }

  lemma {:induction false} LeafTreesBag(bs: seq<nat>, chunks: seq<seq<Extent>>)
    requires |bs| == |chunks|
    ensures BagAll(LeafTrees(bs, chunks)) == multiset(bs)
  {
    hide LeafTrees;
    if bs != [] {
      LeafTreesBag(bs[1..], chunks[1..]);
      LeafTreesTail(bs, chunks);
      assert bs == [bs[0]] + bs[1..];
    }
  }

  lemma {:induction false} LeafTreesChunks(bs: seq<nat>, chunks: seq<seq<Extent>>)
    requires |bs| == |chunks|
    ensures LeafChunksAll(LeafTrees(bs, chunks)) == chunks
  {
    hide LeafTrees;
    if bs != [] {
      LeafTreesChunks(bs[1..], chunks[1..]);
      LeafTreesTail(bs, chunks);
      assert chunks == [chunks[0]] + chunks[1..];
    }
  }

  lemma LeafTreesExts(bs: seq<nat>, chunks: seq<seq<Extent>>)
    requires |bs| == |chunks|
    ensures ExtsAll(LeafTrees(bs, chunks)) == Flatten(chunks)
    ensures BagAll(LeafTrees(bs, chunks)) == multiset(bs)
    ensures LeafChunksAll(LeafTrees(bs, chunks)) == chunks
  {
    LeafTreesFlatten(bs, chunks);
    LeafTreesBag(bs, chunks);
    LeafTreesChunks(bs, chunks);
  }

  /** BuildBtreeLeaves: one block per chunk, next_leaf wired left to right. */
  method BuildBtreeLeaves(extents: seq<Extent>, blocks: seq<nat>)
    returns (ok: bool, chunks: seq<seq<Extent>>, leafBlocks: seq<nat>, firstOffsets: seq<nat>, bufs: seq<Node>)
    ensures ok <==> extents != [] && CeilDiv(|extents|, LEAF_FANOUT) <= |blocks|
    ensures ok ==> ChunkedBy(extents, chunks) && Flatten(chunks) == extents
    ensures ok ==> |chunks| == |leafBlocks| == |firstOffsets| == |bufs| && leafBlocks == blocks[..|chunks|]
    ensures ok ==> forall i :: 0 <= i < |chunks| ==>
      && firstOffsets[i] == chunks[i][0].offset
      && bufs[i] == Leaf(0, chunks[i], if i + 1 < |chunks| then leafBlocks[i+1] else 0)
  {
    chunks, leafBlocks, firstOffsets, bufs := [], [], [], [];
    if extents == [] { return false, chunks, leafBlocks, firstOffsets, bufs; }
    chunks := ChunkBtreeExtents(extents);
    for i := 0 to |chunks|
      invariant i <= |blocks| && leafBlocks == blocks[..i]
    {
      if i == |blocks| { return false, chunks, leafBlocks, firstOffsets, bufs; }
      leafBlocks := leafBlocks + [blocks[i]];
    }
    for li := 0 to |chunks|
      invariant |bufs| == |firstOffsets| == li
      invariant forall i :: 0 <= i < li ==>
        && firstOffsets[i] == chunks[i][0].offset
        && bufs[i] == Leaf(0, chunks[i], if i + 1 < |chunks| then leafBlocks[i+1] else 0)
    {
      var next := if li + 1 < |chunks| then leafBlocks[li+1] else 0;
      bufs := bufs + [Leaf(0, chunks[li], next)];
      firstOffsets := firstOffsets + [chunks[li][0].offset];
    }
    ok := true;
  }

  lemma LeavesStored(dev: NodeDev, chunks: seq<seq<Extent>>, bs: seq<nat>, bufs: seq<Node>, lo: nat)
    requires |chunks| == |bs| == |bufs| && lo <= |bs| && Distinct(bs) && 0 !in bs
    requires forall i :: 0 <= i < |chunks| ==> 0 < |chunks[i]| <= LEAF_FANOUT
    requires forall i :: lo <= i < |chunks| ==> bufs[i].Leaf? && bufs[i].level == 0 && bufs[i].exts == chunks[i]
    requires forall i :: 0 <= i < lo ==>
      bs[i] in dev && dev[bs[i]].Leaf? && dev[bs[i]].level == 0 && dev[bs[i]].exts == chunks[i]
    ensures StoredAll(WriteAll(dev, bs[lo..], bufs[lo..]), LeafTrees(bs, chunks), 0)
  {
    var w, n := bs[lo..], bufs[lo..];
    WriteAllAt(dev, w, n);
    var ts := LeafTrees(bs, chunks);
    forall i | 0 <= i < |ts| ensures Stored(WriteAll(dev, w, n), ts[i], 0) {
      if i < lo {
        assert bs[i] !in w;
      } else {
        assert w[i - lo] == bs[i] && n[i - lo] == bufs[i];
      }
    }
  }

  // ---------------------------------------------------------------------------
  // Index levels

  /** Index nodes over n children on one level. */
  function LevelNodes(n: nat): (r: nat) {
    CeilDiv(n, MAX_CHILDREN)
  }

  /** Index levels over n children. */
  function Height(n: nat): (h: nat) {
    if n <= 1 then 0 else 1 + Height(LevelNodes(n))
  }

  /** Index nodes over n children on all levels. */
  function IdxCount(n: nat): (r: nat) {
    if n <= 1 then 0 else LevelNodes(n) + IdxCount(LevelNodes(n))
  }

  /** The kids of a level, concatenated. */
  function KidsOf(ts: seq<Tree>): (r: seq<Tree>)
    requires forall i :: 0 <= i < |ts| ==> ts[i].NodeT?
  {
    if ts == [] then [] else KidsOf(ts[..|ts|-1]) + ts[|ts|-1].kids
  }

  lemma {:induction false} KidsOfExts(ts: seq<Tree>)
    requires forall i :: 0 <= i < |ts| ==> ts[i].NodeT?
    ensures ExtsAll(ts) == ExtsAll(KidsOf(ts))
  {
    if ts != [] {
      var pre, last := ts[..|ts|-1], ts[|ts|-1];
      KidsOfExts(pre);
      assert ts == pre + [last] && [last][1..] == [];
      ExtsAllConcat(pre, [last]);
      ExtsAllConcat(KidsOf(pre), last.kids);
      assert ExtsAll([last]) == Exts(last) + ExtsAll([]);
    }
  }

  lemma {:induction false} KidsOfChunks(ts: seq<Tree>)
    requires forall i :: 0 <= i < |ts| ==> ts[i].NodeT?
    ensures LeafChunksAll(ts) == LeafChunksAll(KidsOf(ts))
  {
    if ts != [] {
      var pre, last := ts[..|ts|-1], ts[|ts|-1];
      KidsOfChunks(pre);
      assert ts == pre + [last] && [last][1..] == [];
      LeafChunksAllConcat(pre, [last]);
      LeafChunksAllConcat(KidsOf(pre), last.kids);
      assert LeafChunksAll([last]) == LeafChunks(last) + LeafChunksAll([]);
    }
  }

  lemma Shuffle(a: multiset<nat>, b: multiset<nat>, c: multiset<nat>, d: multiset<nat>)
    ensures (a + b) + (c + d) == (a + c) + (b + d)
  {
  }

  lemma {:induction false} KidsOfBag(ts: seq<Tree>)
    requires forall i :: 0 <= i < |ts| ==> ts[i].NodeT?
    ensures BagAll(ts) == multiset(BlocksOf(ts)) + BagAll(KidsOf(ts))
  {
    if ts == [] {
      assert BlocksOf(ts) == [];
    } else {
      var pre, last := ts[..|ts|-1], ts[|ts|-1];
      KidsOfBag(pre);
      BagAllSnoc(pre, last);
      assert ts == pre + [last];
      LevelBlocksSnoc(pre, last);
      KidsBagSnoc(ts, pre, last);
      hide *;
      Shuffle(multiset(BlocksOf(pre)), BagAll(KidsOf(pre)), multiset{last.block}, BagAll(last.kids));
    }
  }

  lemma LevelBlocksSnoc(pre: seq<Tree>, last: Tree)
    requires last.NodeT?
    ensures multiset(BlocksOf(pre + [last])) == multiset(BlocksOf(pre)) + multiset{last.block}
    ensures Bag(last) == multiset{last.block} + BagAll(last.kids)
  {
    hide BagAll;
    assert BlocksOf(pre + [last]) == BlocksOf(pre) + [last.block];
  }

  lemma KidsBagSnoc(ts: seq<Tree>, pre: seq<Tree>, last: Tree)
    requires ts == pre + [last] && forall i :: 0 <= i < |ts| ==> ts[i].NodeT?
    ensures (forall i :: 0 <= i < |pre| ==> pre[i].NodeT?)
    ensures BagAll(KidsOf(ts)) == BagAll(KidsOf(pre)) + BagAll(last.kids)
  {
    hide BagAll;
    forall i | 0 <= i < |pre| ensures pre[i].NodeT? {
      assert ts[i] == pre[i];
    }
    assert ts[..|ts|-1] == pre;
    BagAllConcat(KidsOf(pre), last.kids);
  }

  lemma BagAllSnoc(pre: seq<Tree>, last: Tree)
    ensures BagAll(pre + [last]) == BagAll(pre) + Bag(last)
  {
    BagAllConcat(pre, [last]);
    assert [last][1..] == [];
    assert BagAll([last]) == Bag(last) + BagAll([]);
  }

  lemma {:induction false} LeafChunksAllConcat(a: seq<Tree>, b: seq<Tree>)
    ensures LeafChunksAll(a + b) == LeafChunksAll(a) + LeafChunksAll(b)
  {
    if a == [] {
      assert a + b == b;
    } else {
      assert (a + b)[1..] == a[1..] + b;
      LeafChunksAllConcat(a[1..], b);
    }
  }

  lemma MulLe(a: nat, x: nat, y: nat)
    requires x <= y
    ensures a * x <= a * y
  {
  }

  lemma GroupSize(n: nat, nn: nat, base: nat, rem: nat)
    requires n == nn * base + rem && rem < nn && 2 * nn <= n <= MAX_CHILDREN * nn
    ensures 2 <= base <= MAX_CHILDREN && (base == MAX_CHILDREN ==> rem == 0)
  {
    if base < 2 { MulLe(nn, base, 1); }
    if base > MAX_CHILDREN { MulLe(nn, MAX_CHILDREN + 1, base); }
  }

  /** Children placed in the first j groups. */
  function GroupOff(j: nat, base: nat, rem: nat): (r: nat) {
    if j == 0 then 0 else GroupOff(j - 1, base, rem) + base + (if j - 1 < rem then 1 else 0)
  }

  lemma {:induction false} GroupOffClosed(j: nat, base: nat, rem: nat)
    ensures GroupOff(j, base, rem) == j * base + (if j < rem then j else rem)
  {
    if j > 0 { GroupOffClosed(j - 1, base, rem); }
  }

  lemma DivMod(n: nat, d: nat)
    requires d > 0
    ensures n == d * (n / d) + n % d && n % d < d
  {
  }

  lemma OffBound(n: nat, j: nat, nn: nat, base: nat, rem: nat)
    requires n == nn * base + rem && rem < nn && j < nn
    ensures var off := (j + 1) * base + if j + 1 < rem then j + 1 else rem;
      off <= n && (j + 1 == nn ==> off == n)
  {
    MulLe(base, j + 1, nn);
  }

  lemma LevelBounds(n: nat, nn: nat)
    requires n >= 2 && nn == LevelNodes(n)
    ensures 0 < nn && 2 * nn <= n <= MAX_CHILDREN * nn
  {
  }

  /** The even split: every group holds 2 to 254 children and together they hold all n. */
  lemma EvenSplit(n: nat, j: nat, nn: nat, base: nat, rem: nat)
    requires n >= 2 && nn == LevelNodes(n) && j < nn && base == n / nn && rem == n % nn
    ensures 2 <= base && base + (if j < rem then 1 else 0) <= MAX_CHILDREN
    ensures GroupOff(j + 1, base, rem) <= n
    ensures j + 1 == nn ==> GroupOff(j + 1, base, rem) == n
  {
    DivMod(n, nn);
    LevelBounds(n, nn);
    GroupSize(n, nn, base, rem);
    OffBound(n, j, nn, base, rem);
    GroupOffClosed(j + 1, base, rem);
    hide *;
  }

  method SplitSizes(n: nat) returns (nNodes: nat, base: nat, rem: nat)
    requires n >= 2
    ensures nNodes == LevelNodes(n) == (n + 253) / 254 && nNodes > 0 && base == n / nNodes && rem == n % nNodes
    ensures 2 <= base <= MAX_CHILDREN && (rem > 0 ==> base < MAX_CHILDREN)
    ensures forall j: nat :: j <= nNodes ==> GroupOff(j, base, rem) <= n
    ensures GroupOff(nNodes, base, rem) == n
  {
    nNodes := LevelNodes(n);
    base, rem := n / nNodes, n % nNodes;
    EvenSplit(n, 0, nNodes, base, rem);
    EvenSplit(n, nNodes - 1, nNodes, base, rem);
    forall j: nat | j <= nNodes ensures GroupOff(j, base, rem) <= n {
      if j > 0 { EvenSplit(n, j - 1, nNodes, base, rem); }
    }
  }

  /** One index node over a bucket of children. */
  function IndexNode(level: nat, bucket: seq<nat>, keys: seq<nat>): (n: Node)
    requires |bucket| == |keys| && |bucket| > 0
  {
    Internal(level, seq(|bucket| - 1, i requires 0 <= i < |bucket| - 1 => Entry(bucket[i], keys[i+1])),
      bucket[|bucket|-1])
  }

  /** Blocks and first offsets of a list of trees. */
  ghost predicate Heads(ts: seq<Tree>, blocks: seq<nat>, keys: seq<nat>) {
    && |ts| == |blocks| == |keys|
    && forall i :: 0 <= i < |ts| ==> ts[i].block == blocks[i] && MinKeyIs(ts[i], keys[i])
  }

  /** A node list over a group list: node j is the index node of group j. */
  ghost predicate LevelOf(next: seq<Tree>, nodes: seq<Node>, level: nat) {
    && |next| == |nodes|
    && forall j :: 0 <= j < |next| ==>
        && next[j].NodeT? && 2 <= |next[j].kids| <= MAX_CHILDREN
        && nodes[j].Internal? && nodes[j].level == level && Linked(nodes[j], next[j].kids)
  }

  lemma GroupMinKey(kids: seq<Tree>, block: nat, key: nat)
    requires kids != [] && MinKeyIs(kids[0], key)
    ensures MinKeyIs(NodeT(block, kids), key)
  {
    assert Exts(NodeT(block, kids)) == Exts(kids[0]) + ExtsAll(kids[1..]);
  }

  /** Group j of an even split. */
  ghost predicate SplitOk(n: nat, nn: nat, base: nat, rem: nat) {
    && nn > 0 && 2 <= base <= MAX_CHILDREN && (rem > 0 ==> base < MAX_CHILDREN)
    && (forall j: nat :: j <= nn ==> GroupOff(j, base, rem) <= n)
    && GroupOff(nn, base, rem) == n
  }

  function Group<T>(s: seq<T>, j: nat, base: nat, rem: nat): (r: seq<T>)
    requires GroupOff(j + 1, base, rem) <= |s|
    ensures |r| == base + if j < rem then 1 else 0
  {
    s[GroupOff(j, base, rem)..GroupOff(j + 1, base, rem)]
  }

  /** The level's trees: group j under block j. */
  ghost function GroupTrees(cur: seq<Tree>, bs: seq<nat>, base: nat, rem: nat): (ts: seq<Tree>)
    requires SplitOk(|cur|, |bs|, base, rem)
    ensures |ts| == |bs| && forall j :: 0 <= j < |ts| ==> ts[j] == NodeT(bs[j], Group(cur, j, base, rem))
  {
    seq(|bs|, j requires 0 <= j < |bs| => NodeT(bs[j], Group(cur, j, base, rem)))
  }

  lemma {:induction false} GroupTreesKids(cur: seq<Tree>, bs: seq<nat>, base: nat, rem: nat, j: nat)
    requires SplitOk(|cur|, |bs|, base, rem) && j <= |bs|
    ensures KidsOf(GroupTrees(cur, bs, base, rem)[..j]) == cur[..GroupOff(j, base, rem)]
  {
    if j > 0 {
      var ts := GroupTrees(cur, bs, base, rem);
      GroupTreesKids(cur, bs, base, rem, j - 1);
      hide GroupTrees, Group, KidsOf, GroupOff;
      KidsOfSnoc(ts, j);
      GroupEnds(cur, j - 1, base, rem);
    }
  }

  lemma KidsOfSnoc(ts: seq<Tree>, j: nat)
    requires 0 < j <= |ts| && forall i :: 0 <= i < |ts| ==> ts[i].NodeT?
    ensures KidsOf(ts[..j]) == KidsOf(ts[..j-1]) + ts[j-1].kids
  {
    assert ts[..j][..j-1] == ts[..j-1];
  }

  lemma GroupEnds(cur: seq<Tree>, j: nat, base: nat, rem: nat)
    requires GroupOff(j + 1, base, rem) <= |cur|
    ensures cur[..GroupOff(j, base, rem)] + Group(cur, j, base, rem) == cur[..GroupOff(j + 1, base, rem)]
  {
  }

  /** What one level pass computes. */
  ghost predicate LevelBuilt(curBlocks: seq<nat>, curKeys: seq<nat>, level: nat, base: nat, rem: nat,
                             nextKeys: seq<nat>, nodes: seq<Node>, m: nat)
    requires |curBlocks| == |curKeys|
  {
    && |nextKeys| == |nodes| == m
    && forall j :: 0 <= j < m ==>
        && GroupOff(j + 1, base, rem) <= |curBlocks| && base > 0
        && nodes[j] == IndexNode(level, Group(curBlocks, j, base, rem), Group(curKeys, j, base, rem))
        && nextKeys[j] == Group(curKeys, j, base, rem)[0]
  }

  /** One pass of BuildBtreeIndex's level loop. */
  method BuildLevel(curBlocks: seq<nat>, curKeys: seq<nat>, level: nat, blocks: seq<nat>, g: nat)
    returns (ok: bool, nextBlocks: seq<nat>, nextKeys: seq<nat>, nodes: seq<Node>, base: nat, rem: nat)
    requires |curBlocks| == |curKeys| >= 2 && g <= |blocks|
    ensures ok <==> g + LevelNodes(|curBlocks|) <= |blocks|
    ensures ok ==> |nextBlocks| == LevelNodes(|curBlocks|) && nextBlocks == blocks[g..g + |nextBlocks|]
    ensures ok ==> SplitOk(|curBlocks|, |nextBlocks|, base, rem)
    ensures ok ==> LevelBuilt(curBlocks, curKeys, level, base, rem, nextKeys, nodes, |nextBlocks|)
  {
    hide IndexNode, LevelNodes;
    var n := |curBlocks|;
    var nNodes;
    nNodes, base, rem := SplitSizes(n);
    nextBlocks, nextKeys, nodes := [], [], [];
    var off: nat := 0;
    for j := 0 to nNodes
      invariant off == GroupOff(j, base, rem)
      invariant g + j <= |blocks| && |nextBlocks| == j && nextBlocks == blocks[g..g + j]
      invariant LevelBuilt(curBlocks, curKeys, level, base, rem, nextKeys, nodes, j)
    {
      var k := if j < rem then base + 1 else base;
      assert GroupOff(j + 1, base, rem) == off + k;
      if g + j == |blocks| { return false, nextBlocks, nextKeys, nodes, base, rem; }
      var bucket, bucketKeys := curBlocks[off..off+k], curKeys[off..off+k];
      nodes := nodes + [IndexNode(level, bucket, bucketKeys)];
      nextBlocks, nextKeys := nextBlocks + [blocks[g + j]], nextKeys + [bucketKeys[0]];
      off := off + k;
    }
    ok := true;
  }

  lemma IndexNodeLinked(level: nat, kids: seq<Tree>, bucket: seq<nat>, keys: seq<nat>)
    requires Heads(kids, bucket, keys) && kids != []
    ensures Linked(IndexNode(level, bucket, keys), kids)
  {
    hide MinKeyIs;
    var n := IndexNode(level, bucket, keys);
    assert |n.idx| == |kids| - 1 && n.trailing == bucket[|kids| - 1];
    forall i | 0 <= i < |n.idx| ensures n.idx[i] == Entry(bucket[i], keys[i + 1]) {
    }
    assert |Children(n)| == |kids|;
  }

  lemma HeadsGroup(cur: seq<Tree>, curBlocks: seq<nat>, curKeys: seq<nat>, lo: nat, hi: nat)
    requires Heads(cur, curBlocks, curKeys) && lo <= hi <= |cur|
    ensures Heads(cur[lo..hi], curBlocks[lo..hi], curKeys[lo..hi])
  {
  }

  lemma LevelTreeAt(cur: seq<Tree>, curBlocks: seq<nat>, curKeys: seq<nat>, level: nat, block: nat, base: nat,
                    rem: nat, j: nat)
    requires Heads(cur, curBlocks, curKeys) && GroupOff(j + 1, base, rem) <= |cur| && base >= 2
    ensures Linked(IndexNode(level, Group(curBlocks, j, base, rem), Group(curKeys, j, base, rem)),
      Group(cur, j, base, rem))
    ensures MinKeyIs(NodeT(block, Group(cur, j, base, rem)), Group(curKeys, j, base, rem)[0])
  {
    HeadsGroup(cur, curBlocks, curKeys, GroupOff(j, base, rem), GroupOff(j + 1, base, rem));
    IndexNodeLinked(level, Group(cur, j, base, rem), Group(curBlocks, j, base, rem), Group(curKeys, j, base, rem));
    GroupMinKey(Group(cur, j, base, rem), block, Group(curKeys, j, base, rem)[0]);
  }

  /** A level pass over the heads of stored trees yields index nodes over those trees. */
  lemma LevelTrees(cur: seq<Tree>, curBlocks: seq<nat>, curKeys: seq<nat>, level: nat, bs: seq<nat>, base: nat,
                   rem: nat,
                   nextKeys: seq<nat>, nodes: seq<Node>)
    requires Heads(cur, curBlocks, curKeys) && SplitOk(|cur|, |bs|, base, rem)
    requires LevelBuilt(curBlocks, curKeys, level, base, rem, nextKeys, nodes, |bs|)
    ensures var next := GroupTrees(cur, bs, base, rem);
      LevelOf(next, nodes, level) && Heads(next, bs, nextKeys) && KidsOf(next) == cur
  {
    hide KidsOf, GroupOff, Group, Linked, MinKeyIs;
    var next := GroupTrees(cur, bs, base, rem);
    GroupTreesKids(cur, bs, base, rem, |bs|);
    assert next[..|bs|] == next && cur[..|cur|] == cur;
    forall j | 0 <= j < |bs|
      ensures Linked(nodes[j], next[j].kids) && MinKeyIs(next[j], nextKeys[j])
      ensures nodes[j].Internal? && nodes[j].level == level && 2 <= |next[j].kids| <= MAX_CHILDREN
    {
      LevelTreeAt(cur, curBlocks, curKeys, level, bs[j], base, rem, j);
    }
  }

  lemma LevelShrinks(n: nat)
    requires n >= 2
    ensures 0 < LevelNodes(n) < n
  {
  }

  /** Writing a level's nodes stores its trees. */
  lemma LevelStored(dev: NodeDev, cur: seq<Tree>, next: seq<Tree>, nodes: seq<Node>, bs: seq<nat>, h: nat)
    requires StoredAll(dev, cur, h) && LevelOf(next, nodes, h + 1) && KidsOf(next) == cur && h + 1 < 0x1_0000
    requires |bs| == |nodes| && bs == BlocksOf(next) && Distinct(bs) && 0 !in bs
    requires forall b :: b in bs ==> b !in BagAll(cur)
    ensures StoredAll(WriteAll(dev, bs, nodes), next, h + 1)
  {
    var dev' := WriteAll(dev, bs, nodes);
    WriteAllAt(dev, bs, nodes);
    StoredAllFrame(dev, dev', cur, h);
    forall j | 0 <= j < |next| ensures Stored(dev', next[j], h + 1) {
      assert bs[j] == next[j].block && dev'[bs[j]] == nodes[j];
      forall i | 0 <= i < |next[j].kids| ensures Stored(dev', next[j].kids[i], h) {
        var k := KidIndex(next, j, i);
      }
    }
  }

  lemma {:induction false} KidIndex(ts: seq<Tree>, j: nat, i: nat) returns (k: nat)
    requires (forall x :: 0 <= x < |ts| ==> ts[x].NodeT?) && j < |ts| && i < |ts[j].kids|
    ensures k < |KidsOf(ts)| && KidsOf(ts)[k] == ts[j].kids[i]
  {
    var m := |ts| - 1;
    if j == m {
      k := |KidsOf(ts[..m])| + i;
    } else {
      k := KidIndex(ts[..m], j, i);
    }
  }

  /** What BuildBtreeIndex maintains: the current level's trees are stored once the nodes
      built so far are written, and hold the original extents and blocks. */
  ghost predicate IndexInv(dev: NodeDev, forest: seq<Tree>, cur: seq<Tree>, h: nat, idxBlocks: seq<nat>,
                           bufs: seq<Node>) {
    && |idxBlocks| == |bufs| && StoredAll(WriteAll(dev, idxBlocks, bufs), cur, h)
    && ExtsAll(cur) == ExtsAll(forest) && LeafChunksAll(cur) == LeafChunksAll(forest)
    && BagAll(cur) == multiset(idxBlocks) + BagAll(forest)
    && h + Height(|cur|) == Height(|forest|)
    && |idxBlocks| + IdxCount(|cur|) == IdxCount(|forest|)
    && forall k :: 0 <= k < |bufs| ==> bufs[k].Internal?
  }

  lemma IndexStep(dev: NodeDev, forest: seq<Tree>, cur: seq<Tree>, h: nat, idxBlocks: seq<nat>, bufs: seq<Node>,
                  next: seq<Tree>, nextBlocks: seq<nat>, nodes: seq<Node>)
    requires IndexInv(dev, forest, cur, h, idxBlocks, bufs) && |cur| >= 2 && h + 1 < 0x1_0000
    requires LevelOf(next, nodes, h + 1) && KidsOf(next) == cur && |next| == LevelNodes(|cur|)
    requires nextBlocks == BlocksOf(next)
    requires Distinct(idxBlocks + nextBlocks) && 0 !in nextBlocks
    requires forall b :: b in nextBlocks ==> b !in BagAll(forest)
    ensures IndexInv(dev, forest, next, h + 1, idxBlocks + nextBlocks, bufs + nodes)
  {
    KidsOfExts(next);
    KidsOfChunks(next);
    KidsOfBag(next);
    WriteAllConcat(dev, idxBlocks, bufs, nextBlocks, nodes);
    forall b | b in nextBlocks ensures b !in BagAll(cur) {
      NotInEarlier(idxBlocks, nextBlocks, b);
    }
    assert Distinct(nextBlocks) by {
      forall i, j | 0 <= i < j < |nextBlocks| ensures nextBlocks[i] != nextBlocks[j] {
        var all := idxBlocks + nextBlocks;
        assert all[|idxBlocks| + i] != all[|idxBlocks| + j];
      }
    }
    LevelStored(WriteAll(dev, idxBlocks, bufs), cur, next, nodes, nextBlocks, h);
    assert multiset(idxBlocks + nextBlocks) == multiset(idxBlocks) + multiset(nextBlocks);
  }

  lemma NotInEarlier(a: seq<nat>, c: seq<nat>, b: nat)
    requires Distinct(a + c) && b in c
    ensures b !in a
  {
    var all := a + c;
    var j :| 0 <= j < |c| && c[j] == b;
    forall i | 0 <= i < |a| ensures a[i] != b {
      assert all[i] != all[|a| + j];
    }
  }

  lemma FreshSlice(blocks: seq<nat>, idxBlocks: seq<nat>, nb: seq<nat>, bag: multiset<nat>)
    requires Distinct(blocks) && 0 !in blocks && forall b :: b in blocks ==> b !in bag
    requires idxBlocks <= blocks && |idxBlocks| + |nb| <= |blocks| && nb == blocks[|idxBlocks|..|idxBlocks| + |nb|]
    ensures idxBlocks + nb <= blocks && Distinct(idxBlocks + nb) && 0 !in nb && forall b :: b in nb ==> b !in bag
  {
    assert idxBlocks + nb == blocks[..|idxBlocks| + |nb|];
  }

  lemma HeadBlocks(ts: seq<Tree>, bs: seq<nat>, keys: seq<nat>)
    requires Heads(ts, bs, keys)
    ensures bs == BlocksOf(ts)
  {
  }

  /** One pass of the level loop keeps the index invariant. */
  lemma IndexPass(dev: NodeDev, forest: seq<Tree>, cur: seq<Tree>, curBlocks: seq<nat>, curKeys: seq<nat>, h: nat,
                  idxBlocks: seq<nat>, bufs: seq<Node>, blocks: seq<nat>,
                  nb: seq<nat>, nk: seq<nat>, nodes: seq<Node>, base: nat, rem: nat) returns (next: seq<Tree>)
    requires IndexInv(dev, forest, cur, h, idxBlocks, bufs) && |cur| >= 2 && h + 1 < 0x1_0000
    requires Heads(cur, curBlocks, curKeys) && idxBlocks <= blocks
    requires Distinct(blocks) && 0 !in blocks && forall b :: b in blocks ==> b !in BagAll(forest)
    requires |nb| == LevelNodes(|cur|) && |idxBlocks| + |nb| <= |blocks|
    requires nb == blocks[|idxBlocks|..|idxBlocks| + |nb|]
    requires SplitOk(|cur|, |nb|, base, rem) && LevelBuilt(curBlocks, curKeys, h + 1, base, rem, nk, nodes, |nb|)
    ensures IndexInv(dev, forest, next, h + 1, idxBlocks + nb, bufs + nodes)
    ensures Heads(next, nb, nk) && idxBlocks + nb <= blocks
  {
    next := GroupTrees(cur, nb, base, rem);
    LevelTrees(cur, curBlocks, curKeys, h + 1, nb, base, rem, nk, nodes);
    FreshSlice(blocks, idxBlocks, nb, BagAll(forest));
    HeadBlocks(next, nb, nk);
    IndexStep(dev, forest, cur, h, idxBlocks, bufs, next, nb, nodes);
  }

  /** BuildBtreeIndex: index levels bottom-up until one node is left. */
  method BuildBtreeIndex(childBlocks: seq<nat>, childMinKeys: seq<nat>, blocks: seq<nat>, ghost dev: NodeDev,
                         ghost forest: seq<Tree>)
    returns (ok: bool, root: nat, rootMinKey: nat, idxBlocks: seq<nat>, bufs: seq<Node>, ghost t: Tree)
    requires childBlocks != [] && Heads(forest, childBlocks, childMinKeys) && StoredAll(dev, forest, 0)
    requires Height(|childBlocks|) < 0x1_0000
    requires Distinct(blocks) && 0 !in blocks && forall b :: b in blocks ==> b !in BagAll(forest)
    ensures ok <==> IdxCount(|childBlocks|) <= |blocks|
    ensures ok ==> |idxBlocks| == |bufs| == IdxCount(|childBlocks|) && idxBlocks == blocks[..|idxBlocks|]
    ensures ok ==> root == t.block && MinKeyIs(t, rootMinKey)
    ensures ok ==> Stored(WriteAll(dev, idxBlocks, bufs), t, Height(|childBlocks|))
    ensures ok ==> Exts(t) == ExtsAll(forest) && LeafChunks(t) == LeafChunksAll(forest)
    ensures ok ==> Bag(t) == multiset(idxBlocks) + BagAll(forest)
    ensures ok ==> forall k :: 0 <= k < |bufs| ==> bufs[k].Internal?
  {
    var curBlocks, curKeys := childBlocks, childMinKeys;
    ghost var cur, h: nat := forest, 0;
    var level := 1;
    idxBlocks, bufs := [], [];
    while |curBlocks| != 1
      invariant curBlocks != [] && Heads(cur, curBlocks, curKeys) && level == h + 1
      invariant idxBlocks <= blocks && IndexInv(dev, forest, cur, h, idxBlocks, bufs)
      decreases |curBlocks|
    {
      var g := |idxBlocks|;
      LevelShrinks(|curBlocks|);
      var nb, nk, nodes, base, rem;
      ok, nb, nk, nodes, base, rem := BuildLevel(curBlocks, curKeys, level, blocks, g);
      if !ok {
        IdxCountMore(|curBlocks|);
        return false, 0, 0, idxBlocks, bufs, forest[0];
      }
      ghost var next := IndexPass(dev, forest, cur, curBlocks, curKeys, h, idxBlocks, bufs, blocks, nb, nk, nodes,
        base, rem);
      idxBlocks, bufs := idxBlocks + nb, bufs + nodes;
      curBlocks, curKeys, cur, h, level := nb, nk, next, h + 1, level + 1;
    }
    t := cur[0];
    SingleTree(t);
    assert cur == [t];
    ok, root, rootMinKey := true, curBlocks[0], curKeys[0];
  }

  lemma SingleTree(t: Tree)
    ensures ExtsAll([t]) == Exts(t) && LeafChunksAll([t]) == LeafChunks(t) && BagAll([t]) == Bag(t)
  {
    assert [t][1..] == [];
  }

  lemma IdxCountMore(n: nat)
    requires n >= 2
    ensures IdxCount(n) >= LevelNodes(n)
  {
  }

  // ---------------------------------------------------------------------------
  // The whole tree

  const U64_RANGE := 0x1_0000_0000_0000_0000

  /** A strictly offset-sorted extent list with 64-bit offsets. */
  ghost predicate Indexable(extents: seq<Extent>) {
    Ascending(extents) && forall i :: 0 <= i < |extents| ==> extents[i].offset < U64_RANGE
  }

  function Pow254(k: nat): (r: nat) {
    if k == 0 then 1 else MAX_CHILDREN * Pow254(k - 1)
  }

  lemma {:induction false} HeightBound(n: nat, k: nat)
    requires n <= Pow254(k)
    ensures Height(n) <= k
  {
    if n >= 2 { HeightBound(LevelNodes(n), k - 1); }
  }

  lemma {:induction false} OffsetAtLeast(extents: seq<Extent>, i: nat)
    requires Ascending(extents) && i < |extents|
    ensures extents[i].offset >= i
  {
    if i > 0 { OffsetAtLeast(extents, i - 1); }
  }

  /** 64-bit offsets keep the tree within the walker's depth limit. */
  lemma DepthFits(extents: seq<Extent>)
    requires Indexable(extents)
    ensures Height(CeilDiv(|extents|, LEAF_FANOUT)) <= 9
  {
    if extents != [] { OffsetAtLeast(extents, |extents| - 1); }
    assert Pow254(1) == 254;
    assert Pow254(2) == 64516;
    assert Pow254(3) == 16387064;
    assert Pow254(4) == 4162314256;
    assert Pow254(5) == 1057227821024;
    assert Pow254(6) == 268535866540096;
    assert Pow254(7) == 68208110101184384;
    assert Pow254(8) == 17324859965700833536;
    assert Pow254(9) >= U64_RANGE;
    HeightBound(CeilDiv(|extents|, LEAF_FANOUT), 9);
  }

  /** Node blocks the builder allocates for n extents. */
  function NodeCount(n: nat): (r: nat) {
    CeilDiv(n, LEAF_FANOUT) + IdxCount(CeilDiv(n, LEAF_FANOUT))
  }

  lemma LeafHeads(bs: seq<nat>, chunks: seq<seq<Extent>>, keys: seq<nat>)
    requires |bs| == |chunks| == |keys|
    requires forall i :: 0 <= i < |chunks| ==> chunks[i] != [] && keys[i] == chunks[i][0].offset
    ensures Heads(LeafTrees(bs, chunks), bs, keys)
  {
  }

  lemma DistinctBag(bs: seq<nat>)
    requires Distinct(bs)
    ensures NoDup(multiset(bs))
  {
    forall b: nat ensures multiset(bs)[b] <= 1 { DistinctCount(bs, b); }
  }

  lemma {:induction false} DistinctCount(bs: seq<nat>, b: nat)
    requires Distinct(bs)
    ensures multiset(bs)[b] <= 1 && (b !in bs ==> multiset(bs)[b] == 0)
  {
    if bs != [] {
      var m := |bs| - 1;
      DistinctCount(bs[..m], b);
      assert bs == bs[..m] + [bs[m]];
    }
  }

  /** dev holds, as tree t, an index over extents whose node blocks are exactly nodes. */
  ghost predicate Built(dev: NodeDev, t: Tree, extents: seq<Extent>, nodes: set<nat>) {
    && Exts(t) == extents && NoDup(Bag(t)) && BagSet(Bag(t)) == nodes
    && Stored(dev, t, Height(CeilDiv(|extents|, LEAF_FANOUT)))
  }

  /** The index over extents reads back: the walk returns the same extents in order, visits
      exactly the node blocks, every index node has 2 to 254 children, and fsck accepts. */
  lemma BuiltWalks(dev: NodeDev, t: Tree, extents: seq<Extent>, nodes: set<nat>)
    requires Indexable(extents) && Built(dev, t, extents, nodes)
    ensures var r := WalkBtree(dev, t.block);
      && r.Walked? && WalkedExtents(r) == extents && r.visited == nodes && FsckAccepts(r, |extents|)
      && Chunks(r.seen) == LeafChunks(t)
      && forall i :: 0 <= i < |r.seen| ==> r.seen[i].node.Internal? ==> 2 <= |Children(r.seen[i].node)| <= 254
  {
    DepthFits(extents);
    StoredTreeWalks(dev, t, Height(CeilDiv(|extents|, LEAF_FANOUT)));
  }

  /** Each leaf's next_leaf names the following leaf, the last one's is 0. */
  ghost predicate Threaded(dev: NodeDev, leaves: seq<nat>) {
    forall i :: 0 <= i < |leaves| ==> Link(dev, leaves, i)
  }

  ghost predicate Link(dev: NodeDev, leaves: seq<nat>, i: nat)
    requires i < |leaves|
  {
    leaves[i] in dev && dev[leaves[i]].Leaf? && dev[leaves[i]].next == if i + 1 < |leaves| then leaves[i+1] else 0
  }

  /** BuildBtreeLeaves then BuildBtreeIndex then WriteBtreeNodes. */
  method BuildTree(extents: seq<Extent>, blocks: seq<nat>, dev: NodeDev)
    returns (ok: bool, root: nat, dev': NodeDev, ghost t: Tree)
    requires Indexable(extents) && Distinct(blocks) && 0 !in blocks
    ensures ok <==> extents != [] && NodeCount(|extents|) <= |blocks|
    ensures ok ==> root == t.block && Built(dev', t, extents, SeqSet(blocks[..NodeCount(|extents|)]))
    ensures ok ==> Threaded(dev', blocks[..CeilDiv(|extents|, LEAF_FANOUT)])
    ensures ok ==> forall b: nat :: b in dev && b !in blocks ==> b in dev' && dev'[b] == dev[b]
  {
    var chunks, leafBlocks, keys, bufs;
    ok, chunks, leafBlocks, keys, bufs := BuildBtreeLeaves(extents, blocks);
    t, root, dev' := LeafT(0, []), 0, dev;
    if !ok { return; }
    var n := |leafBlocks|;
    ghost var forest := LeafTrees(leafBlocks, chunks);
    LeavesReady(extents, blocks, dev, chunks, leafBlocks, keys, bufs);
    dev' := WriteAll(dev, leafBlocks, bufs);
    FrameBlocks(dev, leafBlocks, bufs, blocks);
    ghost var dev1 := dev';
    var rk, idxBlocks, idxBufs;
    ok, root, rk, idxBlocks, idxBufs, t := BuildBtreeIndex(leafBlocks, keys, blocks[n..], dev', forest);
    if !ok { return; }
    dev' := WriteAll(dev', idxBlocks, idxBufs);
    FrameBlocks(dev1, idxBlocks, idxBufs, blocks);
    LeavesThreaded(dev, blocks, chunks, leafBlocks, bufs, idxBlocks, idxBufs);
    BuiltFrom(dev', extents, blocks, chunks, leafBlocks, idxBlocks, t);
  }

  lemma LeavesThreaded(dev: NodeDev, blocks: seq<nat>, chunks: seq<seq<Extent>>, leafBlocks: seq<nat>, bufs: seq<Node>,
                       idxBlocks: seq<nat>, idxBufs: seq<Node>)
    requires Distinct(blocks) && |chunks| == |leafBlocks| == |bufs| <= |blocks| && |idxBlocks| == |idxBufs|
    requires leafBlocks == blocks[..|leafBlocks|] && idxBlocks <= blocks[|leafBlocks|..]
    requires forall i :: 0 <= i < |chunks| ==>
      bufs[i] == Leaf(0, chunks[i], if i + 1 < |chunks| then leafBlocks[i+1] else 0)
    ensures Threaded(WriteAll(WriteAll(dev, leafBlocks, bufs), idxBlocks, idxBufs), leafBlocks)
  {
    hide WriteAll;
    var n := |leafBlocks|;
    WriteAllAt(dev, leafBlocks, bufs);
    forall k | 0 <= k < |idxBlocks| ensures idxBlocks[k] == blocks[n + k] {
      assert idxBlocks[k] == blocks[n..][k];
    }
    WriteAllAt(WriteAll(dev, leafBlocks, bufs), idxBlocks, idxBufs);
    forall i | 0 <= i < n ensures leafBlocks[i] !in idxBlocks {
    }
  }

  /** Writing some of the blocks leaves every other block alone. */
  lemma FrameBlocks(dev: NodeDev, bs: seq<nat>, ns: seq<Node>, blocks: seq<nat>)
    requires |bs| == |ns| && Distinct(blocks) && (bs <= blocks || exists n: nat :: n <= |blocks| && bs <= blocks[n..])
    ensures forall b: nat :: b in dev && b !in blocks ==>
      b in WriteAll(dev, bs, ns) && WriteAll(dev, bs, ns)[b] == dev[b]
  {
    assert Distinct(bs) && forall b :: b in bs ==> b in blocks;
    WriteAllAt(dev, bs, ns);
  }

  /** The leaves are in place for BuildBtreeIndex. */
  lemma LeavesReady(extents: seq<Extent>, blocks: seq<nat>, dev: NodeDev, chunks: seq<seq<Extent>>,
                    leafBlocks: seq<nat>,
                    keys: seq<nat>, bufs: seq<Node>)
    requires Indexable(extents) && Distinct(blocks) && 0 !in blocks && extents != []
    requires ChunkedBy(extents, chunks) && |chunks| == |leafBlocks| == |keys| == |bufs| <= |blocks|
    requires leafBlocks == blocks[..|chunks|]
    requires forall i :: 0 <= i < |chunks| ==>
      keys[i] == chunks[i][0].offset && bufs[i].Leaf? && bufs[i].level == 0 && bufs[i].exts == chunks[i]
    ensures var forest := LeafTrees(leafBlocks, chunks);
      && StoredAll(WriteAll(dev, leafBlocks, bufs), forest, 0) && Heads(forest, leafBlocks, keys)
      && BagAll(forest) == multiset(leafBlocks)
    ensures leafBlocks != [] && Height(|leafBlocks|) <= 9
    ensures var rest := blocks[|leafBlocks|..];
      Distinct(rest) && 0 !in rest && forall b :: b in rest ==> b !in multiset(leafBlocks)
  {
    SplitFresh(blocks, |leafBlocks|);
    LeavesStored(dev, chunks, leafBlocks, bufs, 0);
    assert leafBlocks[0..] == leafBlocks && bufs[0..] == bufs;
    LeafHeads(leafBlocks, chunks, keys);
    LeafTreesExts(leafBlocks, chunks);
    DepthFits(extents);
  }

  lemma BuiltFrom(dev: NodeDev, extents: seq<Extent>, blocks: seq<nat>, chunks: seq<seq<Extent>>,
                  leafBlocks: seq<nat>, idxBlocks: seq<nat>, t: Tree)
    requires Distinct(blocks) && Flatten(chunks) == extents
    requires |chunks| == |leafBlocks| == CeilDiv(|extents|, LEAF_FANOUT)
    requires |leafBlocks| + |idxBlocks| <= |blocks| && |idxBlocks| == IdxCount(|leafBlocks|)
    requires leafBlocks == blocks[..|leafBlocks|] && idxBlocks == blocks[|leafBlocks|..][..|idxBlocks|]
    requires Stored(dev, t, Height(|leafBlocks|))
    requires Exts(t) == ExtsAll(LeafTrees(leafBlocks, chunks))
    requires Bag(t) == multiset(idxBlocks) + BagAll(LeafTrees(leafBlocks, chunks))
    ensures Built(dev, t, extents, SeqSet(blocks[..NodeCount(|extents|)]))
  {
    LeafTreesExts(leafBlocks, chunks);
    NodesOf(blocks, leafBlocks, idxBlocks, t);
  }

  lemma NodesOf(blocks: seq<nat>, leafBlocks: seq<nat>, idxBlocks: seq<nat>, t: Tree)
    requires Distinct(blocks) && |leafBlocks| + |idxBlocks| <= |blocks|
    requires leafBlocks == blocks[..|leafBlocks|] && idxBlocks == blocks[|leafBlocks|..][..|idxBlocks|]
    requires Bag(t) == multiset(idxBlocks) + multiset(leafBlocks)
    ensures NoDup(Bag(t)) && BagSet(Bag(t)) == SeqSet(blocks[..|leafBlocks| + |idxBlocks|])
  {
    var all := blocks[..|leafBlocks| + |idxBlocks|];
    assert leafBlocks + idxBlocks == all;
    TreeBag(t, leafBlocks, idxBlocks, all);
  }

  lemma SplitFresh(blocks: seq<nat>, n: nat)
    requires Distinct(blocks) && 0 !in blocks && n <= |blocks|
    ensures Distinct(blocks[..n]) && Distinct(blocks[n..]) && 0 !in blocks[n..] && 0 !in blocks[..n]
    ensures forall b :: b in blocks[n..] ==> b !in multiset(blocks[..n])
  {
    forall b | b in blocks[n..] ensures b !in multiset(blocks[..n]) {
      assert blocks == blocks[..n] + blocks[n..];
      NotInEarlier(blocks[..n], blocks[n..], b);
    }
  }

  lemma TreeBag(t: Tree, leafBlocks: seq<nat>, idxBlocks: seq<nat>, all: seq<nat>)
    requires Bag(t) == multiset(idxBlocks) + multiset(leafBlocks) && all == leafBlocks + idxBlocks && Distinct(all)
    ensures NoDup(Bag(t)) && BagSet(Bag(t)) == SeqSet(all) && t.block in all
  {
    assert multiset(all) == multiset(leafBlocks) + multiset(idxBlocks);
    assert Bag(t) == multiset(all);
    DistinctBag(all);
    assert t.block in Bag(t);
  }
}
