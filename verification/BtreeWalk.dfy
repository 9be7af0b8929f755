/** The extent B+ tree on disk, the index-descent walk over it (briefs/btree.go) and the
    structural checks fsck adds (cmd/fsck/btree_verify.go). */
module BtreeWalk {
  import opened Extents
  import opened Options

  const LEAF_FANOUT := 126
  const IDX_FANOUT := 253
  const MAX_DEPTH := 16

  datatype Entry = Entry(child: nat, highKey: nat)

  /** One node block.  A leaf uses exts and next, an internal node idx and trailing. */
  datatype Node =
    | Leaf(level: nat, exts: seq<Extent>, next: nat)
    | Internal(level: nat, idx: seq<Entry>, trailing: nat)

  /** Readable node blocks; a block that is absent fails its read, magic or checksum. */
  type NodeDev = map<nat, Node>

  datatype Fault = Depth | Cycle | Unreadable | CountOverflow | Unsorted

  /** What the walk hands to its visitor for one node. */
  datatype Info = Info(block: nat, node: Node, depth: nat, isRoot: bool, expectedLevel: nat)

  datatype WalkResult =
    | Walked(visited: set<nat>, seen: seq<Info>)
    | Failed(block: nat, fault: Fault)

  predicate Ascending(exts: seq<Extent>) {
    forall i :: 0 < i < |exts| ==> exts[i-1].offset < exts[i].offset
  }

  /** Children left to right: the idx children, then the trailing child. */
  function Children(n: Node): (r: seq<nat>)
    requires n.Internal?
    ensures |r| == |n.idx| + 1
    ensures forall i :: 0 <= i < |n.idx| ==> r[i] == n.idx[i].child
  {
    seq(|n.idx|, i requires 0 <= i < |n.idx| => n.idx[i].child) + [n.trailing]
  }

  /** walkBtreeNode with the strict fault policy: the first fault aborts. */
  function WalkNode(dev: NodeDev, block: nat, visited: set<nat>, depth: nat, expectedLevel: nat,
                    isRoot: bool): (r: WalkResult)
    requires depth <= MAX_DEPTH + 1
    decreases MAX_DEPTH + 1 - depth, 0, 0
  {
    if block == 0 then Walked(visited, [])
    else if depth > MAX_DEPTH then Failed(block, Depth)
    else if block in visited then Failed(block, Cycle)
    else if block !in dev then Failed(block, Unreadable)
    else
      var node := dev[block];
      var info := Info(block, node, depth, isRoot, expectedLevel);
      match node
      case Leaf(_, exts, _) =>
        if |exts| > LEAF_FANOUT then Failed(block, CountOverflow)
        else if !Ascending(exts) then Failed(block, Unsorted)
        else Walked(visited + {block}, [info])
      case Internal(level, idx, _) =>
        if |idx| > IDX_FANOUT then Failed(block, CountOverflow)
        else
          var r := WalkChildren(dev, Children(node), visited + {block}, depth + 1, (level + 0xFFFF) % 0x1_0000);
          if r.Failed? then r else Walked(r.visited, [info] + r.seen)
  }

  function WalkChildren(dev: NodeDev, kids: seq<nat>, visited: set<nat>, depth: nat, childLevel: nat): (r: WalkResult)
    requires depth <= MAX_DEPTH + 1
    decreases MAX_DEPTH + 1 - depth, 1, |kids|
  {
    if kids == [] then Walked(visited, [])
    else
      var r := WalkNode(dev, kids[0], visited, depth, childLevel, false);
      if r.Failed? then r
      else
        var rest := WalkChildren(dev, kids[1..], r.visited, depth, childLevel);
        if rest.Failed? then rest else Walked(rest.visited, r.seen + rest.seen)
  }

  function WalkBtree(dev: NodeDev, root: nat): (r: WalkResult) {
    WalkNode(dev, root, {}, 0, 0, true)
  }

  /** The leaf chunks the walk yields, in visit order. */
  function Chunks(seen: seq<Info>): (r: seq<seq<Extent>>) {
    if seen == [] then []
    else (if seen[0].node.Leaf? then [seen[0].node.exts] else []) + Chunks(seen[1..])
  }

  function Flatten(chunks: seq<seq<Extent>>): (r: seq<Extent>) {
    if chunks == [] then [] else chunks[0] + Flatten(chunks[1..])
  }

  /** Every extent of the tree in walk order. */
  function WalkedExtents(r: WalkResult): (exts: seq<Extent>)
    requires r.Walked?
  {
    Flatten(Chunks(r.seen))
  }

  // ---------------------------------------------------------------------------
  // fsck's additional checks

  /** Separators strictly ascending; 0 (+inf) only as the last one. */
  predicate HighKeysOk(idx: seq<Entry>) {
    forall i :: 0 <= i < |idx| ==>
      && (idx[i].highKey == 0 ==> i == |idx| - 1)
      && (idx[i].highKey != 0 && i > 0 ==> idx[i-1].highKey < idx[i].highKey)
  }

  /** visitNode: level ordering, no null child, separator order. */
  predicate VisitNodeOk(info: Info) {
    match info.node
    case Leaf(level, _, _) => level == 0
    case Internal(level, idx, trailing) =>
      && level != 0
      && (info.isRoot || level == info.expectedLevel)
      && (forall i :: 0 <= i < |idx| ==> idx[i].child != 0)
      && trailing != 0
      && HighKeysOk(idx)
  }

  /** visitLeaf over the leaves in order: each starts after the previous one's last offset;
      empty leaves do not advance the cursor. */
  predicate CrossLeafOk(chunks: seq<seq<Extent>>, prevMax: Option<nat>) {
    if chunks == [] then true
    else if chunks[0] == [] then CrossLeafOk(chunks[1..], prevMax)
    else
      && (prevMax.Some? ==> prevMax.value < chunks[0][0].offset)
      && CrossLeafOk(chunks[1..], Some(chunks[0][|chunks[0]|-1].offset))
  }

  /** The whole fsck verdict on a tree-backed inode. */
  predicate FsckAccepts(r: WalkResult, total: nat) {
    && r.Walked?
    && (forall i :: 0 <= i < |r.seen| ==> VisitNodeOk(r.seen[i]))
    && CrossLeafOk(Chunks(r.seen), None)
    && |WalkedExtents(r)| == total
  }

  // ---------------------------------------------------------------------------
  // Trees

  /** A tree as a value; the witness that a set of node blocks forms one. */
  datatype Tree = LeafT(block: nat, exts: seq<Extent>) | NodeT(block: nat, kids: seq<Tree>)

  function Exts(t: Tree): (r: seq<Extent>)
    decreases t, 1
  {
    match t case LeafT(_, exts) => exts case NodeT(_, kids) => ExtsAll(kids)
  }

  function ExtsAll(ts: seq<Tree>): (r: seq<Extent>)
    decreases ts, 0
  {
    if ts == [] then [] else Exts(ts[0]) + ExtsAll(ts[1..])
  }

  /** The leaf chunks left to right. */
  function LeafChunks(t: Tree): (r: seq<seq<Extent>>)
    decreases t, 1
  {
    match t case LeafT(_, exts) => [exts] case NodeT(_, kids) => LeafChunksAll(kids)
  }

  function LeafChunksAll(ts: seq<Tree>): (r: seq<seq<Extent>>)
    decreases ts, 0
  {
    if ts == [] then [] else LeafChunks(ts[0]) + LeafChunksAll(ts[1..])
  }

  /** The node blocks of a tree, with multiplicity. */
  function Bag(t: Tree): (r: multiset<nat>)
    decreases t, 1
  {
    match t case LeafT(b, _) => multiset{b} case NodeT(b, kids) => multiset{b} + BagAll(kids)
  }

  function BagAll(ts: seq<Tree>): (r: multiset<nat>)
    decreases ts, 0
  {
    if ts == [] then multiset{} else Bag(ts[0]) + BagAll(ts[1..])
  }

  ghost predicate NoDup(m: multiset<nat>) {
    forall b: nat :: m[b] <= 1
  }

  function BagSet(m: multiset<nat>): (s: set<nat>)
    ensures forall b: nat :: b in s <==> b in m
  {
    set b | b in m
  }

  /** dev holds tree t with height h (levels strictly decreasing, leaves at 0). */
  ghost predicate Stored(dev: NodeDev, t: Tree, h: nat)
    decreases h
  {
    && t.block != 0 && t.block in dev
    && match t
       case LeafT(b, exts) =>
         h == 0 && dev[b].Leaf? && dev[b].level == 0 && dev[b].exts == exts && 0 < |exts| <= LEAF_FANOUT
       case NodeT(b, kids) =>
         && 0 < h < 0x1_0000 && dev[b].Internal? && dev[b].level == h && 2 <= |kids| <= IDX_FANOUT + 1
         && Linked(dev[b], kids)
         && forall i :: 0 <= i < |kids| ==> Stored(dev, kids[i], h - 1)
  }

  /** An internal node's entries point at the kids, each with the next kid's first offset. */
  ghost predicate Linked(n: Node, kids: seq<Tree>) {
    && n.Internal? && |n.idx| == |kids| - 1
    && n.trailing == kids[|kids|-1].block
    && forall i :: 0 <= i < |n.idx| ==> n.idx[i].child == kids[i].block && MinKeyIs(kids[i+1], n.idx[i].highKey)
  }

  ghost predicate MinKeyIs(t: Tree, key: nat) {
    Exts(t) != [] && Exts(t)[0].offset == key
  }
}
