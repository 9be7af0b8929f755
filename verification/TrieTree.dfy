/** The directory trie as linked slots (fuse/trie_mutate.go, fuse/trie.go), and the tree of byte paths
    that a well-formed set of slots stands for. */
module TrieTree {
  import opened Bytes

  type Name = seq<Byte>
  /** A slot reference; 0 is the null reference. */
  type Ref = nat

  const SIBLING_MAX := 1024

  /** interm and leaf are the NODE_TYPE_INTERM and NODE_STATUS_LEAF bits; name is the slot's stored name. */
  datatype Slot = Slot(firstChild: Ref, nextSibling: Ref, byteVal: Byte, interm: bool, leaf: bool,
                       childCount: int, name: Name, inode: nat, ftype: nat)

  type Slots = map<Ref, Slot>

  datatype Entry = Entry(inode: nat, ftype: nat)

  /** TrieIsLeaf. */
  predicate IsLeaf(s: Slot) {
    !s.interm || s.leaf
  }

  // ---------------------------------------------------------------------------
  // Sibling chains

  /** Each slot's children in chain order, and each slot's parent. */
  datatype Links = Links(kids: map<Ref, seq<Ref>>, parent: map<Ref, Ref>)

  function KidAt(kids: seq<Ref>, i: nat): (r: Ref) {
    if i < |kids| then kids[i] else 0
  }

  predicate Distinct(kids: seq<Ref>) {
    forall i, j :: 0 <= i < j < |kids| ==> kids[i] != kids[j]
  }

  /** r heads a chain of exactly its children. */
  ghost predicate ChainAt(slots: Slots, l: Links, root: Ref, r: Ref)
    requires r in slots && r in l.kids
  {
    var k, s := l.kids[r], slots[r];
    && Distinct(k)
    && (forall i :: 0 <= i < |k| ==>
          k[i] in slots && k[i] in l.parent && l.parent[k[i]] == r && k[i] != root && k[i] != r)
    && (forall i :: 0 <= i < |k| ==> slots[k[i]].nextSibling == KidAt(k, i + 1))
    && s.firstChild == KidAt(k, 0) && s.childCount == |k| && (!s.interm ==> k == [])
  }

  ghost predicate ParentAt(slots: Slots, l: Links, root: Ref, r: Ref) {
    r == root || (r in l.parent && l.parent[r] in slots && l.parent[r] in l.kids && r in l.kids[l.parent[r]])
  }

  /** Every slot but the root is in its parent's chain. */
  ghost predicate Chained(slots: Slots, l: Links, root: Ref) {
    && l.kids.Keys == slots.Keys && l.parent.Keys == slots.Keys && 0 !in slots && root in slots
    && (forall r {:trigger ChainAt(slots, l, root, r)} :: r in slots ==> ChainAt(slots, l, root, r))
    && (forall r {:trigger ParentAt(slots, l, root, r)} :: r in slots ==> ParentAt(slots, l, root, r))
  }

  lemma KidIs(slots: Slots, l: Links, root: Ref, p: Ref, i: nat)
    requires Chained(slots, l, root) && p in slots && i < |l.kids[p]|
    ensures var k := l.kids[p][i];
      k in slots && l.parent[k] == p && k != root && k != p && k != 0 && slots[k].nextSibling == KidAt(l.kids[p], i + 1)
  {
    assert ChainAt(slots, l, root, p);
  }

  // ---------------------------------------------------------------------------
  // Appending a child

  /** The slots after c, with content s, is appended to p's chain. */
  ghost function Linked(slots: Slots, l: Links, root: Ref, p: Ref, c: Ref, s: Slot): (r: Slots)
    requires Chained(slots, l, root) && p in slots
  {
    var k := l.kids[p];
    if k == [] then slots[c := s][p := slots[p].(firstChild := c, childCount := slots[p].childCount + 1)]
    else
      KidIs(slots, l, root, p, |k| - 1);
      var last := k[|k|-1];
      slots[c := s][last := slots[last].(nextSibling := c)][p := slots[p].(childCount := slots[p].childCount + 1)]
  }

  function WithKid(l: Links, p: Ref, c: Ref): (r: Links)
    requires p in l.kids
  {
    Links(l.kids[p := l.kids[p] + [c]][c := []], l.parent[c := p])
  }

  /** s is a fresh, childless slot for c under p. */
  ghost predicate CanLink(slots: Slots, l: Links, root: Ref, p: Ref, c: Ref, s: Slot) {
    && Chained(slots, l, root) && p in slots && slots[p].interm && c !in slots && c != 0
    && s.firstChild == 0 && s.nextSibling == 0 && s.childCount == 0
  }

  /** A slot's content apart from its links. */
  function Content(s: Slot): (r: Slot) {
    s.(firstChild := 0, nextSibling := 0, childCount := 0)
  }

  /** What linking does to an old slot. */
  lemma LinkedSlot(slots: Slots, l: Links, root: Ref, p: Ref, c: Ref, s: Slot, r: Ref)
    requires CanLink(slots, l, root, p, c, s) && r in slots
    ensures var u := Linked(slots, l, root, p, c, s);
      && u.Keys == slots.Keys + {c} && u[c] == s
      && Content(u[r]) == Content(slots[r])
      && u[r].firstChild == (if r == p && l.kids[p] == [] then c else slots[r].firstChild)
      && u[r].childCount == (if r == p then slots[r].childCount + 1 else slots[r].childCount)
      && u[r].nextSibling == if l.kids[p] != [] && r == l.kids[p][|l.kids[p]|-1] then c else slots[r].nextSibling
  {
    if l.kids[p] != [] {
      KidIs(slots, l, root, p, |l.kids[p]| - 1);
    }
  }

  lemma LinkedNext(slots: Slots, l: Links, root: Ref, p: Ref, c: Ref, s: Slot, r: Ref, i: nat)
    requires CanLink(slots, l, root, p, c, s) && r in slots && i < |l.kids[r]|
    ensures var u := Linked(slots, l, root, p, c, s); var k := l.kids[r];
      k[i] in u && u[k[i]].nextSibling == if r == p && i == |k| - 1 then c else KidAt(k, i + 1)
  {
    hide Linked;
    KidIs(slots, l, root, r, i);
    LinkedSlot(slots, l, root, p, c, s, l.kids[r][i]);
    if l.kids[p] != [] {
      KidIs(slots, l, root, p, |l.kids[p]| - 1);
    }
    assert ChainAt(slots, l, root, r);
  }

  lemma LinkedAt(slots: Slots, l: Links, root: Ref, p: Ref, c: Ref, s: Slot, r: Ref)
    requires CanLink(slots, l, root, p, c, s) && (r in slots || r == c)
    ensures var u := Linked(slots, l, root, p, c, s);
      u.Keys == slots.Keys + {c} && ChainAt(u, WithKid(l, p, c), root, r)
  {
    hide Linked;
    var u := Linked(slots, l, root, p, c, s);
    LinkedSlot(slots, l, root, p, c, s, p);
    if r != c {
      LinkedSlot(slots, l, root, p, c, s, r);
      assert ChainAt(slots, l, root, r);
      var k := l.kids[r];
      forall i | 0 <= i < |k| ensures u[k[i]].nextSibling == if r == p && i == |k| - 1 then c else KidAt(k, i + 1) {
        LinkedNext(slots, l, root, p, c, s, r, i);
      }
    }
  }

  lemma LinkedChained(slots: Slots, l: Links, root: Ref, p: Ref, c: Ref, s: Slot)
    requires CanLink(slots, l, root, p, c, s)
    ensures Chained(Linked(slots, l, root, p, c, s), WithKid(l, p, c), root)
  {
    hide ChainAt, Linked;
    var u, m := Linked(slots, l, root, p, c, s), WithKid(l, p, c);
    LinkedSlot(slots, l, root, p, c, s, p);
    forall r | r in u ensures ChainAt(u, m, root, r) {
      LinkedAt(slots, l, root, p, c, s, r);
    }
    forall r | r in u ensures ParentAt(u, m, root, r) {
      if r == c {
        assert (l.kids[p] + [c])[|l.kids[p]|] == c;
      } else {
        assert ParentAt(slots, l, root, r);
      }
    }
  }

  // ---------------------------------------------------------------------------
  // Removing a childless child

  /** The slots after the i-th child of p is unlinked and freed. */
  ghost function Unlinked(slots: Slots, l: Links, root: Ref, p: Ref, i: nat): (r: Slots)
    requires Chained(slots, l, root) && p in slots && i < |l.kids[p]|
  {
    var k := l.kids[p];
    KidIs(slots, l, root, p, i);
    var next := slots[k[i]].nextSibling;
    if i == 0 then slots[p := slots[p].(firstChild := next, childCount := slots[p].childCount - 1)] - {k[0]}
    else
      KidIs(slots, l, root, p, i - 1);
      var prev, parent := slots[k[i-1]].(nextSibling := next), slots[p].(childCount := slots[p].childCount - 1);
      slots[k[i-1] := prev][p := parent] - {k[i]}
  }

  function Without(k: seq<Ref>, i: nat): (r: seq<Ref>)
    requires i < |k|
  {
    k[..i] + k[i+1..]
  }

  function WithoutKid(l: Links, p: Ref, i: nat): (r: Links)
    requires p in l.kids && i < |l.kids[p]|
  {
    Links(l.kids[p := Without(l.kids[p], i)] - {l.kids[p][i]}, l.parent - {l.kids[p][i]})
  }

  ghost predicate CanUnlink(slots: Slots, l: Links, root: Ref, p: Ref, i: nat) {
    && Chained(slots, l, root) && p in slots && i < |l.kids[p]| && l.kids[p][i] in l.kids && l.kids[l.kids[p][i]] == []
  }

  lemma UnlinkedSlot(slots: Slots, l: Links, root: Ref, p: Ref, i: nat, r: Ref)
    requires CanUnlink(slots, l, root, p, i) && r in slots && r != l.kids[p][i]
    ensures var u := Unlinked(slots, l, root, p, i); var k := l.kids[p];
      && u.Keys == slots.Keys - {k[i]} && p in u && p != k[i]
      && Content(u[r]) == Content(slots[r])
      && u[r].firstChild == (if r == p && i == 0 then KidAt(k, 1) else slots[r].firstChild)
      && u[r].childCount == (if r == p then slots[r].childCount - 1 else slots[r].childCount)
      && u[r].nextSibling == if i > 0 && r == k[i-1] then KidAt(k, i + 1) else slots[r].nextSibling
  {
    KidIs(slots, l, root, p, i);
    if i > 0 {
      KidIs(slots, l, root, p, i - 1);
      assert ChainAt(slots, l, root, p);
    }
  }

  /** A slot is a child of one parent at one place. */
  lemma KidOnce(slots: Slots, l: Links, root: Ref, p: Ref, i: nat, r: Ref, j: nat)
    requires Chained(slots, l, root) && p in slots && i < |l.kids[p]| && r in slots && j < |l.kids[r]|
    ensures l.kids[p][i] == l.kids[r][j] <==> p == r && i == j
  {
    KidIs(slots, l, root, p, i);
    KidIs(slots, l, root, r, j);
    assert ChainAt(slots, l, root, p);
  }

  lemma UnlinkedNext(slots: Slots, l: Links, root: Ref, p: Ref, i: nat, r: Ref, j: nat)
    requires CanUnlink(slots, l, root, p, i) && r in slots && r != l.kids[p][i] && j < |l.kids[r]|
    requires !(r == p && j == i)
    ensures var u := Unlinked(slots, l, root, p, i); var k := l.kids[r];
      && k[j] in slots && k[j] != l.kids[p][i] && k[j] in u && l.parent[k[j]] == r && k[j] != root && k[j] != r
      && u[k[j]].nextSibling == if r == p && j + 1 == i then KidAt(k, i + 1) else KidAt(k, j + 1)
  {
    hide Unlinked;
    KidIs(slots, l, root, r, j);
    KidOnce(slots, l, root, p, i, r, j);
    UnlinkedSlot(slots, l, root, p, i, l.kids[r][j]);
    if i > 0 {
      KidOnce(slots, l, root, p, i - 1, r, j);
    }
  }

  lemma UnlinkedAt(slots: Slots, l: Links, root: Ref, p: Ref, i: nat, r: Ref)
    requires CanUnlink(slots, l, root, p, i) && r in slots && r != l.kids[p][i]
    ensures var u := Unlinked(slots, l, root, p, i);
      u.Keys == slots.Keys - {l.kids[p][i]} && ChainAt(u, WithoutKid(l, p, i), root, r)
  {
    hide Unlinked;
    var u, m := Unlinked(slots, l, root, p, i), WithoutKid(l, p, i);
    UnlinkedSlot(slots, l, root, p, i, r);
    assert ChainAt(slots, l, root, r);
    var k := l.kids[r];
    if r != p {
      forall j | 0 <= j < |k| ensures k[j] in u && k[j] in m.parent && u[k[j]].nextSibling == KidAt(k, j + 1) {
        UnlinkedNext(slots, l, root, p, i, r, j);
      }
    } else {
      UnlinkedParent(slots, l, root, p, i);
    }
  }

  lemma UnlinkedParent(slots: Slots, l: Links, root: Ref, p: Ref, i: nat)
    requires CanUnlink(slots, l, root, p, i)
    ensures var u := Unlinked(slots, l, root, p, i);
      u.Keys == slots.Keys - {l.kids[p][i]} && p in u && p != l.kids[p][i] && ChainAt(u, WithoutKid(l, p, i), root, p)
  {
    hide Unlinked;
    KidIs(slots, l, root, p, i);
    var u, m := Unlinked(slots, l, root, p, i), WithoutKid(l, p, i);
    UnlinkedSlot(slots, l, root, p, i, p);
    assert ChainAt(slots, l, root, p);
    var w := m.kids[p];
    forall j | 0 <= j < |w|
      ensures w[j] in u && w[j] in m.parent && m.parent[w[j]] == p && w[j] != root && w[j] != p
      ensures u[w[j]].nextSibling == KidAt(w, j + 1)
    {
      UnlinkedKid(slots, l, root, p, i, j);
    }
  }

  lemma UnlinkedKid(slots: Slots, l: Links, root: Ref, p: Ref, i: nat, j: nat)
    requires CanUnlink(slots, l, root, p, i) && j < |l.kids[p]| - 1
    ensures var u, m := Unlinked(slots, l, root, p, i), WithoutKid(l, p, i);
      var w := m.kids[p];
      && |w| == |l.kids[p]| - 1 && w[j] in u && w[j] in m.parent && m.parent[w[j]] == p && w[j] != root && w[j] != p
      && u[w[j]].nextSibling == KidAt(w, j + 1)
  {
    hide Unlinked;
    KidIs(slots, l, root, p, i);
    UnlinkedSlot(slots, l, root, p, i, p);
    var k, w := l.kids[p], WithoutKid(l, p, i).kids[p];
    var t := if j < i then j else j + 1;
    assert w[j] == k[t];
    KidIs(slots, l, root, p, t);
    UnlinkedNext(slots, l, root, p, i, p, t);
  }

  lemma UnlinkedChained(slots: Slots, l: Links, root: Ref, p: Ref, i: nat)
    requires CanUnlink(slots, l, root, p, i)
    ensures Chained(Unlinked(slots, l, root, p, i), WithoutKid(l, p, i), root)
  {
    hide ChainAt, Unlinked;
    KidIs(slots, l, root, p, i);
    var u, m := Unlinked(slots, l, root, p, i), WithoutKid(l, p, i);
    UnlinkedSlot(slots, l, root, p, i, p);
    forall r | r in u ensures ChainAt(u, m, root, r) {
      UnlinkedAt(slots, l, root, p, i, r);
    }
    forall r | r in u ensures ParentAt(u, m, root, r) {
      UnlinkedParentAt(slots, l, root, p, i, r);
    }
  }

  lemma UnlinkedParentAt(slots: Slots, l: Links, root: Ref, p: Ref, i: nat, r: Ref)
    requires CanUnlink(slots, l, root, p, i) && r in slots && r != l.kids[p][i]
    ensures var u := Unlinked(slots, l, root, p, i);
      u.Keys == slots.Keys - {l.kids[p][i]} && ParentAt(u, WithoutKid(l, p, i), root, r)
  {
    hide Unlinked;
    UnlinkedSlot(slots, l, root, p, i, r);
    assert ParentAt(slots, l, root, r);
    if r != root {
      var q := l.parent[r];
      var j :| 0 <= j < |l.kids[q]| && l.kids[q][j] == r;
      assert q != l.kids[p][i];
      if q == p {
        var w := Without(l.kids[p], i);
        assert w[if j < i then j else j - 1] == r;
      }
    }
  }
}
