/** Byte paths of a directory trie and the directory it stands for. */
module TriePaths {
  import opened Sets
  import opened Bytes
  import opened TrieTree
  import opened Options

  /** The links, each slot's byte path, and the slot each path names. */
  datatype Shape = Shape(l: Links, path: map<Ref, Name>, at: map<Name, Ref>)

  /** r's path extends its parent's by r's byte and names no other slot. */
  ghost predicate PathAt(slots: Slots, g: Shape, root: Ref, r: Ref) {
    && r in slots && r in g.path && g.path[r] in g.at && g.at[g.path[r]] == r && |g.path[r]| <= MAX_NAME
    && if r == root then g.path[r] == []
       else r in g.l.parent && g.l.parent[r] in g.path && g.path[r] == g.path[g.l.parent[r]] + [slots[r].byteVal]
  }

  predicate NameAt(slots: Slots, g: Shape, n: Name) {
    n in g.at && g.at[n] in slots && g.at[n] in g.path && g.path[g.at[n]] == n
  }

  ghost predicate Paths(slots: Slots, g: Shape, root: Ref) {
    && g.path.Keys == slots.Keys
    && (forall r {:trigger PathAt(slots, g, root, r)} :: r in slots ==> PathAt(slots, g, root, r))
    && (forall n {:trigger NameAt(slots, g, n)} :: n in g.at ==> NameAt(slots, g, n))
  }

  /** A leaf's stored name is its byte path. */
  ghost predicate NamedAt(slots: Slots, g: Shape, r: Ref) {
    r in slots && r in g.path && (IsLeaf(slots[r]) ==> slots[r].name == g.path[r])
  }

  ghost predicate Named(slots: Slots, g: Shape) {
    forall r {:trigger NamedAt(slots, g, r)} :: r in slots ==> NamedAt(slots, g, r)
  }

  /** The slots form a tree of byte paths whose root is an intermediate node. */
  ghost predicate Tree(slots: Slots, root: Ref, g: Shape) {
    && Chained(slots, g.l, root) && Paths(slots, g, root)
    && slots[root].interm && !slots[root].leaf
  }

  ghost predicate Trie(slots: Slots, root: Ref, g: Shape) {
    Tree(slots, root, g) && Named(slots, g)
  }

  /** What the slots hold under a name. */
  function EntryOf(slots: Slots, g: Shape, n: Name): (e: Option<Entry>) {
    if n in g.at && g.at[n] in slots &&
      IsLeaf(slots[g.at[n]]) then Some(Entry(slots[g.at[n]].inode, slots[g.at[n]].ftype)) else None
  }

  /** The directory: each leaf's path with its inode and type. */
  ghost function Dir(slots: Slots, g: Shape): (d: map<Name, Entry>) {
    map n | n in g.at && EntryOf(slots, g, n).Some? :: EntryOf(slots, g, n).value
  }

  function Put(d: map<Name, Entry>, n: Name, e: Option<Entry>): (r: map<Name, Entry>) {
    if e.Some? then d[n := e.value] else d - {n}
  }

  /** A step that changes what is held under one name changes the directory there only. */
  lemma DirUpdate(slots: Slots, g: Shape, u: Slots, h: Shape, n: Name)
    requires forall m :: m != n ==> EntryOf(u, h, m) == EntryOf(slots, g, m)
    ensures Dir(u, h) == Put(Dir(slots, g), n, EntryOf(u, h, n))
  {
    var d, e := Dir(u, h), Put(Dir(slots, g), n, EntryOf(u, h, n));
    forall m ensures (m in d <==> m in e) && (m in d ==> d[m] == e[m]) {
      assert m in d <==> EntryOf(u, h, m).Some?;
      assert m in Dir(slots, g) <==> EntryOf(slots, g, m).Some?;
    }
  }

  // ---------------------------------------------------------------------------
  // Children by byte

  lemma Snoc(n: Name, b: Byte)
    ensures |n + [b]| == |n| + 1 && (n + [b])[..|n|] == n && (n + [b])[|n|] == b && n + [b] != []
  {
  }

  lemma SameEnd(n: Name, b: Byte, m: Name, c: Byte)
    requires n + [b] == m + [c]
    ensures n == m && b == c
  {
    Snoc(n, b);
    Snoc(m, c);
  }

  /** A child's path. */
  lemma KidPath(slots: Slots, root: Ref, g: Shape, p: Ref, i: nat)
    requires Tree(slots, root, g) && p in slots && i < |g.l.kids[p]|
    ensures var k := g.l.kids[p][i];
      k in slots && k in g.path && p in g.path && g.path[k] == g.path[p] + [slots[k].byteVal] &&
        NameAt(slots, g, g.path[k]) && g.at[g.path[k]] == k
  {
    KidIs(slots, g.l, root, p, i);
    assert PathAt(slots, g, root, g.l.kids[p][i]) && PathAt(slots, g, root, p);
    assert NameAt(slots, g, g.path[g.l.kids[p][i]]);
  }

  /** The child of p with byte b, if any, is the slot its extended path names. */
  lemma KidNamed(slots: Slots, root: Ref, g: Shape, p: Ref, b: Byte) returns (i: nat)
    requires Tree(slots, root, g) && p in slots && g.path[p] + [b] in g.at
    ensures i < |g.l.kids[p]| && g.l.kids[p][i] == g.at[g.path[p] + [b]] && g.at[g.path[p] + [b]] in slots
    ensures slots[g.at[g.path[p] + [b]]].byteVal == b
  {
    var n := g.path[p] + [b];
    assert NameAt(slots, g, n);
    var k := g.at[n];
    Snoc(g.path[p], b);
    assert PathAt(slots, g, root, k) && ParentAt(slots, g.l, root, k) && PathAt(slots, g, root, p);
    var q := g.l.parent[k];
    SameEnd(g.path[p], b, g.path[q], slots[k].byteVal);
    assert PathAt(slots, g, root, q);
    i :| 0 <= i < |g.l.kids[q]| && g.l.kids[q][i] == k;
  }

  /** Siblings have different bytes. */
  lemma KidsDiffer(slots: Slots, root: Ref, g: Shape, p: Ref, i: nat, j: nat)
    requires Tree(slots, root, g) && p in slots && i < |g.l.kids[p]| && j < |g.l.kids[p]|
    ensures g.l.kids[p][i] in slots && g.l.kids[p][j] in slots
    ensures slots[g.l.kids[p][i]].byteVal == slots[g.l.kids[p][j]].byteVal ==> i == j
  {
    KidPath(slots, root, g, p, i);
    KidPath(slots, root, g, p, j);
    KidOnce(slots, g.l, root, p, i, p, j);
  }

  // ---------------------------------------------------------------------------
  // At most 256 children

  function Upto(n: nat): (s: set<int>)
    ensures |s| == n && forall b :: b in s <==> 0 <= b < n
  {
    if n == 0 then {} else Upto(n - 1) + {n - 1}
  }

  predicate DistinctBytes(o: seq<Byte>) {
    forall i, j :: 0 <= i < j < |o| ==> o[i] != o[j]
  }

  lemma {:induction false} ByteCount(o: seq<Byte>) returns (s: set<int>)
    requires DistinctBytes(o)
    ensures |s| == |o| && (forall b :: b in s <==> b in o)
  {
    if o == [] {
      s := {};
    } else {
      var m := |o| - 1;
      var t := ByteCount(o[..m]);
      s := t + {o[m]};
      assert o == o[..m] + [o[m]];
      assert o[m] !in o[..m];
    }
  }

  /** So no sibling walk of a tree reaches the cap. */
  lemma FewKids(slots: Slots, root: Ref, g: Shape, p: Ref)
    requires Tree(slots, root, g) && p in slots
    ensures |g.l.kids[p]| <= 256 < SIBLING_MAX
  {
    var k := g.l.kids[p];
    forall i | 0 <= i < |k| ensures k[i] in slots {
      KidIs(slots, g.l, root, p, i);
    }
    var o: seq<Byte> := seq(|k|, i requires 0 <= i < |k| => slots[k[i]].byteVal);
    forall i, j | 0 <= i < j < |o| ensures o[i] != o[j] {
      KidsDiffer(slots, root, g, p, i, j);
    }
    var s := ByteCount(o);
    assert s <= Upto(256);
    SubsetSize(s, Upto(256));
  }

  // ---------------------------------------------------------------------------
  // A new child

  function WithPath(g: Shape, p: Ref, c: Ref, b: Byte): (r: Shape)
    requires p in g.l.kids && p in g.path
  {
    Shape(WithKid(g.l, p, c), g.path[c := g.path[p] + [b]], g.at[g.path[p] + [b] := c])
  }

  ghost predicate CanAdd(slots: Slots, root: Ref, g: Shape, p: Ref, c: Ref, s: Slot) {
    && Tree(slots, root, g) && CanLink(slots, g.l, root, p, c, s)
    && g.path[p] + [s.byteVal] !in g.at && |g.path[p]| < MAX_NAME
  }

  lemma AddPaths(slots: Slots, root: Ref, g: Shape, p: Ref, c: Ref, s: Slot)
    requires CanAdd(slots, root, g, p, c, s)
    ensures Paths(Linked(slots, g.l, root, p, c, s), WithPath(g, p, c, s.byteVal), root)
  {
    hide Linked, ChainAt, ParentAt;
    var u, h := Linked(slots, g.l, root, p, c, s), WithPath(g, p, c, s.byteVal);
    LinkedSlot(slots, g.l, root, p, c, s, p);
    assert PathAt(slots, g, root, p);
    Snoc(g.path[p], s.byteVal);
    forall r | r in u ensures PathAt(u, h, root, r) {
      if r != c {
        AddPathAt(slots, root, g, p, c, s, r);
      }
    }
    forall n | n in h.at ensures NameAt(u, h, n) {
      if n != g.path[p] + [s.byteVal] {
        assert NameAt(slots, g, n);
      }
    }
  }

  lemma AddPathAt(slots: Slots, root: Ref, g: Shape, p: Ref, c: Ref, s: Slot, r: Ref)
    requires CanAdd(slots, root, g, p, c, s) && r in slots
    ensures PathAt(Linked(slots, g.l, root, p, c, s), WithPath(g, p, c, s.byteVal), root, r)
  {
    hide Linked, ChainAt;
    LinkedSlot(slots, g.l, root, p, c, s, r);
    assert PathAt(slots, g, root, r) && ParentAt(slots, g.l, root, r);
    var u := Linked(slots, g.l, root, p, c, s);
    assert u[r].byteVal == Content(u[r]).byteVal == slots[r].byteVal;
  }

  /** A linked slot keeps the tree; the directory gains exactly the new slot's entry, if it is a leaf. */
  lemma AddTree(slots: Slots, root: Ref, g: Shape, p: Ref, c: Ref, s: Slot)
    requires CanAdd(slots, root, g, p, c, s)
    ensures Tree(Linked(slots, g.l, root, p, c, s), root, WithPath(g, p, c, s.byteVal))
  {
    hide Linked, ChainAt, ParentAt, PathAt;
    LinkedChained(slots, g.l, root, p, c, s);
    AddPaths(slots, root, g, p, c, s);
    LinkedSlot(slots, g.l, root, p, c, s, root);
    var u := Linked(slots, g.l, root, p, c, s);
    assert u[root].interm == Content(u[root]).interm && u[root].leaf == Content(u[root]).leaf;
  }

  lemma AddEntry(slots: Slots, root: Ref, g: Shape, p: Ref, c: Ref, s: Slot, n: Name)
    requires CanAdd(slots, root, g, p, c, s)
    ensures var u, h := Linked(slots, g.l, root, p, c, s), WithPath(g, p, c, s.byteVal);
      EntryOf(u, h, n) == if n == g.path[p] + [s.byteVal] then (if IsLeaf(s) then Some(Entry(s.inode, s.ftype))
        else None) else EntryOf(slots, g, n)
  {
    hide Linked, ChainAt, ParentAt, PathAt;
    LinkedSlot(slots, g.l, root, p, c, s, p);
    if n in g.at {
      assert NameAt(slots, g, n);
      LinkedSlot(slots, g.l, root, p, c, s, g.at[n]);
      SameContent(Linked(slots, g.l, root, p, c, s)[g.at[n]], slots[g.at[n]]);
    }
  }

  lemma AddDir(slots: Slots, root: Ref, g: Shape, p: Ref, c: Ref, s: Slot)
    requires CanAdd(slots, root, g, p, c, s)
    ensures var u, h := Linked(slots, g.l, root, p, c, s),
      WithPath(g, p, c, s.byteVal); var n := g.path[p] + [s.byteVal];
      Dir(u, h) == if IsLeaf(s) then Dir(slots, g)[n := Entry(s.inode, s.ftype)] else Dir(slots, g)
  {
    hide Linked, ChainAt, ParentAt, PathAt, NameAt, WithPath;
    var u, h := Linked(slots, g.l, root, p, c, s), WithPath(g, p, c, s.byteVal);
    var n := g.path[p] + [s.byteVal];
    forall m
      ensures EntryOf(u, h, m) == if m == n then (if IsLeaf(s) then Some(Entry(s.inode, s.ftype)) else None)
        else EntryOf(slots, g, m)
    {
      AddEntry(slots, root, g, p, c, s, m);
    }
    DirUpdate(slots, g, u, h, n);
    NoEntry(slots, root, g, p, c, s);
  }

  lemma NoEntry(slots: Slots, root: Ref, g: Shape, p: Ref, c: Ref, s: Slot)
    requires CanAdd(slots, root, g, p, c, s)
    ensures g.path[p] + [s.byteVal] !in Dir(slots, g)
  {
  }

  lemma SameContent(s: Slot, t: Slot)
    requires Content(s) == Content(t)
    ensures IsLeaf(s) == IsLeaf(t) && s.inode == t.inode && s.ftype == t.ftype && s.name == t.name
    ensures s.byteVal == t.byteVal && s.interm == t.interm && s.leaf == t.leaf
  {
    assert Content(s).inode == s.inode && Content(t).inode == t.inode;
    assert Content(s).ftype == s.ftype && Content(s).name == s.name && Content(s).byteVal == s.byteVal &&
      Content(s).interm == s.interm && Content(s).leaf == s.leaf;
  }

  lemma AddNamed(slots: Slots, root: Ref, g: Shape, p: Ref, c: Ref, s: Slot)
    requires CanAdd(slots, root, g, p, c, s) && Named(slots, g) && (IsLeaf(s) ==> s.name == g.path[p] + [s.byteVal])
    ensures Named(Linked(slots, g.l, root, p, c, s), WithPath(g, p, c, s.byteVal))
  {
    hide Linked, ChainAt, ParentAt, PathAt;
    var u, h := Linked(slots, g.l, root, p, c, s), WithPath(g, p, c, s.byteVal);
    LinkedSlot(slots, g.l, root, p, c, s, p);
    forall r | r in u ensures NamedAt(u, h, r) {
      if r != c {
        assert NamedAt(slots, g, r);
        LinkedSlot(slots, g.l, root, p, c, s, r);
        SameContent(u[r], slots[r]);
      }
    }
  }

  // ---------------------------------------------------------------------------
  // A removed child

  ghost function WithoutPath(g: Shape, p: Ref, i: nat): (r: Shape)
    requires p in g.l.kids && i < |g.l.kids[p]| && g.l.kids[p][i] in g.path
  {
    var c := g.l.kids[p][i];
    Shape(WithoutKid(g.l, p, i), g.path - {c}, g.at - {g.path[c]})
  }

  ghost predicate CanDrop(slots: Slots, root: Ref, g: Shape, p: Ref, i: nat) {
    Tree(slots, root, g) && CanUnlink(slots, g.l, root, p, i)
  }

  lemma DropPathAt(slots: Slots, root: Ref, g: Shape, p: Ref, i: nat, r: Ref)
    requires CanDrop(slots, root, g, p, i) && r in slots && r != g.l.kids[p][i]
    ensures g.l.kids[p][i] in g.path && PathAt(Unlinked(slots, g.l, root, p, i), WithoutPath(g, p, i), root, r)
  {
    hide Unlinked, ChainAt;
    var c := g.l.kids[p][i];
    UnlinkedSlot(slots, g.l, root, p, i, r);
    SameContent(Unlinked(slots, g.l, root, p, i)[r], slots[r]);
    KidPath(slots, root, g, p, i);
    assert PathAt(slots, g, root, r) && PathAt(slots, g, root, c) && ParentAt(slots, g.l, root, r);
  }

  lemma DropPaths(slots: Slots, root: Ref, g: Shape, p: Ref, i: nat)
    requires CanDrop(slots, root, g, p, i)
    ensures g.l.kids[p][i] in g.path && Paths(Unlinked(slots, g.l, root, p, i), WithoutPath(g, p, i), root)
  {
    hide Unlinked, ChainAt, ParentAt, PathAt;
    KidIs(slots, g.l, root, p, i);
    UnlinkedSlot(slots, g.l, root, p, i, p);
    var c := g.l.kids[p][i];
    var u, h := Unlinked(slots, g.l, root, p, i), WithoutPath(g, p, i);
    forall r | r in u ensures PathAt(u, h, root, r) {
      DropPathAt(slots, root, g, p, i, r);
    }
    forall n | n in h.at ensures NameAt(u, h, n) {
      assert NameAt(slots, g, n);
    }
  }

  lemma DropTree(slots: Slots, root: Ref, g: Shape, p: Ref, i: nat)
    requires CanDrop(slots, root, g, p, i)
    ensures g.l.kids[p][i] in g.path && Tree(Unlinked(slots, g.l, root, p, i), root, WithoutPath(g, p, i))
  {
    hide Unlinked, ChainAt, ParentAt, PathAt, NameAt;
    KidIs(slots, g.l, root, p, i);
    UnlinkedChained(slots, g.l, root, p, i);
    DropPaths(slots, root, g, p, i);
    UnlinkedSlot(slots, g.l, root, p, i, root);
    SameContent(Unlinked(slots, g.l, root, p, i)[root], slots[root]);
  }

  lemma DropEntry(slots: Slots, root: Ref, g: Shape, p: Ref, i: nat, n: Name)
    requires CanDrop(slots, root, g, p, i)
    ensures g.l.kids[p][i] in g.path
    ensures EntryOf(Unlinked(slots, g.l, root, p, i), WithoutPath(g, p, i), n) == if n == g.path[g.l.kids[p][i]] then
      None else EntryOf(slots, g, n)
  {
    hide Unlinked, ChainAt, ParentAt;
    KidIs(slots, g.l, root, p, i);
    var c := g.l.kids[p][i];
    assert PathAt(slots, g, root, c);
    if n in g.at && n != g.path[c] {
      assert NameAt(slots, g, n);
      UnlinkedSlot(slots, g.l, root, p, i, g.at[n]);
      SameContent(Unlinked(slots, g.l, root, p, i)[g.at[n]], slots[g.at[n]]);
    }
  }

  lemma DropDir(slots: Slots, root: Ref, g: Shape, p: Ref, i: nat)
    requires CanDrop(slots, root, g, p, i)
    ensures g.l.kids[p][i] in g.path
    ensures Dir(Unlinked(slots, g.l, root, p, i), WithoutPath(g, p, i)) == Dir(slots, g) - {g.path[g.l.kids[p][i]]}
  {
    hide Unlinked, ChainAt, ParentAt, PathAt, NameAt, WithoutPath;
    KidIs(slots, g.l, root, p, i);
    var n := g.path[g.l.kids[p][i]];
    var u, h := Unlinked(slots, g.l, root, p, i), WithoutPath(g, p, i);
    forall m ensures EntryOf(u, h, m) == if m == n then None else EntryOf(slots, g, m) {
      DropEntry(slots, root, g, p, i, m);
    }
    DirUpdate(slots, g, u, h, n);
  }

  lemma DropNamed(slots: Slots, root: Ref, g: Shape, p: Ref, i: nat)
    requires CanDrop(slots, root, g, p, i) && Named(slots, g)
    ensures g.l.kids[p][i] in g.path && Named(Unlinked(slots, g.l, root, p, i), WithoutPath(g, p, i))
  {
    hide Unlinked, ChainAt, ParentAt, PathAt;
    KidIs(slots, g.l, root, p, i);
    UnlinkedSlot(slots, g.l, root, p, i, p);
    var u, h := Unlinked(slots, g.l, root, p, i), WithoutPath(g, p, i);
    forall r | r in u ensures NamedAt(u, h, r) {
      assert NamedAt(slots, g, r);
      UnlinkedSlot(slots, g.l, root, p, i, r);
      SameContent(u[r], slots[r]);
    }
  }

  // ---------------------------------------------------------------------------
  // A changed slot

  /** t differs from s in nothing the structure depends on. */
  predicate SameLinks(s: Slot, t: Slot) {
    s.firstChild == t.firstChild && s.nextSibling == t.nextSibling && s.childCount == t.childCount &&
      s.byteVal == t.byteVal
  }

  lemma SetChained(slots: Slots, l: Links, root: Ref, r: Ref, t: Slot)
    requires Chained(slots, l, root) && r in slots && SameLinks(slots[r], t) && (slots[r].interm ==> t.interm)
    ensures Chained(slots[r := t], l, root)
  {
    var u := slots[r := t];
    forall q | q in u ensures ChainAt(u, l, root, q) {
      assert ChainAt(slots, l, root, q);
    }
    forall q | q in u ensures ParentAt(u, l, root, q) {
      assert ParentAt(slots, l, root, q);
    }
  }

  lemma SetTree(slots: Slots, root: Ref, g: Shape, r: Ref, t: Slot)
    requires Tree(slots, root, g) && r in slots && r != root && SameLinks(slots[r], t) && (slots[r].interm ==> t.interm)
    ensures Tree(slots[r := t], root, g)
  {
    hide ChainAt, ParentAt;
    SetChained(slots, g.l, root, r, t);
    var u := slots[r := t];
    forall q | q in u ensures PathAt(u, g, root, q) {
      assert PathAt(slots, g, root, q);
    }
    forall n | n in g.at ensures NameAt(u, g, n) {
      assert NameAt(slots, g, n);
    }
  }

  lemma SetDir(slots: Slots, root: Ref, g: Shape, r: Ref, t: Slot)
    requires Tree(slots, root, g) && r in slots
    ensures r in g.path
    ensures Dir(slots[r := t], g) == Put(Dir(slots, g), g.path[r], if IsLeaf(t) then Some(Entry(t.inode, t.ftype))
      else None)
  {
    hide ChainAt, ParentAt;
    assert PathAt(slots, g, root, r);
    var u := slots[r := t];
    forall m | m != g.path[r] ensures EntryOf(u, g, m) == EntryOf(slots, g, m) {
      if m in g.at {
        assert NameAt(slots, g, m);
      }
    }
    DirUpdate(slots, g, u, g, g.path[r]);
  }

  lemma SetNamed(slots: Slots, root: Ref, g: Shape, r: Ref, t: Slot)
    requires Tree(slots, root, g) && Named(slots, g) && r in slots
    requires IsLeaf(t) ==> t.name == g.path[r]
    ensures Named(slots[r := t], g)
  {
    hide ChainAt, ParentAt, PathAt;
    forall q | q in slots ensures NamedAt(slots[r := t], g, q) {
      assert NamedAt(slots, g, q);
    }
  }

  /** What is held under the name of a slot. */
  lemma EntryAt(slots: Slots, root: Ref, g: Shape, r: Ref)
    requires Trie(slots, root, g) && r in slots
    ensures r in g.path && (g.path[r] in Dir(slots, g) <==> IsLeaf(slots[r]))
    ensures IsLeaf(slots[r]) ==>
      slots[r].name == g.path[r] && Dir(slots, g)[g.path[r]] == Entry(slots[r].inode, slots[r].ftype)
  {
    hide ChainAt, ParentAt;
    assert PathAt(slots, g, root, r) && NamedAt(slots, g, r);
  }

  lemma NoName(slots: Slots, g: Shape, n: Name)
    requires n !in g.at
    ensures n !in Dir(slots, g)
  {
  }
}
