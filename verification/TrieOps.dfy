/** Directory operations on the trie: lookup, insert, update and remove (fuse/trie.go,
    fuse/trie_mutate.go). */
module TrieOps {
  import opened Bytes
  import opened TriePaths
  import opened TrieTree
  import opened Options

  datatype Errno = Ok | EEXIST | ENOENT | ENOSPC | ENAMETOOLONG

  /** Without a root there are no slots. */
  ghost predicate Directory(slots: Slots, root: Ref, g: Shape) {
    if root == 0 then slots == map[] && g == Shape(Links(map[], map[]), map[], map[]) else Trie(slots, root, g)
  }

  /** References the page allocator may still hand out: not null, not in use, each once. */
  predicate Spare(grants: seq<Ref>, slots: Slots) {
    && (forall i :: 0 <= i < |grants| ==> grants[i] != 0 && grants[i] !in slots)
    && forall i, j :: 0 <= i < j < |grants| ==> grants[i] != grants[j]
  }

  // ---------------------------------------------------------------------------
  // Sibling chains

  /** trieScanSiblings: the child with the byte and its predecessor. The hop cap is never reached. */
  method ScanSiblings(slots: Slots, first: Ref, b: Byte, ghost root: Ref, ghost g: Shape, ghost p: Ref)
    returns (child: Ref, prev: Ref, ghost i: nat)
    requires Tree(slots, root, g) && p in slots && first == slots[p].firstChild
    ensures child == 0 <==> g.path[p] + [b] !in g.at
    ensures child != 0 ==> child == g.at[g.path[p] + [b]] && child in slots && child != root && child != p
    ensures child != 0 ==> i < |g.l.kids[p]| && g.l.kids[p][i] == child && prev == if i > 0 then g.l.kids[p][i-1] else 0
  {
    hide ChainAt, ParentAt, PathAt, NameAt;
    ghost var k := g.l.kids[p];
    FirstKid(slots, root, g, p);
    FewKids(slots, root, g, p);
    child, prev, i := first, 0, 0;
    var hops := 0;
    while child != 0
      invariant i <= |k| && child == KidAt(k, i) && prev == (if i > 0 then k[i-1] else 0) && hops == i
      invariant forall j :: 0 <= j < i ==> k[j] in slots && slots[k[j]].byteVal != b
      decreases |k| - i
    {
      assert hops < SIBLING_MAX;
      KidIs(slots, g.l, root, p, i);
      KidPath(slots, root, g, p, i);
      if slots[child].byteVal == b {
        return;
      }
      prev := child;
      child := slots[child].nextSibling;
      i := i + 1;
      hops := hops + 1;
    }
    KidNonZero(slots, root, g, p, i);
    if g.path[p] + [b] in g.at {
      var j := KidNamed(slots, root, g, p, b);
    }
  }

  lemma FirstKid(slots: Slots, root: Ref, g: Shape, p: Ref)
    requires Tree(slots, root, g) && p in slots
    ensures p in g.l.kids && slots[p].firstChild == KidAt(g.l.kids[p], 0)
    ensures slots[p].childCount == |g.l.kids[p]| && p in g.path && (!slots[p].interm ==> g.l.kids[p] == [])
  {
    assert ChainAt(slots, g.l, root, p);
  }

  lemma KidNonZero(slots: Slots, root: Ref, g: Shape, p: Ref, i: nat)
    requires Tree(slots, root, g) && p in slots && KidAt(g.l.kids[p], i) == 0 && i <= |g.l.kids[p]|
    ensures i == |g.l.kids[p]|
  {
    if i < |g.l.kids[p]| {
      KidIs(slots, g.l, root, p, i);
    }
  }

  /** trieCreateChild with the slot c the allocator gave: the child goes to the end of the chain. */
  method CreateChild(slots: Slots, p: Ref, c: Ref, s: Slot, ghost root: Ref, ghost g: Shape) returns (u: Slots)
    requires Tree(slots, root, g) && CanLink(slots, g.l, root, p, c, s)
    ensures u == Linked(slots, g.l, root, p, c, s)
  {
    hide ChainAt, ParentAt, PathAt, NameAt;
    FirstKid(slots, root, g, p);
    if slots[p].firstChild == 0 {
      KidNonZero(slots, root, g, p, 0);
      u := slots[c := s][p := slots[p].(firstChild := c, childCount := slots[p].childCount + 1)];
      return;
    }
    FewKids(slots, root, g, p);
    var last := slots[p].firstChild;
    ghost var i: nat := 0;
    var visited := 1;
    KidIs(slots, g.l, root, p, 0);
    while slots[last].nextSibling != 0
      invariant i < |g.l.kids[p]| && last == g.l.kids[p][i] && last in slots && visited == i + 1
      invariant slots[last].nextSibling == KidAt(g.l.kids[p], i + 1)
      decreases |g.l.kids[p]| - i
    {
      KidIs(slots, g.l, root, p, i + 1);
      last := slots[last].nextSibling;
      i := i + 1;
      visited := visited + 1;
      assert visited <= SIBLING_MAX;
    }
    KidNonZero(slots, root, g, p, i + 1);
    KidIs(slots, g.l, root, p, i);
    u := slots[c := s][last := slots[last].(nextSibling := c)][p := slots[p].(childCount := slots[p].childCount + 1)];
  }

  // ---------------------------------------------------------------------------
  // Lookup

  /** TrieLookup agrees with the directory. */
  method TrieLookup(slots: Slots, root: Ref, name: Name, ghost g: Shape) returns (e: Option<Entry>)
    requires Directory(slots, root, g)
    ensures e == if name in Dir(slots, g) then Some(Dir(slots, g)[name]) else None
  {
    hide ChainAt, ParentAt, PathAt, NameAt, NamedAt, Dir;
    if root == 0 {
      NoName(slots, g, name);
      return None;
    }
    RootPath(slots, root, g);
    var cur := root;
    var pos := 0;
    while pos < |name|
      invariant 0 <= pos <= |name| && (name != [] ==> pos < |name|)
      invariant cur in slots && cur in g.path && g.path[cur] == name[..pos]
    {
      assert name[..pos+1] == name[..pos] + [name[pos]];
      var child, prev, i := ScanSiblings(slots, slots[cur].firstChild, name[pos], root, g, cur);
      if child == 0 {
        NoLonger(slots, root, g, name, pos + 1);
        return None;
      }
      AtPath(slots, root, g, name[..pos+1]);
      EntryAt(slots, root, g, child);
      if pos == |name| - 1 {
        assert name[..pos+1] == name;
        if !IsLeaf(slots[child]) || slots[child].name != name {
          return None;
        }
        return Some(Entry(slots[child].inode, slots[child].ftype));
      }
      if !slots[child].interm {
        assert slots[child].name != name;
        PureLeaf(slots, root, g, child, name, pos + 1);
        return None;
      }
      cur := child;
      pos := pos + 1;
    }
    EntryAt(slots, root, g, root);
    return None;
  }

  lemma RootPath(slots: Slots, root: Ref, g: Shape)
    requires Tree(slots, root, g)
    ensures root in slots && root in g.path && g.path[root] == [] && root != 0
  {
    assert PathAt(slots, g, root, root);
  }

  lemma AtPath(slots: Slots, root: Ref, g: Shape, n: Name)
    requires Tree(slots, root, g) && n in g.at
    ensures g.at[n] in slots && g.at[n] in g.path && g.path[g.at[n]] == n
  {
    assert NameAt(slots, g, n);
  }

  /** A path with a missing prefix is missing. */
  lemma {:induction false} NoLonger(slots: Slots, root: Ref, g: Shape, name: Name, k: nat)
    requires Tree(slots, root, g) && 0 < k <= |name| && name[..k] !in g.at
    ensures name !in g.at && name !in Dir(slots, g)
    decreases |name| - k
  {
    if k == |name| {
      assert name[..k] == name;
    } else {
      if name[..k+1] in g.at {
        Prefix(slots, root, g, name[..k+1]);
        assert name[..k+1][..k] == name[..k];
      }
      NoLonger(slots, root, g, name, k + 1);
    }
  }

  /** Every path's parent path is a path. */
  lemma Prefix(slots: Slots, root: Ref, g: Shape, n: Name)
    requires Tree(slots, root, g) && n in g.at && n != []
    ensures n[..|n|-1] in g.at && g.at[n] in slots && g.at[n] != root && g.l.parent[g.at[n]] == g.at[n[..|n|-1]]
  {
    var r := g.at[n];
    assert NameAt(slots, g, n) && PathAt(slots, g, root, r) && ParentAt(slots, g.l, root, r);
    var p := g.l.parent[r];
    Snoc(g.path[p], slots[r].byteVal);
    assert PathAt(slots, g, root, p);
  }

  /** Nothing lies below a pure leaf. */
  lemma PureLeaf(slots: Slots, root: Ref, g: Shape, r: Ref, name: Name, k: nat)
    requires Tree(slots, root, g) && r in slots && !slots[r].interm && k < |name| && g.path[r] == name[..k]
    ensures name !in g.at && name !in Dir(slots, g)
  {
    FirstKid(slots, root, g, r);
    assert name[..k+1] == name[..k] + [name[k]];
    if name[..k+1] in g.at {
      var i := KidNamed(slots, root, g, r, name[k]);
    }
    NoLonger(slots, root, g, name, k + 1);
  }

  // ---------------------------------------------------------------------------
  // No stubs

  /** An intermediate node with neither an entry nor a child. */
  predicate Stub(s: Slot) {
    s.interm && !s.leaf && s.childCount == 0
  }

  ghost predicate Lean(slots: Slots) {
    forall r :: r in slots ==> !Stub(slots[r])
  }

  /** r is a stub only if its path is one of name's first k bytes or less. */
  ghost predicate LeanAt(slots: Slots, g: Shape, name: Name, k: nat, r: Ref)
    requires r in slots
  {
    Stub(slots[r]) ==> r in g.path && |g.path[r]| <= k <= |name| && g.path[r] == name[..|g.path[r]|]
  }

  /** The only stubs lie along the first k bytes of name. */
  ghost predicate LeanBut(slots: Slots, g: Shape, name: Name, k: nat) {
    forall r :: r in slots ==> LeanAt(slots, g, name, k, r)
  }

  /** No slot became a stub. */
  ghost predicate NoNewStub(slots: Slots, u: Slots) {
    forall r :: r in slots && r in u && Stub(u[r]) ==> Stub(slots[r])
  }

  /** Every node on the way to a slot has a child. */
  lemma OnTheWay(slots: Slots, root: Ref, g: Shape, name: Name, r: Ref)
    requires Tree(slots, root, g) && name in g.at && r in slots && r in g.path
    requires |g.path[r]| < |name| && g.path[r] == name[..|g.path[r]|]
    ensures !Stub(slots[r])
  {
    hide ChainAt, ParentAt, PathAt, NameAt, Dir;
    var k := |g.path[r]|;
    assert name[..k+1] == name[..k] + [name[k]];
    if name[..k+1] !in g.at {
      NoLonger(slots, root, g, name, k + 1);
    } else {
      var i := KidNamed(slots, root, g, r, name[k]);
      FirstKid(slots, root, g, r);
    }
  }

  /** With a slot at name's k-th byte that is no stub, and stubs only up to there, there are none. */
  lemma LeanAll(slots: Slots, root: Ref, g: Shape, name: Name, k: nat, end: Ref)
    requires Tree(slots, root, g) && LeanBut(slots, g, name, k) && k <= |name|
    requires end in slots && end in g.path && g.path[end] == name[..k] && !Stub(slots[end])
    ensures Lean(slots)
  {
    hide ChainAt, ParentAt, NameAt;
    assert PathAt(slots, g, root, end);
    forall r | r in slots ensures !Stub(slots[r]) {
      assert LeanAt(slots, g, name, k, r) && PathAt(slots, g, root, r);
      if Stub(slots[r]) && |g.path[r]| < k {
        var m := |g.path[r]|;
        assert name[..k][..m] == name[..m];
        OnTheWay(slots, root, g, name[..k], r);
      }
    }
  }

  /** Below every node of a tree without stubs there is an entry. */
  lemma {:induction false} SomeEntry(slots: Slots, root: Ref, g: Shape, r: Ref) returns (n: Name)
    requires Trie(slots, root, g) && Lean(slots) && r in slots && r in g.path
    ensures n in Dir(slots, g)
    decreases MAX_NAME - |g.path[r]|
  {
    hide ChainAt, ParentAt, NamedAt;
    assert PathAt(slots, g, root, r);
    FirstKid(slots, root, g, r);
    if IsLeaf(slots[r]) {
      EntryAt(slots, root, g, r);
      n := g.path[r];
    } else {
      KidPath(slots, root, g, r, 0);
      assert PathAt(slots, g, root, g.l.kids[r][0]);
      n := SomeEntry(slots, root, g, g.l.kids[r][0]);
    }
  }

  /** A directory without stubs holds no slot once it holds no entry. */
  lemma NothingLeft(slots: Slots, root: Ref, g: Shape)
    requires Directory(slots, root, g) && Lean(slots)
    ensures Dir(slots, g) == map[] <==> slots == map[]
  {
    if root == 0 {
      EmptyDir(slots, g);
    } else {
      RootPath(slots, root, g);
      var n := SomeEntry(slots, root, g, root);
    }
  }

  // ---------------------------------------------------------------------------
  // Insert

  function Fresh(b: Byte, interm: bool, name: Name, ino: nat, ftype: nat): (s: Slot) {
    Slot(0, 0, b, interm, false, 0, name, ino, ftype)
  }

  /** A new child keeps the trie; the directory gains its entry if it is a leaf. */
  method AddChild(slots: Slots, p: Ref, c: Ref, s: Slot, ghost root: Ref, ghost g: Shape)
    returns (u: Slots, ghost h: Shape)
    requires Trie(slots, root, g) && CanAdd(slots, root, g, p, c, s)
    requires (IsLeaf(s) ==> s.name == g.path[p] + [s.byteVal])
    ensures Trie(u, root, h) && u.Keys == slots.Keys + {c} && c in h.path && h.path[c] == g.path[p] + [s.byteVal]
    ensures u[c] == s
    ensures Dir(u, h) == if IsLeaf(s) then Dir(slots, g)[g.path[p] + [s.byteVal] := Entry(s.inode, s.ftype)]
      else Dir(slots, g)
    ensures NoNewStub(slots, u) && forall r :: r in slots ==> r in g.path && r in h.path && h.path[r] == g.path[r]
  {
    hide ChainAt, ParentAt, PathAt, NameAt, NamedAt, Dir, Linked;
    AddNoStub(slots, root, g, p, c, s);
    AddTree(slots, root, g, p, c, s);
    AddNamed(slots, root, g, p, c, s);
    AddDir(slots, root, g, p, c, s);
    LinkedSlot(slots, g.l, root, p, c, s, p);
    u := CreateChild(slots, p, c, s, root, g);
    h := WithPath(g, p, c, s.byteVal);
  }

  lemma AddNoStub(slots: Slots, root: Ref, g: Shape, p: Ref, c: Ref, s: Slot)
    requires Tree(slots, root, g) && CanAdd(slots, root, g, p, c, s)
    ensures NoNewStub(slots, Linked(slots, g.l, root, p, c, s))
    ensures forall r :: r in slots ==>
      r in g.path && r in WithPath(g, p, c, s.byteVal).path && WithPath(g, p, c, s.byteVal).path[r] == g.path[r]
  {
    hide ChainAt, ParentAt, PathAt, NameAt, Linked;
    var u := Linked(slots, g.l, root, p, c, s);
    forall r | r in slots && r in u && Stub(u[r]) ensures Stub(slots[r]) {
      LinkedSlot(slots, g.l, root, p, c, s, r);
      FirstKid(slots, root, g, r);
    }
  }

  /** trieSplitLeaf on a pure leaf at path n. Its stored name is its path, so the old leaf is always a
      prefix of the new name and is promoted in place; the split that moves it under a new node is never
      reached. */
  method SplitLeaf(slots: Slots, child: Ref, n: Name, ghost root: Ref, ghost g: Shape) returns (u: Slots)
    requires Trie(slots, root, g) && child in slots && !slots[child].interm && g.path[child] == n
    ensures Trie(u, root, g) && u.Keys == slots.Keys && u[child].interm && Dir(u, g) == Dir(slots, g)
    ensures NoNewStub(slots, u)
  {
    hide ChainAt, ParentAt, PathAt, NameAt, NamedAt, Dir;
    EntryAt(slots, root, g, child);
    assert |slots[child].name| == |n|;
    var t := slots[child].(interm := true, leaf := true);
    SetTree(slots, root, g, child, t);
    SetNamed(slots, root, g, child, t);
    SetDir(slots, root, g, child, t);
    u := slots[child := t];
    SameMap(Dir(slots, g), n, Entry(t.inode, t.ftype));
  }

  lemma SameMap(d: map<Name, Entry>, n: Name, e: Entry)
    requires n in d && d[n] == e
    ensures d[n := e] == d
  {
  }

  /** A fresh root: an intermediate node with no children. */
  method CreateRoot(c: Ref) returns (u: Slots, ghost g: Shape)
    requires c != 0
    ensures Trie(u, c, g) && u.Keys == {c} && c in g.path && g.path[c] == [] && Dir(u, g) == map[]
  {
    u := map[c := Fresh(0, true, [], 0, 0)];
    g := Shape(Links(map[c := []], map[c := 0]), map[c := []], map[[] := c]);
    forall r | r in u
      ensures ChainAt(u, g.l, c, r) && ParentAt(u, g.l, c, r) && PathAt(u, g, c, r) && NamedAt(u, g, r)
    {
    }
    forall n | n in g.at ensures NameAt(u, g, n) {
    }
  }

  /** commitLeafNode on an existing node. */
  method CommitLeaf(slots: Slots, r: Ref, name: Name, ino: nat, ftype: nat, ghost root: Ref, ghost g: Shape)
    returns (u: Slots)
    requires Trie(slots, root, g) && r in slots && r != root && slots[r].interm && g.path[r] == name
    ensures Trie(u, root, g) && u.Keys == slots.Keys && Dir(u, g) == Dir(slots, g)[name := Entry(ino, ftype)]
    ensures u[r].leaf && NoNewStub(slots, u)
  {
    hide ChainAt, ParentAt, PathAt, NameAt, NamedAt, Dir;
    var t := slots[r].(leaf := true, name := name, inode := ino, ftype := ftype);
    SetTree(slots, root, g, r, t);
    SetNamed(slots, root, g, r, t);
    SetDir(slots, root, g, r, t);
    u := slots[r := t];
  }

  lemma SpareRest(grants: seq<Ref>, slots: Slots, u: Slots)
    requires grants != [] && Spare(grants, slots) && u.Keys == slots.Keys + {grants[0]}
    ensures Spare(grants[1..], u)
  {
  }

  lemma SpareSame(grants: seq<Ref>, slots: Slots, u: Slots)
    requires Spare(grants, slots) && u.Keys == slots.Keys
    ensures Spare(grants, u)
  {
  }

  /** The final byte of an insert: the parent node cur is at name without its last byte. */
  method InsertLast(slots: Slots, cur: Ref, name: Name, ino: nat, ftype: nat, grants: seq<Ref>, room: bool,
                    ghost root: Ref, ghost g: Shape)
    returns (u: Slots, err: Errno, ghost h: Shape)
    requires Trie(slots, root, g) && cur in slots && slots[cur].interm && 0 < |name| <= MAX_NAME
    requires g.path[cur] == name[..|name|-1]
    requires Spare(grants, slots)
    ensures Trie(u, root, h)
    ensures err == EEXIST <==> name in Dir(slots, g)
    ensures err == Ok || err == EEXIST || err == ENOSPC
    ensures err == Ok ==> Dir(u, h) == Dir(slots, g)[name := Entry(ino, ftype)]
    ensures err != Ok ==> Dir(u, h) == Dir(slots, g)
    ensures grants != [] && room ==> err != ENOSPC
    ensures LeanBut(slots, g, name, |name| - 1) && err != ENOSPC ==> Lean(u)
  {
    hide ChainAt, ParentAt, PathAt, NameAt, NamedAt, Dir, Lean, LeanBut, NoNewStub;
    var bval := name[|name|-1];
    assert name == name[..|name|-1] + [bval];
    var existing, prev, i := ScanSiblings(slots, slots[cur].firstChild, bval, root, g, cur);
    if existing != 0 {
      AtPath(slots, root, g, name);
      EntryAt(slots, root, g, existing);
      if slots[existing].interm {
        if slots[existing].leaf && slots[existing].name == name {
          LeafEnds(slots, root, g, name, existing);
          return slots, EEXIST, g;
        }
        if !room {
          return slots, ENOSPC, g;
        }
        u := CommitLeaf(slots, existing, name, ino, ftype, root, g);
        KeepsLean(slots, g, u, g, name, |name| - 1);
        LeafEnds(u, root, g, name, existing);
        return u, Ok, g;
      }
      assert slots[existing].name == name;
      LeafEnds(slots, root, g, name, existing);
      return slots, EEXIST, g;
    }
    NoName(slots, g, name);
    if grants == [] {
      return slots, ENOSPC, g;
    }
    AddReady(slots, root, g, cur, grants[0], Fresh(bval, false, name, ino, ftype));
    u, h := AddChild(slots, cur, grants[0], Fresh(bval, false, name, ino, ftype), root, g);
    KeepsLean(slots, g, u, h, name, |name| - 1);
    LeafEnds(u, root, h, name, grants[0]);
    return u, Ok, h;
  }

  /** New slots that are no stubs, and old ones that did not become any. */
  lemma KeepsLean(slots: Slots, g: Shape, u: Slots, h: Shape, name: Name, k: nat)
    requires NoNewStub(slots, u) && forall r :: r in slots ==> r in g.path && r in h.path && h.path[r] == g.path[r]
    requires forall r :: r in u && r !in slots ==> LeanAt(u, h, name, k, r)
    ensures LeanBut(slots, g, name, k) ==> LeanBut(u, h, name, k)
  {
    if LeanBut(slots, g, name, k) {
      forall r | r in u ensures LeanAt(u, h, name, k, r) {
        if r in slots {
          assert LeanAt(slots, g, name, k, r);
        }
      }
    }
  }

  /** An entry at name, and stubs only on the way to it: then there are none. */
  lemma LeafEnds(slots: Slots, root: Ref, g: Shape, name: Name, end: Ref)
    requires Tree(slots, root, g) && end in slots && end in g.path && g.path[end] == name && !Stub(slots[end])
    requires name != []
    ensures LeanBut(slots, g, name, |name| - 1) ==> Lean(slots)
  {
    if LeanBut(slots, g, name, |name| - 1) {
      forall r | r in slots ensures LeanAt(slots, g, name, |name|, r) {
        assert LeanAt(slots, g, name, |name| - 1, r);
      }
      assert name[..|name|] == name;
      LeanAll(slots, root, g, name, |name|, end);
    }
  }

  lemma AddReady(slots: Slots, root: Ref, g: Shape, p: Ref, c: Ref, s: Slot)
    requires Tree(slots, root, g) && p in slots && slots[p].interm && c !in slots && c != 0 && p in g.path
    requires s.firstChild == 0 && s.nextSibling == 0 && s.childCount == 0
    requires g.path[p] + [s.byteVal] !in g.at && |g.path[p]| < MAX_NAME
    ensures CanAdd(slots, root, g, p, c, s)
  {
  }

  /** trieFindOrCreateChild and the split: one byte of an insert's way down, ending on an intermediate node. */
  method StepDown(slots: Slots, cur: Ref, name: Name, pos: nat, left: seq<Ref>, ghost root: Ref, ghost g: Shape)
    returns (ok: bool, u: Slots, child: Ref, rest: seq<Ref>, ghost h: Shape)
    requires Trie(slots, root, g) && cur in slots && cur in g.path && slots[cur].interm && pos + 1 < |name| <= MAX_NAME
    requires g.path[cur] == name[..pos]
    requires Spare(left, slots)
    ensures Trie(u, root, h) && Dir(u, h) == Dir(slots, g)
    ensures (left != [] ==> ok) && (!ok ==> name !in Dir(slots, g))
    ensures ok ==> child in u && child in h.path && u[child].interm && h.path[child] == name[..pos+1]
    ensures ok ==> Spare(rest, u) && |rest| + 1 >= |left|
    ensures LeanBut(slots, g, name, |name| - 1) ==> LeanBut(u, h, name, |name| - 1)
  {
    hide ChainAt, ParentAt, PathAt, NameAt, NamedAt, Dir, LeanBut, NoNewStub;
    ok, u, rest, h := true, slots, left, g;
    var bval := name[pos];
    assert name[..pos+1] == name[..pos] + [bval];
    ghost var prev, i;
    child, prev, i := ScanSiblings(slots, slots[cur].firstChild, bval, root, g, cur);
    if child == 0 {
      NoLonger(slots, root, g, name, pos + 1);
      if left == [] {
        return false, u, child, rest, h;
      }
      child := left[0];
      AddReady(slots, root, g, cur, child, Fresh(bval, true, [], 0, 0));
      u, h := AddChild(slots, cur, child, Fresh(bval, true, [], 0, 0), root, g);
      SpareRest(left, slots, u);
      KeepsLean(slots, g, u, h, name, |name| - 1);
      rest := left[1..];
    } else {
      AtPath(slots, root, g, name[..pos+1]);
      if !slots[child].interm {
        u := SplitLeaf(slots, child, name[..pos+1], root, g);
        SpareSame(left, slots, u);
        KeepsLean(slots, g, u, g, name, |name| - 1);
      }
    }
  }

  /** TrieInsert. EEXIST exactly when the name is there; otherwise the entry is added, or the pages or
      name heaps are full and no entry changes. */
  method TrieInsert(slots: Slots, root: Ref, name: Name, ino: nat, ftype: nat, grants: seq<Ref>, room: bool,
                    ghost g: Shape)
    returns (u: Slots, top: Ref, err: Errno, ghost h: Shape)
    requires Directory(slots, root, g) && Spare(grants, slots)
    ensures Directory(u, top, h)
    ensures err == ENAMETOOLONG <==> |name| > MAX_NAME
    ensures err == EEXIST <==> |name| <= MAX_NAME && name in Dir(slots, g)
    ensures err == Ok && name != [] ==> Dir(u, h) == Dir(slots, g)[name := Entry(ino, ftype)]
    ensures err != Ok || name == [] ==> Dir(u, h) == Dir(slots, g)
    ensures err != ENOENT && (|grants| > |name| && room ==> err != ENOSPC)
    ensures Lean(slots) && err != ENOSPC && name != [] ==> Lean(u)
  {
    hide ChainAt, ParentAt, PathAt, NameAt, NamedAt, Dir, Lean, LeanBut, NoNewStub;
    u, top, h := slots, root, g;
    if |name| > MAX_NAME {
      return u, top, ENAMETOOLONG, h;
    }
    var left := grants;
    if root == 0 {
      NoName(slots, g, name);
      EmptyDir(slots, g);
      if grants == [] {
        return u, top, ENOSPC, h;
      }
      top := grants[0];
      u, h := CreateRoot(top);
      left := grants[1..];
    }
    RootPath(u, top, h);
    LeanStart(slots, u, h, name, top);
    ghost var dir := Dir(u, h);
    var cur := top;
    var pos := 0;
    while pos < |name| - 1
      invariant 0 <= pos <= |name| && (name != [] ==> pos < |name|) && Trie(u, top, h) && top != 0
      invariant cur in u && cur in h.path && u[cur].interm && h.path[cur] == name[..pos]
      invariant Dir(u, h) == dir && Spare(left, u) && (|grants| > |name| ==> |left| >= |name| - pos)
      invariant name in Dir(slots, g) <==> name in dir
      invariant Lean(slots) && name != [] ==> LeanBut(u, h, name, |name| - 1)
    {
      var ok, child, rest;
      ok, u, child, rest, h := StepDown(u, cur, name, pos, left, top, h);
      if !ok {
        return u, top, ENOSPC, h;
      }
      left := rest;
      cur := child;
      pos := pos + 1;
    }
    if name == [] {
      RootPath(u, top, h);
      EntryAt(u, top, h, top);
      return u, top, Ok, h;
    }
    u, err, h := InsertLast(u, cur, name, ino, ftype, left, room, top, h);
  }

  lemma LeanStart(slots: Slots, u: Slots, h: Shape, name: Name, top: Ref)
    requires u == slots || (u.Keys == {top} && top in h.path && h.path[top] == [])
    ensures Lean(slots) && name != [] ==> LeanBut(u, h, name, |name| - 1)
  {
    if Lean(slots) && name != [] {
      forall r | r in u ensures LeanAt(u, h, name, |name| - 1, r) {
        if u != slots {
          assert r == top;
        }
      }
    }
  }

  lemma EmptyDir(slots: Slots, g: Shape)
    requires g.at == map[]
    ensures Dir(slots, g) == map[]
  {
  }

  // ---------------------------------------------------------------------------
  // Update

  /** TrieUpdateEntry. */
  method TrieUpdateEntry(slots: Slots, root: Ref, name: Name, ino: nat, ftype: nat, ghost g: Shape)
    returns (u: Slots, err: Errno)
    requires Directory(slots, root, g)
    ensures Directory(u, root, g)
    ensures err == if name in Dir(slots, g) then Ok else ENOENT
    ensures Dir(u, g) == if name in Dir(slots, g) then Dir(slots, g)[name := Entry(ino, ftype)] else Dir(slots, g)
    ensures Lean(slots) ==> Lean(u)
  {
    hide ChainAt, ParentAt, PathAt, NameAt, NamedAt, Dir;
    u := slots;
    if root == 0 {
      NoName(slots, g, name);
      return u, ENOENT;
    }
    RootPath(slots, root, g);
    var cur := root;
    var pos := 0;
    while pos < |name|
      invariant 0 <= pos <= |name| && (name != [] ==> pos < |name|)
      invariant cur in slots && cur in g.path && g.path[cur] == name[..pos]
    {
      assert name[..pos+1] == name[..pos] + [name[pos]];
      var child, prev, i := ScanSiblings(slots, slots[cur].firstChild, name[pos], root, g, cur);
      if child == 0 {
        NoLonger(slots, root, g, name, pos + 1);
        return u, ENOENT;
      }
      AtPath(slots, root, g, name[..pos+1]);
      EntryAt(slots, root, g, child);
      if pos == |name| - 1 {
        assert name[..pos+1] == name;
        if IsLeaf(slots[child]) && slots[child].name == name {
          var t := slots[child].(inode := ino, ftype := ftype);
          SetTree(slots, root, g, child, t);
          SetNamed(slots, root, g, child, t);
          SetDir(slots, root, g, child, t);
          u := slots[child := t];
          return u, Ok;
        }
        return u, ENOENT;
      }
      if !slots[child].interm {
        PureLeaf(slots, root, g, child, name, pos + 1);
        return u, ENOENT;
      }
      cur := child;
      pos := pos + 1;
    }
    EntryAt(slots, root, g, root);
    return u, ENOENT;
  }

  // ---------------------------------------------------------------------------
  // Remove

  /** trieUnlinkChild and trieFreeNode: the i-th child of p, which has no children, goes. */
  method DropChild(slots: Slots, p: Ref, prev: Ref, child: Ref, ghost root: Ref, ghost g: Shape, ghost i: nat)
    returns (u: Slots, ghost h: Shape)
    requires Trie(slots, root, g) && p in slots && i < |g.l.kids[p]| && child == g.l.kids[p][i]
    requires prev == (if i > 0 then g.l.kids[p][i-1] else 0)
    requires child in g.l.kids && g.l.kids[child] == []
    ensures Trie(u, root, h) && u.Keys == slots.Keys - {child} && p in u && child in g.path
    ensures Dir(u, h) == Dir(slots, g) - {g.path[child]}
    ensures forall r :: r in u && r != p && Stub(u[r]) ==> Stub(slots[r])
    ensures forall r :: r in u ==> r in h.path && r in g.path && h.path[r] == g.path[r]
  {
    hide ChainAt, ParentAt, PathAt, NameAt, NamedAt, Dir;
    KidIs(slots, g.l, root, p, i);
    if i > 0 {
      KidIs(slots, g.l, root, p, i - 1);
    }
    DropTree(slots, root, g, p, i);
    DropNamed(slots, root, g, p, i);
    DropDir(slots, root, g, p, i);
    UnlinkedSlot(slots, g.l, root, p, i, p);
    DropNoStub(slots, root, g, p, i);
    var next := slots[child].nextSibling;
    if prev == 0 {
      u := slots[p := slots[p].(firstChild := next, childCount := slots[p].childCount - 1)] - {child};
    } else {
      u := slots[prev := slots[prev].(nextSibling := next)];
      u := u[p := slots[p].(childCount := slots[p].childCount - 1)] - {child};
    }
    h := WithoutPath(g, p, i);
  }

  lemma DropNoStub(slots: Slots, root: Ref, g: Shape, p: Ref, i: nat)
    requires CanUnlink(slots, g.l, root, p, i)
    ensures var u := Unlinked(slots, g.l, root, p, i);
      forall r :: r in u && r != p && Stub(u[r]) ==> r in slots && Stub(slots[r])
  {
    hide ChainAt, ParentAt, Unlinked;
    var u := Unlinked(slots, g.l, root, p, i);
    UnlinkedSlot(slots, g.l, root, p, i, p);
    forall r | r in u && r != p && Stub(u[r]) ensures r in slots && Stub(slots[r]) {
      UnlinkedSlot(slots, g.l, root, p, i, r);
    }
  }

  /** trieRelinkSibling: finds the predecessor of check in p's chain. */
  method FindPrev(slots: Slots, p: Ref, check: Ref, ghost root: Ref, ghost g: Shape, ghost i: nat) returns (prev: Ref)
    requires Tree(slots, root, g) && p in slots && i < |g.l.kids[p]| && check == g.l.kids[p][i]
    ensures prev == if i > 0 then g.l.kids[p][i-1] else 0
  {
    hide ChainAt, ParentAt, PathAt, NameAt;
    FirstKid(slots, root, g, p);
    KidIs(slots, g.l, root, p, 0);
    KidOnce(slots, g.l, root, p, 0, p, i);
    if slots[p].firstChild == check {
      return 0;
    }
    FewKids(slots, root, g, p);
    prev := slots[p].firstChild;
    ghost var j: nat := 0;
    var visited := 1;
    while slots[prev].nextSibling != check
      invariant j < i && prev == g.l.kids[p][j] && prev in slots && visited == j + 1
      invariant slots[prev].nextSibling == KidAt(g.l.kids[p], j + 1)
      decreases i - j
    {
      KidIs(slots, g.l, root, p, j + 1);
      prev := slots[prev].nextSibling;
      j := j + 1;
      visited := visited + 1;
      assert visited <= SIBLING_MAX;
    }
    KidOnce(slots, g.l, root, p, j + 1, p, i);
  }

  /** A slot that is not the root is a child of the slot its parent path names. */
  lemma Placed(slots: Slots, root: Ref, g: Shape, p: Ref, r: Ref) returns (i: nat)
    requires Tree(slots, root, g) && p in slots && r in slots && g.path[r] != []
    requires g.path[p] == g.path[r][..|g.path[r]|-1]
    ensures i < |g.l.kids[p]| && g.l.kids[p][i] == r
  {
    var n := g.path[r];
    var b := n[|n|-1];
    assert n == g.path[p] + [b];
    assert PathAt(slots, g, root, r);
    i := KidNamed(slots, root, g, p, b);
  }

  /** collapseAncestry below the root: ancestry[j] is the slot at name[..j]. */
  method CollapseAncestry(slots: Slots, ancestry: seq<Ref>, name: Name, ghost root: Ref, ghost g: Shape)
    returns (u: Slots, ghost h: Shape)
    requires Trie(slots, root, g) && 0 < |ancestry| == |name| && ancestry[0] == root
    requires forall j :: 0 <= j < |ancestry| ==> ancestry[j] in slots && g.path[ancestry[j]] == name[..j]
    ensures Trie(u, root, h) && Dir(u, h) == Dir(slots, g) && u.Keys <= slots.Keys
    ensures LeanBut(slots, g, name, |name| - 1) ==> forall r :: r in u && Stub(u[r]) ==> r == root
  {
    hide ChainAt, ParentAt, PathAt, NameAt, NamedAt, Dir, Lean, LeanBut, NoNewStub;
    u, h := slots, g;
    var i := |ancestry| - 1;
    while i >= 1
      invariant 0 <= i < |ancestry| && Trie(u, root, h) && Dir(u, h) == Dir(slots, g) && u.Keys <= slots.Keys
      invariant LeanBut(slots, g, name, |name| - 1) ==> LeanBut(u, h, name, i)
      invariant forall j :: 0 <= j <= i ==>
        ancestry[j] in u && ancestry[j] in h.path && h.path[ancestry[j]] == name[..j]
    {
      var check, p := ancestry[i], ancestry[i-1];
      var c := u[check];
      FirstKid(u, root, h, check);
      if !c.interm || c.leaf || c.childCount != 0 || c.firstChild != 0 {
        ghost var lean := LeanBut(u, h, name, i);
        if lean {
          LeanAll(u, root, h, name, i, check);
        }
        break;
      }
      EntryAt(u, root, h, check);
      assert name[..i][..i-1] == name[..i-1];
      ghost var k := Placed(u, root, h, p, check);
      var prev := FindPrev(u, p, check, root, h, k);
      AncestorsDiffer(u, h, ancestry, name, i);
      NotThere(Dir(u, h), h.path[check]);
      ghost var before, shape := u, h;
      u, h := DropChild(u, p, prev, check, root, h, k);
      LeanDropped(before, root, shape, u, h, name, i, check, p);
      i := i - 1;
    }
    OnlyRootStub(u, root, h, name, i);
  }

  /** Dropping the slot at name's i-th byte leaves stubs only before it. */
  lemma LeanDropped(slots: Slots, root: Ref, g: Shape, u: Slots, h: Shape, name: Name, i: nat, check: Ref, p: Ref)
    requires Tree(slots, root, g) && 0 < i <= |name| && check in slots && check in g.path && g.path[check] == name[..i]
    requires u.Keys == slots.Keys - {check} && p in g.path && g.path[p] == name[..i-1]
    requires forall r :: r in u && r != p && Stub(u[r]) ==> Stub(slots[r])
    requires forall r :: r in u ==> r in h.path && r in g.path && h.path[r] == g.path[r]
    ensures LeanBut(slots, g, name, i) ==> LeanBut(u, h, name, i - 1)
  {
    hide ChainAt, ParentAt, NameAt;
    if LeanBut(slots, g, name, i) {
      assert PathAt(slots, g, root, check);
      forall r | r in u ensures LeanAt(u, h, name, i - 1, r) {
        if r != p {
          assert LeanAt(slots, g, name, i, r) && PathAt(slots, g, root, r);
        }
      }
    }
  }

  lemma OnlyRootStub(slots: Slots, root: Ref, g: Shape, name: Name, i: nat)
    requires Tree(slots, root, g) && (i == 0 || Lean(slots) || !LeanBut(slots, g, name, i))
    ensures LeanBut(slots, g, name, i) ==> forall r :: r in slots && Stub(slots[r]) ==> r == root
  {
    hide ChainAt, ParentAt, NameAt;
    if LeanBut(slots, g, name, i) && !Lean(slots) {
      assert PathAt(slots, g, root, root);
      forall r | r in slots && Stub(slots[r]) ensures r == root {
        assert LeanAt(slots, g, name, i, r) && PathAt(slots, g, root, r);
      }
    }
  }

  lemma NotThere(d: map<Name, Entry>, n: Name)
    requires n !in d
    ensures d - {n} == d
  {
  }

  lemma AncestorsDiffer(slots: Slots, g: Shape, ancestry: seq<Ref>, name: Name, i: nat)
    requires 0 < i < |ancestry| <= |name|
    requires forall j :: 0 <= j <= i ==>
      ancestry[j] in slots && ancestry[j] in g.path && g.path[ancestry[j]] == name[..j]
    ensures forall j :: 0 <= j < i ==> ancestry[j] != ancestry[i]
  {
    forall j | 0 <= j < i ensures ancestry[j] != ancestry[i] {
      assert |name[..j]| != |name[..i]|;
    }
  }

  /** With no children at the root there is nothing else. */
  lemma OnlyRoot(slots: Slots, root: Ref, g: Shape)
    requires Tree(slots, root, g) && g.l.kids[root] == []
    ensures slots.Keys == {root}
  {
    forall r | r in slots ensures r == root {
      assert PathAt(slots, g, root, r);
      var n := g.path[r];
      if n != [] {
        RootPath(slots, root, g);
        if n[..1] in g.at {
          AtPath(slots, root, g, n[..1]);
          var i := Placed(slots, root, g, root, g.at[n[..1]]);
        } else {
          NoLonger(slots, root, g, n, 1);
        }
      } else {
        RootPath(slots, root, g);
        assert PathAt(slots, g, root, root);
      }
    }
  }

  /** The last step of collapseAncestry: an empty root is freed too. */
  method CollapseRoot(slots: Slots, root: Ref, ghost g: Shape) returns (u: Slots, top: Ref, ghost h: Shape)
    requires Trie(slots, root, g)
    ensures Directory(u, top, h) && Dir(u, h) == Dir(slots, g) && u.Keys <= slots.Keys
    ensures (forall r :: r in slots && Stub(slots[r]) ==> r == root) ==> Lean(u)
  {
    hide ChainAt, ParentAt, PathAt, NameAt, NamedAt, Dir;
    u, top, h := slots, root, g;
    RootPath(slots, root, g);
    FirstKid(slots, root, g, root);
    var r := slots[root];
    if r.interm && !r.leaf && r.childCount == 0 && r.firstChild == 0 {
      OnlyRoot(slots, root, g);
      NoEntries(slots, root, g);
      u, top, h := slots - {root}, 0, Shape(Links(map[], map[]), map[], map[]);
      EmptyDir(u, h);
    }
  }

  lemma NoEntries(slots: Slots, root: Ref, g: Shape)
    requires Trie(slots, root, g) && slots.Keys == {root}
    ensures Dir(slots, g) == map[]
  {
    forall n | n in g.at ensures n !in Dir(slots, g) {
      assert NameAt(slots, g, n);
    }
  }

  /** The removal at the name's last byte: child, at the name, is the i-th child of cur. */
  method RemoveLast(slots: Slots, cur: Ref, prev: Ref, child: Ref, name: Name, ancestry: seq<Ref>, root: Ref,
                    ghost g: Shape, ghost i: nat)
    returns (u: Slots, top: Ref, err: Errno, ghost h: Shape)
    requires Trie(slots, root, g) && cur in slots && i < |g.l.kids[cur]| && child == g.l.kids[cur][i]
    requires prev == (if i > 0 then g.l.kids[cur][i-1] else 0)
    requires child in slots && child in g.path && g.path[child] == name && child != root
    requires 0 < |ancestry| == |name| && ancestry[0] == root && cur in g.path && g.path[cur] == name[..|name|-1]
    requires forall j :: 0 <= j < |ancestry| ==>
      ancestry[j] in slots && ancestry[j] in g.path && g.path[ancestry[j]] == name[..j]
    ensures Lean(slots) ==> Lean(u)
    ensures Directory(u, top, h)
    ensures err == if name in Dir(slots, g) then Ok else ENOENT
    ensures Dir(u, h) == Dir(slots, g) - {name}
  {
    hide ChainAt, ParentAt, PathAt, NameAt, NamedAt, Dir, Lean, LeanBut, NoNewStub;
    RootPath(slots, root, g);
    EntryAt(slots, root, g, child);
    FirstKid(slots, root, g, child);
    u, top, h := slots, root, g;
    if slots[child].interm && !slots[child].leaf {
      NotThere(Dir(slots, g), name);
      return u, top, ENOENT, h;
    }
    if slots[child].interm {
      var hasChildren := slots[child].firstChild != 0 || slots[child].childCount != 0;
      var t := slots[child].(leaf := false);
      SetTree(slots, root, g, child, t);
      SetNamed(slots, root, g, child, t);
      SetDir(slots, root, g, child, t);
      u := slots[child := t];
      if hasChildren {
        LeanSet(slots, child, t);
        return u, top, Ok, h;
      }
    }
    assert g.l.kids[child] == [];
    ghost var before := u;
    u, h := DropChild(u, cur, prev, child, root, g, i);
    LeanCut(slots, g, before, u, h, name, child, cur);
    AncestorsStay(slots, g, u, h, ancestry, name, child);
    assert Dir(slots, g) - {name} - {name} == Dir(slots, g) - {name};
    u, h := CollapseAncestry(u, ancestry, name, root, h);
    u, top, h := CollapseRoot(u, root, h);
    err := Ok;
  }

  lemma LeanSet(slots: Slots, r: Ref, t: Slot)
    requires r in slots && !Stub(t)
    ensures Lean(slots) ==> Lean(slots[r := t])
  {
  }

  /** Dropping an entry's slot can make a stub of its parent only. */
  lemma LeanCut(slots: Slots, g: Shape, before: Slots, u: Slots, h: Shape, name: Name, child: Ref, cur: Ref)
    requires before.Keys == slots.Keys && (forall r :: r in slots && r != child ==> before[r] == slots[r])
    requires u.Keys == slots.Keys - {child}
    requires name != [] && cur in g.path && g.path[cur] == name[..|name|-1]
    requires forall r :: r in u && r != cur && Stub(u[r]) ==> Stub(before[r])
    requires forall r :: r in u ==> r in h.path && r in g.path && h.path[r] == g.path[r]
    ensures Lean(slots) ==> LeanBut(u, h, name, |name| - 1)
  {
    if Lean(slots) {
      forall r | r in u ensures LeanAt(u, h, name, |name| - 1, r) {
      }
    }
  }

  lemma AncestorsStay(slots: Slots, g: Shape, u: Slots, h: Shape, ancestry: seq<Ref>, name: Name, child: Ref)
    requires u.Keys == slots.Keys - {child} && child in g.path && g.path[child] == name && |ancestry| <= |name|
    requires forall r :: r in u ==> r in h.path && r in g.path && h.path[r] == g.path[r]
    requires forall j :: 0 <= j < |ancestry| ==>
      ancestry[j] in slots && ancestry[j] in g.path && g.path[ancestry[j]] == name[..j]
    ensures forall j :: 0 <= j < |ancestry| ==>
      ancestry[j] in u && ancestry[j] in h.path && h.path[ancestry[j]] == name[..j]
  {
    forall j | 0 <= j < |ancestry|
      ensures ancestry[j] in u && ancestry[j] in h.path && h.path[ancestry[j]] == name[..j]
    {
      assert |name[..j]| != |name|;
    }
  }

  /** TrieRemove. */
  method TrieRemove(slots: Slots, root: Ref, name: Name, ghost g: Shape)
    returns (u: Slots, top: Ref, err: Errno, ghost h: Shape)
    requires Directory(slots, root, g)
    ensures Directory(u, top, h)
    ensures err == if name in Dir(slots, g) then Ok else ENOENT
    ensures Dir(u, h) == Dir(slots, g) - {name}
    ensures Lean(slots) ==> Lean(u)
  {
    hide ChainAt, ParentAt, PathAt, NameAt, NamedAt, Dir, Lean, LeanBut, NoNewStub;
    u, top, h := slots, root, g;
    if root == 0 {
      NoName(slots, g, name);
      NotThere(Dir(slots, g), name);
      return u, top, ENOENT, h;
    }
    RootPath(slots, root, g);
    var cur := root;
    var ancestry := [root];
    var pos := 0;
    while pos < |name|
      invariant 0 <= pos <= |name| && (name != [] ==> pos < |name|)
      invariant cur in slots && cur in g.path && g.path[cur] == name[..pos]
      invariant |ancestry| == pos + 1 <= 256 && ancestry[0] == root
      invariant forall j :: 0 <= j < |ancestry| ==>
        ancestry[j] in slots && ancestry[j] in g.path && g.path[ancestry[j]] == name[..j]
    {
      assert name[..pos+1] == name[..pos] + [name[pos]];
      var child, prev, i := ScanSiblings(slots, slots[cur].firstChild, name[pos], root, g, cur);
      if child == 0 {
        NoLonger(slots, root, g, name, pos + 1);
        NotThere(Dir(slots, g), name);
        return u, top, ENOENT, h;
      }
      AtPath(slots, root, g, name[..pos+1]);
      PathBound(slots, root, g, child);
      if pos == |name| - 1 {
        assert name[..pos+1] == name;
        u, top, err, h := RemoveLast(slots, cur, prev, child, name, ancestry, root, g, i);
        return;
      }
      cur := child;
      ancestry := ancestry + [cur];
      pos := pos + 1;
    }
    EntryAt(slots, root, g, root);
    NotThere(Dir(slots, g), name);
    return u, top, ENOENT, h;
  }

  lemma PathBound(slots: Slots, root: Ref, g: Shape, r: Ref)
    requires Tree(slots, root, g) && r in slots
    ensures r in g.path && |g.path[r]| <= MAX_NAME
  {
    assert PathAt(slots, g, root, r);
  }

  // ---------------------------------------------------------------------------
  // The directory object

  datatype Op =
    | InsertOp(name: Name, entry: Entry, grants: seq<Ref>, room: bool)
    | UpdateOp(name: Name, entry: Entry)
    | RemoveOp(name: Name)

  /** The same operation on a plain map; full says that pages or name heaps ran out. */
  function ApplyOp(d: map<Name, Entry>, op: Op, full: bool): (r: (map<Name, Entry>, Errno)) {
    match op
    case InsertOp(name, e, _, _) =>
      if |name| > MAX_NAME then (d, ENAMETOOLONG)
      else if name in d then (d, EEXIST)
      else if full then (d, ENOSPC)
      else if name == [] then (d, Ok)
      else (d[name := e], Ok)
    case UpdateOp(name, e) => if name in d then (d[name := e], Ok) else (d, ENOENT)
    case RemoveOp(name) => if name in d then (d - {name}, Ok) else (d, ENOENT)
  }

  /** A whole history on a plain map, with every result. */
  function ApplyAll(d: map<Name, Entry>, ops: seq<Op>, fulls: seq<bool>): (r: (map<Name, Entry>, seq<Errno>))
    requires |fulls| == |ops|
  {
    if ops == [] then (d, [])
    else
      var m := |ops| - 1;
      var before := ApplyAll(d, ops[..m], fulls[..m]);
      var last := ApplyOp(before.0, ops[m], fulls[m]);
      (last.0, before.1 + [last.1])
  }

  /** Operation k is the last in the history that succeeded on name n. */
  ghost predicate LastOn(ops: seq<Op>, errs: seq<Errno>, n: Name, k: nat)
    requires |errs| == |ops|
  {
    k < |ops| && ops[k].name == n && errs[k] == Ok && forall j :: k < j < |ops| && ops[j].name == n ==> errs[j] != Ok
  }

  ghost predicate NoneOn(ops: seq<Op>, errs: seq<Errno>, n: Name)
    requires |errs| == |ops|
  {
    forall j :: 0 <= j < |ops| && ops[j].name == n ==> errs[j] != Ok
  }

  /** What a history leaves under a name: what the last operation that succeeded on it put there, or what was
      there before.  The empty name never holds an entry of an insert. */
  ghost predicate SettledOn(d: map<Name, Entry>, ops: seq<Op>, errs: seq<Errno>, e: map<Name, Entry>, n: Name)
    requires |errs| == |ops|
  {
    && (NoneOn(ops, errs, n) ==> (n in e <==> n in d) && (n in e ==> e[n] == d[n]))
    && forall k: nat :: LastOn(ops, errs, n, k) && n != [] ==>
        if ops[k].RemoveOp? then n !in e else n in e && e[n] == ops[k].entry
  }

  lemma ApplyOn(e: map<Name, Entry>, op: Op, full: bool, n: Name)
    ensures var r := ApplyOp(e, op, full);
      && (op.name != n || r.1 != Ok ==> (n in r.0 <==> n in e) && (n in r.0 ==> r.0[n] == e[n]))
      && (op.name == n && r.1 == Ok && n != [] ==> if op.RemoveOp? then n !in r.0 else n in r.0 && r.0[n] == op.entry)
  {
  }

  lemma SettledStep(d: map<Name, Entry>, ops: seq<Op>, errs: seq<Errno>, e: map<Name, Entry>, full: bool, n: Name)
    requires ops != [] && |errs| == |ops| && SettledOn(d, ops[..|ops|-1], errs[..|ops|-1], e, n)
    requires ApplyOp(e, ops[|ops|-1], full).1 == errs[|ops|-1]
    ensures SettledOn(d, ops, errs, ApplyOp(e, ops[|ops|-1], full).0, n)
  {
    var m := |ops| - 1;
    var e' := ApplyOp(e, ops[m], full).0;
    ApplyOn(e, ops[m], full, n);
    hide ApplyOp;
    if NoneOn(ops, errs, n) { NonePrefix(ops, errs, n); }
    forall k: nat | LastOn(ops, errs, n, k) && n != []
      ensures if ops[k].RemoveOp? then n !in e' else n in e' && e'[n] == ops[k].entry
    {
      if k < m { LastPrefix(ops, errs, n, k); }
    }
  }

  lemma {:induction false} AllSettled(d: map<Name, Entry>, ops: seq<Op>, fulls: seq<bool>, n: Name)
    requires |fulls| == |ops|
    ensures |ApplyAll(d, ops, fulls).1| == |ops|
    ensures SettledOn(d, ops, ApplyAll(d, ops, fulls).1, ApplyAll(d, ops, fulls).0, n)
    decreases |ops|
  {
    if ops != [] {
      hide SettledOn, ApplyOp;
      var m := |ops| - 1;
      AllSettled(d, ops[..m], fulls[..m], n);
      var before := ApplyAll(d, ops[..m], fulls[..m]);
      var errs := before.1 + [ApplyOp(before.0, ops[m], fulls[m]).1];
      assert errs[..m] == before.1;
      SettledStep(d, ops, errs, before.0, fulls[m], n);
    }
  }

  lemma NonePrefix(ops: seq<Op>, errs: seq<Errno>, n: Name)
    requires ops != [] && |errs| == |ops| && NoneOn(ops, errs, n)
    ensures NoneOn(ops[..|ops|-1], errs[..|ops|-1], n)
  {
    var m := |ops| - 1;
    forall j | 0 <= j < m && ops[..m][j].name == n ensures errs[..m][j] != Ok {
      assert ops[j].name == n;
    }
  }

  lemma LastPrefix(ops: seq<Op>, errs: seq<Errno>, n: Name, k: nat)
    requires ops != [] && |errs| == |ops| && LastOn(ops, errs, n, k) && k < |ops| - 1
    ensures LastOn(ops[..|ops|-1], errs[..|ops|-1], n, k)
  {
    var m := |ops| - 1;
    forall j | k < j < m && ops[..m][j].name == n ensures errs[..m][j] != Ok {
      assert ops[j].name == n;
    }
  }

  /** No insert ran out of space and none was of the empty name. */
  ghost predicate Roomy(ops: seq<Op>, fulls: seq<bool>)
    requires |fulls| == |ops|
  {
    forall i :: 0 <= i < |ops| ==> !fulls[i] && !(ops[i].InsertOp? && ops[i].name == [])
  }

  lemma RoomyPrefix(ops: seq<Op>, fulls: seq<bool>)
    requires ops != [] && |fulls| == |ops|
    ensures var m := |ops| - 1;
      Roomy(ops, fulls) ==> Roomy(ops[..m], fulls[..m]) && !fulls[m] && !(ops[m].InsertOp? && ops[m].name == [])
  {
  }

  class DirTrie {
    var slots: Slots
    var root: Ref
    ghost var g: Shape

    ghost predicate Valid()
      reads this
    {
      Directory(slots, root, g)
    }

    ghost function Entries(): (d: map<Name, Entry>)
      reads this
    {
      Dir(slots, g)
    }

    constructor ()
      ensures Valid() && Entries() == map[] && slots == map[]
    {
      slots, root, g := map[], 0, Shape(Links(map[], map[]), map[], map[]);
    }

    method Lookup(name: Name) returns (e: Option<Entry>)
      requires Valid()
      ensures e == if name in Entries() then Some(Entries()[name]) else None
    {
      e := TrieLookup(slots, root, name, g);
    }

    /** One operation does to the trie what it does to a plain map, with the same result. An insert may
        also run out of pages or name space, but not with enough of both. */
    method Step(op: Op) returns (err: Errno, full: bool)
      requires Valid() && (op.InsertOp? ==> Spare(op.grants, slots))
      modifies this
      ensures Valid() && (Entries(), err) == ApplyOp(old(Entries()), op, full)
      ensures err != Ok ==> Entries() == old(Entries())
      ensures err == ENAMETOOLONG <==> op.InsertOp? && |op.name| > 255
      ensures err == EEXIST <==> op.InsertOp? && |op.name| <= 255 && op.name in old(Entries())
      ensures err == ENOENT <==> !op.InsertOp? && op.name !in old(Entries())
      ensures err == ENOSPC <==> full
      ensures full ==> op.InsertOp?
      ensures err == Ok && op.RemoveOp? ==> Entries() == old(Entries()) - {op.name}
      ensures err == Ok && !op.RemoveOp? && op.name != [] ==> Entries() == old(Entries())[op.name := op.entry]
      ensures op.InsertOp? && |op.grants| > |op.name| && op.room ==> !full
      ensures old(Lean(slots)) && !full && !(op.InsertOp? && op.name == []) ==> Lean(slots)
    {
      hide Dir, Directory, Trie, Lean;
      full := false;
      match op {
        case InsertOp(name, e, grants, room) =>
          slots, root, err, g := TrieInsert(slots, root, name, e.inode, e.ftype, grants, room, g);
          full := err == ENOSPC;
        case UpdateOp(name, e) =>
          slots, err := TrieUpdateEntry(slots, root, name, e.inode, e.ftype, g);
        case RemoveOp(name) =>
          NotThereOr(Dir(slots, g), name);
          slots, root, err, g := TrieRemove(slots, root, name, g);
      }
    }

    method RunOps(ops: seq<Op>) returns (errs: seq<Errno>, fulls: seq<bool>)
      requires Valid()
      modifies this
      ensures Valid() && |fulls| == |errs| == |ops| && (Entries(), errs) == ApplyAll(old(Entries()), ops, fulls)
      ensures forall i :: 0 <= i < |ops| ==> (fulls[i] <==> errs[i] == ENOSPC)
      ensures old(slots) == map[] && Roomy(ops, fulls) ==> Lean(slots) && (Entries() == map[] <==> slots == map[])
    {
      ghost var lean := slots == map[];
      assert lean ==> Lean(slots);
      hide Dir, Directory, ApplyOp, Spare, Lean, Roomy;
      errs, fulls := [], [];
      var i := 0;
      while i < |ops|
        invariant 0 <= i <= |ops| && |fulls| == |errs| == i && Valid()
        invariant (Entries(), errs) == ApplyAll(old(Entries()), ops[..i], fulls)
        invariant forall j :: 0 <= j < i ==> (fulls[j] <==> errs[j] == ENOSPC)
        invariant lean && Roomy(ops[..i], fulls) ==> Lean(slots)
      {
        var op := ops[i];
        if op.InsertOp? {
          NoneSpare(slots);
          var grants: seq<Ref> :| Spare(grants, slots);
          GrantsIrrelevant(Entries(), op, grants);
          op := op.(grants := grants);
        }
        var err, full := Step(op);
        assert ops[..i+1][..i] == ops[..i] && (fulls + [full])[..i] == fulls;
        RoomyPrefix(ops[..i+1], fulls + [full]);
        errs, fulls, i := errs + [err], fulls + [full], i + 1;
      }
      assert ops[..|ops|] == ops;
      if lean && Roomy(ops, fulls) {
        NothingLeft(slots, root, g);
      }
    }

    /** Every history, whatever references the allocator hands out, leaves the entries and gives the
        results of the same history on a plain map. A history from an empty directory in which no insert ran out
        of space leaves no node without purpose, and no slot at all once every name is removed. */
    method Run(ops: seq<Op>) returns (errs: seq<Errno>, fulls: seq<bool>)
      requires Valid()
      modifies this
      ensures Valid() && |fulls| == |ops| && (Entries(), errs) == ApplyAll(old(Entries()), ops, fulls)
      ensures |errs| == |ops| && forall n :: SettledOn(old(Entries()), ops, errs, Entries(), n)
      ensures forall i :: 0 <= i < |ops| ==> (fulls[i] <==> errs[i] == ENOSPC)
      ensures old(slots) == map[] ==>
        ((forall i :: 0 <= i < |ops| ==> errs[i] != ENOSPC && !(ops[i].InsertOp? && ops[i].name == [])) ==>
          Lean(slots) && (Entries() == map[] <==> slots == map[]))
    {
      errs, fulls := RunOps(ops);
      hide Dir, Directory, ApplyOp, ApplyAll, Lean, SettledOn;
      forall n ensures |errs| == |ops| && SettledOn(old(Entries()), ops, errs, Entries(), n) {
        AllSettled(old(Entries()), ops, fulls, n);
      }
    }
  }

  lemma NoneSpare(slots: Slots)
    ensures Spare([], slots)
  {
  }

  lemma GrantsIrrelevant(d: map<Name, Entry>, op: Op, grants: seq<Ref>)
    requires op.InsertOp?
    ensures forall full :: ApplyOp(d, op.(grants := grants), full) == ApplyOp(d, op, full)
  {
  }

  lemma NotThereOr(d: map<Name, Entry>, n: Name)
    ensures n !in d ==> d - {n} == d
  {
  }
}
