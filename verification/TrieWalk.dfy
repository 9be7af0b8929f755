/** The resumable depth-first trie walk that readdir and fsck share (briefs/trie_walk.go,
    fuse/trie.go). */
module TrieWalk {
  import opened TriePaths
  import opened TrieTree
  import opened Options
  import opened Sets

  /** A stack entry; emitted marks the second visit of a leaf that also branches. */
  datatype Item = Item(ref: Ref, emitted: bool)

  datatype Walker = Walker(stack: seq<Item>, visited: set<Ref>)

  // ---------------------------------------------------------------------------
  // Steps

  /** collectChildren from a chain's head: at most SIBLING_MAX references, ending early at one that
      cannot be read. */
  function Collect(slots: Slots, child: Ref, hops: nat): (r: seq<Ref>)
    requires hops <= SIBLING_MAX
    decreases SIBLING_MAX - hops
  {
    if child == 0 || hops == SIBLING_MAX then []
    else [child] + if child in slots then Collect(slots, slots[child].nextSibling, hops + 1) else []
  }

  lemma CollectStep(slots: Slots, done: seq<Ref>, child: Ref, hops: nat)
    requires child != 0 && hops < SIBLING_MAX
    ensures done + Collect(slots, child, hops) ==
      if child in slots then done + [child] + Collect(slots, slots[child].nextSibling, hops + 1) else done + [child]
  {
    var rest := if child in slots then Collect(slots, slots[child].nextSibling, hops + 1) else [];
    assert done + ([child] + rest) == done + [child] + rest;
  }

  /** The k-th reference of a sibling chain; null once the chain has ended or a node cannot be read. */
  function Hop(slots: Slots, child: Ref, k: nat): (r: Ref) {
    if k == 0 then child
    else
      var p := Hop(slots, child, k - 1);
      if p != 0 && p in slots then slots[p].nextSibling else 0
  }

  lemma {:induction false} HopNext(slots: Slots, child: Ref, k: nat)
    requires child != 0 && child in slots
    ensures Hop(slots, child, k + 1) == Hop(slots, slots[child].nextSibling, k)
  {
    if k > 0 { HopNext(slots, child, k - 1); }
  }

  lemma {:induction false} HopEnds(slots: Slots, child: Ref, k: nat)
    requires child == 0 || child !in slots
    ensures k > 0 || child == 0 ==> Hop(slots, child, k) == 0
  {
    if k > 0 { HopEnds(slots, child, k - 1); }
  }

  /** c is the sibling chain from child, up to its end, an unreadable node or cap references. */
  predicate IsChain(slots: Slots, child: Ref, c: seq<Ref>, cap: nat) {
    && |c| <= cap && (forall k :: 0 <= k < |c| ==> c[k] == Hop(slots, child, k) != 0)
    && (|c| < cap ==> Hop(slots, child, |c|) == 0)
  }

  lemma ChainCons(slots: Slots, child: Ref, rest: seq<Ref>, cap: nat)
    requires child != 0 && child in slots && IsChain(slots, slots[child].nextSibling, rest, cap)
    ensures IsChain(slots, child, [child] + rest, cap + 1)
  {
    assert Hop(slots, child, 0) == child;
    hide Hop;
    var c := [child] + rest;
    forall k | 0 <= k < |c| ensures c[k] == Hop(slots, child, k) != 0 {
      if k > 0 { HopNext(slots, child, k - 1); }
    }
    HopNext(slots, child, |rest|);
  }

  /** What is collected of a node's children is exactly that chain, of at most 1024 references. */
  lemma {:induction false} CollectExact(slots: Slots, child: Ref, hops: nat)
    requires hops <= SIBLING_MAX
    ensures hops <= 1024 && IsChain(slots, child, Collect(slots, child, hops), 1024 - hops)
    decreases SIBLING_MAX - hops
  {
    if child != 0 && hops < SIBLING_MAX && child in slots {
      var next := slots[child].nextSibling;
      CollectExact(slots, next, hops + 1);
      ChainCons(slots, child, Collect(slots, next, hops + 1), 1024 - (hops + 1));
    } else if child != 0 && hops < SIBLING_MAX {
      assert Collect(slots, child, hops) == [child] && Hop(slots, child, 0) == child;
      HopEnds(slots, child, 1);
    }
  }

  method CollectChildren(slots: Slots, node: Slot) returns (children: seq<Ref>)
    ensures children == Collect(slots, node.firstChild, 0)
  {
    children := [];
    var child := node.firstChild;
    var hops := 0;
    ghost var all := Collect(slots, node.firstChild, 0);
    while child != 0
      invariant 0 <= hops <= SIBLING_MAX && children + Collect(slots, child, hops) == all
      decreases SIBLING_MAX - hops
    {
      if hops >= SIBLING_MAX {
        break;
      }
      CollectStep(slots, children, child, hops);
      hide Collect;
      children := children + [child];
      if child !in slots {
        return;
      }
      child := slots[child].nextSibling;
      hops := hops + 1;
    }
  }

  /** pushChildren: the first child ends on top. */
  function Push(stack: seq<Item>, children: seq<Ref>): (r: seq<Item>)
    ensures |r| == |stack| + |children|
  {
    if children == [] then stack else Push(stack, children[1..]) + [Item(children[0], false)]
  }

  method PushChildren(stack: seq<Item>, children: seq<Ref>) returns (r: seq<Item>)
    ensures r == Push(stack, children)
  {
    r := stack;
    var i := |children|;
    while i > 0
      invariant 0 <= i <= |children| && r == Push(stack, children[i..])
    {
      i := i - 1;
      assert children[i..][1..] == children[i+1..];
      r := r + [Item(children[i], false)];
    }
    assert children[0..] == children;
  }

  /** One turn of Next's loop: the walker after it and what it reports. */
  function Turn(slots: Slots, w: Walker): (r: (Walker, Option<Item>))
    requires w.stack != []
  {
    var top := w.stack[|w.stack|-1];
    var rest := w.stack[..|w.stack|-1];
    if top.ref in w.visited && !top.emitted then (Walker(rest, w.visited), None)
    else
      var visited := if top.emitted then w.visited else w.visited + {top.ref};
      if top.ref !in slots then (Walker(rest, visited), None)
      else
        var node := slots[top.ref];
        var stack :=
          if !top.emitted && IsLeaf(node) then (if node.firstChild != 0 then rest + [Item(top.ref, true)] else rest)
          else Push(rest, Collect(slots, node.firstChild, 0));
        (Walker(stack, visited), Some(top))
  }

  // ---------------------------------------------------------------------------
  // Termination on arbitrary slots, cyclic ones included

  /** Every reference a walk can meet. */
  function Refs(slots: Slots, root: Ref): (r: set<Ref>) {
    (set q | q in slots :: slots[q].firstChild) + (set q | q in slots :: slots[q].nextSibling) + {root}
  }

  ghost predicate Known(slots: Slots, root: Ref, w: Walker) {
    forall x :: x in w.stack ==> x.ref in Refs(slots, root)
  }

  function Emitted(stack: seq<Item>): (n: nat) {
    if stack == [] then 0 else Emitted(stack[..|stack|-1]) + if stack[|stack|-1].emitted then 1 else 0
  }

  lemma EmittedSnoc(stack: seq<Item>, item: Item)
    ensures Emitted(stack + [item]) == Emitted(stack) + if item.emitted then 1 else 0
  {
    assert (stack + [item])[..|stack|] == stack;
  }

  lemma {:induction false} PushSpec(stack: seq<Item>, children: seq<Ref>)
    ensures Emitted(Push(stack, children)) == Emitted(stack)
    ensures forall x :: x in Push(stack, children) <==> x in stack || (!x.emitted && x.ref in children)
  {
    if children != [] {
      PushSpec(stack, children[1..]);
      EmittedSnoc(Push(stack, children[1..]), Item(children[0], false));
      assert children == [children[0]] + children[1..];
    }
  }

  lemma {:induction false} CollectKnown(slots: Slots, root: Ref, child: Ref, hops: nat)
    requires hops <= SIBLING_MAX && (child != 0 ==> child in Refs(slots, root))
    ensures forall x :: x in Collect(slots, child, hops) ==> x in Refs(slots, root)
    decreases SIBLING_MAX - hops
  {
    if child != 0 && hops < SIBLING_MAX && child in slots {
      HeadKnown(slots, root, child);
      CollectKnown(slots, root, slots[child].nextSibling, hops + 1);
    }
  }

  /** The walk's measure: references not yet visited, then second visits due, then stack height. */
  ghost function Fuel(slots: Slots, root: Ref, w: Walker): (m: (nat, nat, nat)) {
    (|Refs(slots, root) - w.visited|, Emitted(w.stack), |w.stack|)
  }

  predicate Less(a: (nat, nat, nat), b: (nat, nat, nat)) {
    a.0 < b.0 || (a.0 == b.0 && (a.1 < b.1 || (a.1 == b.1 && a.2 < b.2)))
  }

  lemma VisitOne(all: set<Ref>, visited: set<Ref>, r: Ref)
    requires r in all && r !in visited
    ensures |all - (visited + {r})| < |all - visited|
  {
    var a, b := all - (visited + {r}), all - visited;
    assert b == a + {r} && r !in a;
  }

  lemma TurnKnown(slots: Slots, root: Ref, w: Walker)
    requires w.stack != [] && Known(slots, root, w)
    ensures Known(slots, root, Turn(slots, w).0)
  {
    hide Refs, Collect, Push;
    var m := |w.stack| - 1;
    var top, rest := w.stack[m], w.stack[..m];
    assert top in w.stack && forall x :: x in rest ==> x in w.stack;
    if top.ref in slots {
      HeadKnown(slots, root, top.ref);
      CollectKnown(slots, root, slots[top.ref].firstChild, 0);
      PushSpec(rest, Collect(slots, slots[top.ref].firstChild, 0));
    }
  }

  lemma HeadKnown(slots: Slots, root: Ref, r: Ref)
    requires r in slots
    ensures slots[r].firstChild in Refs(slots, root) && slots[r].nextSibling in Refs(slots, root)
  {
  }

  /** Each turn uses up fuel, whatever the slots hold. */
  lemma TurnDescends(slots: Slots, root: Ref, w: Walker)
    requires w.stack != [] && Known(slots, root, w)
    ensures Less(Fuel(slots, root, Turn(slots, w).0), Fuel(slots, root, w))
  {
    hide Refs, Collect, Push, Emitted;
    var m := |w.stack| - 1;
    var top, rest := w.stack[m], w.stack[..m];
    EmittedSnoc(rest, top);
    assert w.stack == rest + [top];
    assert top in w.stack;
    if !top.emitted {
      if top.ref !in w.visited {
        VisitOne(Refs(slots, root), w.visited, top.ref);
      }
    } else if top.ref in slots {
      PushSpec(rest, Collect(slots, slots[top.ref].firstChild, 0));
    }
  }

  // ---------------------------------------------------------------------------
  // The recursive walk

  /** The references pushChildren gathers of a readable node: its child chain, capped. */
  function Below(slots: Slots, r: Ref): (c: seq<Ref>) {
    if r in slots then Collect(slots, slots[r].firstChild, 0) else []
  }

  /** What a walk of one reference reports, and the references it has then met: the node, a leaf that branches a
      second time, then what is below it, first child first; nothing met before is reported again. */
  ghost function One(slots: Slots, root: Ref, r: Ref, visited: set<Ref>): (o: (seq<Item>, set<Ref>))
    requires r in Refs(slots, root)
    ensures visited <= o.1
    decreases |Refs(slots, root) - visited|, 0
  {
    if r in visited then ([], visited)
    else if r !in slots then ([], visited + {r})
    else
      VisitOne(Refs(slots, root), visited, r);
      HeadKnown(slots, root, r);
      CollectKnown(slots, root, slots[r].firstChild, 0);
      var below := Many(slots, root, Collect(slots, slots[r].firstChild, 0), visited + {r});
      ([Item(r, false)] + Again(slots, r) + below.0, below.1)
  }

  ghost function Many(slots: Slots, root: Ref, refs: seq<Ref>, visited: set<Ref>): (o: (seq<Item>, set<Ref>))
    requires forall x :: x in refs ==> x in Refs(slots, root)
    ensures visited <= o.1
    decreases |Refs(slots, root) - visited|, 1 + |refs|
  {
    if refs == [] then ([], visited)
    else
      var a := One(slots, root, refs[0], visited);
      SubsetSize(Refs(slots, root) - a.1, Refs(slots, root) - visited);
      var b := Many(slots, root, refs[1..], a.1);
      (a.0 + b.0, b.1)
  }

  /** The second report of a leaf that also branches. */
  function Again(slots: Slots, r: Ref): (items: seq<Item>) {
    if r in slots && IsLeaf(slots[r]) && slots[r].firstChild != 0 then [Item(r, true)] else []
  }

  /** What is left to report, from the top of the stack down. */
  ghost function Rest(slots: Slots, root: Ref, w: Walker): (items: seq<Item>)
    requires Known(slots, root, w)
    decreases |w.stack|
  {
    if w.stack == [] then []
    else
      var m := |w.stack| - 1;
      var top := w.stack[m];
      assert top in w.stack;
      var o := if top.emitted then Second(slots, root, top.ref, w.visited) else One(slots, root, top.ref, w.visited);
      o.0 + Rest(slots, root, Walker(w.stack[..m], o.1))
  }

  ghost function Second(slots: Slots, root: Ref, r: Ref, visited: set<Ref>): (o: (seq<Item>, set<Ref>)) {
    if r !in slots then ([], visited)
    else
      HeadKnown(slots, root, r);
      CollectKnown(slots, root, slots[r].firstChild, 0);
      var below := Many(slots, root, Collect(slots, slots[r].firstChild, 0), visited);
      ([Item(r, true)] + below.0, below.1)
  }

  lemma PushKnown(slots: Slots, root: Ref, stack: seq<Item>, children: seq<Ref>, visited: set<Ref>)
    requires Known(slots, root, Walker(stack, visited)) && forall x :: x in children ==> x in Refs(slots, root)
    ensures Known(slots, root, Walker(Push(stack, children), visited))
  {
    PushSpec(stack, children);
  }

  /** The report of one stack entry. */
  ghost function EntryReport(slots: Slots, root: Ref, x: Item, visited: set<Ref>): (o: (seq<Item>, set<Ref>))
    requires x.ref in Refs(slots, root)
  {
    if x.emitted then Second(slots, root, x.ref, visited) else One(slots, root, x.ref, visited)
  }

  lemma RestTop(slots: Slots, root: Ref, rest: seq<Item>, top: Item, visited: set<Ref>)
    requires Known(slots, root, Walker(rest + [top], visited))
    ensures top.ref in Refs(slots, root) && forall v :: Known(slots, root, Walker(rest, v))
    ensures var o := EntryReport(slots, root, top, visited);
      Rest(slots, root, Walker(rest + [top], visited)) == o.0 + Rest(slots, root, Walker(rest, o.1))
  {
    hide Refs, One, Second;
    var s := rest + [top];
    assert top in s && s[..|rest|] == rest && forall x :: x in rest ==> x in s;
  }

  lemma ManyFirst(slots: Slots, root: Ref, refs: seq<Ref>, visited: set<Ref>)
    requires refs != [] && forall x :: x in refs ==> x in Refs(slots, root)
    ensures refs[0] in Refs(slots, root) && forall x :: x in refs[1..] ==> x in Refs(slots, root)
    ensures var a := One(slots, root, refs[0], visited);
      var b := Many(slots, root, refs[1..], a.1);
      Many(slots, root, refs, visited) == (a.0 + b.0, b.1)
  {
    hide Refs, One;
    assert refs[0] in refs && forall x :: x in refs[1..] ==> x in refs;
  }

  /** Pushed children are reported in order before the rest of the stack. */
  lemma {:induction false} RestPush(slots: Slots, root: Ref, stack: seq<Item>, children: seq<Ref>, visited: set<Ref>)
    requires forall v :: Known(slots, root, Walker(stack, v))
    requires forall x :: x in children ==> x in Refs(slots, root)
    ensures Known(slots, root, Walker(Push(stack, children), visited))
    ensures var o := Many(slots, root, children, visited);
      Rest(slots, root, Walker(Push(stack, children), visited)) == o.0 + Rest(slots, root, Walker(stack, o.1))
    decreases |children|
  {
    PushKnown(slots, root, stack, children, visited);
    if children == [] {
      assert Many(slots, root, children, visited) == ([], visited);
    } else {
      hide Refs, One, Many, Rest, Known, Second;
      var q, top := Push(stack, children[1..]), Item(children[0], false);
      assert Push(stack, children) == q + [top];
      RestTop(slots, root, q, top, visited);
      ManyFirst(slots, root, children, visited);
      var a := One(slots, root, children[0], visited);
      RestPush(slots, root, stack, children[1..], a.1);
      var b := Many(slots, root, children[1..], a.1);
      assert a.0 + (b.0 + Rest(slots, root, Walker(stack, b.1))) == a.0 + b.0 + Rest(slots, root, Walker(stack, b.1));
    }
  }

  lemma OneNode(slots: Slots, root: Ref, r: Ref, visited: set<Ref>)
    requires r in Refs(slots, root)
    ensures r in visited ==> One(slots, root, r, visited) == ([], visited)
    ensures r !in visited && r !in slots ==> One(slots, root, r, visited) == ([], visited + {r})
    ensures r in slots ==> forall x :: x in Below(slots, r) ==> x in Refs(slots, root)
    ensures r !in visited && r in slots ==>
      var o := Many(slots, root, Below(slots, r), visited + {r});
      One(slots, root, r, visited) == ([Item(r, false)] + Again(slots, r) + o.0, o.1)
  {
    if r in slots {
      HeadKnown(slots, root, r);
      CollectKnown(slots, root, slots[r].firstChild, 0);
    }
    hide Refs, Many, Collect;
  }

  lemma SecondNode(slots: Slots, root: Ref, r: Ref, visited: set<Ref>)
    ensures r !in slots ==> Second(slots, root, r, visited) == ([], visited)
    ensures r in slots ==> (forall x :: x in Below(slots, r) ==> x in Refs(slots, root))
    ensures r in slots ==>
      var o := Many(slots, root, Below(slots, r), visited);
      Second(slots, root, r, visited) == ([Item(r, true)] + o.0, o.1)
  {
    if r in slots {
      HeadKnown(slots, root, r);
      CollectKnown(slots, root, slots[r].firstChild, 0);
    }
    hide Refs, Many, Collect;
  }

  /** A turn reports the next item of what is left. */
  lemma TurnRest(slots: Slots, root: Ref, w: Walker)
    requires w.stack != [] && Known(slots, root, w)
    ensures Known(slots, root, Turn(slots, w).0)
    ensures var t := Turn(slots, w);
      Rest(slots, root, w) == (if t.1.Some? then [t.1.value] else []) + Rest(slots, root, t.0)
  {
    TurnKnown(slots, root, w);
    var m := |w.stack| - 1;
    var top, rest := w.stack[m], w.stack[..m];
    var r := top.ref;
    assert w.stack == rest + [top] && w == Walker(rest + [top], w.visited);
    hide Refs, One, Many, Rest, Known, Second, Collect, Push;
    RestTop(slots, root, rest, top, w.visited);
    OneNode(slots, root, r, w.visited);
    SecondNode(slots, root, r, w.visited);
    if r in slots && (top.emitted || r !in w.visited) {
      var visited := if top.emitted then w.visited else w.visited + {r};
      RestPush(slots, root, rest, Below(slots, r), visited);
      var o := Many(slots, root, Below(slots, r), visited);
      if !top.emitted && IsLeaf(slots[r]) {
        TurnLeaf(slots, root, rest, r, visited);
      } else {
        Assoc([top], [], o.0, Rest(slots, root, Walker(rest, o.1)));
      }
    }
  }

  lemma Assoc(a: seq<Item>, b: seq<Item>, c: seq<Item>, d: seq<Item>)
    ensures a + b + c + d == a + (b + c + d) && a + (c + d) == a + c + d
    ensures b == [] ==> a + b + c + d == a + (c + d)
  {
  }

  lemma KnownSnoc(slots: Slots, root: Ref, rest: seq<Item>, x: Item, visited: set<Ref>)
    requires Known(slots, root, Walker(rest, visited)) && x.ref in Refs(slots, root)
    ensures Known(slots, root, Walker(rest + [x], visited))
  {
  }

  lemma NoneBelow(slots: Slots, root: Ref, r: Ref, visited: set<Ref>)
    requires r in slots && slots[r].firstChild == 0
    ensures Below(slots, r) == [] && Many(slots, root, [], visited) == ([], visited)
  {
  }

  /** A leaf leaves its children for its second visit, or has none. */
  lemma TurnLeaf(slots: Slots, root: Ref, rest: seq<Item>, r: Ref, visited: set<Ref>)
    requires r in slots && (forall v :: Known(slots, root, Walker(rest, v))) && r in Refs(slots, root)
    requires forall x :: x in Below(slots, r) ==> x in Refs(slots, root)
    ensures slots[r].firstChild != 0 ==> Known(slots, root, Walker(rest + [Item(r, true)], visited))
    ensures var o := Many(slots, root, Below(slots, r), visited);
      var left := Rest(slots, root, Walker(rest, o.1));
      if slots[r].firstChild != 0 then
        [Item(r, false)] + [Item(r, true)] + o.0 + left ==
          [Item(r, false)] + Rest(slots, root, Walker(rest + [Item(r, true)], visited))
      else o == ([], visited) && [Item(r, false)] + [] + o.0 + left == [Item(r, false)] + left
  {
    hide Refs, One, Many, Rest, Known, Second, Collect, Below;
    assert Known(slots, root, Walker(rest, visited));
    KnownSnoc(slots, root, rest, Item(r, true), visited);
    var o := Many(slots, root, Below(slots, r), visited);
    var left := Rest(slots, root, Walker(rest, o.1));
    if slots[r].firstChild != 0 {
      RestTop(slots, root, rest, Item(r, true), visited);
      SecondNode(slots, root, r, visited);
      Assoc([Item(r, false)], [Item(r, true)], o.0, left);
    } else {
      NoneBelow(slots, root, r, visited);
      Assoc([Item(r, false)], [], [], left);
      assert [] + left == left;
    }
  }

  /** The whole walk, as a recursion. */
  ghost function PreOrder(slots: Slots, root: Ref): (items: seq<Item>) {
    if root == 0 then [] else One(slots, root, root, {}).0
  }

  /** A leaf that branches, and no other node, is reported a second time. */
  lemma {:induction false} SecondReports(slots: Slots, root: Ref, r: Ref, visited: set<Ref>)
    requires r in Refs(slots, root)
    ensures SecondsOk(slots, One(slots, root, r, visited).0)
    decreases |Refs(slots, root) - visited|, 0
  {
    if r !in visited && r in slots {
      VisitOne(Refs(slots, root), visited, r);
      HeadKnown(slots, root, r);
      CollectKnown(slots, root, slots[r].firstChild, 0);
      var kids := Collect(slots, slots[r].firstChild, 0);
      SecondReportsAll(slots, root, kids, visited + {r});
      SecondsFirst(slots, r);
      SecondsJoin(slots, [Item(r, false)] + Again(slots, r), Many(slots, root, kids, visited + {r}).0);
    }
  }

  predicate SecondOk(slots: Slots, items: seq<Item>, r: Ref) {
    Item(r, true) in items <==> Item(r, false) in items && Again(slots, r) != []
  }

  ghost predicate SecondsOk(slots: Slots, items: seq<Item>) {
    forall x :: x in items ==> SecondOk(slots, items, x.ref)
  }

  lemma {:induction false} SecondReportsAll(slots: Slots, root: Ref, refs: seq<Ref>, visited: set<Ref>)
    requires forall x :: x in refs ==> x in Refs(slots, root)
    ensures SecondsOk(slots, Many(slots, root, refs, visited).0)
    decreases |Refs(slots, root) - visited|, 1 + |refs|
  {
    if refs != [] {
      var a := One(slots, root, refs[0], visited);
      SecondReports(slots, root, refs[0], visited);
      SubsetSize(Refs(slots, root) - a.1, Refs(slots, root) - visited);
      SecondReportsAll(slots, root, refs[1..], a.1);
      SecondsJoin(slots, a.0, Many(slots, root, refs[1..], a.1).0);
    }
  }

  lemma SecondsFirst(slots: Slots, r: Ref)
    ensures SecondsOk(slots, [Item(r, false)] + Again(slots, r))
  {
  }

  lemma SecondsJoin(slots: Slots, a: seq<Item>, b: seq<Item>)
    requires SecondsOk(slots, a) && SecondsOk(slots, b)
    ensures SecondsOk(slots, a + b)
  {
    forall x: Item | x in a + b ensures SecondOk(slots, a + b, x.ref) {
      var once, again := Item(x.ref, false), Item(x.ref, true);
      assert once in a ==> SecondOk(slots, a, once.ref);
      assert again in a ==> SecondOk(slots, a, again.ref);
      assert once in b ==> SecondOk(slots, b, once.ref);
      assert again in b ==> SecondOk(slots, b, again.ref);
    }
  }

  // ---------------------------------------------------------------------------
  // No node is reported twice for the same reason

  ghost predicate NoTwice(items: seq<Item>) {
    forall i, j :: 0 <= i < j < |items| ==> items[i] != items[j]
  }

  /** No second visit is due twice. */
  ghost predicate DueOnce(stack: seq<Item>) {
    forall i, j :: 0 <= i < j < |stack| && stack[i].emitted ==> stack[i] != stack[j]
  }

  /** Second visits are due of visited nodes and not reported yet; reports are of visited nodes. */
  ghost predicate Accounted(w: Walker, out: seq<Item>) {
    && (forall x :: x in w.stack && x.emitted ==> x.ref in w.visited && x !in out)
    && (forall x :: x in out ==> x.ref in w.visited)
  }

  ghost predicate Once(w: Walker, out: seq<Item>) {
    NoTwice(out) && DueOnce(w.stack) && Accounted(w, out)
  }

  lemma {:induction false} PushOnce(stack: seq<Item>, children: seq<Ref>)
    requires DueOnce(stack)
    ensures DueOnce(Push(stack, children))
  {
    if children != [] {
      PushOnce(stack, children[1..]);
      var q := Push(stack, children[1..]);
      assert Push(stack, children) == q + [Item(children[0], false)];
    }
  }

  lemma TurnDue(slots: Slots, w: Walker, out: seq<Item>)
    requires w.stack != [] && DueOnce(w.stack) && Accounted(w, out)
    ensures DueOnce(Turn(slots, w).0.stack)
  {
    hide Collect, Push;
    var m := |w.stack| - 1;
    var top, rest := w.stack[m], w.stack[..m];
    assert forall x :: x in rest ==> x in w.stack;
    if top.ref in slots {
      PushOnce(rest, Collect(slots, slots[top.ref].firstChild, 0));
      assert Item(top.ref, true) in rest ==> top.ref in w.visited;
    }
  }

  /** The only second visit a turn can make due is of the node it visits first, and it reports the top. */
  lemma TurnItems(slots: Slots, w: Walker)
    requires w.stack != []
    ensures var t := Turn(slots, w); var top := w.stack[|w.stack|-1];
      && (t.1.Some? ==> t.1.value == top && (top.emitted || top.ref !in w.visited))
      && t.0.visited == (if top.emitted then w.visited else w.visited + {top.ref})
      && forall x :: x in t.0.stack && x.emitted ==>
           || x in w.stack[..|w.stack|-1]
           || (x == Item(top.ref, true) && !top.emitted && t.1.Some? && top.ref !in w.visited)
  {
    hide Collect, Push;
    var top, rest := w.stack[|w.stack|-1], w.stack[..|w.stack|-1];
    if top.ref in slots {
      PushSpec(rest, Collect(slots, slots[top.ref].firstChild, 0));
    }
  }

  lemma TurnAccounted(slots: Slots, w: Walker, out: seq<Item>)
    requires w.stack != [] && DueOnce(w.stack) && Accounted(w, out)
    ensures var t := Turn(slots, w); Accounted(t.0, if t.1.Some? then out + [t.1.value] else out)
    ensures Turn(slots, w).1.Some? ==> Turn(slots, w).1.value !in out
  {
    hide Turn;
    TurnItems(slots, w);
    var top, rest := w.stack[|w.stack|-1], w.stack[..|w.stack|-1];
    assert top in w.stack && forall x :: x in rest ==> x in w.stack;
    assert top.emitted ==> top !in rest;
  }

  lemma TurnOnce(slots: Slots, w: Walker, out: seq<Item>)
    requires w.stack != [] && Once(w, out)
    ensures var t := Turn(slots, w); Once(t.0, if t.1.Some? then out + [t.1.value] else out)
  {
    hide Turn, DueOnce, Accounted;
    TurnDue(slots, w, out);
    TurnAccounted(slots, w, out);
  }

  // ---------------------------------------------------------------------------
  // What is reachable is walked, on arbitrary slots

  /** r is n child chains below the root, each headed by a readable node. */
  ghost predicate Within(slots: Slots, root: Ref, r: Ref, n: nat)
    decreases n
  {
    if n == 0 then r == root && root != 0
    else exists p :: p in slots && Within(slots, root, p, n - 1) && r in Below(slots, p)
  }

  ghost predicate Reachable(slots: Slots, root: Ref, r: Ref) {
    exists n: nat :: Within(slots, root, r, n)
  }

  lemma ReachBelow(slots: Slots, root: Ref, p: Ref, r: Ref)
    requires p in slots && Reachable(slots, root, p) && r in Below(slots, p)
    ensures Reachable(slots, root, r)
  {
    var n: nat :| Within(slots, root, p, n);
    assert Within(slots, root, r, n + 1);
  }

  /** Only reachable references are scheduled, and only readable ones reported. */
  ghost predicate Sound(slots: Slots, root: Ref, w: Walker, out: seq<Item>) {
    && (forall x :: x in w.stack ==> Reachable(slots, root, x.ref))
    && forall x :: x in out ==> x.ref in slots && Reachable(slots, root, x.ref)
  }

  predicate Met(w: Walker, r: Ref) {
    r in w.visited || Item(r, false) in w.stack
  }

  /** A visited node that can be read was reported, and what is below it is met or due. */
  predicate Swept(slots: Slots, w: Walker, out: seq<Item>, r: Ref) {
    r in w.visited && r in slots ==>
      Item(r, false) in out && (Item(r, true) in w.stack || forall c :: c in Below(slots, r) ==> Met(w, c))
  }

  ghost predicate Closed(slots: Slots, root: Ref, w: Walker, out: seq<Item>) {
    (root == 0 || Met(w, root)) && forall r :: Swept(slots, w, out, r)
  }

  lemma TurnSound(slots: Slots, root: Ref, w: Walker, out: seq<Item>)
    requires w.stack != [] && Sound(slots, root, w, out)
    ensures var t := Turn(slots, w); Sound(slots, root, t.0, if t.1.Some? then out + [t.1.value] else out)
  {
    hide Collect, Push, Reachable;
    var m := |w.stack| - 1;
    var top, rest := w.stack[m], w.stack[..m];
    assert top in w.stack && forall x :: x in rest ==> x in w.stack;
    if top.ref in slots {
      PushSpec(rest, Below(slots, top.ref));
      forall c | c in Below(slots, top.ref) ensures Reachable(slots, root, c) {
        ReachBelow(slots, root, top.ref, c);
      }
    }
  }

  /** A turn keeps every reference met, and meets what is below the top once nothing more is due of it. */
  lemma TurnMeets(slots: Slots, w: Walker)
    requires w.stack != []
    ensures var t, top := Turn(slots, w), w.stack[|w.stack|-1];
      && (forall r :: Met(w, r) ==> Met(t.0, r))
      && (forall r :: Item(r, true) in w.stack && Item(r, true) != top ==> Item(r, true) in t.0.stack)
      && (t.1.Some? ==> Item(top.ref, true) in t.0.stack || forall c :: c in Below(slots, top.ref) ==> Met(t.0, c))
      && (t.1.None? && top.ref !in w.visited ==> top.ref !in slots)
      && (t.1.None? && top.emitted ==> top.ref !in slots)
  {
    hide Push;
    var m := |w.stack| - 1;
    var top, rest := w.stack[m], w.stack[..m];
    assert w.stack == rest + [top];
    if top.ref in slots { PushSpec(rest, Below(slots, top.ref)); }
  }

  lemma TurnClosed(slots: Slots, root: Ref, w: Walker, out: seq<Item>)
    requires w.stack != [] && Closed(slots, root, w, out) && Accounted(w, out)
    ensures var t := Turn(slots, w); Closed(slots, root, t.0, if t.1.Some? then out + [t.1.value] else out)
  {
    TurnItems(slots, w);
    TurnMeets(slots, w);
    var t := Turn(slots, w);
    var top := w.stack[|w.stack|-1];
    var out' := if t.1.Some? then out + [t.1.value] else out;
    assert top in w.stack;
    hide Turn, Below;
    forall r ensures Swept(slots, t.0, out', r) {
      assert Swept(slots, w, out, r);
    }
  }

  lemma AtRoot(slots: Slots, root: Ref, r: Ref)
    requires Within(slots, root, r, 0)
    ensures r == root && root != 0
  {
  }

  lemma Above(slots: Slots, root: Ref, r: Ref, n: nat) returns (p: Ref)
    requires n > 0 && Within(slots, root, r, n)
    ensures p in slots && Within(slots, root, p, n - 1) && r in Below(slots, p)
  {
    hide Below;
    p :| p in slots && Within(slots, root, p, n - 1) && r in Below(slots, p);
  }

  /** With nothing left to visit, every reachable node was visited. */
  lemma {:induction false} AllVisited(slots: Slots, root: Ref, w: Walker, out: seq<Item>, r: Ref, n: nat)
    requires Closed(slots, root, w, out) && w.stack == [] && Within(slots, root, r, n)
    ensures r in w.visited
    decreases n
  {
    hide Within, Below;
    if n == 0 {
      AtRoot(slots, root, r);
    } else {
      var p := Above(slots, root, r, n);
      AllVisited(slots, root, w, out, p, n - 1);
      assert Swept(slots, w, out, p);
      assert Met(w, r);
    }
  }

  lemma Complete(slots: Slots, root: Ref, w: Walker, out: seq<Item>)
    requires w.stack == [] && Sound(slots, root, w, out) && Closed(slots, root, w, out)
    ensures forall r :: Item(r, false) in out <==> r in slots && Reachable(slots, root, r)
  {
    forall r | r in slots && Reachable(slots, root, r) ensures Item(r, false) in out {
      var n: nat :| Within(slots, root, r, n);
      AllVisited(slots, root, w, out, r, n);
      assert Swept(slots, w, out, r);
    }
    hide Reachable;
  }

  // ---------------------------------------------------------------------------
  // All of a well-formed trie is reachable

  lemma {:induction false} CollectKids(slots: Slots, root: Ref, g: Shape, p: Ref, i: nat)
    requires Tree(slots, root, g) && p in slots && i <= |g.l.kids[p]| <= 256
    ensures Collect(slots, KidAt(g.l.kids[p], i), i) == g.l.kids[p][i..]
    decreases |g.l.kids[p]| - i
  {
    hide ChainAt, ParentAt, PathAt, NameAt;
    var k := g.l.kids[p];
    if i < |k| {
      KidIs(slots, g.l, root, p, i);
      CollectKids(slots, root, g, p, i + 1);
      assert k[i..] == [k[i]] + k[i+1..];
    }
  }

  lemma {:induction false} TreeReachable(slots: Slots, root: Ref, g: Shape, r: Ref)
    requires Tree(slots, root, g) && r in slots
    ensures Reachable(slots, root, r)
    decreases |g.path[r]|
  {
    if r == root {
      assert Within(slots, root, r, 0);
    } else {
      assert PathAt(slots, g, root, r) && ParentAt(slots, g.l, root, r);
      var p := g.l.parent[r];
      TreeReachable(slots, root, g, p);
      assert ChainAt(slots, g.l, root, p);
      FewKids(slots, root, g, p);
      CollectKids(slots, root, g, p, 0);
      assert r in Below(slots, p);
      ReachBelow(slots, root, p, r);
    }
  }

  // ---------------------------------------------------------------------------
  // The walks

  /** What holds of a walk under way and what it has reported. */
  ghost predicate Walked(slots: Slots, root: Ref, w: Walker, out: seq<Item>) {
    && Once(w, out) && Sound(slots, root, w, out) && Closed(slots, root, w, out)
    && Known(slots, root, w) && out + Rest(slots, root, w) == PreOrder(slots, root)
  }

  lemma TurnWalked(slots: Slots, root: Ref, w: Walker, out: seq<Item>)
    requires w.stack != [] && Walked(slots, root, w, out)
    ensures var t := Turn(slots, w); Walked(slots, root, t.0, if t.1.Some? then out + [t.1.value] else out)
  {
    hide Turn, DueOnce, Accounted, Sound, Closed, NoTwice, Known, Rest, PreOrder;
    TurnOnce(slots, w, out);
    TurnSound(slots, root, w, out);
    TurnClosed(slots, root, w, out);
    TurnRest(slots, root, w);
    var t := Turn(slots, w);
    assert t.1.Some? ==> out + ([t.1.value] + Rest(slots, root, t.0)) == out + [t.1.value] + Rest(slots, root, t.0);
    assert t.1.None? ==> out + ([] + Rest(slots, root, t.0)) == out + Rest(slots, root, t.0);
  }

  /** Next: turns until one reports a node or the stack is empty. */
  method Next(slots: Slots, w0: Walker, ghost root: Ref) returns (w: Walker, report: Option<Item>)
    requires Known(slots, root, w0)
    ensures Known(slots, root, w)
    ensures report.Some? ==> Less(Fuel(slots, root, w), Fuel(slots, root, w0))
    ensures report.None? ==> w.stack == []
    ensures forall out :: Walked(slots, root, w0, out) ==>
      Walked(slots, root, w, if report.Some? then out + [report.value] else out)
  {
    hide Known, Walked, Fuel;
    w, report := w0, None;
    ghost var started := false;
    while w.stack != []
      invariant Known(slots, root, w) && (started ==> Less(Fuel(slots, root, w), Fuel(slots, root, w0)))
      invariant (!started ==> w == w0)
      invariant forall out :: Walked(slots, root, w0, out) ==> Walked(slots, root, w, out)
      decreases Fuel(slots, root, w).0, Fuel(slots, root, w).1, Fuel(slots, root, w).2
    {
      TurnKnown(slots, root, w);
      TurnDescends(slots, root, w);
      forall out | Walked(slots, root, w, out)
        ensures Walked(slots, root, Turn(slots, w).0, if Turn(slots, w).1.Some? then out + [Turn(slots, w).1.value]
          else out)
      {
        TurnWalked(slots, root, w, out);
      }
      var v, r := TakeTurn(slots, w);
      w, started := v, true;
      if r.Some? {
        return w, r;
      }
    }
  }

  /** The body of Next's loop. */
  method TakeTurn(slots: Slots, w: Walker) returns (v: Walker, report: Option<Item>)
    requires w.stack != []
    ensures (v, report) == Turn(slots, w)
  {
    hide Collect, Push;
    var top := w.stack[|w.stack|-1];
    var stack, visited := w.stack[..|w.stack|-1], w.visited;
    if top.ref in visited && !top.emitted {
      return Walker(stack, visited), None;
    }
    if !top.emitted {
      visited := visited + {top.ref};
    }
    if top.ref !in slots {
      return Walker(stack, visited), None;
    }
    var node := slots[top.ref];
    if !top.emitted && IsLeaf(node) {
      if node.firstChild != 0 {
        stack := stack + [Item(top.ref, true)];
      }
    } else {
      var children := CollectChildren(slots, node);
      stack := PushChildren(stack, children);
    }
    return Walker(stack, visited), Some(top);
  }

  /** A complete walk. On any slots, cyclic ones included, it ends, reports no node twice on the same visit, and its
      first visits are exactly the readable references reachable from the root; on a tree those are all slots. The
      order is that of the recursion: a node, a branching leaf a second time, then its children, first child first. */
  method WalkTrie(slots: Slots, root: Ref) returns (out: seq<Item>)
    ensures NoTwice(out)
    ensures forall r :: Item(r, false) in out <==> r in slots && Reachable(slots, root, r)
    ensures forall g :: Tree(slots, root, g) ==> forall r :: r in slots <==> Item(r, false) in out
    ensures out == PreOrder(slots, root)
    ensures forall r :: Item(r, true) in out <==>
      r in slots && Reachable(slots, root, r) && (!slots[r].interm || slots[r].leaf) && slots[r].firstChild != 0
  {
    hide Known, Walked, Tree, Fuel, Reachable, PreOrder;
    var w := Walker(if root != 0 then [Item(root, false)] else [], {});
    out := [];
    Start(slots, root, w);
    var more := true;
    while more
      invariant Known(slots, root, w) && Walked(slots, root, w, out)
      invariant !more ==> w.stack == []
      decreases more, Fuel(slots, root, w).0, Fuel(slots, root, w).1, Fuel(slots, root, w).2
    {
      var report;
      w, report := Next(slots, w, root);
      if report.Some? {
        out := out + [report.value];
      } else {
        more := false;
      }
    }
    Finished(slots, root, w, out);
    SecondVisits(slots, root, out);
  }

  lemma SecondVisits(slots: Slots, root: Ref, out: seq<Item>)
    requires out == PreOrder(slots, root)
    requires forall r :: Item(r, false) in out <==> r in slots && Reachable(slots, root, r)
    ensures forall r :: Item(r, true) in out <==>
      r in slots && Reachable(slots, root, r) && IsLeaf(slots[r]) && slots[r].firstChild != 0
  {
    hide Reachable, One;
    if root != 0 { SecondReports(slots, root, root, {}); }
    forall r ensures Item(r, true) in out <==>
      r in slots && Reachable(slots, root, r) && IsLeaf(slots[r]) && slots[r].firstChild != 0
    {
      if Item(r, true) in out { assert SecondOk(slots, out, Item(r, true).ref); }
      if Item(r, false) in out { assert SecondOk(slots, out, Item(r, false).ref); }
    }
  }

  lemma Start(slots: Slots, root: Ref, w: Walker)
    requires w == Walker(if root != 0 then [Item(root, false)] else [], {})
    ensures Known(slots, root, w) && Walked(slots, root, w, [])
  {
    if root != 0 {
      assert Within(slots, root, root, 0);
      assert w.stack[..0] == [];
    }
  }

  lemma Finished(slots: Slots, root: Ref, w: Walker, out: seq<Item>)
    requires w.stack == [] && Walked(slots, root, w, out)
    ensures NoTwice(out) && forall r :: Item(r, false) in out <==> r in slots && Reachable(slots, root, r)
    ensures forall g :: Tree(slots, root, g) ==> forall r :: r in slots <==> Item(r, false) in out
    ensures out == PreOrder(slots, root)
  {
    assert out + [] == out;
    Complete(slots, root, w, out);
    hide Reachable, Tree;
    forall g, r | Tree(slots, root, g) && r in slots ensures Reachable(slots, root, r) {
      TreeReachable(slots, root, g, r);
    }
  }

  /** The readdir iterator: leaves on their first visit, with their stored name. On a directory's trie it
      lists every entry exactly once. */
  method ReadDir(slots: Slots, root: Ref, ghost g: Shape) returns (list: seq<(Name, Entry)>)
    requires Trie(slots, root, g)
    ensures forall i, j :: 0 <= i < j < |list| ==> list[i].0 != list[j].0
    ensures forall n, e :: (n, e) in list <==> n in Dir(slots, g) && Dir(slots, g)[n] == e
  {
    hide Dir;
    var items := WalkTrie(slots, root);
    ghost var from;
    list, from := Leaves(slots, items);
    ListedOnce(slots, root, g, items, from, list);
    forall n, e ensures (n, e) in list <==> n in Dir(slots, g) && Dir(slots, g)[n] == e {
      ListedAll(slots, root, g, items, from, list, n, e);
    }
  }

  predicate LeafVisit(slots: Slots, x: Item) {
    !x.emitted && x.ref in slots && IsLeaf(slots[x.ref])
  }

  /** The filter of TrieIterator.Next over a whole walk. */
  method Leaves(slots: Slots, items: seq<Item>) returns (list: seq<(Name, Entry)>, ghost from: seq<nat>)
    ensures Lists(slots, items, from, list)
  {
    hide Lists, LeafVisit;
    list, from := [], [];
    NoneListed(slots);
    for i := 0 to |items|
      invariant Lists(slots, items[..i], from, list)
    {
      ListsStep(slots, items[..i], from, list, items[i]);
      assert items[..i+1] == items[..i] + [items[i]];
      if LeafVisit(slots, items[i]) {
        VisitIn(slots, items[i]);
        list, from := list + [EntryOfSlot(slots[items[i].ref])], from + [i];
      }
    }
    assert items[..|items|] == items;
  }

  lemma VisitIn(slots: Slots, x: Item)
    requires LeafVisit(slots, x)
    ensures x.ref in slots
  {
  }

  lemma NoneListed(slots: Slots)
    ensures Lists(slots, [], [], [])
  {
  }

  lemma ListsStep(slots: Slots, items: seq<Item>, from: seq<nat>, list: seq<(Name, Entry)>, x: Item)
    requires Lists(slots, items, from, list)
    ensures LeafVisit(slots, x) ==> Lists(slots, items + [x], from + [|items|], list + [EntryOfSlot(slots[x.ref])])
    ensures !LeafVisit(slots, x) ==> Lists(slots, items + [x], from, list)
  {
    var more := items + [x];
    assert forall j :: 0 <= j < |items| ==> more[j] == items[j];
  }

  function EntryOfSlot(s: Slot): (r: (Name, Entry)) {
    (s.name, Entry(s.inode, s.ftype))
  }

  /** list holds the leaf visits of items, in order; from says which visit each came from. */
  ghost predicate Lists(slots: Slots, items: seq<Item>, from: seq<nat>, list: seq<(Name, Entry)>) {
    && |from| == |list|
    && (forall k :: 0 <= k < |from| ==> 0 <= from[k] < |items| && LeafVisit(slots, items[from[k]]))
    && (forall k, m :: 0 <= k < m < |from| ==> from[k] < from[m])
    && (forall k :: 0 <= k < |list| ==> list[k] == EntryOfSlot(slots[items[from[k]].ref]))
    && (forall j :: 0 <= j < |items| && LeafVisit(slots, items[j]) ==> EntryOfSlot(slots[items[j].ref]) in list)
  }

  lemma ListedOnce(slots: Slots, root: Ref, g: Shape, items: seq<Item>, from: seq<nat>, list: seq<(Name, Entry)>)
    requires Trie(slots, root, g) && NoTwice(items) && Lists(slots, items, from, list)
    ensures forall i, j :: 0 <= i < j < |list| ==> list[i].0 != list[j].0
  {
    hide ChainAt, ParentAt;
    forall i, j | 0 <= i < j < |list| ensures list[i].0 != list[j].0 {
      var a, b := items[from[i]].ref, items[from[j]].ref;
      assert items[from[i]] != items[from[j]];
      EntryAt(slots, root, g, a);
      EntryAt(slots, root, g, b);
      assert PathAt(slots, g, root, a) && PathAt(slots, g, root, b);
    }
  }

  lemma ListedAll(slots: Slots, root: Ref, g: Shape, items: seq<Item>, from: seq<nat>, list: seq<(Name, Entry)>,
                  n: Name, e: Entry)
    requires Trie(slots, root, g) && Lists(slots, items, from, list)
    requires (forall r :: r in slots <==> Item(r, false) in items)
    ensures (n, e) in list <==> n in Dir(slots, g) && Dir(slots, g)[n] == e
  {
    hide ChainAt, ParentAt, PathAt;
    if (n, e) in list {
      var k :| 0 <= k < |list| && list[k] == (n, e);
      EntryAt(slots, root, g, items[from[k]].ref);
    }
    if n in Dir(slots, g) {
      assert NameAt(slots, g, n);
      var r := g.at[n];
      EntryAt(slots, root, g, r);
      var j :| 0 <= j < |items| && items[j] == Item(r, false);
      assert LeafVisit(slots, items[j]) && EntryOfSlot(slots[items[j].ref]) in list;
    }
  }

  /** The walker object: Next reports the next node, and everything reachable comes up. */
  class TrieWalker {
    const slots: Slots
    var stack: seq<Item>
    var visited: set<Ref>
    ghost const root: Ref
    ghost var reported: seq<Item>

    ghost predicate Valid()
      reads this
    {
      Known(slots, root, Walker(stack, visited)) && Walked(slots, root, Walker(stack, visited), reported)
    }

    /** NewTrieWalker: a null root gives a walk that is finished at once. */
    constructor (slots: Slots, root: Ref)
      ensures Valid() && this.slots == slots && this.root == root && reported == []
    {
      this.slots, this.root := slots, root;
      stack, visited, reported := if root != 0 then [Item(root, false)] else [], {}, [];
      new;
      Start(slots, root, Walker(stack, visited));
    }

    /** No node is reported twice on the same visit; when the walk is over, exactly what can be reached and read
        has been reported. */
    method Step() returns (report: Option<Item>)
      requires Valid()
      modifies this
      ensures Valid() && reported == old(reported) + if report.Some? then [report.value] else []
      ensures report.Some? ==> report.value !in old(reported)
      ensures report.None? ==> forall r :: Item(r, false) in reported <==> r in slots && Reachable(slots, root, r)
      ensures report.None? ==> reported == PreOrder(slots, root)
      ensures report.None? ==> forall g :: Tree(slots, root, g) ==>
        forall r :: r in slots <==> Item(r, false) in reported
    {
      hide Known, Walked, Tree, Fuel, Reachable;
      var w;
      w, report := Next(slots, Walker(stack, visited), root);
      stack, visited := w.stack, w.visited;
      if report.Some? {
        reported := reported + [report.value];
        NewReport(slots, root, w, old(reported), report.value);
      } else {
        Finished(slots, root, w, reported);
      }
    }
  }

  lemma NewReport(slots: Slots, root: Ref, w: Walker, out: seq<Item>, x: Item)
    requires Walked(slots, root, w, out + [x])
    ensures x !in out
  {
    var all := out + [x];
    assert all[|out|] == x && forall i :: 0 <= i < |out| ==> all[i] == out[i] && all[i] != all[|out|];
  }
}
