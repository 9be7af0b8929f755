/** Journal replay of inode slots and allocation bitmaps (fuse/journal_replay.go). */
module Replay {
  import AllocCore
  import opened Extents
  import opened Options

  /** An inode table slot; armed says it carries the inode magic. meta stands for mode, link count, owner,
      size, times and flags; rest for the extent, xattr and other fields. */
  datatype Slot = Slot(armed: bool, generation: nat, number: nat, meta: int, trieRoot: nat, rest: int)

  /** trieRoot and failed are what the trie operation of a directory update gives. */
  datatype Record =
    | DirUpdate(parent: nat, trieRoot: nat, failed: bool)
    | InodeAlloc(ino: nat)
    | InodeFree(ino: nat)
    | InodeUpdate(ino: nat, meta: int, generation: Option<nat>)
    | InodeFull(ino: nat, raw: Slot)
    | ExtentAlloc(phys: nat, length: nat)
    | ExtentFree(phys: nat, length: nat)
    | TrieAlloc(block: nat, freed: bool)

  /** Snapshots carry the inode magic, and records name slots of the table. */
  predicate WellFormed(rec: Record, slots: map<nat, Slot>) {
    match rec
    case DirUpdate(p, _, _) => p in slots
    case InodeUpdate(ino, _, _) => ino in slots
    case InodeFull(ino, raw) => ino in slots && raw.armed
    case _ => true
  }

  // ---------------------------------------------------------------------------
  // Bitmaps

  datatype Layout = Layout(dataStart: nat, dataBlocks: nat, inodeBlocks: nat)

  /** What a record says about data block x: allocated, free, or nothing. A free whose first block lies
      below the data region is dropped whole; an allocation is clipped block by block. */
  function DataVerdict(l: Layout, rec: Record, x: nat): (r: Option<bool>) {
    if x >= l.dataBlocks then None
    else
      match rec
      case ExtentAlloc(phys, n) => if InSpan(phys, n, l.dataStart + x) then Some(false) else None
      case ExtentFree(phys, n) => if phys >= l.dataStart && InSpan(phys, n, l.dataStart + x) then Some(true) else None
      case TrieAlloc(b, freed) => if b == l.dataStart + x then Some(freed) else None
      case _ => None
  }

  function InodeVerdict(l: Layout, rec: Record, x: nat): (r: Option<bool>) {
    if x >= l.inodeBlocks then None
    else
      match rec
      case InodeAlloc(ino) => if ino == x + 1 then Some(false) else None
      case InodeFree(ino) => if ino == x + 1 then Some(true) else None
      case _ => None
  }

  /** What a record says about a bit of the data or of the inode bitmap. */
  function Verdict(l: Layout, rec: Record, x: nat, data: bool): (r: Option<bool>) {
    if data then DataVerdict(l, rec, x) else InodeVerdict(l, rec, x)
  }

  /** A bit after a record that may name it. */
  predicate BitAfter(v: Option<bool>, was: bool) {
    if v.Some? then v.value else was
  }

  /** The verdict of the last record of a log that names the bit. */
  function LastVerdict(l: Layout, log: seq<Record>, x: nat, data: bool): (r: Option<bool>) {
    if log == [] then None
    else
      var v := Verdict(l, log[|log|-1], x, data);
      if v.Some? then v else LastVerdict(l, log[..|log|-1], x, data)
  }

  /** The free set a log leaves, as a set of bits. */
  ghost predicate FreeAfter(l: Layout, log: seq<Record>, free: set<nat>, free': set<nat>, data: bool) {
    forall x: nat :: x in free' <==> BitAfter(LastVerdict(l, log, x, data), x in free)
  }

  /** Applying a log twice leaves the same bits as once: only the last record naming a bit matters. */
  lemma Twice(l: Layout, log: seq<Record>, a: set<nat>, b: set<nat>, c: set<nat>, data: bool)
    requires FreeAfter(l, log, a, b, data) && FreeAfter(l, log, b, c, data)
    ensures c == b
  {
    forall x: nat ensures x in c <==> x in b {
    }
  }

  /** No record of the log names the bit. */
  predicate Silent(l: Layout, log: seq<Record>, x: nat, data: bool) {
    forall i :: 0 <= i < |log| ==> Verdict(l, log[i], x, data).None?
  }

  /** A bit named by no record keeps its value, and one named last by a record takes that record's. */
  lemma LastWins(l: Layout, log: seq<Record>, rec: Record, tail: seq<Record>, a: set<nat>, b: set<nat>, x: nat,
                 data: bool)
    requires FreeAfter(l, log + [rec] + tail, a, b, data) && Silent(l, tail, x, data)
    ensures Verdict(l, rec, x, data).Some? ==> (x in b <==> Verdict(l, rec, x, data).value)
    ensures Silent(l, log + [rec], x, data) ==> (x in b <==> x in a)
  {
    TailSilent(l, log + [rec], tail, x, data);
    assert (log + [rec])[..|log|] == log;
    if Silent(l, log + [rec], x, data) {
      TailSilent(l, [], log + [rec], x, data);
      assert [] + (log + [rec]) == log + [rec];
    }
  }

  lemma {:induction false} TailSilent(l: Layout, log: seq<Record>, tail: seq<Record>, x: nat, data: bool)
    requires Silent(l, tail, x, data)
    ensures LastVerdict(l, log + tail, x, data) == LastVerdict(l, log, x, data)
  {
    var all := log + tail;
    if tail == [] {
      assert all == log;
    } else {
      var m := |tail| - 1;
      TailSilent(l, log, tail[..m], x, data);
      assert all[..|all|-1] == log + tail[..m] && all[|all|-1] == tail[m];
    }
  }

  /** The record names inode ino. */
  predicate NamesInode(rec: Record, ino: nat) {
    (rec.InodeAlloc? || rec.InodeFree?) && rec.ino == ino
  }

  predicate NoInode(log: seq<Record>, from: nat, to: nat, ino: nat)
    requires to <= |log|
  {
    forall j :: from <= j < to ==> !NamesInode(log[j], ino)
  }

  /** Record k is the last of the first n that names inode ino. */
  predicate LastInode(log: seq<Record>, n: nat, k: nat, ino: nat)
    requires n <= |log|
  {
    k < n && NamesInode(log[k], ino) && NoInode(log, k + 1, n, ino)
  }

  /** An inode is allocated after a log exactly when the last record naming it allocates it, or when none names
      it and it was allocated before. */
  lemma InodeAfter(l: Layout, log: seq<Record>, n: nat, a: set<nat>, b: set<nat>, ino: nat)
    requires n <= |log| && FreeAfter(l, log[..n], a, b, false) && 0 < ino <= l.inodeBlocks
    ensures NoInode(log, 0, n, ino) ==> (ino - 1 !in b <==> ino - 1 !in a)
    ensures forall k: nat :: LastInode(log, n, k, ino) ==> (ino - 1 !in b <==> log[k].InodeAlloc?)
  {
    var x, pre := ino - 1, log[..n];
    assert forall k :: 0 <= k < n ==>
      pre[k] == log[k] && (Verdict(l, pre[k], x, false).Some? <==> NamesInode(log[k], ino));
    if NoInode(log, 0, n, ino) { LastNamed(l, pre, n, a, b, x, false); }
    forall k: nat | LastInode(log, n, k, ino) ensures ino - 1 !in b <==> log[k].InodeAlloc? {
      LastNamed(l, pre, k, a, b, x, false);
    }
  }

  /** The record names data block x of the region. */
  predicate NamesData(l: Layout, rec: Record, x: nat) {
    match rec
    case ExtentAlloc(phys, n) => phys <= l.dataStart + x < phys + n
    case ExtentFree(phys, n) => l.dataStart <= phys <= l.dataStart + x < phys + n
    case TrieAlloc(b, _) => b == l.dataStart + x
    case _ => false
  }

  predicate NoData(l: Layout, log: seq<Record>, from: nat, to: nat, x: nat)
    requires to <= |log|
  {
    forall j :: from <= j < to ==> !NamesData(l, log[j], x)
  }

  predicate LastData(l: Layout, log: seq<Record>, n: nat, k: nat, x: nat)
    requires n <= |log|
  {
    k < n && NamesData(l, log[k], x) && NoData(l, log, k + 1, n, x)
  }

  /** The same of a data block: only a free of an extent or of a trie page frees it. */
  lemma DataAfter(l: Layout, log: seq<Record>, n: nat, a: set<nat>, b: set<nat>, x: nat)
    requires n <= |log| && FreeAfter(l, log[..n], a, b, true) && x < l.dataBlocks
    ensures NoData(l, log, 0, n, x) ==> (x in b <==> x in a)
    ensures forall k: nat :: LastData(l, log, n, k, x) ==>
      (x in b <==> log[k].ExtentFree? || (log[k].TrieAlloc? && log[k].freed))
  {
    var pre := log[..n];
    assert forall k :: 0 <= k < n ==>
      pre[k] == log[k] && (Verdict(l, pre[k], x, true).Some? <==> NamesData(l, log[k], x));
    if NoData(l, log, 0, n, x) { LastNamed(l, pre, n, a, b, x, true); }
    forall k: nat | LastData(l, log, n, k, x)
      ensures x in b <==> log[k].ExtentFree? || (log[k].TrieAlloc? && log[k].freed)
    {
      LastNamed(l, pre, k, a, b, x, true);
    }
  }

  lemma LastNamed(l: Layout, log: seq<Record>, k: nat, a: set<nat>, b: set<nat>, x: nat, data: bool)
    requires FreeAfter(l, log, a, b, data) && k <= |log|
    ensures Silent(l, log, x, data) ==> (x in b <==> x in a)
    ensures k < |log| && Verdict(l, log[k], x, data).Some? && Silent(l, log[k+1..], x, data) ==>
      (x in b <==> Verdict(l, log[k], x, data).value)
  {
    if Silent(l, log, x, data) {
      TailSilent(l, [], log, x, data);
      assert [] + log == log;
    }
    if k < |log| && Silent(l, log[k+1..], x, data) {
      assert log[..k] + [log[k]] + log[k+1..] == log;
      LastWins(l, log[..k], log[k], log[k+1..], a, b, x, data);
    }
  }

  /** One record's effect on the data bitmap. */
  ghost predicate DataStep(l: Layout, rec: Record, free: set<nat>, free': set<nat>) {
    forall x: nat :: x in free' <==> BitAfter(DataVerdict(l, rec, x), x in free)
  }

  /** Every block of the run that lies in the data region is free. */
  ghost predicate RunFree(l: Layout, phys: nat, n: nat, free: set<nat>) {
    forall x: nat :: x < l.dataBlocks && InSpan(phys, n, l.dataStart + x) ==> x in free
  }

  /** Replaying a free record frees the run's blocks whatever was free before, exactly when the run starts in the
      data region, ends before it, or the region is empty. */
  lemma FreeExact(l: Layout, phys: nat, n: nat)
    ensures (forall free: set<nat>,
      free': set<nat> :: DataStep(l, ExtentFree(phys, n), free, free') ==> RunFree(l, phys, n, free'))
      <==> (phys >= l.dataStart || phys + n <= l.dataStart || l.dataBlocks == 0)
  {
    if !(phys >= l.dataStart || phys + n <= l.dataStart || l.dataBlocks == 0) {
      assert DataStep(l, ExtentFree(phys, n), {}, {});
      var none: set<nat>, x: nat := {}, 0;
      assert x !in none && InSpan(phys, n, l.dataStart + x);
      assert !RunFree(l, phys, n, none);
    }
  }

  /** A run of two blocks across the start of the region: its second block stays allocated, though the allocation
      record of the same run reserves it. */
  lemma StraddlingFree()
    ensures var l := Layout(100, 10, 0);
      && DataVerdict(l, ExtentFree(99, 2), 0) == None && DataVerdict(l, ExtentAlloc(99, 2), 0) == Some(false)
      && DataStep(l, ExtentFree(99, 2), {}, {}) && !RunFree(l, 99, 2, {})
  {
    var l := Layout(100, 10, 0);
    assert InSpan(99, 2, l.dataStart + 0) && 0 < l.dataBlocks;
  }

  // ---------------------------------------------------------------------------
  // Inode slots

  /** What a record other than a directory update makes of slot i. */
  function SlotStep(s: Slot, rec: Record, i: nat): (r: Slot) {
    if !s.armed then s
    else
      match rec
      case InodeFull(ino, raw) => if ino == i && raw.generation == s.generation then raw else s
      case InodeUpdate(ino, meta, generation) =>
        if ino == i && (generation.Some? ==> generation.value == s.generation) then s.(number := i, meta := meta) else s
      case _ => s
  }

  function SlotAfter(s: Slot, log: seq<Record>, i: nat): (r: Slot) {
    if log == [] then s else SlotStep(SlotAfter(s, log[..|log|-1], i), log[|log|-1], i)
  }

  /** Snapshots carry the inode magic. */
  predicate Armed(log: seq<Record>) {
    forall k :: 0 <= k < |log| && log[k].InodeFull? ==> log[k].raw.armed
  }

  /** A record that passes the guard rewrites slot i: all of it, or its metadata only. */
  predicate Restores(s: Slot, rec: Record, i: nat) {
    s.armed && rec.InodeFull? && rec.ino == i && rec.raw.generation == s.generation
  }

  predicate Updates(s: Slot, rec: Record, i: nat) {
    s.armed && rec.InodeUpdate? && rec.ino == i && (rec.generation.Some? ==> rec.generation.value == s.generation)
  }

  predicate AnyRestores(s: Slot, log: seq<Record>, i: nat) {
    exists k :: 0 <= k < |log| && Restores(s, log[k], i)
  }

  predicate AnyWrites(s: Slot, log: seq<Record>, i: nat) {
    exists k :: 0 <= k < |log| && (Restores(s, log[k], i) || Updates(s, log[k], i))
  }

  /** The magic and the generation never change; and what a log leaves in the extent fields, or in the metadata,
      does not depend on what was there, unless the log writes none of it. */
  lemma {:induction false} SlotForgets(s: Slot, t: Slot, log: seq<Record>, i: nat)
    requires Armed(log) && s.armed == t.armed && s.generation == t.generation
    ensures SlotAfter(s, log, i).armed == s.armed && SlotAfter(s, log, i).generation == s.generation
    ensures SlotAfter(t, log, i).armed == s.armed && SlotAfter(t, log, i).generation == s.generation
    ensures var a, b := SlotAfter(s, log, i), SlotAfter(t, log, i);
      if AnyRestores(s, log, i) then a.trieRoot == b.trieRoot && a.rest == b.rest
      else a.trieRoot == s.trieRoot && a.rest == s.rest && b.trieRoot == t.trieRoot && b.rest == t.rest
    ensures var a, b := SlotAfter(s, log, i), SlotAfter(t, log, i);
      if AnyWrites(s, log, i) then a.number == b.number && a.meta == b.meta
      else a.number == s.number && a.meta == s.meta && b.number == t.number && b.meta == t.meta
  {
    if log != [] {
      var n := |log| - 1;
      var pre, last := log[..n], log[n];
      SlotForgets(s, t, pre, i);
      AnySnoc(s, pre, last, i);
      assert log == pre + [last];
    }
  }

  lemma AnySnoc(s: Slot, pre: seq<Record>, last: Record, i: nat)
    ensures AnyRestores(s, pre + [last], i) <==> AnyRestores(s, pre, i) || Restores(s, last, i)
    ensures AnyWrites(s, pre + [last], i) <==> AnyWrites(s, pre, i) || Restores(s, last, i) || Updates(s, last, i)
  {
    var all := pre + [last];
    assert all[|pre|] == last;
    if AnyRestores(s, pre, i) {
      var k :| 0 <= k < |pre| && Restores(s, pre[k], i);
      assert Restores(s, all[k], i);
    }
    if AnyWrites(s, pre, i) {
      var k :| 0 <= k < |pre| && (Restores(s, pre[k], i) || Updates(s, pre[k], i));
      assert Restores(s, all[k], i) || Updates(s, all[k], i);
    }
  }

  /** Replaying a log twice leaves each slot as replaying it once. */
  lemma SlotTwice(s: Slot, log: seq<Record>, i: nat)
    requires Armed(log)
    ensures SlotAfter(SlotAfter(s, log, i), log, i) == SlotAfter(s, log, i)
  {
    hide SlotAfter;
    var t := SlotAfter(s, log, i);
    SlotForgets(s, s, log, i);
    SlotForgets(s, t, log, i);
  }

  /** No directory update names slot i. */
  predicate Undirected(log: seq<Record>, i: nat) {
    forall k :: 0 <= k < |log| ==> !(log[k].DirUpdate? && log[k].parent == i)
  }

  // ---------------------------------------------------------------------------
  // Slots that directory updates name

  predicate Directs(rec: Record, i: nat) {
    rec.DirUpdate? && rec.parent == i
  }

  /** The first record that fixes the copy of slot i directory updates build on: a snapshot or a directory update. */
  predicate Fixes(rec: Record, i: nat) {
    Directs(rec, i) || (rec.InodeFull? && rec.ino == i)
  }

  function FirstFix(log: seq<Record>, i: nat): (r: nat)
    ensures r <= |log|
  {
    if log == [] then 0
    else
      var n := |log| - 1;
      var p := FirstFix(log[..n], i);
      if p < n then p else if Fixes(log[n], i) then n else |log|
  }

  /** The slot before that record. */
  function Base(s: Slot, log: seq<Record>, i: nat): (r: Slot) {
    SlotAfter(s, log[..FirstFix(log, i)], i)
  }

  /** Slot i after a log: a directory update that succeeds puts back the base with the new root, undoing every
      snapshot and update before it. */
  function Replayed(s: Slot, log: seq<Record>, i: nat): (r: Slot) {
    if log == [] then s
    else
      var pre, last := log[..|log|-1], log[|log|-1];
      if !Directs(last, i) then SlotStep(Replayed(s, pre, i), last, i)
      else if s.armed && !last.failed then Base(s, log, i).(trieRoot := last.trieRoot)
      else Replayed(s, pre, i)
  }

  lemma BaseSnoc(s: Slot, log: seq<Record>, rec: Record, i: nat)
    ensures Base(s, log + [rec], i) ==
      if FirstFix(log, i) < |log| || Fixes(rec, i) then Base(s, log, i) else SlotStep(Base(s, log, i), rec, i)
    ensures FirstFix(log + [rec], i) ==
      if FirstFix(log, i) < |log| then FirstFix(log, i) else if Fixes(rec, i) then |log| else |log| + 1
  {
    var all := log + [rec];
    assert all[..|log|] == log && all[..|log| + 1] == all && log[..|log|] == log;
    assert forall k: nat :: k <= |log| ==> all[..k] == log[..k];
  }

  lemma ReplayedSnoc(s: Slot, log: seq<Record>, rec: Record, i: nat)
    ensures Replayed(s, log + [rec], i) ==
      if !Directs(rec, i) then SlotStep(Replayed(s, log, i), rec, i)
      else if s.armed && !rec.failed then Base(s, log + [rec], i).(trieRoot := rec.trieRoot)
      else Replayed(s, log, i)
  {
    assert (log + [rec])[..|log|] == log;
  }

  /** Magic and generation stay. */
  lemma {:induction false} AfterKeeps(s: Slot, log: seq<Record>, i: nat)
    requires Armed(log)
    ensures SlotAfter(s, log, i).armed == s.armed && SlotAfter(s, log, i).generation == s.generation
  {
    if log != [] { AfterKeeps(s, log[..|log|-1], i); }
  }

  /** Before the first fix, and on a slot no directory update names, the records simply apply in order. */
  lemma {:induction false} ReplayedPlain(s: Slot, log: seq<Record>, i: nat)
    ensures Undirected(log, i) || FirstFix(log, i) == |log| || !s.armed ==> Replayed(s, log, i) == SlotAfter(s, log, i)
  {
    if log != [] {
      var n := |log| - 1;
      ReplayedPlain(s, log[..n], i);
      if !s.armed { UnarmedStays(s, log, i); UnarmedStays(s, log[..n], i); }
    }
  }

  lemma {:induction false} UnarmedStays(s: Slot, log: seq<Record>, i: nat)
    requires !s.armed
    ensures SlotAfter(s, log, i) == s
  {
    if log != [] { UnarmedStays(s, log[..|log|-1], i); }
  }

  /** No directory update that succeeds names slot i. */
  predicate Unset(log: seq<Record>, i: nat) {
    forall k :: 0 <= k < |log| && Directs(log[k], i) ==> log[k].failed
  }

  /** The last directory update that succeeds resets the slot, and what follows applies in order. */
  lemma {:induction false} ResetForm(s: Slot, log: seq<Record>, rec: Record, tail: seq<Record>, i: nat)
    requires s.armed && Directs(rec, i) && !rec.failed && Unset(tail, i)
    ensures Replayed(s, log + [rec] + tail, i) ==
      SlotAfter(Base(s, log + [rec], i).(trieRoot := rec.trieRoot), tail, i)
  {
    if tail == [] {
      assert log + [rec] + tail == log + [rec];
      ReplayedSnoc(s, log, rec, i);
    } else {
      var m := |tail| - 1;
      ResetForm(s, log, rec, tail[..m], i);
      assert log + [rec] + tail == (log + [rec] + tail[..m]) + [tail[m]];
      ReplayedSnoc(s, log + [rec] + tail[..m], tail[m], i);
    }
  }

  /** Base, prefix and tail of a log cut at its last directory update that succeeds. */
  lemma BaseStays(s: Slot, log: seq<Record>, rec: Record, i: nat)
    requires Directs(rec, i)
    ensures var k := FirstFix(log + [rec], i);
      k <= |log| && Base(s, log + [rec], i) == SlotAfter(s, log[..k], i) && forall j :: 0 <= j < k ==> !Fixes(log[j], i)
  {
    BaseSnoc(s, log, rec, i);
    NoneBefore(log, i);
    var k := FirstFix(log + [rec], i);
    assert (log + [rec])[..k] == log[..k];
  }

  lemma {:induction false} NoneBefore(log: seq<Record>, i: nat)
    ensures forall j :: 0 <= j < FirstFix(log, i) ==> !Fixes(log[j], i)
  {
    if log != [] { NoneBefore(log[..|log|-1], i); }
  }

  lemma {:induction false} LastSet(log: seq<Record>, i: nat) returns (k: nat)
    requires !Unset(log, i)
    ensures k < |log| && Directs(log[k], i) && !log[k].failed && Unset(log[k+1..], i)
  {
    var n := |log| - 1;
    if Directs(log[n], i) && !log[n].failed {
      k := n;
    } else {
      assert !Unset(log[..n], i);
      k := LastSet(log[..n], i);
      assert log[..n][k+1..] + [log[n]] == log[k+1..];
    }
  }

  lemma {:induction false} UnsetPlain(s: Slot, log: seq<Record>, i: nat)
    requires Unset(log, i)
    ensures Replayed(s, log, i) == SlotAfter(s, log, i)
  {
    if log != [] { UnsetPlain(s, log[..|log|-1], i); }
  }

  /** Resetting on top of a slot the same log left gives that slot again. */
  lemma ResetTwice(s: Slot, prefix: seq<Record>, tail: seq<Record>, root: nat, i: nat)
    requires Armed(prefix) && Armed(tail) && !AnyRestores(s, prefix, i)
    ensures var t := SlotAfter(SlotAfter(s, prefix, i).(trieRoot := root), tail, i);
      SlotAfter(SlotAfter(t, prefix, i).(trieRoot := root), tail, i) == t
  {
    hide SlotAfter, Restores, Updates;
    var b := SlotAfter(s, prefix, i).(trieRoot := root);
    var t := SlotAfter(b, tail, i);
    var b' := SlotAfter(t, prefix, i).(trieRoot := root);
    SlotForgets(s, s, prefix, i);
    SlotForgets(b, b, tail, i);
    SlotForgets(s, t, prefix, i);
    SlotForgets(b, b', tail, i);
  }

  /** Replaying a log twice, with the same trie roots, leaves every slot as replaying it once. */
  lemma ReplayedTwice(s: Slot, log: seq<Record>, i: nat)
    requires Armed(log)
    ensures Replayed(Replayed(s, log, i), log, i) == Replayed(s, log, i)
  {
    var t := Replayed(s, log, i);
    if Unset(log, i) || !s.armed {
      if Unset(log, i) { UnsetPlain(s, log, i); UnsetPlain(t, log, i); SlotTwice(s, log, i); }
      else { ReplayedPlain(s, log, i); UnarmedStays(s, log, i); }
    } else {
      var k := LastSet(log, i);
      var pre, rec, tail := log[..k], log[k], log[k+1..];
      assert log == pre + [rec] + tail;
      BaseStays(s, pre, rec, i);
      BaseStays(t, pre, rec, i);
      var prefix := pre[..FirstFix(pre + [rec], i)];
      ResetForm(s, pre, rec, tail, i);
      SlotForgets(s, s, prefix, i);
      SlotForgets(SlotAfter(s, prefix, i).(trieRoot := rec.trieRoot), s, tail, i);
      ResetForm(t, pre, rec, tail, i);
      ResetTwice(s, prefix, tail, rec.trieRoot, i);
    }
  }

  // ---------------------------------------------------------------------------
  // The replay

  /** The copy of a directory's inode that replay builds on: cached, else stashed before the first
      snapshot restore, else the table's. */
  function Anchor(parents: map<nat, Slot>, pristine: map<nat, Slot>, slots: map<nat, Slot>, i: nat): (r: Slot)
    requires i in slots
  {
    if i in parents then parents[i] else if i in pristine then pristine[i] else slots[i]
  }

  function Get(m: map<nat, Slot>, i: nat): (r: Option<Slot>) {
    if i in m then Some(m[i]) else None
  }

  /** Slot i and what the caches hold for it, after a log. */
  ghost predicate Tracks(s: Slot, log: seq<Record>, i: nat, cur: Slot, cached: Option<Slot>, stash: Option<Slot>) {
    && cur == Replayed(s, log, i) && cur.armed == s.armed
    && (cached.Some? ==> s.armed && cached.value == Base(s, log, i).(trieRoot := cached.value.trieRoot))
    && (stash.Some? && cached.None? ==> stash.value == Base(s, log, i))
    && (s.armed && (cached.Some? || stash.Some?) ==> FirstFix(log, i) < |log|)
    && (s.armed && cached.None? && stash.None? ==> FirstFix(log, i) == |log|)
  }

  lemma TracksNone(s: Slot, i: nat)
    ensures Tracks(s, [], i, s, None, None)
  {
  }

  /** A record that names slot i in neither way leaves its caches alone. */
  lemma TracksStep(s: Slot, log: seq<Record>, rec: Record, i: nat, cur: Slot, cached: Option<Slot>,
                   stash: Option<Slot>, cur': Slot)
    requires Tracks(s, log, i, cur, cached, stash) && !Fixes(rec, i) && cur' == SlotStep(cur, rec, i)
    requires cur'.armed == cur.armed
    ensures Tracks(s, log + [rec], i, cur', cached, stash)
  {
    BaseSnoc(s, log, rec, i);
    ReplayedSnoc(s, log, rec, i);
    if !s.armed {
      UnarmedStays(s, log[..FirstFix(log, i)], i);
    }
  }

  lemma TracksFull(s: Slot, log: seq<Record>, rec: Record, i: nat, cur: Slot, cached: Option<Slot>,
                   stash: Option<Slot>, cur': Slot)
    requires Tracks(s, log, i, cur, cached, stash) && rec.InodeFull? && rec.ino == i && cur' == SlotStep(cur, rec, i)
    requires cur'.armed == cur.armed
    ensures Tracks(s, log + [rec], i, cur', cached, if cached.None? && stash.None? then Some(cur) else stash)
  {
    BaseSnoc(s, log, rec, i);
    ReplayedSnoc(s, log, rec, i);
    ReplayedPlain(s, log, i);
    assert log[..|log|] == log;
    if !s.armed {
      UnarmedStays(s, log, i);
      UnarmedStays(s, log[..FirstFix(log, i)], i);
    }
  }

  lemma TracksDir(s: Slot, log: seq<Record>, rec: Record, i: nat, cur: Slot, cached: Option<Slot>,
                  stash: Option<Slot>, cur': Slot)
    requires Tracks(s, log, i, cur, cached, stash) && Directs(rec, i) && cur'.armed == cur.armed
    requires var anchor := if cached.Some? then cached.value else if stash.Some? then stash.value else cur;
      cur' == if cur.armed && !rec.failed then anchor.(trieRoot := rec.trieRoot) else cur
    ensures var anchor := if cached.Some? then cached.value else if stash.Some? then stash.value else cur;
      Tracks(s, log + [rec], i, cur', if cur.armed then Some(anchor.(trieRoot := rec.trieRoot)) else cached, stash)
  {
    BaseSnoc(s, log, rec, i);
    ReplayedSnoc(s, log, rec, i);
    ReplayedPlain(s, log, i);
    assert log[..|log|] == log;
    if !s.armed {
      UnarmedStays(s, log[..FirstFix(log, i)], i);
    }
  }

  /** Every inode's bit after the first n records. */
  ghost predicate InodesSettled(l: Layout, log: seq<Record>, n: nat, a: set<nat>, b: set<nat>)
    requires n <= |log|
  {
    && (forall ino: nat :: 0 < ino <= l.inodeBlocks && NoInode(log, 0, n, ino) ==> (ino - 1 !in b <==> ino - 1 !in a))
    && forall ino: nat, k: nat :: 0 < ino <= l.inodeBlocks && LastInode(log, n, k, ino) ==>
         (ino - 1 !in b <==> log[k].InodeAlloc?)
  }

  /** Every data block's bit. */
  ghost predicate DataSettled(l: Layout, log: seq<Record>, n: nat, a: set<nat>, b: set<nat>)
    requires n <= |log|
  {
    && (forall x: nat :: x < l.dataBlocks && NoData(l, log, 0, n, x) ==> (x in b <==> x in a))
    && forall x: nat, k: nat :: x < l.dataBlocks && LastData(l, log, n, k, x) ==>
         (x in b <==> log[k].ExtentFree? || (log[k].TrieAlloc? && log[k].freed))
  }

  lemma Settled(l: Layout, log: seq<Record>, n: nat, i0: set<nat>, i1: set<nat>, d0: set<nat>, d1: set<nat>)
    requires n <= |log| && FreeAfter(l, log[..n], i0, i1, false) && FreeAfter(l, log[..n], d0, d1, true)
    ensures InodesSettled(l, log, n, i0, i1) && DataSettled(l, log, n, d0, d1)
  {
    hide FreeAfter, NoInode, LastInode, NoData, LastData;
    forall ino: nat | 0 < ino <= l.inodeBlocks && NoInode(log, 0, n, ino) ensures ino - 1 !in i1 <==> ino - 1 !in i0 {
      InodeAfter(l, log, n, i0, i1, ino);
    }
    forall ino: nat, k: nat | 0 < ino <= l.inodeBlocks && LastInode(log, n, k, ino)
      ensures k < |log| && (ino - 1 !in i1 <==> log[k].InodeAlloc?)
    {
      LastInodeIn(log, n, k, ino);
      InodeAfter(l, log, n, i0, i1, ino);
    }
    forall x: nat | x < l.dataBlocks && NoData(l, log, 0, n, x) ensures x in d1 <==> x in d0 {
      DataAfter(l, log, n, d0, d1, x);
    }
    forall x: nat, k: nat | x < l.dataBlocks && LastData(l, log, n, k, x)
      ensures k < |log| && (x in d1 <==> log[k].ExtentFree? || (log[k].TrieAlloc? && log[k].freed))
    {
      LastDataIn(l, log, n, k, x);
      DataAfter(l, log, n, d0, d1, x);
    }
  }

  lemma LastInodeIn(log: seq<Record>, n: nat, k: nat, ino: nat)
    requires n <= |log| && LastInode(log, n, k, ino)
    ensures k < n
  {
  }

  lemma LastDataIn(l: Layout, log: seq<Record>, n: nat, k: nat, x: nat)
    requires n <= |log| && LastData(l, log, n, k, x)
    ensures k < n
  {
  }

  class Replayer {
    const l: Layout
    var slots: map<nat, Slot>
    var parents: map<nat, Slot>
    var pristine: map<nat, Slot>
    var dataFree: set<nat>
    var inodeFree: set<nat>

    constructor (l: Layout, slots: map<nat, Slot>, dataFree: set<nat>, inodeFree: set<nat>)
      ensures Valid() && this.l == l && this.slots == slots && this.dataFree == dataFree && this.inodeFree == inodeFree
    {
      this.l, this.slots, this.dataFree, this.inodeFree := l, slots, dataFree, inodeFree;
      parents, pristine := map[], map[];
    }

    /** Cached parents and stashed slots agree with the table on magic and generation; cached parents are armed. */
    ghost predicate Valid()
      reads this
    {
      && (forall i :: i in parents ==>
            i in slots && slots[i].armed && parents[i].armed && parents[i].generation == slots[i].generation)
      && (forall i :: i in pristine ==>
            i in slots && pristine[i].armed == slots[i].armed && pristine[i].generation == slots[i].generation)
    }

    /** No slot changes its generation, is armed or is disarmed. */
    ghost predicate Guarded(before: map<nat, Slot>)
      reads this
    {
      && slots.Keys == before.Keys
      && forall i :: i in before ==> slots[i].armed == before[i].armed && slots[i].generation == before[i].generation
    }

    /** replayInodeFull: a snapshot is restored exactly into an armed slot of its own generation. */
    method ReplayInodeFull(ino: nat, raw: Slot)
      requires Valid() && ino in slots && raw.armed
      modifies this`slots, this`pristine
      ensures Valid() && Guarded(old(slots))
      ensures slots == if old(slots)[ino].armed &&
        raw.generation == old(slots)[ino].generation then old(slots)[ino := raw] else old(slots)
      ensures pristine == if ino in parents ||
        ino in old(pristine) then old(pristine) else old(pristine)[ino := old(slots)[ino]]
    {
      if ino !in parents && ino !in pristine {
        pristine := pristine[ino := slots[ino]];
      }
      if !slots[ino].armed {
        return;
      }
      if raw.generation != slots[ino].generation {
        return;
      }
      slots := slots[ino := raw];
    }

    /** replayInodeUpdate: skipped on a free slot and, if the record carries a generation, on another one;
        otherwise only the metadata and the number change. */
    method ReplayInodeUpdate(ino: nat, meta: int, generation: Option<nat>)
      requires Valid() && ino in slots
      modifies this`slots
      ensures Valid() && Guarded(old(slots))
      ensures slots == if old(slots)[ino].armed && (generation.Some? ==> generation.value == old(slots)[ino].generation)
        then old(slots)[ino := old(slots)[ino].(number := ino, meta := meta)] else old(slots)
    {
      if !slots[ino].armed {
        return;
      }
      if generation.Some? && generation.value != slots[ino].generation {
        return;
      }
      slots := slots[ino := slots[ino].(number := ino, meta := meta)];
    }

    /** replayDirUpdate: the parent's first cached copy, with its new trie root, is written back. */
    method ReplayDirUpdate(parent: nat, trieRoot: nat, failed: bool) returns (ok: bool)
      requires Valid() && parent in slots
      modifies this`slots, this`parents
      ensures Valid() && Guarded(old(slots))
      ensures ok == !(old(slots)[parent].armed && failed)
      ensures var next := (if parent in old(parents) then old(parents)[parent]
          else if parent in pristine then pristine[parent] else old(slots)[parent]).(trieRoot := trieRoot);
        && parents == (if old(slots)[parent].armed then old(parents)[parent := next] else old(parents))
        && slots == if old(slots)[parent].armed && !failed then old(slots)[parent := next] else old(slots)
    {
      var slot := if parent in parents then parents[parent] else if parent in pristine then pristine[parent]
        else slots[parent];
      assert slot.armed == slots[parent].armed && slot.generation == slots[parent].generation;
      if !slot.armed {
        return true;
      }
      slot := slot.(trieRoot := trieRoot);
      parents := parents[parent := slot];
      if failed {
        return false;
      }
      slots := slots[parent := slot];
      ok := true;
    }

    /** replayExtentAlloc: block by block. */
    method ReplayExtentAlloc(phys: nat, length: nat)
      modifies this`dataFree
      ensures DataStep(l, ExtentAlloc(phys, length), old(dataFree), dataFree)
    {
      for i := 0 to length
        invariant DataStep(l, ExtentAlloc(phys, i), old(dataFree), dataFree)
      {
        // An offset below the region start wraps past the block count, which ReserveBlock ignores.
        if phys + i >= l.dataStart && phys + i - l.dataStart < l.dataBlocks {
          dataFree := dataFree - {phys + i - l.dataStart};
        }
      }
    }

    /** replayExtentFree: FreeRun on the offset of the first block. */
    method ReplayExtentFree(phys: nat, length: nat)
      modifies this`dataFree
      ensures DataStep(l, ExtentFree(phys, length), old(dataFree), dataFree)
    {
      if phys >= l.dataStart {
        var rel := phys - l.dataStart;
        assert forall x: nat :: InSpan(rel, length, x) <==> InSpan(phys, length, l.dataStart + x);
        dataFree := dataFree + AllocCore.Clipped(rel, length, l.dataBlocks);
      }
    }

    /** applyRecord in the second pass. */
    method ApplyRecord(rec: Record) returns (ok: bool)
      requires Valid() && WellFormed(rec, slots)
      modifies this
      ensures Valid() && Guarded(old(slots)) && (!rec.DirUpdate? ==> ok)
      ensures forall i :: i in slots && !(rec.DirUpdate? && rec.parent == i) ==>
        slots[i] == SlotStep(old(slots)[i], rec, i)
      ensures rec.DirUpdate? ==> ok == !(old(slots)[rec.parent].armed && rec.failed)
      ensures rec.DirUpdate? ==>
        var next := Anchor(old(parents), old(pristine), old(slots), rec.parent).(trieRoot := rec.trieRoot);
        && slots == (if old(slots)[rec.parent].armed && ok then old(slots)[rec.parent := next] else old(slots))
        && parents == if old(slots)[rec.parent].armed then old(parents)[rec.parent := next] else old(parents)
      ensures !rec.DirUpdate? ==> parents == old(parents)
      ensures pristine == if rec.InodeFull? && rec.ino !in parents && rec.ino !in old(pristine)
        then old(pristine)[rec.ino := old(slots)[rec.ino]] else old(pristine)
      ensures forall x: nat :: x in dataFree <==> BitAfter(DataVerdict(l, rec, x), x in old(dataFree))
      ensures forall x: nat :: x in inodeFree <==> BitAfter(InodeVerdict(l, rec, x), x in old(inodeFree))
      ensures rec.InodeFull? ==>
        var s := old(slots)[rec.ino];
        slots == if s.armed && rec.raw.generation == s.generation then old(slots)[rec.ino := rec.raw] else old(slots)
      ensures rec.InodeUpdate? ==>
        var s := old(slots)[rec.ino];
        slots == if s.armed && (rec.generation == None || rec.generation == Some(s.generation))
          then old(slots)[rec.ino := s.(number := rec.ino, meta := rec.meta)] else old(slots)
      ensures !(rec.InodeFull? || rec.InodeUpdate? || rec.DirUpdate?) ==> slots == old(slots)
      ensures rec.InodeAlloc? && 0 < rec.ino <= l.inodeBlocks ==> inodeFree == old(inodeFree) - {rec.ino - 1}
      ensures rec.InodeFree? && 0 < rec.ino <= l.inodeBlocks ==> inodeFree == old(inodeFree) + {rec.ino - 1}
      ensures !((rec.InodeAlloc? || rec.InodeFree?) && 0 < rec.ino <= l.inodeBlocks) ==> inodeFree == old(inodeFree)
      ensures rec.TrieAlloc? && 0 <= rec.block - l.dataStart < l.dataBlocks ==>
        dataFree == if rec.freed then old(dataFree) + {rec.block - l.dataStart}
          else old(dataFree) - {rec.block - l.dataStart}
      ensures rec.TrieAlloc? && !(0 <= rec.block - l.dataStart < l.dataBlocks) ==> dataFree == old(dataFree)
      ensures rec.ExtentAlloc? ==> forall x: nat :: x in dataFree <==>
        x in old(dataFree) && !(x < l.dataBlocks && rec.phys <= l.dataStart + x < rec.phys + rec.length)
      ensures rec.ExtentFree? && rec.phys >= l.dataStart ==> forall x: nat :: x in dataFree <==>
        x in old(dataFree) || (x < l.dataBlocks && rec.phys <= l.dataStart + x < rec.phys + rec.length)
      ensures rec.ExtentFree? && rec.phys < l.dataStart ==> dataFree == old(dataFree)
      ensures !(rec.ExtentAlloc? || rec.ExtentFree? || rec.TrieAlloc?) ==> dataFree == old(dataFree)
    {
      ok := ApplyCase(rec);
    }

    /** The dispatch of applyRecord. */
    method ApplyCase(rec: Record) returns (ok: bool)
      requires Valid() && WellFormed(rec, slots)
      modifies this
      ensures Valid() && Guarded(old(slots)) && (!rec.DirUpdate? ==> ok)
      ensures forall i :: i in slots && !(rec.DirUpdate? && rec.parent == i) ==>
        slots[i] == SlotStep(old(slots)[i], rec, i)
      ensures rec.DirUpdate? ==> ok == !(old(slots)[rec.parent].armed && rec.failed)
      ensures rec.DirUpdate? ==>
        var next := Anchor(old(parents), old(pristine), old(slots), rec.parent).(trieRoot := rec.trieRoot);
        && slots == (if old(slots)[rec.parent].armed && ok then old(slots)[rec.parent := next] else old(slots))
        && parents == if old(slots)[rec.parent].armed then old(parents)[rec.parent := next] else old(parents)
      ensures !rec.DirUpdate? ==> parents == old(parents)
      ensures pristine == if rec.InodeFull? && rec.ino !in parents && rec.ino !in old(pristine)
        then old(pristine)[rec.ino := old(slots)[rec.ino]] else old(pristine)
      ensures forall x: nat :: x in dataFree <==> BitAfter(DataVerdict(l, rec, x), x in old(dataFree))
      ensures forall x: nat :: x in inodeFree <==> BitAfter(InodeVerdict(l, rec, x), x in old(inodeFree))
    {
      ok := true;
      match rec {
        case DirUpdate(p, root, failed) => ok := ReplayDirUpdate(p, root, failed);
        case InodeAlloc(ino) =>
          if ino > 0 {
            if ino - 1 < l.inodeBlocks {
              inodeFree := inodeFree - {ino - 1};
            }
          }
        case InodeFree(ino) =>
          if ino > 0 {
            if ino - 1 < l.inodeBlocks {
              inodeFree := inodeFree + {ino - 1};
            }
          }
        case InodeUpdate(ino, meta, generation) => ReplayInodeUpdate(ino, meta, generation);
        case InodeFull(ino, raw) => ReplayInodeFull(ino, raw);
        case ExtentAlloc(phys, n) => ReplayExtentAlloc(phys, n);
        case ExtentFree(phys, n) => ReplayExtentFree(phys, n);
        case TrieAlloc(b, freed) =>
          if b >= l.dataStart && b - l.dataStart < l.dataBlocks {
            dataFree := if freed then dataFree + {b - l.dataStart} else dataFree - {b - l.dataStart};
          }
      }
    }

    /** Slot i and the caches agree with the log replayed over the table before. */
    ghost predicate TrackedAt(i: nat, before: map<nat, Slot>, log: seq<Record>)
      requires i in before && i in slots
      reads this
    {
      Tracks(before[i], log, i, slots[i], Get(parents, i), Get(pristine, i))
    }

    /** One record, with every slot tracked. */
    method ApplyTracked(rec: Record, ghost before: map<nat, Slot>, ghost log: seq<Record>) returns (ok: bool)
      requires Valid() && Guarded(before) && WellFormed(rec, slots)
      requires forall i :: i in slots ==> TrackedAt(i, before, log)
      modifies this
      ensures Valid() && Guarded(before) && (!ok ==> rec.DirUpdate? && rec.failed)
      ensures forall i :: i in slots ==> TrackedAt(i, before, log + [rec])
      ensures forall x: nat :: x in dataFree <==> BitAfter(DataVerdict(l, rec, x), x in old(dataFree))
      ensures forall x: nat :: x in inodeFree <==> BitAfter(InodeVerdict(l, rec, x), x in old(inodeFree))
    {
      hide Tracks, BitAfter, DataVerdict, InodeVerdict;
      ghost var s0, p0, q0 := slots, parents, pristine;
      ok := ApplyRecord(rec);
      forall i | i in slots ensures TrackedAt(i, before, log + [rec]) {
        var cur, cached, stash := s0[i], Get(p0, i), Get(q0, i);
        assert cur.armed == before[i].armed;
        if Directs(rec, i) {
          TracksDir(before[i], log, rec, i, cur, cached, stash, slots[i]);
        } else if Fixes(rec, i) {
          TracksFull(before[i], log, rec, i, cur, cached, stash, slots[i]);
        } else {
          TracksStep(before[i], log, rec, i, cur, cached, stash, slots[i]);
        }
      }
    }

    /** A whole log, up to a directory update that fails: no slot changes its generation or its magic; every slot
        is what the records make of it, in order, from the last directory update that names it; and each bit is
        what the last record naming it says. */
    method Run(log: seq<Record>) returns (done: nat)
      requires Valid() && forall i :: 0 <= i < |log| ==> WellFormed(log[i], slots)
      modifies this
      ensures Valid() && Guarded(old(slots)) && done <= |log|
      ensures FreeAfter(l, log[..done], old(dataFree), dataFree, true)
      ensures FreeAfter(l, log[..done], old(inodeFree), inodeFree, false)
      ensures forall i :: i in slots ==> slots[i] == Replayed(old(slots)[i], log[..done], i)
      ensures InodesSettled(l, log, done, old(inodeFree), inodeFree)
      ensures DataSettled(l, log, done, old(dataFree), dataFree)
      ensures done < |log| ==> done > 0 && log[done-1].DirUpdate? && log[done-1].failed
    {
      hide FreeAfter, InodesSettled, DataSettled, Replayed;
      done := RunLog(log);
      Settled(l, log, done, old(inodeFree), inodeFree, old(dataFree), dataFree);
    }

    method RunLog(log: seq<Record>) returns (done: nat)
      requires Valid() && forall i :: 0 <= i < |log| ==> WellFormed(log[i], slots)
      modifies this
      ensures Valid() && Guarded(old(slots)) && done <= |log|
      ensures FreeAfter(l, log[..done], old(dataFree), dataFree, true)
      ensures FreeAfter(l, log[..done], old(inodeFree), inodeFree, false)
      ensures forall i :: i in slots ==> slots[i] == Replayed(old(slots)[i], log[..done], i)
      ensures done < |log| ==> done > 0 && log[done-1].DirUpdate? && log[done-1].failed
    {
      parents, pristine := map[], map[];
      done := 0;
      forall i | i in slots ensures TrackedAt(i, old(slots), log[..0]) {
        TracksNone(slots[i], i);
      }
      hide Tracks, LastVerdict, InodesSettled, DataSettled, FreeAfter, Replayed, DataVerdict, InodeVerdict, BitAfter;
      NoVerdicts(l, log[..0]);
      var ok := true;
      while ok && done < |log|
        invariant 0 <= done <= |log| && Valid() && Guarded(old(slots))
        invariant (forall i :: i in slots ==> TrackedAt(i, old(slots), log[..done]))
        invariant FreeAfter(l, log[..done], old(dataFree), dataFree, true)
        invariant FreeAfter(l, log[..done], old(inodeFree), inodeFree, false)
        invariant !ok ==> done > 0 && log[done-1].DirUpdate? && log[done-1].failed
      {
        ghost var pre, rec, d0, i0 := log[..done], log[done], dataFree, inodeFree;
        assert log[..done+1] == pre + [rec];
        ok := ApplyTracked(log[done], old(slots), pre);
        FreeSnoc(l, pre, rec, old(dataFree), d0, dataFree, true);
        FreeSnoc(l, pre, rec, old(inodeFree), i0, inodeFree, false);
        done := done + 1;
      }
      forall i | i in slots ensures slots[i] == Replayed(old(slots)[i], log[..done], i) {
        TracksCur(old(slots)[i], log[..done], i, slots[i], Get(parents, i), Get(pristine, i));
      }
    }
  }

  lemma TracksCur(s: Slot, log: seq<Record>, i: nat, cur: Slot, cached: Option<Slot>, stash: Option<Slot>)
    requires Tracks(s, log, i, cur, cached, stash)
    ensures cur == Replayed(s, log, i)
  {
  }

  lemma NoVerdicts(l: Layout, log: seq<Record>)
    requires log == []
    ensures forall free: set<nat>, data: bool :: FreeAfter(l, log, free, free, data)
  {
  }

  lemma FreeSnoc(l: Layout, log: seq<Record>, rec: Record, a: set<nat>, b: set<nat>, c: set<nat>, data: bool)
    requires FreeAfter(l, log, a, b, data) && forall x: nat :: x in c <==> BitAfter(Verdict(l, rec, x, data), x in b)
    ensures FreeAfter(l, log + [rec], a, c, data)
  {
    assert (log + [rec])[..|log|] == log;
  }
}
