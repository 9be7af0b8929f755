/** The name heap of a trie page: name storage and compaction (fuse/trie_mutate.go,
    briefs/trie_disk.go). The heap grows down from the end of the block toward the slot array. */
module NameHeap {
  import opened Bytes
  import opened Extents
  import opened Options
  import opened Sets

  const BLOCK := 4096
  /** 20 bytes of page header and 64 slots of 36 bytes. */
  const DATA_END := 2324
  const CAPACITY := BLOCK - DATA_END
  const SLOTS := 64

  /** rest stands for the slot's other fields. */
  datatype Slot = Slot(nameOffset: nat, nameLen: nat, rest: int)

  /** free is the free-slot bitmap, off the high-water mark of the heap, buf the block's bytes. */
  datatype Page = Page(free: set<nat>, off: nat, slots: seq<Slot>, buf: seq<Byte>)

  predicate Shaped(p: Page) {
    |p.slots| == SLOTS && |p.buf| == BLOCK && p.off <= BLOCK
  }

  /** Slot i is live and stores a name. */
  predicate Holds(p: Page, i: nat) {
    i < |p.slots| && i !in p.free && p.slots[i].nameOffset != 0 && p.slots[i].nameLen != 0
  }

  function Start(s: Slot): (r: int) {
    BLOCK - s.nameOffset
  }

  /** The bytes of a slot's heap entry. */
  function Region(buf: seq<Byte>, s: Slot): (r: seq<Byte>)
    requires |buf| == BLOCK && s.nameLen <= s.nameOffset <= BLOCK
  {
    buf[Start(s)..Start(s) + s.nameLen]
  }

  predicate Clear(a: Slot, b: Slot) {
    Start(a) + a.nameLen <= Start(b) || Start(b) + b.nameLen <= Start(a)
  }

  /** Names lie inside the heap, below its mark, and do not overlap. */
  ghost predicate WellFormed(p: Page) {
    && Shaped(p) && p.off <= CAPACITY
    && (forall i: nat :: Holds(p, i) ==> p.slots[i].nameLen <= p.slots[i].nameOffset <= p.off)
    && forall i: nat, j: nat :: Holds(p, i) && Holds(p, j) && i != j ==> Clear(p.slots[i], p.slots[j])
  }

  /** Total size of the live names in slots below k. */
  function Total(p: Page, k: nat): (n: nat) {
    if k == 0 then 0 else Total(p, k - 1) + if Holds(p, k - 1) then p.slots[k-1].nameLen else 0
  }

  lemma {:induction false} TotalMonotone(p: Page, j: nat, k: nat)
    requires j <= k
    ensures Total(p, j) <= Total(p, k)
  {
    if j < k {
      TotalMonotone(p, j, k - 1);
    }
  }

  // ---------------------------------------------------------------------------
  // Live names fit below the mark

  /** The heap addresses of the live names in slots below k. */
  ghost function Used(p: Page, k: nat): (r: set<nat>)
    requires WellFormed(p)
  {
    if k == 0 then {}
    else Used(p, k - 1) + (if Holds(p, k - 1) then Span(Start(p.slots[k-1]), p.slots[k-1].nameLen) else {})
  }

  /** A used address lies in some live entry below k. */
  lemma {:induction false} UsedBy(p: Page, k: nat, x: nat) returns (i: nat)
    requires WellFormed(p) && x in Used(p, k)
    ensures i < k && Holds(p, i) && InSpan(Start(p.slots[i]), p.slots[i].nameLen, x) && InSpan(BLOCK - p.off, p.off, x)
  {
    if x in Used(p, k - 1) {
      i := UsedBy(p, k - 1, x);
    } else {
      i := k - 1;
      assert p.slots[i].nameLen <= p.slots[i].nameOffset <= p.off;
    }
  }

  lemma UsedSpec(p: Page, k: nat)
    requires WellFormed(p) && k <= SLOTS
    ensures forall x :: x in Used(p, k) ==> InSpan(BLOCK - p.off, p.off, x)
    ensures |Used(p, k)| == Total(p, k)
  {
    hide Used, Total;
    forall x | x in Used(p, k) ensures InSpan(BLOCK - p.off, p.off, x) {
      var i := UsedBy(p, k, x);
    }
    UsedCount(p, k);
  }

  lemma {:induction false} UsedCount(p: Page, k: nat)
    requires WellFormed(p) && k <= SLOTS
    ensures |Used(p, k)| == Total(p, k)
  {
    if k > 0 {
      var s := p.slots[k-1];
      UsedCount(p, k - 1);
      hide Span;
      if Holds(p, k - 1) {
        UsedApart(p, k - 1);
        SpanSize(Start(s), s.nameLen);
        UnionSize(Used(p, k - 1), Span(Start(s), s.nameLen));
      }
    }
  }

  /** The next live entry is clear of everything used before it. */
  lemma UsedApart(p: Page, k: nat)
    requires WellFormed(p) && k < SLOTS && Holds(p, k)
    ensures Used(p, k) !! Span(Start(p.slots[k]), p.slots[k].nameLen)
  {
    hide Used;
    forall x | x in Used(p, k) ensures !InSpan(Start(p.slots[k]), p.slots[k].nameLen, x) {
      var i := UsedBy(p, k, x);
      assert Clear(p.slots[i], p.slots[k]);
    }
  }

  lemma UnionSize(a: set<nat>, b: set<nat>)
    requires a !! b
    ensures |a + b| == |a| + |b|
  {
  }

  /** Names that do not overlap cannot add up to more than the heap they lie in. */
  lemma LiveFits(p: Page, k: nat)
    requires WellFormed(p) && k <= SLOTS
    ensures Total(p, k) <= p.off
  {
    hide Used, Span, Total;
    UsedSpec(p, k);
    SpanSize(BLOCK - p.off, p.off);
    InHeap(p, k);
    SubsetSize(Used(p, k), Span(BLOCK - p.off, p.off));
  }

  lemma InHeap(p: Page, k: nat)
    requires WellFormed(p) && k <= SLOTS
    ensures Used(p, k) <= Span(BLOCK - p.off, p.off)
  {
    UsedSpec(p, k);
  }

  // ---------------------------------------------------------------------------
  // Compaction

  /** What the first pass checks: each live name lies below the mark, and together they fit below it. */
  ghost predicate Fits(p: Page) {
    && Shaped(p) && Total(p, SLOTS) <= p.off
    && forall i: nat :: Holds(p, i) ==> p.slots[i].nameLen <= p.slots[i].nameOffset <= p.off
  }

  lemma WellFormedFits(p: Page)
    requires WellFormed(p)
    ensures Fits(p)
  {
    LiveFits(p, SLOTS);
  }

  lemma TotalStep(p: Page, i: nat)
    requires Fits(p) && i < SLOTS
    ensures Total(p, i) <= Total(p, i + 1) <= p.off <= BLOCK
    ensures (Holds(p, i) ==> Total(p, i + 1) == Total(p, i) + p.slots[i].nameLen)
  {
    TotalMonotone(p, i + 1, SLOTS);
  }

  /** tmp holds slot i's name at its place in slot order. */
  ghost predicate GatheredAt(p: Page, tmp: seq<Byte>, i: nat) {
    Holds(p, i) ==>
      && p.slots[i].nameLen <= p.slots[i].nameOffset <= p.off <= BLOCK == |p.buf| && Total(p, i + 1) <= |tmp|
      && Total(p, i + 1) == Total(p, i) + p.slots[i].nameLen
      && tmp[Total(p, i)..Total(p, i + 1)] == Region(p.buf, p.slots[i])
  }

  lemma GatherStep(p: Page, tmp: seq<Byte>, more: seq<Byte>, i: nat)
    requires GatheredAt(p, tmp, i)
    ensures GatheredAt(p, tmp + more, i)
  {
    if Holds(p, i) {
      assert (tmp + more)[Total(p, i)..Total(p, i + 1)] == tmp[Total(p, i)..Total(p, i + 1)];
    }
  }

  /** The first pass: the live names in slot order, refused exactly when the page does not fit. */
  method Gather(p: Page) returns (ok: bool, tmp: seq<Byte>)
    requires Shaped(p)
    ensures ok == Fits(p)
    ensures ok ==> |tmp| == Total(p, SLOTS) && forall i: nat :: i < SLOTS ==> GatheredAt(p, tmp, i)
  {
    hide GatheredAt;
    tmp := [];
    for i := 0 to SLOTS
      invariant |tmp| == Total(p, i) <= p.off
      invariant forall j: nat :: j < i && Holds(p, j) ==> p.slots[j].nameLen <= p.slots[j].nameOffset <= p.off
      invariant forall j: nat :: j < i ==> GatheredAt(p, tmp, j)
    {
      if Holds(p, i) {
        var s := p.slots[i];
        if s.nameOffset > p.off || s.nameLen > s.nameOffset || |tmp| + s.nameLen > p.off {
          TotalMonotone(p, i + 1, SLOTS);
          return false, tmp;
        }
        forall j: nat | j < i ensures GatheredAt(p, tmp + Region(p.buf, s), j) {
          GatherStep(p, tmp, Region(p.buf, s), j);
        }
        GatherNew(p, tmp, i);
        tmp := tmp + Region(p.buf, s);
      } else {
        GatherNone(p, tmp, i);
      }
    }
    ok := true;
  }

  lemma GatherNew(p: Page, tmp: seq<Byte>, i: nat)
    requires Shaped(p) && Holds(p, i) && p.slots[i].nameLen <= p.slots[i].nameOffset <= p.off && |tmp| == Total(p, i)
    ensures GatheredAt(p, tmp + Region(p.buf, p.slots[i]), i)
  {
  }

  lemma GatherNone(p: Page, tmp: seq<Byte>, i: nat)
    requires !Holds(p, i)
    ensures GatheredAt(p, tmp, i)
  {
  }

  /** Slot i after packing the slots below k: only its name offset may differ, and its bytes are the old ones. */
  ghost predicate PackedAt(p: Page, q: Page, k: nat, i: nat)
    requires Fits(p) && Shaped(q) && i < SLOTS
  {
    if i < k && Holds(p, i) then
      && q.slots[i] == p.slots[i].(nameOffset := Total(p, i + 1))
      && Total(p, i) + p.slots[i].nameLen == Total(p, i + 1) <= BLOCK
      && Region(q.buf, q.slots[i]) == Region(p.buf, p.slots[i])
    else q.slots[i] == p.slots[i]
  }

  ghost predicate Compacted(p: Page, q: Page, k: nat) {
    && Fits(p) && Shaped(q) && q.free == p.free
    && forall i: nat :: i < SLOTS ==> PackedAt(p, q, k, i)
  }

  /** name written at heap offset off, as slot k's entry. */
  function PutName(q: Page, k: nat, off: nat, name: seq<Byte>): (r: Page)
    requires Shaped(q) && k < SLOTS && |name| <= off <= BLOCK
    ensures Shaped(r)
  {
    var at := BLOCK - off;
    q.(slots := q.slots[k := q.slots[k].(nameOffset := off)], buf := q.buf[..at] + name + q.buf[at + |name|..])
  }

  lemma SliceAfter(a: seq<Byte>, b: seq<Byte>, from: nat, i: nat, n: nat)
    requires |a| == |b| && from <= i && i + n <= |a| && b[from..] == a[from..]
    ensures b[i..i + n] == a[i..i + n]
  {
    assert b[i..i + n] == b[from..][i - from..i - from + n];
    assert a[i..i + n] == a[from..][i - from..i - from + n];
  }

  lemma PutBytes(q: Page, k: nat, off: nat, name: seq<Byte>)
    requires Shaped(q) && k < SLOTS && |name| <= off <= BLOCK
    ensures var r := PutName(q, k, off, name); var at := BLOCK - off;
      r.buf[at..at + |name|] == name && r.buf[at + |name|..] == q.buf[at + |name|..]
  {
  }

  /** One name written at its packed place: the names already placed lie above it. */
  lemma PackStep(p: Page, q: Page, k: nat, i: nat)
    requires k < SLOTS && Holds(p, k) && Compacted(p, q, k) && i < SLOTS
    ensures Total(p, k + 1) == Total(p, k) + p.slots[k].nameLen <= p.off
    ensures PackedAt(p, PutName(q, k, Total(p, k + 1), Region(p.buf, p.slots[k])), k + 1, i)
  {
    TotalStep(p, k);
    var name := Region(p.buf, p.slots[k]);
    var r := PutName(q, k, Total(p, k + 1), name);
    PutBytes(q, k, Total(p, k + 1), name);
    assert PackedAt(p, q, k, i) && PackedAt(p, q, k, k);
    if i < k && Holds(p, i) {
      TotalMonotone(p, i + 1, k);
      SliceAfter(q.buf, r.buf, BLOCK - Total(p, k), Start(q.slots[i]), q.slots[i].nameLen);
    }
  }

  /** The second pass. */
  method Pack(p: Page, tmp: seq<Byte>) returns (q: Page)
    requires Fits(p) && |tmp| == Total(p, SLOTS) && forall i: nat :: i < SLOTS ==> GatheredAt(p, tmp, i)
    ensures Compacted(p, q, SLOTS) && q.off == Total(p, SLOTS)
  {
    hide PackedAt, Region;
    q := p;
    var used, newOff := 0, 0;
    PackNone(p);
    for i := 0 to SLOTS
      invariant Compacted(p, q, i) && q.off == p.off && used == newOff == Total(p, i)
    {
      NameStays(p, q, i);
      if Holds(q, i) {
        TotalStep(p, i);
        var n := q.slots[i].nameLen;
        newOff := newOff + n;
        assert GatheredAt(p, tmp, i);
        PackOne(p, q, i);
        q := PutName(q, i, newOff, tmp[used..used + n]);
        used := used + n;
      } else {
        PackSkip(p, q, i);
      }
    }
    SetMark(p, q, newOff);
    q := q.(off := newOff);
  }

  lemma PackOne(p: Page, q: Page, k: nat)
    requires k < SLOTS && Holds(p, k) && Compacted(p, q, k)
    ensures p.slots[k].nameLen <= p.slots[k].nameOffset <= BLOCK == |p.buf|
    ensures Total(p, k + 1) == Total(p, k) + p.slots[k].nameLen <= p.off <= BLOCK
    ensures Compacted(p, PutName(q, k, Total(p, k + 1), Region(p.buf, p.slots[k])), k + 1)
  {
    hide PackedAt;
    TotalStep(p, k);
    var r, m := PutName(q, k, Total(p, k + 1), Region(p.buf, p.slots[k])), k + 1;
    forall i: nat | i < SLOTS ensures PackedAt(p, r, m, i) {
      PackStep(p, q, k, i);
    }
  }

  lemma PackSkip(p: Page, q: Page, k: nat)
    requires Compacted(p, q, k) && k < SLOTS && !Holds(p, k)
    ensures Compacted(p, q, k + 1)
  {
    var m := k + 1;
    forall i: nat | i < SLOTS ensures PackedAt(p, q, m, i) {
      assert PackedAt(p, q, k, i);
    }
  }

  lemma PackNone(p: Page)
    requires Fits(p)
    ensures Compacted(p, p, 0)
  {
  }

  lemma SetMark(p: Page, q: Page, off: nat)
    requires Compacted(p, q, SLOTS) && off <= BLOCK
    ensures Compacted(p, q.(off := off), SLOTS)
  {
    forall i: nat | i < SLOTS ensures PackedAt(p, q.(off := off), SLOTS, i) {
      assert PackedAt(p, q, SLOTS, i);
    }
  }

  lemma NameStays(p: Page, q: Page, k: nat)
    requires Compacted(p, q, k) && k < SLOTS
    ensures q.slots[k] == p.slots[k] && (Holds(q, k) <==> Holds(p, k))
  {
    assert PackedAt(p, q, k, k);
  }

  /** triePageCompactNames. It refuses, changing nothing, exactly a page with an empty heap or one that
      does not fit; otherwise every live name keeps its bytes and the names are packed in slot order. */
  method CompactNames(p: Page) returns (q: Page, compacted: bool)
    requires Shaped(p)
    ensures compacted == (p.off != 0 && Fits(p))
    ensures compacted ==> Compacted(p, q, SLOTS) && q.off == Total(p, SLOTS) <= p.off
    ensures !compacted ==> q == p
  {
    if p.off == 0 {
      return p, false;
    }
    var ok, tmp := Gather(p);
    if !ok {
      return p, false;
    }
    q := Pack(p, tmp);
    compacted := true;
  }

  /** A compacted page is well formed, with its mark at the sum of the live sizes. */
  lemma CompactedWellFormed(p: Page, q: Page)
    requires Compacted(p, q, SLOTS) && q.off == Total(p, SLOTS) <= CAPACITY
    ensures WellFormed(q) && Total(q, SLOTS) == q.off
    ensures forall i: nat :: Holds(q, i) <==> Holds(p, i)
  {
    forall i: nat | i < SLOTS ensures (Holds(q, i) <==> Holds(p, i)) && q.slots[i].nameLen == p.slots[i].nameLen
      && (Holds(p, i) ==> q.slots[i].nameOffset == Total(p, i + 1) && Total(p, i + 1) <= q.off)
    {
      assert PackedAt(p, q, SLOTS, i);
      TotalStep(p, i);
      TotalMonotone(p, i + 1, SLOTS);
    }
    forall i: nat, j: nat | Holds(q, i) && Holds(q, j) && i < j
      ensures Clear(q.slots[i], q.slots[j]) && Clear(q.slots[j], q.slots[i])
    {
      TotalMonotone(p, i + 1, j);
      TotalStep(p, i);
      TotalStep(p, j);
    }
    SameTotal(p, q, SLOTS);
  }

  lemma {:induction false} SameTotal(p: Page, q: Page, k: nat)
    requires |p.slots| == |q.slots| == SLOTS && k <= SLOTS
    requires forall i: nat :: i < SLOTS ==> (Holds(q, i) <==> Holds(p, i)) && q.slots[i].nameLen == p.slots[i].nameLen
    ensures Total(p, k) == Total(q, k)
  {
    if k > 0 {
      SameTotal(p, q, k - 1);
    }
  }

  // ---------------------------------------------------------------------------
  // Names

  /** ReadTrieName: the two-byte length prefix must agree with the slot's name_len. */
  function ReadName(buf: seq<Byte>, s: Slot): (r: Option<seq<Byte>>)
    requires |buf| == BLOCK
  {
    if s.nameLen < 2 || s.nameLen > MAX_NAME + 2 || s.nameOffset == 0 || s.nameOffset > BLOCK ||
      s.nameOffset < 2 then None
    else
      var at := Start(s);
      var stored := buf[at] as int + 256 * (buf[at+1] as int);
      if stored < 1 || stored > MAX_NAME || stored + 2 != s.nameLen || at + 2 + stored > BLOCK then None
      else Some(buf[at + 2..at + 2 + stored])
  }

  /** A name reads back exactly when its length, a zero and its bytes lie name_offset bytes before the page's end,
      and name_len is two more than its length. */
  lemma ReadNameExact(buf: seq<Byte>, s: Slot, name: seq<Byte>)
    requires |buf| == 4096
    ensures ReadName(buf, s) == Some(name) <==>
      && 1 <= |name| <= 255 && s.nameLen == |name| + 2 <= s.nameOffset <= 4096
      && buf[4096 - s.nameOffset] as int == |name| && buf[4097 - s.nameOffset] == 0
      && buf[4098 - s.nameOffset..4098 - s.nameOffset + |name|] == name
  {
  }

  /** What is read depends on the entry's bytes only, not on where they lie. */
  lemma ReadRegion(a: seq<Byte>, s: Slot, b: seq<Byte>, t: Slot)
    requires |a| == |b| == BLOCK && s.nameLen == t.nameLen <= s.nameOffset <= BLOCK
    requires t.nameLen <= t.nameOffset <= BLOCK
    requires s.nameLen > 0 && Region(a, s) == Region(b, t)
    ensures ReadName(a, s) == ReadName(b, t)
  {
    var n := s.nameLen;
    if n >= 2 {
      var x, y := Region(a, s), Region(b, t);
      assert a[Start(s)] == x[0] && a[Start(s) + 1] == x[1] && b[Start(t)] == y[0] && b[Start(t) + 1] == y[1];
      assert a[Start(s) + 2..Start(s) + n] == x[2..] && b[Start(t) + 2..Start(t) + n] == y[2..];
    }
  }

  /** Compaction keeps the name read from every live slot. */
  lemma CompactionKeepsNames(p: Page, q: Page, i: nat)
    requires Compacted(p, q, SLOTS) && Holds(p, i)
    ensures ReadName(q.buf, q.slots[i]) == ReadName(p.buf, p.slots[i]) && q.slots[i].rest == p.slots[i].rest
  {
    assert PackedAt(p, q, SLOTS, i);
    ReadRegion(q.buf, q.slots[i], p.buf, p.slots[i]);
  }

  /** The entry of a name: length prefix and bytes. */
  function Encoded(name: seq<Byte>): (r: seq<Byte>)
    requires |name| <= MAX_NAME
    ensures |r| == |name| + 2
  {
    [|name|, 0] + name
  }

  /** Slot i gets the entry at heap offset off; the bytes of every other live name are untouched. */
  ghost predicate Stored(p: Page, q: Page, i: nat, name: seq<Byte>) {
    && WellFormed(p) && WellFormed(q) && i < SLOTS && Holds(q, i) && ReadName(q.buf, q.slots[i]) == Some(name)
    && q.free == p.free && q.slots[i].rest == p.slots[i].rest
    && forall j: nat :: j < SLOTS && j != i ==>
      (Holds(q, j) <==> Holds(p, j)) && q.slots[j].rest == p.slots[j].rest &&
        (Holds(p, j) ==> ReadName(q.buf, q.slots[j]) == ReadName(p.buf, p.slots[j]))
  }

  function WithEntry(p: Page, i: nat, off: nat, name: seq<Byte>, mark: nat): (q: Page)
    requires Shaped(p) && i < SLOTS && 0 < |name| <= MAX_NAME && |name| + 2 <= off <= BLOCK && mark <= BLOCK
  {
    var q := PutName(p, i, off, Encoded(name));
    q.(off := mark, slots := q.slots[i := q.slots[i].(nameLen := |name| + 2)])
  }

  /** The entry is clear of every other live name. */
  ghost predicate Room(p: Page, i: nat, off: nat, n: nat, mark: nat) {
    && WellFormed(p) && i < SLOTS && i !in p.free && n <= off <= mark && p.off <= mark <= CAPACITY
    && forall j: nat :: Holds(p, j) && j != i ==> Clear(Slot(off, n, 0), p.slots[j])
  }

  lemma EntryReads(p: Page, i: nat, off: nat, name: seq<Byte>, mark: nat)
    requires 0 < |name| <= MAX_NAME && Room(p, i, off, |name| + 2, mark)
    ensures var q := WithEntry(p, i, off, name, mark);
      Shaped(q) && Holds(q, i) && ReadName(q.buf, q.slots[i]) == Some(name)
  {
    var q := WithEntry(p, i, off, name, mark);
    var e := Encoded(name);
    PutBytes(p, i, off, e);
    var at := BLOCK - off;
    assert q.buf[at..at + |e|] == e;
    assert q.buf[at] == q.buf[at..at + |e|][0] == |name| && q.buf[at + 1] == q.buf[at..at + |e|][1] == 0;
    assert q.buf[at + 2..at + 2 + |name|] == q.buf[at..at + |e|][2..] == name;
  }

  lemma EntryApart(p: Page, i: nat, off: nat, name: seq<Byte>, mark: nat, j: nat)
    requires 0 < |name| <= MAX_NAME && Room(p, i, off, |name| + 2, mark) && Holds(p, j) && j != i
    ensures var q := WithEntry(p, i, off, name, mark);
      Shaped(q) && q.slots[j] == p.slots[j] && ReadName(q.buf, q.slots[j]) == ReadName(p.buf, p.slots[j])
  {
    var q := WithEntry(p, i, off, name, mark);
    var e := Encoded(name);
    var at := BLOCK - off;
    PutBytes(p, i, off, e);
    var s := p.slots[j];
    assert Clear(Slot(off, |name| + 2, 0), s);
    if at + |e| <= Start(s) {
      SliceAfter(p.buf, q.buf, at + |e|, Start(s), s.nameLen);
    } else {
      assert q.buf[..at] == p.buf[..at];
      SliceBefore(p.buf, q.buf, at, Start(s), Start(s) + s.nameLen);
    }
    ReadRegion(q.buf, q.slots[j], p.buf, s);
  }

  lemma EntryStored(p: Page, i: nat, off: nat, name: seq<Byte>, mark: nat)
    requires 0 < |name| <= MAX_NAME && Room(p, i, off, |name| + 2, mark)
    ensures Stored(p, WithEntry(p, i, off, name, mark), i, name)
  {
    hide ReadName, Region, Encoded;
    var q := WithEntry(p, i, off, name, mark);
    EntryReads(p, i, off, name, mark);
    forall j: nat | Holds(p, j) && j != i ensures ReadName(q.buf, q.slots[j]) == ReadName(p.buf, p.slots[j]) {
      EntryApart(p, i, off, name, mark, j);
    }
    assert forall j: nat :: j < SLOTS && j != i ==> q.slots[j] == p.slots[j];
    assert q.slots[i].nameOffset == off && q.slots[i].nameLen == |name| + 2;
    forall a: nat, b: nat | Holds(q, a) && Holds(q, b) && a != b ensures Clear(q.slots[a], q.slots[b]) {
      if a != i && b != i {
        assert Holds(p, a) && Holds(p, b);
      } else if a == i {
        assert Clear(Slot(off, |name| + 2, 0), p.slots[b]);
      } else {
        assert Clear(Slot(off, |name| + 2, 0), p.slots[a]);
      }
    }
  }

  datatype Errno = Ok | ENOSPC | ENAMETOOLONG

  /** The same slots are live and every live name reads the same. */
  ghost predicate KeepsNames(p: Page, q: Page) {
    && WellFormed(p) && WellFormed(q) && q.free == p.free
    && forall j: nat :: j < SLOTS ==>
      (Holds(q, j) <==> Holds(p, j)) && q.slots[j].rest == p.slots[j].rest &&
        (Holds(p, j) ==> ReadName(q.buf, q.slots[j]) == ReadName(p.buf, p.slots[j]))
  }

  lemma StoredAfter(p: Page, mid: Page, q: Page, i: nat, name: seq<Byte>)
    requires KeepsNames(p, mid) && Stored(mid, q, i, name)
    ensures Stored(p, q, i, name)
  {
    hide ReadName, Holds, WellFormed;
  }

  /** The slot's own entry is large enough to be overwritten. */
  predicate Reusable(s: Slot, size: nat) {
    s.nameOffset > 0 && s.nameLen >= size
  }

  /** trieStoreName with triePageAllocName, for a live slot. It fails with ENOSPC only when the live names
      and the new one do not fit the heap together, and then keeps every name. */
  method StoreName(p: Page, i: nat, name: seq<Byte>) returns (q: Page, err: Errno)
    requires WellFormed(p) && i < SLOTS && i !in p.free && name != []
    ensures err == ENAMETOOLONG <==> |name| > 255
    ensures err == Ok ==> Stored(p, q, i, name)
    ensures err == ENOSPC <==>
      && |name| <= 255 && Total(p, 64) + |name| + 2 > 1772
      && !(p.slots[i].nameOffset > 0 && p.slots[i].nameLen >= |name| + 2)
    ensures err != Ok ==> KeepsNames(p, q)
  {
    hide ReadName, Encoded, Stored, Total, WithEntry;
    q := p;
    if |name| > MAX_NAME {
      return q, ENAMETOOLONG;
    }
    var size := |name| + 2;
    var s := p.slots[i];
    if Reusable(s, size) {
      RoomInPlace(p, i, size);
      EntryStored(p, i, s.nameOffset, name, p.off);
      return WithEntry(p, i, s.nameOffset, name, p.off), Ok;
    }
    LiveFits(p, SLOTS);
    if p.off + size > CAPACITY {
      q := Recompact(p);
      if q.off + size > CAPACITY {
        return q, ENOSPC;
      }
    }
    hide KeepsNames;
    q := AppendName(p, q, i, name);
    err := Ok;
  }

  /** A name too large for its slot's entry goes below the mark. */
  method AppendName(ghost p: Page, mid: Page, i: nat, name: seq<Byte>) returns (q: Page)
    requires KeepsNames(p, mid) && i < SLOTS && i !in p.free && 0 < |name| <= MAX_NAME
    requires mid.off + |name| + 2 <= CAPACITY
    ensures Stored(p, q, i, name)
  {
    hide ReadName, Encoded, Stored;
    var off := mid.off + |name| + 2;
    RoomAtMark(mid, i, |name| + 2);
    EntryStored(mid, i, off, name, off);
    q := WithEntry(mid, i, off, name, off);
    StoredAfter(p, mid, q, i, name);
  }

  lemma RoomInPlace(p: Page, i: nat, n: nat)
    requires WellFormed(p) && i < SLOTS && i !in p.free && n > 0 && Reusable(p.slots[i], n)
    ensures Room(p, i, p.slots[i].nameOffset, n, p.off)
  {
    assert Holds(p, i);
    forall j: nat | Holds(p, j) && j != i ensures Clear(Slot(p.slots[i].nameOffset, n, 0), p.slots[j]) {
      assert Clear(p.slots[i], p.slots[j]);
    }
  }

  /** A fresh entry below the mark is clear of all the names above it. */
  lemma RoomAtMark(p: Page, i: nat, n: nat)
    requires WellFormed(p) && i < SLOTS && i !in p.free && p.off + n <= CAPACITY
    ensures Room(p, i, p.off + n, n, p.off + n)
  {
  }

  /** Compaction on a full heap: same live slots and names, mark at the live total. */
  method Recompact(p: Page) returns (q: Page)
    requires WellFormed(p) && p.off > 0
    ensures KeepsNames(p, q) && q.off == Total(p, SLOTS)
  {
    hide ReadName;
    WellFormedFits(p);
    var compacted;
    q, compacted := CompactNames(p);
    CompactedWellFormed(p, q);
    forall j: nat | Holds(p, j) ensures ReadName(q.buf, q.slots[j]) == ReadName(p.buf, p.slots[j]) {
      CompactionKeepsNames(p, q, j);
    }
    forall j: nat | j < SLOTS ensures q.slots[j].rest == p.slots[j].rest {
      assert PackedAt(p, q, SLOTS, j);
    }
  }
}
