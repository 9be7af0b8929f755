/** Serializing, walking and loading an extended-attribute chain (fuse/xattr.go). Headers and entry
    records are structs; names and values are bytes at the offsets they give. */
module XattrCodec {
  import opened Bytes
  import opened Sets
  import opened XattrPlan

  const BLOCK := 4096

  /** All four fields are 16 bits wide on disk. */
  datatype Entry = Entry(nameLen: nat, valueLen: nat, nameOffset: nat, valueOffset: nat)

  datatype Block = Block(next: nat, cont: bool, used: nat, entries: seq<Entry>, buf: seq<Byte>)

  function CopyAt(buf: seq<Byte>, off: nat, src: seq<Byte>): (r: seq<Byte>)
    requires off + |src| <= |buf|
    ensures |r| == |buf| && r[off..off + |src|] == src && r[..off] == buf[..off]
    ensures forall i :: off + |src| <= i < |buf| ==> r[i] == buf[i]
  {
    buf[..off] + src + buf[off + |src|..]
  }

  // ---------------------------------------------------------------------------
  // One block

  /** A descriptor serializeXattrBlock can render. */
  ghost predicate Renderable(kvs: seq<KV>, d: Desc) {
    match d
    case EntryBlock(kv, inlineLen, used) =>
      && |kv| == |inlineLen| && (forall t :: 0 <= t < |kv| ==> kv[t] < |kvs|)
      && used == Payload(kvs, kv, inlineLen, |kv|) <= PAYLOAD_CAP
      && forall t :: 0 <= t < |kv| ==> inlineLen[t] <= |kvs[kv[t]].value|
    case ContBlock(m, off, n) => m < |kvs| && 0 < n <= PAYLOAD_CAP && off + n <= |kvs[m].value|
  }

  /** Where entry j's name starts: the entry table, then the names and inline values of the entries before. */
  function NameOff(kvs: seq<KV>, d: Desc, j: nat): (r: int)
    requires d.EntryBlock? && j <= |d.kv| == |d.inlineLen| && forall t :: 0 <= t < |d.kv| ==> d.kv[t] < |kvs|
  {
    HEADER + ENTRY * (|d.kv| - j) + Payload(kvs, d.kv, d.inlineLen, j)
  }

  lemma {:induction false} PayloadSteps(kvs: seq<KV>, d: Desc, i: nat, j: nat)
    requires d.EntryBlock? && i <= j <= |d.kv| == |d.inlineLen| && forall t :: 0 <= t < |d.kv| ==> d.kv[t] < |kvs|
    ensures NameOff(kvs, d, i) <= NameOff(kvs, d, j)
  {
    if i < j {
      PayloadSteps(kvs, d, i, j - 1);
    }
  }

  /** Entry j as it lies in a block whose entry table and bytes are given. */
  ghost predicate RenderedAt(kvs: seq<KV>, d: Desc, entries: seq<Entry>, buf: seq<Byte>, j: nat)
    requires Renderable(kvs, d) && d.EntryBlock? && j < |d.kv| && j < |entries| && |buf| == BLOCK
  {
    var kv, n, e := kvs[d.kv[j]], d.inlineLen[j], entries[j];
    var at := NameOff(kvs, d, j);
    && 0 <= at && at + Align4(|kv.name|) + Align4(n) <= MAX_USED
    && e.nameLen == |kv.name| % 65536 && e.nameOffset == at && buf[at..at + |kv.name|] == kv.name
    && e.valueLen == |kv.value| % 65536
    && e.valueOffset == (if n == 0 then 0 else at + Align4(|kv.name|))
    && buf[at + Align4(|kv.name|)..at + Align4(|kv.name|) + n] == kv.value[..n]
  }

  ghost predicate Rendered(kvs: seq<KV>, d: Desc, x: Block) {
    && Renderable(kvs, d) && |x.buf| == BLOCK && x.used <= MAX_USED
    && match d
       case EntryBlock(kv, inlineLen, used) =>
         && !x.cont && |x.entries| == |kv| && x.used == HEADER + used
         && forall j :: 0 <= j < |kv| ==> RenderedAt(kvs, d, x.entries, x.buf, j)
       case ContBlock(m, off, n) =>
         && x.cont && x.entries == [] && x.used == HEADER + n && x.buf[HEADER..HEADER + n] == kvs[m].value[off..off + n]
  }

  lemma Bounds(kvs: seq<KV>, d: Desc, j: nat)
    requires Renderable(kvs, d) && d.EntryBlock? && j < |d.kv|
    ensures HEADER <= NameOff(kvs, d, j)
    ensures NameOff(kvs, d, j + 1) ==
      NameOff(kvs, d, j) + Align4(|kvs[d.kv[j]].name|) + Align4(d.inlineLen[j]) <= HEADER + d.payloadUsed <= MAX_USED
    ensures d.inlineLen[j] <= |kvs[d.kv[j]].value|
  {
    PayloadSteps(kvs, d, j + 1, |d.kv|);
  }

  /** Later writes, which start at or after entry i's end, leave entry i alone. */
  lemma StaysRendered(kvs: seq<KV>, d: Desc, entries: seq<Entry>, buf: seq<Byte>, entries': seq<Entry>,
                      buf': seq<Byte>, i: nat, j: nat)
    requires Renderable(kvs, d) && d.EntryBlock? && i < j <= |d.kv| && |buf| == |buf'| == BLOCK && i < |entries|
    requires i < |entries'|
    requires entries'[i] == entries[i] && 0 <= NameOff(kvs, d, j) <= BLOCK
    requires buf'[..NameOff(kvs, d, j)] == buf[..NameOff(kvs, d, j)]
    requires RenderedAt(kvs, d, entries, buf, i)
    ensures RenderedAt(kvs, d, entries', buf', i)
  {
    Bounds(kvs, d, i);
    PayloadSteps(kvs, d, i + 1, j);
    var kv, n := kvs[d.kv[i]], d.inlineLen[i];
    var at, end := NameOff(kvs, d, i), NameOff(kvs, d, j);
    SliceBefore(buf', buf, end, at, at + |kv.name|);
    SliceBefore(buf', buf, end, at + Align4(|kv.name|), at + Align4(|kv.name|) + n);
  }

  /** One entry of the loop: its name and inline value are copied at the cursor. */
  method RenderEntry(kvs: seq<KV>, d: Desc, entries: seq<Entry>, buf0: seq<Byte>, j: nat, off0: nat)
    returns (e: Entry, buf: seq<Byte>, off: nat)
    requires Renderable(kvs, d) && d.EntryBlock? && j < |d.kv| && |entries| == j && |buf0| == BLOCK
    requires off0 == NameOff(kvs, d, j)
    ensures off == NameOff(kvs, d, j + 1)
    ensures |buf| == BLOCK && RenderedAt(kvs, d, entries + [e], buf, j)
    ensures 0 <= NameOff(kvs, d, j) <= BLOCK && buf[..NameOff(kvs, d, j)] == buf0[..NameOff(kvs, d, j)]
    ensures forall i :: off <= i < BLOCK ==> buf[i] == buf0[i]
  {
    Bounds(kvs, d, j);
    var kv, n := kvs[d.kv[j]], d.inlineLen[j];
    buf := CopyAt(buf0, off0, kv.name);
    off := off0 + Align4(|kv.name|);
    ghost var mid := buf;
    var valueOffset := 0;
    if n != 0 {
      valueOffset := off;
      buf := CopyAt(buf, off, kv.value[..n]);
    }
    SliceBefore(buf, mid, off, off0, off0 + |kv.name|);
    assert buf[..off0] == buf[..off][..off0] && mid[..off0] == mid[..off][..off0];
    e := Entry(|kv.name| % 65536, |kv.value| % 65536, off0, valueOffset);
    off := off + Align4(n);
  }

  /** Entry j + 1 starts where a name and an inline value of these lengths, each padded to 4 bytes, end. */
  ghost predicate LiesAfter(x: Block, j: nat, nameLen: nat, inlineLen: nat)
    requires j + 1 < |x.entries|
  {
    x.entries[j+1].nameOffset == x.entries[j].nameOffset + (nameLen + 3) / 4 * 4 + (inlineLen + 3) / 4 * 4
  }

  /** The names and inline values follow the header and the entry table, each padded to 4 bytes. */
  lemma Layout(kvs: seq<KV>, d: Desc, x: Block, j: nat)
    requires Rendered(kvs, d, x) && d.EntryBlock? && j < |d.kv|
    ensures x.entries[0].nameOffset == 32 + 8 * |d.kv|
    ensures j + 1 < |d.kv| ==> LiesAfter(x, j, |kvs[d.kv[j]].name|, d.inlineLen[j])
  {
    assert RenderedAt(kvs, d, x.entries, x.buf, 0) && RenderedAt(kvs, d, x.entries, x.buf, j);
    Bounds(kvs, d, j);
    if j + 1 < |d.kv| {
      assert RenderedAt(kvs, d, x.entries, x.buf, j + 1);
    }
  }

  /** serializeXattrBlock. */
  method SerializeXattrBlock(kvs: seq<KV>, d: Desc, next: nat) returns (x: Block)
    requires Renderable(kvs, d)
    ensures Rendered(kvs, d, x) && x.next == next
    ensures d.ContBlock? ==> x.cont && x.used == 32 + d.fragLen
    ensures d.EntryBlock? ==> !x.cont && |x.entries| == |d.kv| && x.used == 32 + d.payloadUsed
    ensures forall i :: x.used <= i < 4096 ==> x.buf[i] == 0
    ensures d.EntryBlock? && d.kv != [] ==> x.entries[0].nameOffset == 32 + 8 * |d.kv|
    ensures d.EntryBlock? ==>
      forall j: nat :: j + 1 < |d.kv| ==> LiesAfter(x, j, |kvs[d.kv[j]].name|, d.inlineLen[j])
  {
    x := RenderBlock(kvs, d, next);
    hide Rendered;
    if d.EntryBlock? {
      if d.kv != [] { Layout(kvs, d, x, 0); }
      forall j: nat | j + 1 < |d.kv| ensures LiesAfter(x, j, |kvs[d.kv[j]].name|, d.inlineLen[j]) {
        Layout(kvs, d, x, j);
      }
    }
  }

  method RenderBlock(kvs: seq<KV>, d: Desc, next: nat) returns (x: Block)
    requires Renderable(kvs, d)
    ensures Rendered(kvs, d, x) && x.next == next
    ensures d.ContBlock? ==> x.cont && x.used == 32 + d.fragLen
    ensures d.EntryBlock? ==> !x.cont && |x.entries| == |d.kv| && x.used == 32 + d.payloadUsed
    ensures forall i :: x.used <= i < BLOCK ==> x.buf[i] == 0
  {
    hide RenderedAt;
    var buf: seq<Byte> := seq(BLOCK, _ => 0);
    match d {
      case ContBlock(m, off, n) =>
        buf := CopyAt(buf, HEADER, kvs[m].value[off..off + n]);
        return Block(next, true, HEADER + n, [], buf);
      case EntryBlock(kv, inlineLen, used) =>
        var entries: seq<Entry> := [];
        var cursor: nat := HEADER + ENTRY * |kv|;
        for j := 0 to |kv|
          invariant |entries| == j && |buf| == BLOCK && cursor == NameOff(kvs, d, j)
          invariant forall i :: 0 <= i < j ==> RenderedAt(kvs, d, entries, buf, i)
          invariant forall i :: cursor <= i < BLOCK ==> buf[i] == 0
        {
          var e, buf', next := RenderEntry(kvs, d, entries, buf, j, cursor);
          forall i | 0 <= i < j ensures RenderedAt(kvs, d, entries + [e], buf', i) {
            StaysRendered(kvs, d, entries, buf, entries + [e], buf', i, j);
          }
          entries, buf, cursor := entries + [e], buf', next;
        }
        return Block(next, false, cursor, entries, buf);
    }
  }

  // ---------------------------------------------------------------------------
  // Loading

  /** What the format keeps of an attribute: a 16-bit value length. */
  function Kept(kv: KV): (r: KV) {
    if |kv.value| < 65536 then kv else KV(kv.name, [])
  }

  /** The rendering of a whole plan. */
  ghost predicate AllRendered(kvs: seq<KV>, descs: seq<Desc>, blocks: seq<Block>) {
    |blocks| == |descs| && forall i :: 0 <= i < |descs| ==> Rendered(kvs, descs[i], blocks[i])
  }

  /** Entry j of block i in the plan. */
  lemma EntryPlan(kvs: seq<KV>, descs: seq<Desc>, i: nat, j: nat)
    requires Plan(kvs, descs, |kvs|) && i < |descs| && descs[i].EntryBlock? && j < |descs[i].kv|
    ensures |descs[i].kv| == |descs[i].inlineLen| && descs[i].kv[j] == First(descs, i) + j < |kvs|
    ensures var m, n := descs[i].kv[j], descs[i].inlineLen[j];
      n <= |kvs[m].value| &&
        (n < |kvs[m].value| ==> j == |descs[i].kv| - 1 && n % 4 == 0 && Carries(kvs, descs, i + 1, m, n))
  {
    assert BlockOk(kvs, descs, i) && EntryOk(kvs, descs, i, j);
  }

  /** Entry j of a rendered block: its name, and the inline part of its value, which ends within the used
      region, or exactly at its end when the entry is the last and its inline part a multiple of 4. */
  lemma EntryBytes(kvs: seq<KV>, d: Desc, x: Block, j: nat)
    requires Rendered(kvs, d, x) && d.EntryBlock? && j < |d.kv| && |kvs[d.kv[j]].name| <= MAX_NAME
    ensures j < |x.entries| && |x.buf| == BLOCK
    ensures var kv, e, n := kvs[d.kv[j]], x.entries[j], d.inlineLen[j];
      && e.nameLen == |kv.name| && e.nameOffset + e.nameLen <= BLOCK
      && x.buf[e.nameOffset..e.nameOffset + e.nameLen] == kv.name
      && e.valueLen == |kv.value| % 65536 && (e.valueOffset == 0 <==> n == 0) && n <= |kv.value|
      && (0 < n ==> e.valueOffset + n <= x.used <= BLOCK && x.buf[e.valueOffset..e.valueOffset + n] == kv.value[..n])
      && (0 < n && j == |d.kv| - 1 && n % 4 == 0 ==> x.used - e.valueOffset == n)
  {
    assert RenderedAt(kvs, d, x.entries, x.buf, j);
    Bounds(kvs, d, j);
    AlignedStays(d.inlineLen[j]);
    hide Align4, Payload;
  }

  lemma AlignedStays(n: nat)
    ensures n % 4 == 0 ==> Align4(n) == n
  {
  }

  /** The continuation loop of loadXattrEntries. */
  method TakeConts(blocks: seq<Block>, i: nat, valueLen: nat, head: seq<Byte>, ghost kvs: seq<KV>,
                   ghost descs: seq<Desc>, ghost m: nat)
    returns (value: seq<Byte>)
    requires AllRendered(kvs, descs, blocks) && m < |kvs| && valueLen == |kvs[m].value| && |head| <= valueLen
    requires i <= |descs|
    requires head == kvs[m].value[..|head|] && (|head| < valueLen ==> Carries(kvs, descs, i, m, |head|))
    ensures value == kvs[m].value
  {
    value := head;
    var cb := i;
    while |value| < valueLen && cb < |blocks|
      invariant i <= cb <= |blocks| && |value| <= valueLen && value == kvs[m].value[..|value|]
      invariant |value| < valueLen ==> Carries(kvs, descs, cb, m, |value|)
      decreases |blocks| - cb
    {
      assert Rendered(kvs, descs[cb], blocks[cb]);
      var ch := blocks[cb];
      if !ch.cont {
        break;
      }
      var take := Min(ch.used - HEADER, valueLen - |value|);
      ghost var v := kvs[m].value;
      assert v[..|value| + take] == v[..|value|] + v[|value|..|value| + take];
      value := value + ch.buf[HEADER..HEADER + take];
      cb := cb + 1;
    }
    assert value == kvs[m].value[..valueLen];
  }

  /** One entry of the load loop. */
  method LoadEntry(blocks: seq<Block>, i: nat, j: nat, ghost kvs: seq<KV>, ghost descs: seq<Desc>) returns (kv: KV)
    requires Plan(kvs, descs, |kvs|) && Allowed(kvs) && AllRendered(kvs, descs, blocks) && i < |descs|
    requires descs[i].EntryBlock? && j < |descs[i].kv|
    ensures First(descs, i) + j < |kvs| && kv == Kept(kvs[First(descs, i) + j])
  {
    EntryPlan(kvs, descs, i, j);
    assert Rendered(kvs, descs[i], blocks[i]);
    EntryBytes(kvs, descs[i], blocks[i], j);
    hide Rendered, Plan;
    ghost var m := First(descs, i) + j;
    var x := blocks[i];
    var e := x.entries[j];
    var name := x.buf[e.nameOffset..e.nameOffset + e.nameLen];
    var value: seq<Byte> := [];
    ghost var n := descs[i].inlineLen[j];
    Small(kvs, m);
    if e.valueLen > 0 {
      if e.valueOffset != 0 {
        var take := Min(x.used - e.valueOffset, e.valueLen);
        assert take == n;
        value := x.buf[e.valueOffset..e.valueOffset + take];
      } else {
        assert kvs[m].value[..0] == [];
      }
      value := TakeConts(blocks, i + 1, e.valueLen, value, kvs, descs, m);
    }
    kv := KV(name, value);
  }

  lemma Small(kvs: seq<KV>, m: nat)
    requires Allowed(kvs) && m < |kvs|
    ensures |kvs[m].value| <= 65536 && (|kvs[m].value| % 65536 == if |kvs[m].value| < 65536 then |kvs[m].value| else 0)
  {
  }

  function KeptAll(kvs: seq<KV>): (r: seq<KV>)
    ensures |r| == |kvs| && forall i :: 0 <= i < |kvs| ==> r[i] == Kept(kvs[i])
  {
    seq(|kvs|, i requires 0 <= i < |kvs| => Kept(kvs[i]))
  }

  /** loadXattrEntries over the loaded blocks of a chain. */
  method LoadXattrEntries(blocks: seq<Block>, ghost kvs: seq<KV>, ghost descs: seq<Desc>) returns (out: seq<KV>)
    requires Plan(kvs, descs, |kvs|) && Allowed(kvs) && AllRendered(kvs, descs, blocks)
    ensures out == KeptAll(kvs)
  {
    hide Rendered, BlockOk;
    out := [];
    for i := 0 to |blocks|
      invariant |out| == First(descs, i) <= |kvs| && forall t :: 0 <= t < |out| ==> out[t] == Kept(kvs[t])
    {
      EntryCount(kvs, descs, blocks, i);
      FirstBound(kvs, descs, i + 1);
      if !blocks[i].cont {
        ghost var before := First(descs, i);
        for j := 0 to |blocks[i].entries|
          invariant |out| == before + j <= |kvs| && forall t :: 0 <= t < |out| ==> out[t] == Kept(kvs[t])
        {
          var kv := LoadEntry(blocks, i, j, kvs, descs);
          out := out + [kv];
        }
      }
    }
    assert out == KeptAll(kvs);
  }

  lemma EntryCount(kvs: seq<KV>, descs: seq<Desc>, blocks: seq<Block>, i: nat)
    requires AllRendered(kvs, descs, blocks) && i < |descs|
    ensures blocks[i].cont == descs[i].ContBlock? && (descs[i].EntryBlock? ==> |blocks[i].entries| == |descs[i].kv|)
  {
    assert Rendered(kvs, descs[i], blocks[i]);
  }

  lemma {:induction false} FirstMonotone(descs: seq<Desc>, i: nat, j: nat)
    requires i <= j <= |descs|
    ensures First(descs, i) <= First(descs, j)
  {
    if i < j {
      FirstMonotone(descs, i, j - 1);
    }
  }

  lemma FirstBound(kvs: seq<KV>, descs: seq<Desc>, i: nat)
    requires Plan(kvs, descs, |kvs|) && i <= |descs|
    ensures First(descs, i) <= |kvs|
  {
    FirstMonotone(descs, i, |descs|);
  }

  /** Attributes come back unchanged if and only if every value fits the 16-bit length field. */
  lemma KeptIff(kvs: seq<KV>)
    requires Allowed(kvs)
    ensures KeptAll(kvs) == kvs <==> forall i :: 0 <= i < |kvs| ==> |kvs[i].value| <= 65535
  {
    if forall i :: 0 <= i < |kvs| ==> |kvs[i].value| <= 65535 {
      assert forall i :: 0 <= i < |kvs| ==> KeptAll(kvs)[i] == kvs[i];
    } else {
      var i :| 0 <= i < |kvs| && |kvs[i].value| > 65535;
      assert KeptAll(kvs)[i] != kvs[i];
    }
  }

  // ---------------------------------------------------------------------------
  // The chain on the device

  datatype Walk = Loaded(blocks: seq<Block>, abs: seq<nat>) | Looped | TooLong | Unreadable

  /** abs is a chain of distinct blocks on the device, linked by their next fields. */
  ghost predicate Linked(dev: map<nat, Block>, abs: seq<nat>) {
    && (forall i :: 0 <= i < |abs| ==> abs[i] != 0 && abs[i] in dev)
    && (forall i, j :: 0 <= i < j < |abs| ==> abs[i] != abs[j])
    && forall i :: 0 <= i < |abs| ==> NamesNext(dev, abs, i, 0)
  }

  /** chain starts at head and is short enough to be walked. */
  ghost predicate IsChain(dev: map<nat, Block>, chain: seq<nat>, head: nat) {
    Linked(dev, chain) && |chain| <= MAX_CHAIN + 1 && head == if chain == [] then 0 else chain[0]
  }

  /** walkXattrChain. It ends on any device contents, and succeeds exactly on a well-formed chain, which it loads. */
  method WalkXattrChain(dev: map<nat, Block>, head: nat) returns (r: Walk)
    ensures r.Loaded? ==> IsChain(dev, r.abs, head) && |r.blocks| == |r.abs| && ReadUpTo(dev, r.abs, r.blocks)
    ensures !r.Loaded? ==> forall chain :: !IsChain(dev, chain, head)
  {
    hide Linked, SeqSet, ReadUpTo, Walking, IsChain;
    NothingRead(dev, head);
    var blocks: seq<Block>, abs: seq<nat> := [], [];
    var visited: set<nat> := {};
    var block := head;
    while block != 0
      invariant |visited| == |abs| == |blocks| <= MAX_CHAIN + 1 && visited == SeqSet(abs)
      invariant Walking(dev, abs, head, block) && ReadUpTo(dev, abs, blocks)
      decreases MAX_CHAIN + 1 - |visited|
    {
      if block in visited {
        NoChain(dev, abs, head, block);
        return Looped;
      }
      if |visited| > MAX_CHAIN {
        NoChain(dev, abs, head, block);
        return TooLong;
      }
      visited := visited + {block};
      if block !in dev {
        NoChain(dev, abs, head, block);
        return Unreadable;
      }
      WalkOn(dev, abs, head, block);
      ReadOn(dev, abs, blocks, block);
      blocks, abs := blocks + [dev[block]], abs + [block];
      block := dev[block].next;
    }
    WalkedChain(dev, abs, head);
    return Loaded(blocks, abs);
  }

  ghost predicate ReadUpTo(dev: map<nat, Block>, chain: seq<nat>, blocks: seq<Block>) {
    |blocks| <= |chain| && forall i :: 0 <= i < |blocks| ==> chain[i] in dev && blocks[i] == dev[chain[i]]
  }

  /** The blocks walked so far: distinct, linked, and the last one names the next. */
  ghost predicate Walking(dev: map<nat, Block>, abs: seq<nat>, head: nat, next: nat) {
    && (forall i :: 0 <= i < |abs| ==> abs[i] != 0 && abs[i] in dev)
    && (forall i, j :: 0 <= i < j < |abs| ==> abs[i] != abs[j])
    && (forall i :: 0 <= i < |abs| ==> NamesNext(dev, abs, i, next))
    && head == if abs == [] then next else abs[0]
  }

  predicate NamesNext(dev: map<nat, Block>, abs: seq<nat>, i: nat, next: nat)
    requires i < |abs| && abs[i] in dev
  {
    dev[abs[i]].next == if i + 1 < |abs| then abs[i+1] else next
  }

  lemma NothingRead(dev: map<nat, Block>, head: nat)
    ensures ReadUpTo(dev, [], []) && SeqSet([]) == {} && Walking(dev, [], head, head)
  {
  }

  lemma WalkOn(dev: map<nat, Block>, abs: seq<nat>, head: nat, b: nat)
    requires Walking(dev, abs, head, b) && b != 0 && b in dev && b !in SeqSet(abs)
    ensures Walking(dev, abs + [b], head, dev[b].next) && SeqSet(abs + [b]) == SeqSet(abs) + {b}
  {
    var e := abs + [b];
    forall i | 0 <= i < |abs| ensures abs[i] != b && e[i] == abs[i] && NamesNext(dev, e, i, dev[b].next) {
      assert abs[i] in SeqSet(abs) && NamesNext(dev, abs, i, b);
    }
  }

  lemma ReadOn(dev: map<nat, Block>, abs: seq<nat>, blocks: seq<Block>, b: nat)
    requires ReadUpTo(dev, abs, blocks) && |blocks| == |abs| && b in dev
    ensures ReadUpTo(dev, abs + [b], blocks + [dev[b]])
  {
  }

  lemma WalkedChain(dev: map<nat, Block>, abs: seq<nat>, head: nat)
    requires Walking(dev, abs, head, 0) && |abs| <= MAX_CHAIN + 1
    ensures IsChain(dev, abs, head)
  {
  }

  /** What was walked is a prefix of every chain from the head. */
  lemma {:induction false} WalkedPrefix(dev: map<nat, Block>, abs: seq<nat>, head: nat, next: nat, chain: seq<nat>)
    requires Walking(dev, abs, head, next) && IsChain(dev, chain, head)
    ensures |abs| <= |chain| && abs == chain[..|abs|] && next == if |abs| < |chain| then chain[|abs|] else 0
    decreases |abs|
  {
    if abs != [] {
      var m := |abs| - 1;
      WalkBack(dev, abs, head, next);
      WalkedPrefix(dev, abs[..m], head, abs[m], chain);
      assert abs == abs[..m] + [abs[m]] && chain[..m+1] == chain[..m] + [chain[m]];
      assert NamesNext(dev, chain, m, 0);
    }
  }

  lemma WalkBack(dev: map<nat, Block>, abs: seq<nat>, head: nat, next: nat)
    requires Walking(dev, abs, head, next) && abs != []
    ensures var m := |abs| - 1;
      Walking(dev, abs[..m], head, abs[m]) && abs[m] != 0 && abs[m] in dev && dev[abs[m]].next == next
  {
    var m := |abs| - 1;
    assert NamesNext(dev, abs, m, next);
    forall i | 0 <= i < m ensures NamesNext(dev, abs[..m], i, abs[m]) {
      assert NamesNext(dev, abs, i, next);
    }
  }

  /** A walk that loops, is too long or meets an unreadable block starts no chain. */
  lemma NoChain(dev: map<nat, Block>, abs: seq<nat>, head: nat, block: nat)
    requires Walking(dev, abs, head, block) && block != 0
    requires (block in SeqSet(abs) || |abs| > MAX_CHAIN || block !in dev)
    ensures forall chain :: !IsChain(dev, chain, head)
  {
    hide Walking, IsChain;
    forall chain ensures !IsChain(dev, chain, head) {
      if IsChain(dev, chain, head) {
        NextInChain(dev, abs, head, block, chain);
      }
    }
  }

  lemma NextInChain(dev: map<nat, Block>, abs: seq<nat>, head: nat, next: nat, chain: seq<nat>)
    requires Walking(dev, abs, head, next) && IsChain(dev, chain, head)
    ensures next != 0 ==> |abs| <= MAX_CHAIN && next in dev && next !in SeqSet(abs)
  {
    hide Walking;
    WalkedPrefix(dev, abs, head, next, chain);
    if next != 0 {
      forall i | 0 <= i < |abs| ensures abs[i] != next {
        assert chain[..|abs|][i] == chain[i];
      }
    }
  }

  /** There is at most one chain from a head. */
  lemma ChainUnique(dev: map<nat, Block>, a: seq<nat>, c: seq<nat>, head: nat)
    requires IsChain(dev, a, head) && IsChain(dev, c, head)
    ensures a == c
  {
    WalkedPrefix(dev, a, head, 0, c);
  }

  /** setXattr's rewrite and the next load: build the chain, write it to the allocated blocks, walk and
      load it back. It is refused exactly when the chain is too long or the allocator has too few blocks left;
      otherwise the attributes that come back are KeptAll(kvs), in order. */
  method StoreAndLoad(kvs: seq<KV>, abs: seq<nat>, dev0: map<nat, Block>)
    returns (err: bool, out: seq<KV>, ghost plan: seq<Desc>)
    requires Allowed(kvs) && Separate(abs)
    ensures Plan(kvs, plan, |kvs|) && Packed(kvs, plan) && (err <==> |plan| > MAX_CHAIN || |abs| < |plan|)
    ensures |plan| <= 1 + Room(kvs, |kvs|)
    ensures !err ==> out == KeptAll(kvs)
  {
    hide Rendered, BlockOk, Packed;
    var built;
    built, plan := BuildXattrChain(kvs);
    if built.ENOSPC? || |abs| < |built.descs| {
      return true, [], plan;
    }
    var descs := built.descs;
    var dev, blocks := WriteChain(kvs, descs, abs[..|descs|], dev0);
    var head := if descs == [] then 0 else abs[0];
    assert IsChain(dev, abs[..|descs|], head);
    out := LoadChain(dev, head, kvs, descs, abs[..|descs|], blocks);
    err := false;
  }

  /** loadXattrEntries from the inode's head pointer. */
  method LoadChain(dev: map<nat, Block>, head: nat, ghost kvs: seq<KV>, ghost descs: seq<Desc>,
                   ghost chain: seq<nat>, ghost blocks: seq<Block>)
    returns (out: seq<KV>)
    requires Plan(kvs, descs, |kvs|) && Allowed(kvs) && AllRendered(kvs, descs, blocks)
    requires IsChain(dev, chain, head) && ReadUpTo(dev, chain, blocks) && |blocks| == |chain|
    ensures out == KeptAll(kvs)
  {
    hide Rendered, BlockOk, Plan, AllRendered, IsChain;
    var w := WalkXattrChain(dev, head);
    ChainUnique(dev, chain, w.abs, head);
    SameBlocks(dev, chain, w.blocks, blocks);
    out := LoadXattrEntries(w.blocks, kvs, descs);
  }

  /** One attribute with a value of 65536 bytes is stored, and comes back empty. */
  method LargestValue(name: seq<Byte>, value: seq<Byte>, abs: seq<nat>, dev0: map<nat, Block>)
    returns (err: bool, out: seq<KV>)
    requires |name| <= MAX_NAME && |value| == MAX_VALUE && Separate(abs) && |abs| >= 19
    ensures !err && out == [KV(name, [])]
  {
    hide Plan, Packed;
    var kvs := [KV(name, value)];
    assert Room(kvs, 1) == Room(kvs, 0) + 1 + 17;
    ghost var plan;
    err, out, plan := StoreAndLoad(kvs, abs, dev0);
  }

  lemma SameBlocks(dev: map<nat, Block>, chain: seq<nat>, a: seq<Block>, b: seq<Block>)
    requires ReadUpTo(dev, chain, a) && ReadUpTo(dev, chain, b) && |a| == |b|
    ensures a == b
  {
  }

  function NextOf(abs: seq<nat>, i: nat): (r: nat) {
    if i + 1 < |abs| then abs[i+1] else 0
  }

  predicate Separate(abs: seq<nat>) {
    (forall i :: 0 <= i < |abs| ==> abs[i] != 0) && forall i, j :: 0 <= i < j < |abs| ==> abs[i] != abs[j]
  }

  /** Block t of the chain is on the device, rendered and linked. */
  ghost predicate WrittenAt(kvs: seq<KV>, descs: seq<Desc>, abs: seq<nat>, dev: map<nat, Block>, blocks: seq<Block>,
                            t: nat) {
    && t < |descs| && t < |abs| && t < |blocks| && abs[t] in dev && dev[abs[t]] == blocks[t]
    && Rendered(kvs, descs[t], blocks[t]) && blocks[t].next == NextOf(abs, t)
  }

  method WriteChain(kvs: seq<KV>, descs: seq<Desc>, abs: seq<nat>, dev0: map<nat, Block>)
    returns (dev: map<nat, Block>, ghost blocks: seq<Block>)
    requires Plan(kvs, descs, |kvs|) && |abs| == |descs| && Separate(abs)
    ensures Linked(dev, abs) && AllRendered(kvs, descs, blocks) && ReadUpTo(dev, abs, blocks) && |blocks| == |abs|
  {
    hide Rendered, WrittenAt, Plan;
    dev, blocks := dev0, [];
    for i := 0 to |descs|
      invariant |blocks| == i && forall t: nat :: t < i ==> WrittenAt(kvs, descs, abs, dev, blocks, t)
    {
      BlockRenderable(kvs, descs, i);
      var x := SerializeXattrBlock(kvs, descs[i], NextOf(abs, i));
      ghost var dev1, blocks1 := dev, blocks;
      dev := dev[abs[i] := x];
      blocks := blocks + [x];
      forall t: nat | t <= i ensures WrittenAt(kvs, descs, abs, dev, blocks, t) {
        WriteStep(kvs, descs, abs, dev1, blocks1, x, i, t);
      }
    }
    AllWritten(kvs, descs, abs, dev, blocks);
  }

  lemma WriteStep(kvs: seq<KV>, descs: seq<Desc>, abs: seq<nat>, dev: map<nat, Block>, blocks: seq<Block>, x: Block,
                  i: nat, t: nat)
    requires |blocks| == i < |abs| == |descs| && Separate(abs) && t <= i && Rendered(kvs, descs[i], x)
    requires x.next == NextOf(abs, i)
    requires t < i ==> WrittenAt(kvs, descs, abs, dev, blocks, t)
    ensures WrittenAt(kvs, descs, abs, dev[abs[i] := x], blocks + [x], t)
  {
    hide Rendered;
  }

  lemma AllWritten(kvs: seq<KV>, descs: seq<Desc>, abs: seq<nat>, dev: map<nat, Block>, blocks: seq<Block>)
    requires |blocks| == |abs| == |descs| && Separate(abs)
    requires forall t: nat :: t < |descs| ==> WrittenAt(kvs, descs, abs, dev, blocks, t)
    ensures Linked(dev, abs) && AllRendered(kvs, descs, blocks) && ReadUpTo(dev, abs, blocks)
  {
    hide Rendered;
    forall i | 0 <= i < |abs|
      ensures abs[i] in dev && dev[abs[i]] == blocks[i] && Rendered(kvs, descs[i], blocks[i])
      ensures blocks[i].next == NextOf(abs, i)
    {
      assert WrittenAt(kvs, descs, abs, dev, blocks, i);
    }
  }

  lemma BlockRenderable(kvs: seq<KV>, descs: seq<Desc>, i: nat)
    requires Plan(kvs, descs, |kvs|) && i < |descs|
    ensures Renderable(kvs, descs[i])
  {
    assert BlockOk(kvs, descs, i);
    if descs[i].EntryBlock? {
      forall t | 0 <= t < |descs[i].kv| ensures descs[i].inlineLen[t] <= |kvs[descs[i].kv[t]].value| {
        assert EntryOk(kvs, descs, i, t);
      }
    }
  }
}
