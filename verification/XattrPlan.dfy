/** Packing extended attributes into a chain of blocks (fuse/xattr.go buildXattrChain). */
module XattrPlan {
  import opened Bytes

  datatype KV = KV(name: seq<Byte>, value: seq<Byte>)

  const HEADER := 32
  const ENTRY := 8
  const PAYLOAD_CAP := 4012
  const MAX_USED := 4044
  const MAX_ENTRIES := 501
  const MAX_CHAIN := 1024
  /** The largest value setXattr accepts: one byte more than the 16-bit length field holds. */
  const MAX_VALUE := 65536

  function Align4(n: nat): (r: nat)
    ensures n <= r < n + 4 && r % 4 == 0
  {
    (n + 3) / 4 * 4
  }

  function Min(a: nat, b: nat): (r: nat) {
    if a < b then a else b
  }

  /** An entry block holds entries with the inline part of their values; a continuation block holds a
      fragment of one value. */
  datatype Desc =
    | EntryBlock(kv: seq<nat>, inlineLen: seq<nat>, payloadUsed: nat)
    | ContBlock(kvIdx: nat, valueOff: nat, fragLen: nat)

  predicate Allowed(kvs: seq<KV>) {
    forall i :: 0 <= i < |kvs| ==> |kvs[i].name| <= MAX_NAME && |kvs[i].value| <= MAX_VALUE
  }

  /** Space for an entry's table slot and name. */
  function Need(kv: KV): (r: nat) {
    ENTRY + Align4(|kv.name|)
  }

  // ---------------------------------------------------------------------------
  // What a plan is

  /** How many attributes the entry blocks before block i hold. */
  function First(descs: seq<Desc>, i: nat): (r: nat)
    requires i <= |descs|
  {
    if i == 0 then 0 else First(descs, i - 1) + if descs[i-1].EntryBlock? then |descs[i-1].kv| else 0
  }

  /** Payload bytes of the first j entries of a block. */
  function Payload(kvs: seq<KV>, kv: seq<nat>, inlineLen: seq<nat>, j: nat): (r: nat)
    requires j <= |kv| == |inlineLen| && forall t :: 0 <= t < |kv| ==> kv[t] < |kvs|
  {
    if j == 0 then 0 else Payload(kvs, kv, inlineLen, j - 1) + Need(kvs[kv[j-1]]) + Align4(inlineLen[j-1])
  }

  /** From block i on, continuation blocks carry the value of attribute m from offset off to its end. */
  predicate Carries(kvs: seq<KV>, descs: seq<Desc>, i: nat, m: nat, off: nat)
    requires m < |kvs|
    decreases |kvs[m].value| - off
  {
    off == |kvs[m].value| || (
      && off < |kvs[m].value| && i < |descs|
      && descs[i] == ContBlock(m, off, Min(|kvs[m].value| - off, PAYLOAD_CAP))
      && Carries(kvs, descs, i + 1, m, off + Min(|kvs[m].value| - off, PAYLOAD_CAP)))
  }

  /** Entry j of block i: the next attribute in order. Its value is inline, or overflows: then it is the
      block's last entry, its inline part is a multiple of 4 bytes and fills the block, and the following
      blocks carry the rest. */
  ghost predicate EntryOk(kvs: seq<KV>, descs: seq<Desc>, i: nat, j: nat)
    requires i < |descs| && descs[i].EntryBlock? && j < |descs[i].kv| && |descs[i].kv| == |descs[i].inlineLen|
  {
    var m, n := descs[i].kv[j], descs[i].inlineLen[j];
    && m == First(descs, i) + j && m < |kvs| && n <= |kvs[m].value|
    && (n < |kvs[m].value| ==>
          j == |descs[i].kv| - 1 && n % 4 == 0 && PAYLOAD_CAP - descs[i].payloadUsed < 4 &&
            Carries(kvs, descs, i + 1, m, n))
  }

  ghost predicate BlockOk(kvs: seq<KV>, descs: seq<Desc>, i: nat)
    requires i < |descs|
  {
    match descs[i]
    case EntryBlock(kv, inlineLen, used) =>
      && |kv| == |inlineLen| && (forall t :: 0 <= t < |kv| ==> kv[t] < |kvs|)
      && used == Payload(kvs, kv, inlineLen, |kv|) <= PAYLOAD_CAP
      && (forall j :: 0 <= j < |kv| ==> EntryOk(kvs, descs, i, j))
    case ContBlock(m, off, n) => m < |kvs| && 0 < n <= PAYLOAD_CAP && off + n <= |kvs[m].value|
  }

  /** descs plans the first k attributes. */
  ghost predicate Plan(kvs: seq<KV>, descs: seq<Desc>, k: nat) {
    && (forall i :: 0 <= i < |descs| ==> BlockOk(kvs, descs, i))
    && First(descs, |descs|) == k
  }

  /** Entry block i had to be started: the next attribute did not fit the entry block before it. */
  ghost predicate Started(kvs: seq<KV>, descs: seq<Desc>, i: nat, p: nat)
    requires i < |descs|
  {
    && p < i && descs[p].EntryBlock? && First(descs, i) < |kvs|
    && (forall t :: p < t < i ==> descs[t].ContBlock?)
    && (Need(kvs[First(descs, i)]) > PAYLOAD_CAP - descs[p].payloadUsed || |descs[p].kv| >= MAX_ENTRIES)
  }

  /** No entry block is started before the one before it is full, and none holds more than its table. */
  ghost predicate Packed(kvs: seq<KV>, descs: seq<Desc>) {
    && (forall i :: 0 <= i < |descs| && descs[i].EntryBlock? ==> |descs[i].kv| <= MAX_ENTRIES)
    && forall i :: 0 < i < |descs| && descs[i].EntryBlock? ==> exists p: nat :: Started(kvs, descs, i, p)
  }

  /** A continuation block carries on where the block before it left the value: after a full fragment of the same
      value, or after the inline part of the last entry. */
  ghost predicate CarriesOn(descs: seq<Desc>, i: nat)
    requires 0 < i < |descs| && descs[i].ContBlock?
  {
    match descs[i-1]
    case ContBlock(m, off, n) => n == 4012 && descs[i].kvIdx == m && descs[i].valueOff == off + 4012
    case EntryBlock(kv, inlineLen, _) =>
      |kv| == |inlineLen| > 0 && descs[i].kvIdx == kv[|kv|-1] && descs[i].valueOff == inlineLen[|kv|-1]
  }

  ghost predicate NoStray(descs: seq<Desc>) {
    forall i :: 0 <= i < |descs| && descs[i].ContBlock? ==> 0 < i && CarriesOn(descs, i)
  }

  // ---------------------------------------------------------------------------
  // Appending blocks

  lemma {:induction false} FirstPrefix(a: seq<Desc>, c: seq<Desc>, i: nat)
    requires i <= |a| <= |c| && c[..i] == a[..i]
    ensures First(c, i) == First(a, i)
  {
    if i > 0 {
      assert c[..i-1] == c[..i][..i-1] && a[..i-1] == a[..i][..i-1];
      FirstPrefix(a, c, i - 1);
      assert c[i-1] == c[..i][i-1] && a[i-1] == a[..i][i-1];
    }
  }

  lemma {:induction false} CarriesMore(kvs: seq<KV>, descs: seq<Desc>, d: Desc, i: nat, m: nat, off: nat)
    requires m < |kvs| && Carries(kvs, descs, i, m, off)
    ensures Carries(kvs, descs + [d], i, m, off)
    decreases |kvs[m].value| - off
  {
    if off < |kvs[m].value| {
      CarriesMore(kvs, descs, d, i + 1, m, off + Min(|kvs[m].value| - off, PAYLOAD_CAP));
    }
  }

  lemma BlockMore(kvs: seq<KV>, descs: seq<Desc>, d: Desc, i: nat)
    requires i < |descs| && BlockOk(kvs, descs, i)
    ensures BlockOk(kvs, descs + [d], i)
  {
    FirstPrefix(descs, descs + [d], i);
    if descs[i].EntryBlock? {
      forall j | 0 <= j < |descs[i].kv| ensures EntryOk(kvs, descs + [d], i, j) {
        assert EntryOk(kvs, descs, i, j);
        var m, n := descs[i].kv[j], descs[i].inlineLen[j];
        if n < |kvs[m].value| {
          CarriesMore(kvs, descs, d, i + 1, m, n);
        }
      }
    }
  }

  /** An empty entry block extends a plan. */
  lemma NewBlock(kvs: seq<KV>, descs: seq<Desc>, k: nat)
    requires Plan(kvs, descs, k)
    ensures Plan(kvs, descs + [EntryBlock([], [], 0)], k)
  {
    var d := EntryBlock([], [], 0);
    var e := descs + [d];
    forall i | 0 <= i < |e| ensures BlockOk(kvs, e, i) {
      if i < |descs| {
        BlockMore(kvs, descs, d, i);
      }
    }
    FirstPrefix(descs, e, |descs|);
  }

  /** The first i blocks agree. */
  predicate Agree(a: seq<Desc>, c: seq<Desc>, i: nat) {
    i <= |a| && i <= |c| && forall t :: 0 <= t < i ==> c[t] == a[t]
  }

  lemma {:induction false} FirstSame(a: seq<Desc>, c: seq<Desc>, i: nat)
    requires Agree(a, c, i)
    ensures First(c, i) == First(a, i)
  {
    if i > 0 { FirstSame(a, c, i - 1); }
  }

  lemma StartedKept(kvs: seq<KV>, descs: seq<Desc>, e: seq<Desc>, i: nat)
    requires 0 < i < |descs| && i < |e| && Agree(descs, e, i) && exists p: nat :: Started(kvs, descs, i, p)
    ensures exists p: nat :: Started(kvs, e, i, p)
  {
    var p: nat :| Started(kvs, descs, i, p);
    FirstSame(descs, e, i);
    assert Started(kvs, e, i, p);
  }

  /** Starting a block for an attribute that does not fit keeps the plan packed. */
  lemma PackedNew(kvs: seq<KV>, descs: seq<Desc>, k: nat, cur: nat)
    requires Packed(kvs, descs) && First(descs, |descs|) == k < |kvs| && cur < |descs| && descs[cur].EntryBlock?
    requires forall t :: cur < t < |descs| ==> descs[t].ContBlock?
    requires Need(kvs[k]) > PAYLOAD_CAP - descs[cur].payloadUsed || |descs[cur].kv| >= MAX_ENTRIES
    ensures Packed(kvs, descs + [EntryBlock([], [], 0)])
  {
    var e := descs + [EntryBlock([], [], 0)];
    hide Started, First;
    forall i | 0 < i < |descs| && e[i].EntryBlock? ensures exists p: nat :: Started(kvs, e, i, p) {
      assert e[i] == descs[i];
      StartedKept(kvs, descs, e, i);
    }
    LastStarted(kvs, descs, e, k, cur);
  }

  lemma LastStarted(kvs: seq<KV>, descs: seq<Desc>, e: seq<Desc>, k: nat, cur: nat)
    requires |e| == |descs| + 1 && Agree(descs, e, |descs|) && First(descs, |descs|) == k < |kvs| && cur < |descs|
    requires descs[cur].EntryBlock?
    requires forall t :: cur < t < |descs| ==> descs[t].ContBlock?
    requires Need(kvs[k]) > PAYLOAD_CAP - descs[cur].payloadUsed || |descs[cur].kv| >= MAX_ENTRIES
    ensures Started(kvs, e, |descs|, cur)
  {
    FirstSame(descs, e, |descs|);
  }

  /** An entry added to the last block, and continuation blocks after it, keep the plan packed. */
  lemma PackedMore(kvs: seq<KV>, descs: seq<Desc>, e: seq<Desc>, c: nat)
    requires Packed(kvs, descs) && c == |descs| - 1 && c < |e| && Agree(descs, e, c) && descs[c].EntryBlock?
    requires e[c].EntryBlock? && |e[c].kv| <= MAX_ENTRIES && forall t :: c < t < |e| ==> e[t].ContBlock?
    ensures Packed(kvs, e)
  {
    hide Started;
    forall i | 0 < i < |e| && e[i].EntryBlock? ensures exists p: nat :: Started(kvs, e, i, p) {
      assert descs[i].EntryBlock? && Agree(descs, e, i);
      StartedKept(kvs, descs, e, i);
    }
  }

  // ---------------------------------------------------------------------------
  // Adding one attribute

  /** The continuation blocks for attribute m from value offset off. */
  function Fragments(kvs: seq<KV>, m: nat, off: nat): (r: seq<Desc>)
    requires m < |kvs| && off <= |kvs[m].value|
    decreases |kvs[m].value| - off
  {
    var n := Min(|kvs[m].value| - off, PAYLOAD_CAP);
    if n == 0 then [] else [ContBlock(m, off, n)] + Fragments(kvs, m, off + n)
  }

  lemma {:induction false} FragmentsOk(kvs: seq<KV>, m: nat, off: nat, t: nat)
    requires m < |kvs| && off <= |kvs[m].value| && t < |Fragments(kvs, m, off)|
    ensures var d := Fragments(kvs, m, off)[t];
      d.ContBlock? && d.kvIdx == m && 0 < d.fragLen <= PAYLOAD_CAP && d.valueOff + d.fragLen <= |kvs[m].value|
    decreases |kvs[m].value| - off
  {
    if t > 0 {
      FragmentsOk(kvs, m, off + Min(|kvs[m].value| - off, PAYLOAD_CAP), t - 1);
    }
  }

  lemma {:induction false} FragmentsFollow(kvs: seq<KV>, m: nat, off: nat, t: nat)
    requires m < |kvs| && off <= |kvs[m].value| && t < |Fragments(kvs, m, off)|
    ensures var fs := Fragments(kvs, m, off);
      if t == 0 then fs[0].ContBlock? && fs[0].kvIdx == m && fs[0].valueOff == off
      else
        && fs[t-1].ContBlock? && fs[t].ContBlock? && fs[t-1].kvIdx == fs[t].kvIdx == m
        && fs[t-1].fragLen == 4012 && fs[t].valueOff == fs[t-1].valueOff + 4012
    decreases |kvs[m].value| - off
  {
    if t > 0 {
      var n := Min(|kvs[m].value| - off, PAYLOAD_CAP);
      FragmentsFollow(kvs, m, off + n, t - 1);
    }
  }

  /** An entry in the last block, followed by the fragments of its value, leaves no stray block. */
  lemma WithEntryFollows(kvs: seq<KV>, descs: seq<Desc>, k: nat, n: nat)
    requires NoStray(descs) && descs != [] && descs[|descs|-1].EntryBlock? && k < |kvs| && n <= |kvs[k].value|
    requires |descs[|descs|-1].kv| == |descs[|descs|-1].inlineLen|
    ensures NoStray(WithEntry(kvs, descs, k, n))
  {
    var c, e, fs := |descs| - 1, WithEntry(kvs, descs, k, n), Fragments(kvs, k, n);
    forall i | 0 <= i < |e| && e[i].ContBlock? ensures 0 < i && CarriesOn(e, i) {
      if i < c {
        assert e[i] == descs[i] && 0 < i && CarriesOn(descs, i);
      } else {
        assert i != c && e[i] == fs[i - |descs|] && (i > |descs| ==> e[i-1] == fs[i - 1 - |descs|]);
        FragmentsFollow(kvs, k, n, i - |descs|);
      }
    }
  }

  lemma {:induction false} FragmentsCarry(kvs: seq<KV>, pre: seq<Desc>, m: nat, off: nat)
    requires m < |kvs| && off <= |kvs[m].value|
    ensures Carries(kvs, pre + Fragments(kvs, m, off), |pre|, m, off)
    decreases |kvs[m].value| - off
  {
    var n := Min(|kvs[m].value| - off, PAYLOAD_CAP);
    if n > 0 {
      var d := ContBlock(m, off, n);
      FragmentsCarry(kvs, pre + [d], m, off + n);
      assert pre + [d] + Fragments(kvs, m, off + n) == pre + Fragments(kvs, m, off);
    }
  }

  /** The loop that cuts the rest of a value into fragments. */
  method AddContBlocks(kvs: seq<KV>, descs: seq<Desc>, m: nat, off0: nat) returns (r: seq<Desc>)
    requires m < |kvs| && off0 <= |kvs[m].value|
    ensures r == descs + Fragments(kvs, m, off0)
  {
    r := descs;
    var rem, off := |kvs[m].value| - off0, off0;
    while rem > 0
      invariant rem >= 0 && off0 <= off && off + rem == |kvs[m].value|
      invariant r + Fragments(kvs, m, off) == descs + Fragments(kvs, m, off0)
      decreases rem
    {
      var frag := Min(rem, PAYLOAD_CAP);
      assert r + Fragments(kvs, m, off) == r + [ContBlock(m, off, frag)] + Fragments(kvs, m, off + frag);
      r := r + [ContBlock(m, off, frag)];
      rem, off := rem - frag, off + frag;
    }
  }

  lemma {:induction false} CarriesKept(kvs: seq<KV>, descs: seq<Desc>, e: seq<Desc>, i: nat, m: nat, off: nat)
    requires m < |kvs| && Carries(kvs, descs, i, m, off) && |descs| <= |e|
    requires forall t :: 0 <= t < |descs| && descs[t].ContBlock? ==> e[t] == descs[t]
    ensures Carries(kvs, e, i, m, off)
    decreases |kvs[m].value| - off
  {
    if off < |kvs[m].value| {
      CarriesKept(kvs, descs, e, i + 1, m, off + Min(|kvs[m].value| - off, PAYLOAD_CAP));
    }
  }

  /** Blocks before a changed last entry block stay well planned. */
  lemma BlockKept(kvs: seq<KV>, descs: seq<Desc>, e: seq<Desc>, i: nat)
    requires i + 1 < |descs| <= |e| && BlockOk(kvs, descs, i) && descs[|descs|-1].EntryBlock?
    requires e[..|descs|-1] == descs[..|descs|-1]
    ensures BlockOk(kvs, e, i)
  {
    assert forall t :: 0 <= t < |descs| - 1 ==> e[t] == e[..|descs|-1][t] == descs[..|descs|-1][t] == descs[t];
    assert e[..i] == e[..|descs|-1][..i] && descs[..i] == descs[..|descs|-1][..i];
    FirstPrefix(descs, e, i);
    if descs[i].EntryBlock? {
      forall j | 0 <= j < |descs[i].kv| ensures EntryOk(kvs, e, i, j) {
        assert EntryOk(kvs, descs, i, j);
        var m, n := descs[i].kv[j], descs[i].inlineLen[j];
        if n < |kvs[m].value| {
          CarriesKept(kvs, descs, e, i + 1, m, n);
        }
      }
    }
  }

  /** The last block with one more entry, and the blocks that carry the rest of its value. */
  function WithEntry(kvs: seq<KV>, descs: seq<Desc>, k: nat, n: nat): (r: seq<Desc>)
    requires descs != [] && descs[|descs|-1].EntryBlock? && k < |kvs| && n <= |kvs[k].value|
  {
    var d := descs[|descs|-1];
    descs[..|descs|-1] + [EntryBlock(d.kv + [k], d.inlineLen + [n],
      d.payloadUsed + Need(kvs[k]) + Align4(n))] + Fragments(kvs, k, n)
  }

  lemma {:induction false} PayloadPrefix(kvs: seq<KV>, kv: seq<nat>, inlineLen: seq<nat>, k: nat, n: nat, j: nat)
    requires j <= |kv| == |inlineLen| && (forall t :: 0 <= t < |kv| ==> kv[t] < |kvs|) && k < |kvs|
    ensures Payload(kvs, kv + [k], inlineLen + [n], j) == Payload(kvs, kv, inlineLen, j)
  {
    if j > 0 {
      PayloadPrefix(kvs, kv, inlineLen, k, n, j - 1);
    }
  }

  /** What buildXattrChain guarantees of the inline length it picks. */
  predicate InlineFits(kv: KV, used: nat, n: nat) {
    && n <= |kv.value| && used + Need(kv) + Align4(n) <= PAYLOAD_CAP
    && (n < |kv.value| ==> n % 4 == 0 && PAYLOAD_CAP - (used + Need(kv) + Align4(n)) < 4)
  }

  lemma LastBlock(kvs: seq<KV>, descs: seq<Desc>, k: nat, n: nat)
    requires Plan(kvs, descs, k) && descs != [] && descs[|descs|-1].EntryBlock? && k < |kvs|
    requires InlineFits(kvs[k], descs[|descs|-1].payloadUsed, n)
    ensures BlockOk(kvs, WithEntry(kvs, descs, k, n), |descs| - 1)
  {
    var c := |descs| - 1;
    var d, e := descs[c], WithEntry(kvs, descs, k, n);
    assert BlockOk(kvs, descs, c);
    assert e[..c] == descs[..c];
    FirstPrefix(descs, e, c);
    PayloadPrefix(kvs, d.kv, d.inlineLen, k, n, |d.kv|);
    var head := descs[..c] + [e[c]];
    FragmentsCarry(kvs, head, k, n);
    assert head + Fragments(kvs, k, n) == e;
    forall j | 0 <= j < |e[c].kv| ensures EntryOk(kvs, e, c, j) {
      if j < |d.kv| {
        assert EntryOk(kvs, descs, c, j);
      }
    }
  }

  lemma {:induction false} FirstConts(kvs: seq<KV>, pre: seq<Desc>, m: nat, off: nat)
    requires m < |kvs| && off <= |kvs[m].value|
    ensures First(pre + Fragments(kvs, m, off), |pre + Fragments(kvs, m, off)|) == First(pre, |pre|)
    decreases |kvs[m].value| - off
  {
    var n := Min(|kvs[m].value| - off, PAYLOAD_CAP);
    if n > 0 {
      var d := ContBlock(m, off, n);
      FirstConts(kvs, pre + [d], m, off + n);
      assert pre + [d] + Fragments(kvs, m, off + n) == pre + Fragments(kvs, m, off);
      FirstPrefix(pre, pre + [d], |pre|);
    } else {
      assert pre + [] == pre;
    }
  }

  lemma AddEntry(kvs: seq<KV>, descs: seq<Desc>, k: nat, n: nat)
    requires Plan(kvs, descs, k) && descs != [] && descs[|descs|-1].EntryBlock? && k < |kvs|
    requires InlineFits(kvs[k], descs[|descs|-1].payloadUsed, n)
    ensures Plan(kvs, WithEntry(kvs, descs, k, n), k + 1)
  {
    var c := |descs| - 1;
    var e := WithEntry(kvs, descs, k, n);
    var head := descs[..c] + [e[c]];
    assert e == head + Fragments(kvs, k, n) && e[..c] == descs[..c];
    forall i | 0 <= i < |e| ensures BlockOk(kvs, e, i) {
      if i < c {
        BlockKept(kvs, descs, e, i);
      } else if i == c {
        LastBlock(kvs, descs, k, n);
      } else {
        FragmentsOk(kvs, k, n, i - c - 1);
      }
    }
    FirstConts(kvs, head, k, n);
    FirstPrefix(descs, head, c);
  }

  // ---------------------------------------------------------------------------
  // buildXattrChain

  /** The inline length for a value with remaining payload bytes left after the entry and name. */
  function InlineLen(valueLen: nat, remaining: nat): (r: nat) {
    if valueLen == 0 || remaining < 4 then 0
    else if Align4(valueLen) <= remaining then valueLen
    else Min(valueLen, remaining / 4 * 4)
  }

  lemma InlineChoice(kv: KV, used: nat)
    requires used + Need(kv) <= PAYLOAD_CAP
    ensures InlineFits(kv, used, InlineLen(|kv.value|, PAYLOAD_CAP - used - Need(kv)))
  {
    var remaining := PAYLOAD_CAP - used - Need(kv);
    var n := InlineLen(|kv.value|, remaining);
    assert remaining / 4 * 4 <= remaining < remaining / 4 * 4 + 4;
    assert Align4(remaining / 4 * 4) == remaining / 4 * 4;
  }

  /** Blocks that the first k attributes take at most: one each, and one for every 4012 bytes of value. */
  function Room(kvs: seq<KV>, k: nat): (r: nat)
    requires k <= |kvs|
  {
    if k == 0 then 0 else Room(kvs, k - 1) + 1 + (|kvs[k-1].value| + PAYLOAD_CAP - 1) / PAYLOAD_CAP
  }

  lemma {:induction false} FragmentCount(kvs: seq<KV>, m: nat, off: nat)
    requires m < |kvs| && off <= |kvs[m].value|
    ensures |Fragments(kvs, m, off)| == (|kvs[m].value| - off + PAYLOAD_CAP - 1) / PAYLOAD_CAP
    decreases |kvs[m].value| - off
  {
    var n := Min(|kvs[m].value| - off, PAYLOAD_CAP);
    if n > 0 { FragmentCount(kvs, m, off + n); }
  }

  datatype Built = Chain(descs: seq<Desc>) | ENOSPC

  /** Every attribute is planned, in order; an overflowing entry is the last of its block and fills it; no
      block's payload exceeds the cap; no entry block is started before the last one is full; the chain is no
      longer than the attributes' room. Only a chain of more than MAX_CHAIN blocks is refused. */
  method BuildXattrChain(kvs: seq<KV>) returns (r: Built, ghost plan: seq<Desc>)
    requires Allowed(kvs)
    ensures r.Chain? ==> Plan(kvs, r.descs, |kvs|) && Packed(kvs, r.descs)
    ensures Plan(kvs, plan, |kvs|) && Packed(kvs, plan) && r == if |plan| > MAX_CHAIN then ENOSPC else Chain(plan)
    ensures |plan| <= 1 + Room(kvs, |kvs|) && (plan == [] <==> kvs == []) && NoStray(plan)
    ensures r.ENOSPC? <==> |plan| > 1024
    ensures forall i :: 0 <= i < |plan| ==>
      if plan[i].EntryBlock? then plan[i].payloadUsed <= 4012 && |plan[i].kv| <= 501 else 0 < plan[i].fragLen <= 4012
  {
    hide Plan, Packed, WithEntry, CarriesOn;
    if |kvs| == 0 {
      NoBlocks(kvs);
      return Chain([]), [];
    }
    NoBlocks(kvs);
    NewBlock(kvs, [], 0);
    assert [] + [EntryBlock([], [], 0)] == [EntryBlock([], [], 0)];
    var descs := [EntryBlock([], [], 0)];
    var cur := 0;
    for i := 0 to |kvs|
      invariant Plan(kvs, descs, i) && 0 <= cur < |descs| && descs[cur].EntryBlock?
      invariant descs[cur].payloadUsed <= PAYLOAD_CAP
      invariant Packed(kvs, descs) && |descs[cur].kv| == |descs[cur].inlineLen|
      invariant |descs[cur].kv| <= MAX_ENTRIES && forall t :: cur < t < |descs| ==> descs[t].ContBlock?
      invariant cur == |descs| - 1 || PAYLOAD_CAP - descs[cur].payloadUsed < 4
      invariant |descs| <= 1 + Room(kvs, i) && NoStray(descs)
    {
      var kv := kvs[i];
      if Need(kv) > PAYLOAD_CAP - descs[cur].payloadUsed || |descs[cur].kv| >= MAX_ENTRIES {
        NewBlock(kvs, descs, i);
        PlanCount(kvs, descs, i);
        PackedNew(kvs, descs, i, cur);
        NewFollows(descs);
        descs := descs + [EntryBlock([], [], 0)];
        cur := |descs| - 1;
      }
      assert cur == |descs| - 1;
      var d := descs[cur];
      InlineChoice(kv, d.payloadUsed);
      var n := InlineLen(|kv.value|, PAYLOAD_CAP - d.payloadUsed - Need(kv));
      AddEntry(kvs, descs, i, n);
      WithEntryIs(kvs, descs, i, n);
      WithEntryPacked(kvs, descs, i, n);
      WithEntryFollows(kvs, descs, i, n);
      FragmentCount(kvs, i, n);
      descs := descs[cur := EntryBlock(d.kv + [i], d.inlineLen + [n], d.payloadUsed + Need(kv) + Align4(n))];
      descs := AddContBlocks(kvs, descs, i, n);
    }
    plan := descs;
    Capped(kvs, plan);
    r := if |descs| > MAX_CHAIN then ENOSPC else Chain(descs);
  }

  lemma NewFollows(descs: seq<Desc>)
    requires NoStray(descs)
    ensures NoStray(descs + [EntryBlock([], [], 0)])
  {
    var e := descs + [EntryBlock([], [], 0)];
    forall i | 0 <= i < |e| && e[i].ContBlock? ensures 0 < i && CarriesOn(e, i) {
      assert e[i] == descs[i] && CarriesOn(descs, i);
    }
  }

  lemma Capped(kvs: seq<KV>, descs: seq<Desc>)
    requires Plan(kvs, descs, |kvs|) && Packed(kvs, descs)
    ensures forall i :: 0 <= i < |descs| ==>
      if descs[i].EntryBlock? then descs[i].payloadUsed <= 4012 &&
        |descs[i].kv| <= 501 else 0 < descs[i].fragLen <= 4012
  {
    forall i | 0 <= i < |descs|
      ensures if descs[i].EntryBlock? then descs[i].payloadUsed <= 4012 else 0 < descs[i].fragLen <= 4012
    {
      assert BlockOk(kvs, descs, i);
    }
  }

  lemma NoBlocks(kvs: seq<KV>)
    ensures Plan(kvs, [], 0) && Packed(kvs, []) && Packed(kvs, [EntryBlock([], [], 0)])
  {
  }

  lemma PlanCount(kvs: seq<KV>, descs: seq<Desc>, k: nat)
    requires Plan(kvs, descs, k)
    ensures First(descs, |descs|) == k
  {
  }

  lemma WithEntryPacked(kvs: seq<KV>, descs: seq<Desc>, k: nat, n: nat)
    requires Packed(kvs, descs) && descs != [] && descs[|descs|-1].EntryBlock? && k < |kvs| && n <= |kvs[k].value|
    requires |descs[|descs|-1].kv| < MAX_ENTRIES
    ensures var e := WithEntry(kvs, descs, k, n); Packed(kvs, e) && forall t :: |descs| <= t < |e| ==> e[t].ContBlock?
  {
    var c, e := |descs| - 1, WithEntry(kvs, descs, k, n);
    var frags := Fragments(kvs, k, n);
    forall t | c < t < |e| ensures e[t].ContBlock? {
      assert e[t] == frags[t - |descs|];
      FragmentsOk(kvs, k, n, t - |descs|);
    }
    PackedMore(kvs, descs, e, c);
  }

  lemma WithEntryIs(kvs: seq<KV>, descs: seq<Desc>, k: nat, n: nat)
    requires descs != [] && descs[|descs|-1].EntryBlock? && k < |kvs| && n <= |kvs[k].value|
    ensures var c := |descs| - 1; var d := descs[c];
      && WithEntry(kvs, descs, k, n) ==
        descs[c := EntryBlock(d.kv + [k], d.inlineLen + [n],
          d.payloadUsed + Need(kvs[k]) + Align4(n))] + Fragments(kvs, k, n)
      && (n == |kvs[k].value| ==> Fragments(kvs, k, n) == [])
  {
    var c := |descs| - 1;
    var d := descs[c];
    var x := EntryBlock(d.kv + [k], d.inlineLen + [n], d.payloadUsed + Need(kvs[k]) + Align4(n));
    assert descs[..c] + [x] == descs[c := x];
  }
}
