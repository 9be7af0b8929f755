/** One 4096-byte journal block: record framing on the write side (briefs/journal_write.go)
    and the record walk on the read side (briefs/journal_replay.go). */
module JournalBlock {
  import opened Bytes

  const BLOCK_SIZE := 4096
  const BLOCK_HDR := 16
  const REC_HDR := 16
  /** The largest payload that fits a block of its own. */
  const MAX_PAYLOAD := BLOCK_SIZE - BLOCK_HDR - REC_HDR

  const MAGIC_JOURNAL := 0x4A4E4C5A
  const MAGIC_CHECKPOINT := 0x43485053
  const JRN_NONE := 0
  const JRN_END := 13

  type U32 = n: int | 0 <= n < 0x1_0000_0000
  type Block = s: seq<Byte> | |s| == BLOCK_SIZE witness seq(BLOCK_SIZE, _ => 0)

  /** The record checksum, left uninterpreted. */
  type Crc = (U32, seq<Byte>) -> U32

  datatype Record = Record(typ: U32, data: seq<Byte>)
  datatype Header = Header(a: U32, b: U32, c: U32, d: U32)

  // ---------------------------------------------------------------------------
  // Little-endian fields and headers

  function Le32(n: U32): (r: seq<Byte>)
    ensures |r| == 4
  {
    [n % 256, n / 256 % 256, n / 65536 % 256, n / 16777216]
  }

  function FromLe32(s: seq<Byte>): (n: U32)
    requires |s| == 4
  {
    s[0] as int + 256 * (s[1] as int) + 65536 * (s[2] as int) + 16777216 * (s[3] as int)
  }

  lemma Le32RoundTrip(n: U32)
    ensures FromLe32(Le32(n)) == n
  {
    assert n / 256 == n / 65536 * 256 + n / 256 % 256;
    assert n / 65536 == n / 16777216 * 256 + n / 65536 % 256;
  }

  /** Both 16-byte headers are four little-endian words: (magic, seq, count, reserved) for a
      block, (type, flags, length, checksum) for a record. */
  function MarshalLe(h: Header): (r: seq<Byte>)
    ensures |r| == 16
  {
    Le32(h.a) + Le32(h.b) + Le32(h.c) + Le32(h.d)
  }

  function ParseLe(s: seq<Byte>): (h: Header) {
    if |s| < 16 then Header(0, 0, 0, 0)
    else Header(FromLe32(s[0..4]), FromLe32(s[4..8]), FromLe32(s[8..12]), FromLe32(s[12..16]))
  }

  /** The header codec and the record checksum. The proofs below hold for every sound pair. */
  datatype Codec = Codec(marshal: Header -> seq<Byte>, parse: seq<Byte> -> Header, crc: Crc)

  ghost predicate Sound(cd: Codec) {
    forall h :: |cd.marshal(h)| == 16 && cd.parse(cd.marshal(h)) == h
  }

  /** The little-endian header codec of the on-disk format, with any checksum. */
  function LittleEndian(crc: Crc): (cd: Codec) {
    Codec(MarshalLe, ParseLe, crc)
  }

  lemma LittleEndianSound(crc: Crc)
    ensures Sound(LittleEndian(crc))
  {
    forall h ensures ParseLe(MarshalLe(h)) == h {
      var s := MarshalLe(h);
      assert s[0..4] == Le32(h.a) && s[4..8] == Le32(h.b) && s[8..12] == Le32(h.c) && s[12..16] == Le32(h.d);
      Le32RoundTrip(h.a);
      Le32RoundTrip(h.b);
      Le32RoundTrip(h.c);
      Le32RoundTrip(h.d);
    }
  }

  /** The four words lie at bytes 0, 4, 8 and 12, least significant byte first. */
  lemma LittleEndianLayout(h: Header)
    ensures var m := MarshalLe(h);
      && h.a == m[0] as int + 256 * (m[1] as int) + 65536 * (m[2] as int) + 16777216 * (m[3] as int)
      && h.b == m[4] as int + 256 * (m[5] as int) + 65536 * (m[6] as int) + 16777216 * (m[7] as int)
      && h.c == m[8] as int + 256 * (m[9] as int) + 65536 * (m[10] as int) + 16777216 * (m[11] as int)
      && h.d == m[12] as int + 256 * (m[13] as int) + 65536 * (m[14] as int) + 16777216 * (m[15] as int)
  {
    Le32RoundTrip(h.a);
    Le32RoundTrip(h.b);
    Le32RoundTrip(h.c);
    Le32RoundTrip(h.d);
  }

  /** Go's copy(buf[off:], src): stops at the end of the buffer. */
  function CopyAt(buf: Block, off: nat, src: seq<Byte>): (r: Block)
    requires off <= BLOCK_SIZE
    ensures r[..off] == buf[..off]
    ensures off + |src| <= BLOCK_SIZE ==> r[off..off + |src|] == src && r[off + |src|..] == buf[off + |src|..]
  {
    var n := if off + |src| > BLOCK_SIZE then BLOCK_SIZE - off else |src|;
    buf[..off] + src[..n] + buf[off + n..]
  }

  function BlockHeader(cd: Codec, buf: Block): (h: Header) {
    cd.parse(buf[..BLOCK_HDR])
  }

  /** initCurBlock. */
  function EmptyBlock(cd: Codec, blockSeq: U32): (r: Block) {
    CopyAt(seq(BLOCK_SIZE, _ => 0), 0, cd.marshal(Header(MAGIC_JOURNAL, blockSeq, 0, 0)))
  }

  // ---------------------------------------------------------------------------
  // Appending and reading records

  function RecHeader(cd: Codec, rec: Record): (h: Header)
    requires |rec.data| < 0x1_0000_0000
  {
    Header(rec.typ, 0, |rec.data|, cd.crc(rec.typ, rec.data))
  }

  /** The append half of writeRecordLocked: header, payload, record count. */
  function Append(cd: Codec, buf: Block, off: nat, rec: Record): (r: Block)
    requires off + REC_HDR <= BLOCK_SIZE && |rec.data| < 0x1_0000_0000
  {
    var b1 := CopyAt(buf, off, cd.marshal(RecHeader(cd, rec)));
    var b2 := CopyAt(b1, off + REC_HDR, rec.data);
    var h := BlockHeader(cd, b2);
    CopyAt(b2, 0, cd.marshal(h.(c := (h.c + 1) % 0x1_0000_0000)))
  }

  datatype ReadResult = Read(recs: seq<(Header, seq<Byte>)>) | Overflow(index: nat)

  /** IterateJournalBlockRecords from record i at offset off. */
  function Iterate(cd: Codec, buf: Block, off: nat, i: nat, count: nat): (r: ReadResult)
    requires i <= count
    decreases count - i
  {
    if i == count || off + REC_HDR > BLOCK_SIZE then Read([])
    else
      var h := cd.parse(buf[off..off + REC_HDR]);
      if off + REC_HDR + h.c > BLOCK_SIZE then Overflow(i)
      else
        var rest := Iterate(cd, buf, off + REC_HDR + h.c, i + 1, count);
        if rest.Overflow? then rest
        else Read([(h, buf[off + REC_HDR..off + REC_HDR + h.c])] + rest.recs)
  }

  /** A result with records handed out before it. */
  function After(recs: seq<(Header, seq<Byte>)>, rest: ReadResult): (r: ReadResult) {
    if rest.Overflow? then rest else Read(recs + rest.recs)
  }

  lemma IterateStep(cd: Codec, buf: Block, off: nat, i: nat, count: nat, recs: seq<(Header, seq<Byte>)>)
    requires i < count && off + REC_HDR <= BLOCK_SIZE
    ensures var h := cd.parse(buf[off..off + REC_HDR]); var end := off + REC_HDR + h.c;
      end <= BLOCK_SIZE ==>
        After(recs, Iterate(cd, buf, off, i, count)) ==
          After(recs + [(h, buf[off + REC_HDR..end])], Iterate(cd, buf, end, i + 1, count))
  {
    var h := cd.parse(buf[off..off + REC_HDR]);
    var end := off + REC_HDR + h.c;
    if end <= BLOCK_SIZE {
      var one, next := [(h, buf[off + REC_HDR..end])], Iterate(cd, buf, end, i + 1, count);
      assert next.Read? ==> recs + (one + next.recs) == recs + one + next.recs;
    }
  }

  /** The cursor loop of IterateJournalBlockRecords, collecting what it hands its visitor. */
  method IterateJournalBlockRecords(cd: Codec, buf: Block, count: nat) returns (r: ReadResult)
    ensures r == Iterate(cd, buf, BLOCK_HDR, 0, count)
  {
    var off, i := BLOCK_HDR, 0;
    var recs: seq<(Header, seq<Byte>)> := [];
    while i < count && off + REC_HDR <= BLOCK_SIZE
      invariant 0 <= i <= count && off >= 0
      invariant Iterate(cd, buf, BLOCK_HDR, 0, count) == After(recs, Iterate(cd, buf, off, i, count))
    {
      var h := cd.parse(buf[off..off + REC_HDR]);
      if off + REC_HDR + h.c > BLOCK_SIZE {
        return Overflow(i);
      }
      var payload := buf[off + REC_HDR..off + REC_HDR + h.c];
      IterateStep(cd, buf, off, i, count, recs);
      recs := recs + [(h, payload)];
      off, i := off + REC_HDR + h.c, i + 1;
    }
    return Read(recs);
  }

  // ---------------------------------------------------------------------------
  // What a block reads as, whatever it holds

  /** The records lie one after the other from off on, record k at ends[k]: a 16-byte header, then as many bytes as
      it says, all inside the block. */
  ghost predicate Laid(cd: Codec, buf: Block, off: nat, recs: seq<(Header, seq<Byte>)>, ends: seq<nat>) {
    && |ends| == |recs| + 1 && ends[0] == off
    && forall k :: 0 <= k < |recs| ==> LaidAt(cd, buf, recs[k], ends[k], ends[k+1])
  }

  ghost predicate LaidAt(cd: Codec, buf: Block, rec: (Header, seq<Byte>), at: nat, end: nat) {
    && at + 16 <= end == at + 16 + rec.0.c <= 4096
    && rec.0 == cd.parse(buf[at..at + 16]) && rec.1 == buf[at + 16..end]
  }

  /** No further record is looked at: all are read, or no header fits. */
  ghost predicate Stops(read: nat, count: nat, end: nat) {
    read == count || end + 16 > 4096
  }

  /** The header after the records read says more than the block holds. */
  ghost predicate RunsOver(cd: Codec, buf: Block, end: nat) {
    end + 16 <= 4096 && end + 16 + cd.parse(buf[end..end + 16]).c > 4096
  }

  lemma LaidCons(cd: Codec, buf: Block, off: nat, rec: (Header, seq<Byte>), recs: seq<(Header, seq<Byte>)>,
                 ends: seq<nat>)
    requires ends != [] && Laid(cd, buf, ends[0], recs, ends) && LaidAt(cd, buf, rec, off, ends[0])
    ensures Laid(cd, buf, off, [rec] + recs, [off] + ends)
  {
    var rs, es := [rec] + recs, [off] + ends;
    forall k | 0 <= k < |rs| ensures LaidAt(cd, buf, rs[k], es[k], es[k+1]) {
      if k > 0 { assert rs[k] == recs[k-1] && es[k] == ends[k-1] && es[k+1] == ends[k-1+1]; }
    }
  }

  lemma LaidTail(cd: Codec, buf: Block, off: nat, recs: seq<(Header, seq<Byte>)>, ends: seq<nat>)
    requires recs != [] && Laid(cd, buf, off, recs, ends)
    ensures LaidAt(cd, buf, recs[0], off, ends[1]) && Laid(cd, buf, ends[1], recs[1..], ends[1..])
  {
    forall k | 0 <= k < |recs[1..]| ensures LaidAt(cd, buf, recs[1..][k], ends[1..][k], ends[1..][k+1]) {
      assert recs[1..][k] == recs[k+1] && ends[1..][k] == ends[k+1] && ends[1..][k+1] == ends[k+1+1];
    }
  }

  /** What is read, up to an overflowing record if there is one, is laid out in the block. */
  lemma {:induction false} IterateSound(cd: Codec, buf: Block, off: nat, i: nat, count: nat)
    returns (recs: seq<(Header, seq<Byte>)>, ends: seq<nat>)
    requires i <= count
    ensures Laid(cd, buf, off, recs, ends) && i + |recs| <= count
    ensures var r := Iterate(cd, buf, off, i, count);
      if r.Read? then r.recs == recs && Stops(i + |recs|, count, ends[|recs|])
      else r.index == i + |recs| < count && RunsOver(cd, buf, ends[|recs|])
    decreases count - i
  {
    recs, ends := [], [off];
    if i < count && off + REC_HDR <= BLOCK_SIZE {
      var h := cd.parse(buf[off..off + REC_HDR]);
      var end := off + REC_HDR + h.c;
      if end <= BLOCK_SIZE {
        var rs, es := IterateSound(cd, buf, end, i + 1, count);
        LaidCons(cd, buf, off, (h, buf[off + REC_HDR..end]), rs, es);
        recs, ends := [(h, buf[off + REC_HDR..end])] + rs, [off] + es;
        assert ends[|recs|] == es[|rs|];
      }
    }
  }

  /** And whatever is laid out so is read so. */
  lemma {:induction false} IterateComplete(cd: Codec, buf: Block, off: nat, i: nat, count: nat,
                                           recs: seq<(Header, seq<Byte>)>, ends: seq<nat>)
    requires Laid(cd, buf, off, recs, ends) && i + |recs| <= count
    ensures Stops(i + |recs|, count, ends[|recs|]) ==> Iterate(cd, buf, off, i, count) == Read(recs)
    ensures i + |recs| < count && RunsOver(cd, buf, ends[|recs|]) ==>
      Iterate(cd, buf, off, i, count) == Overflow(i + |recs|)
    decreases |recs|
  {
    if recs != [] {
      LaidTail(cd, buf, off, recs, ends);
      IterateComplete(cd, buf, ends[1], i + 1, count, recs[1..], ends[1..]);
      assert recs == [recs[0]] + recs[1..];
    }
  }

  /** A block reads as the records laid out from byte 16 on, as many as its header counts or as there is room for a
      header, if and only if none of them runs past its end. */
  lemma IterateExact(cd: Codec, buf: Block, count: nat)
    ensures forall recs :: Iterate(cd, buf, 16, 0, count) == Read(recs) <==>
      exists ends :: Laid(cd, buf, 16, recs, ends) && |recs| <= count && Stops(|recs|, count, ends[|recs|])
    ensures forall i: nat :: Iterate(cd, buf, 16, 0, count) == Overflow(i) <==>
      exists recs, ends :: Laid(cd, buf, 16, recs, ends) && |recs| == i < count && RunsOver(cd, buf, ends[|recs|])
  {
    var rs, es := IterateSound(cd, buf, 16, 0, count);
    forall recs, ends | Laid(cd, buf, 16, recs, ends) && |recs| <= count
      ensures Stops(|recs|, count, ends[|recs|]) ==> Iterate(cd, buf, 16, 0, count) == Read(recs)
      ensures |recs| < count && RunsOver(cd, buf, ends[|recs|]) ==> Iterate(cd, buf, 16, 0, count) == Overflow(|recs|)
    {
      IterateComplete(cd, buf, 16, 0, count, recs, ends);
    }
  }

  predicate Short(recs: seq<Record>) {
    forall i :: 0 <= i < |recs| ==> |recs[i].data| < 0x1_0000_0000
  }

  function Encode(cd: Codec, rec: Record): (r: seq<Byte>)
    requires |rec.data| < 0x1_0000_0000
    ensures Sound(cd) ==> |r| == REC_HDR + |rec.data|
  {
    cd.marshal(RecHeader(cd, rec)) + rec.data
  }

  /** The bytes of a record list. */
  function EncodeAll(cd: Codec, recs: seq<Record>): (r: seq<Byte>)
    requires Short(recs)
  {
    if recs == [] then []
    else EncodeAll(cd, recs[..|recs|-1]) + Encode(cd, recs[|recs|-1])
  }

  /** buf holds exactly recs, packed from the block header to off. */
  ghost predicate Holds(cd: Codec, buf: Block, recs: seq<Record>, off: nat) {
    && Short(recs)
    && off == BLOCK_HDR + |EncodeAll(cd, recs)| <= BLOCK_SIZE
    && buf[BLOCK_HDR..off] == EncodeAll(cd, recs)
    && BlockHeader(cd, buf).a == MAGIC_JOURNAL && BlockHeader(cd, buf).c == |recs|
  }

  /** What replay gets back for a record: its header and payload. */
  function Framed(cd: Codec, rec: Record): (r: (Header, seq<Byte>))
    requires |rec.data| < 0x1_0000_0000
  {
    (RecHeader(cd, rec), rec.data)
  }

  function FramedAll(cd: Codec, recs: seq<Record>): (r: seq<(Header, seq<Byte>)>)
    requires Short(recs)
    ensures |r| == |recs| && forall i :: 0 <= i < |recs| ==> r[i] == Framed(cd, recs[i])
  {
    if recs == [] then [] else [Framed(cd, recs[0])] + FramedAll(cd, recs[1..])
  }

  lemma EmptyHolds(cd: Codec, blockSeq: U32)
    requires Sound(cd)
    ensures Holds(cd, EmptyBlock(cd, blockSeq), [], BLOCK_HDR)
    ensures BlockHeader(cd, EmptyBlock(cd, blockSeq)) == Header(0x4A4E4C5A, blockSeq, 0, 0)
    ensures forall i :: 16 <= i < 4096 ==> EmptyBlock(cd, blockSeq)[i] == 0
  {
    var h := Header(MAGIC_JOURNAL, blockSeq, 0, 0);
    assert EmptyBlock(cd, blockSeq)[..BLOCK_HDR] == cd.marshal(h);
  }

  /** Rewriting the block header leaves the record area alone. */
  lemma HeaderOnly(cd: Codec, buf: Block, h: Header)
    requires Sound(cd)
    ensures BlockHeader(cd, CopyAt(buf, 0, cd.marshal(h))) == h
    ensures CopyAt(buf, 0, cd.marshal(h))[BLOCK_HDR..] == buf[BLOCK_HDR..]
  {
    var r := CopyAt(buf, 0, cd.marshal(h));
    assert r[0..0 + |cd.marshal(h)|] == r[..BLOCK_HDR];
  }

  /** The record area after copying a header and a payload at off. */
  lemma PayloadCopied(buf: Block, off: nat, hdr: seq<Byte>, data: seq<Byte>)
    requires |hdr| == REC_HDR && BLOCK_HDR <= off && off + REC_HDR + |data| <= BLOCK_SIZE
    ensures var r := CopyAt(CopyAt(buf, off, hdr), off + REC_HDR, data);
      && r[..off] == buf[..off] && r[off..off + REC_HDR + |data|] == hdr + data
      && r[..BLOCK_HDR] == buf[..BLOCK_HDR]
  {
    var b1 := CopyAt(buf, off, hdr);
    var r := CopyAt(b1, off + REC_HDR, data);
    assert r[..off] == r[..off + REC_HDR][..off] == b1[..off];
    assert r[off..off + REC_HDR] == r[..off + REC_HDR][off..] == b1[off..off + REC_HDR];
    assert r[off..off + REC_HDR + |data|] == r[off..off + REC_HDR] + r[off + REC_HDR..off + REC_HDR + |data|];
    assert r[..BLOCK_HDR] == r[..off][..BLOCK_HDR] && buf[..BLOCK_HDR] == buf[..off][..BLOCK_HDR];
  }

  lemma AppendHeader(cd: Codec, buf: Block, off: nat, rec: Record)
    requires Sound(cd)
    requires BLOCK_HDR <= off && off + REC_HDR <= BLOCK_SIZE && |rec.data| < 0x1_0000_0000
    ensures BlockHeader(cd, Append(cd, buf, off, rec)) ==
      BlockHeader(cd, buf).(c := (BlockHeader(cd, buf).c + 1) % 0x1_0000_0000)
  {
    var b1 := CopyAt(buf, off, cd.marshal(RecHeader(cd, rec)));
    var b2 := CopyAt(b1, off + REC_HDR, rec.data);
    assert b1[..BLOCK_HDR] == b1[..off][..BLOCK_HDR] == buf[..off][..BLOCK_HDR] == buf[..BLOCK_HDR];
    assert b2[..BLOCK_HDR] == b2[..off + REC_HDR][..BLOCK_HDR] == b1[..off + REC_HDR][..BLOCK_HDR] == b1[..BLOCK_HDR];
    var h := BlockHeader(cd, b2);
    HeaderOnly(cd, b2, h.(c := (h.c + 1) % 0x1_0000_0000));
  }

  /** The record area after appending a record that fits. */
  lemma AppendBody(cd: Codec, buf: Block, off: nat, rec: Record)
    requires Sound(cd)
    requires BLOCK_HDR <= off && off + REC_HDR + |rec.data| <= BLOCK_SIZE
    ensures Append(cd, buf, off, rec)[BLOCK_HDR..off + REC_HDR + |rec.data|] == buf[BLOCK_HDR..off] + Encode(cd, rec)
  {
    var hdr := cd.marshal(RecHeader(cd, rec));
    var b2 := CopyAt(CopyAt(buf, off, hdr), off + REC_HDR, rec.data);
    PayloadCopied(buf, off, hdr, rec.data);
    var h := BlockHeader(cd, b2);
    HeaderOnly(cd, b2, h.(c := (h.c + 1) % 0x1_0000_0000));
    var r, end := Append(cd, buf, off, rec), off + REC_HDR + |rec.data|;
    assert r[BLOCK_HDR..end] == r[BLOCK_HDR..][..end - BLOCK_HDR] == b2[BLOCK_HDR..][..end - BLOCK_HDR] ==
      b2[BLOCK_HDR..end];
    assert b2[BLOCK_HDR..end] == b2[..off][BLOCK_HDR..] + b2[off..end];
    assert buf[..off][BLOCK_HDR..] == buf[BLOCK_HDR..off];
  }

  lemma EncodeSnoc(cd: Codec, recs: seq<Record>, rec: Record)
    requires Sound(cd)
    requires Short(recs) && |rec.data| < 0x1_0000_0000
    ensures Short(recs + [rec]) && EncodeAll(cd, recs + [rec]) == EncodeAll(cd, recs) + Encode(cd, rec)
  {
    assert (recs + [rec])[..|recs|] == recs;
  }

  /** Appending a record that fits extends what the block holds. */
  lemma AppendHolds(cd: Codec, buf: Block, recs: seq<Record>, off: nat, rec: Record)
    requires Sound(cd)
    requires Holds(cd, buf, recs, off) && off + REC_HDR + |rec.data| <= BLOCK_SIZE && |recs| < 0xFFFF_FFFF
    ensures Holds(cd, Append(cd, buf, off, rec), recs + [rec], off + REC_HDR + |rec.data|)
  {
    AppendBody(cd, buf, off, rec);
    AppendHeader(cd, buf, off, rec);
    EncodeSnoc(cd, recs, rec);
  }

  lemma {:induction false} EncodePrefix(cd: Codec, recs: seq<Record>, k: nat)
    requires Sound(cd)
    requires Short(recs) && k <= |recs|
    ensures EncodeAll(cd, recs[..k]) <= EncodeAll(cd, recs)
  {
    var m := |recs| - 1;
    if k == |recs| {
      assert recs[..k] == recs;
    } else {
      EncodePrefix(cd, recs[..m], k);
      assert recs[..m][..k] == recs[..k];
    }
  }

  /** One turn of the cursor over a well-formed record. */
  lemma IterateOne(cd: Codec, buf: Block, at: nat, i: nat, count: nat, h: Header, data: seq<Byte>)
    requires Sound(cd)
    requires i < count && at + REC_HDR + |data| <= BLOCK_SIZE && h.c == |data|
    requires buf[at..at + REC_HDR + |data|] == cd.marshal(h) + data
    ensures Iterate(cd, buf, at, i, count) ==
      (var rest := Iterate(cd, buf, at + REC_HDR + |data|, i + 1, count);
       if rest.Overflow? then rest else Read([(h, data)] + rest.recs))
  {
    var end := at + REC_HDR + |data|;
    assert buf[at..at + REC_HDR] == buf[at..end][..REC_HDR] == cd.marshal(h);
    assert buf[at + REC_HDR..end] == buf[at..end][REC_HDR..] == data;
  }

  function OffsetOf(cd: Codec, recs: seq<Record>, k: nat): (r: nat)
    requires Short(recs) && k <= |recs|
    ensures r >= BLOCK_HDR
  {
    BLOCK_HDR + |EncodeAll(cd, recs[..k])|
  }

  lemma SliceOfSlice(s: seq<Byte>, a: nat, b: nat, i: nat, j: nat)
    requires i <= j && a + j <= b <= |s|
    ensures s[a..b][i..j] == s[a + i..a + j]
  {
    var l, r := s[a..b][i..j], s[a + i..a + j];
    assert |l| == |r| && forall t :: 0 <= t < |l| ==> l[t] == s[a..b][i + t] == s[a + i + t] == r[t];
  }

  /** Where record k sits in a block that holds recs. */
  lemma RecordAt(cd: Codec, buf: Block, recs: seq<Record>, off: nat, k: nat)
    requires Sound(cd)
    requires Holds(cd, buf, recs, off) && k < |recs|
    ensures var at := OffsetOf(cd, recs, k);
      && OffsetOf(cd, recs, k + 1) == at + REC_HDR + |recs[k].data| <= BLOCK_SIZE
      && buf[at..at + REC_HDR + |recs[k].data|] == cd.marshal(RecHeader(cd, recs[k])) + recs[k].data
  {
    var done, next := EncodeAll(cd, recs[..k]), EncodeAll(cd, recs[..k+1]);
    assert recs[..k+1][..k] == recs[..k];
    assert next == done + Encode(cd, recs[k]);
    EncodePrefix(cd, recs, k + 1);
    SliceOfSlice(buf, BLOCK_HDR, off, |done|, |next|);
    assert EncodeAll(cd, recs)[..|next|] == next;
    assert EncodeAll(cd, recs)[|done|..|next|] == next[|done|..] == Encode(cd, recs[k]);
  }

  lemma {:induction false} IterateHolds(cd: Codec, buf: Block, recs: seq<Record>, off: nat, k: nat)
    requires Sound(cd)
    requires Holds(cd, buf, recs, off) && k <= |recs|
    ensures Iterate(cd, buf, OffsetOf(cd, recs, k), k, |recs|) == Read(FramedAll(cd, recs[k..]))
    decreases |recs| - k
  {
    if k < |recs| {
      RecordAt(cd, buf, recs, off, k);
      IterateOne(cd, buf, OffsetOf(cd, recs, k), k, |recs|, RecHeader(cd, recs[k]), recs[k].data);
      IterateHolds(cd, buf, recs, off, k + 1);
      assert recs[k..][1..] == recs[k+1..];
    }
  }

  /** A block reads back exactly the records it holds, in append order. */
  lemma ReadBack(cd: Codec, buf: Block, recs: seq<Record>, off: nat)
    requires Sound(cd)
    requires Holds(cd, buf, recs, off)
    ensures Iterate(cd, buf, BLOCK_HDR, 0, BlockHeader(cd, buf).c) == Read(FramedAll(cd, recs))
    ensures var r := Iterate(cd, buf, BLOCK_HDR, 0, BlockHeader(cd, buf).c);
      && r.Read? && |r.recs| == |recs|
      && forall i :: 0 <= i < |recs| ==>
           && r.recs[i].0.a == recs[i].typ && r.recs[i].1 == recs[i].data
           && r.recs[i].0.b == 0 && r.recs[i].0.c == |recs[i].data| &&
             r.recs[i].0.d == cd.crc(recs[i].typ, recs[i].data)
  {
    assert recs[..0] == [] && recs[0..] == recs;
    IterateHolds(cd, buf, recs, off, 0);
  }

  /** A record appended to a fresh block reads back if and only if its payload is at most
      MAX_PAYLOAD bytes; a longer one is truncated by the copy and reported as overflowing. */
  lemma PayloadLimit(cd: Codec, blockSeq: U32, rec: Record)
    requires Sound(cd)
    requires |rec.data| < 0x1_0000_0000
    ensures BlockHeader(cd, EmptyBlock(cd, blockSeq)).c == 0
    ensures var buf := Append(cd, EmptyBlock(cd, blockSeq), BLOCK_HDR, rec);
      Iterate(cd, buf, BLOCK_HDR, 0, 1) == (if |rec.data| <= MAX_PAYLOAD then Read([Framed(cd, rec)]) else Overflow(0))
  {
    EmptyHolds(cd, blockSeq);
    var e := EmptyBlock(cd, blockSeq);
    var buf := Append(cd, e, BLOCK_HDR, rec);
    if |rec.data| <= MAX_PAYLOAD {
      FittingRecord(cd, e, rec);
    } else {
      TruncatedHeader(cd, e, rec);
    }
  }

  lemma FittingRecord(cd: Codec, e: Block, rec: Record)
    requires Sound(cd)
    requires |rec.data| <= MAX_PAYLOAD && Holds(cd, e, [], BLOCK_HDR)
    ensures Iterate(cd, Append(cd, e, BLOCK_HDR, rec), BLOCK_HDR, 0, 1) == Read([Framed(cd, rec)])
  {
    AppendHolds(cd, e, [], BLOCK_HDR, rec);
    assert [] + [rec] == [rec];
    ReadBack(cd, Append(cd, e, BLOCK_HDR, rec), [rec], BLOCK_HDR + REC_HDR + |rec.data|);
    assert FramedAll(cd, [rec]) == [Framed(cd, rec)] + FramedAll(cd, [rec][1..]);
  }

  lemma TruncatedHeader(cd: Codec, e: Block, rec: Record)
    requires Sound(cd)
    requires MAX_PAYLOAD < |rec.data| < 0x1_0000_0000 && BlockHeader(cd, e).c == 0
    ensures Iterate(cd, Append(cd, e, BLOCK_HDR, rec), BLOCK_HDR, 0, 1) == Overflow(0)
  {
    var hdr := cd.marshal(RecHeader(cd, rec));
    var b1 := CopyAt(e, BLOCK_HDR, hdr);
    var b2 := CopyAt(b1, BLOCK_HDR + REC_HDR, rec.data);
    assert b2[..BLOCK_HDR] == b2[..BLOCK_HDR + REC_HDR][..BLOCK_HDR] == b1[..BLOCK_HDR + REC_HDR][..BLOCK_HDR] ==
      e[..BLOCK_HDR];
    var h := BlockHeader(cd, b2);
    HeaderOnly(cd, b2, h.(c := (h.c + 1) % 0x1_0000_0000));
    var r := Append(cd, e, BLOCK_HDR, rec);
    assert r[BLOCK_HDR..BLOCK_HDR + REC_HDR] == r[BLOCK_HDR..][..REC_HDR] == b2[BLOCK_HDR..BLOCK_HDR + REC_HDR];
    assert b2[BLOCK_HDR..BLOCK_HDR + REC_HDR] == b2[..BLOCK_HDR + REC_HDR][BLOCK_HDR..] == hdr;
  }

  // ---------------------------------------------------------------------------
  // What a block means to the ring

  /** Every payload is one a block can hold. */
  predicate Good(recs: seq<Record>) {
    forall i :: 0 <= i < |recs| ==> |recs[i].data| <= MAX_PAYLOAD
  }

  /** buf is a journal block that replay reads as recs, or as an overflow at record 0 when recs
      is a single oversized record. */
  ghost predicate ReadsAs(cd: Codec, buf: Block, recs: seq<Record>) {
    && BlockHeader(cd, buf).a == MAGIC_JOURNAL && BlockHeader(cd, buf).c == |recs|
    && Iterate(cd, buf, BLOCK_HDR, 0, |recs|) == if Good(recs) then Read(FramedAll(cd, recs)) else Overflow(0)
  }

  /** The block under construction: its records are packed up to off. */
  ghost predicate Building(cd: Codec, buf: Block, recs: seq<Record>, off: nat) {
    && ReadsAs(cd, buf, recs)
    && (Good(recs) ==> Holds(cd, buf, recs, off))
    && (recs == [] ==> off == BLOCK_HDR)
    && BLOCK_HDR + 17 * |recs| <= off && (|recs| > 1 ==> off <= BLOCK_SIZE)
    && (!Good(recs) ==> off > BLOCK_SIZE)
  }

  lemma EmptyBuilding(cd: Codec, blockSeq: U32)
    requires Sound(cd)
    ensures Building(cd, EmptyBlock(cd, blockSeq), [], BLOCK_HDR)
  {
    EmptyHolds(cd, blockSeq);
    ReadBack(cd, EmptyBlock(cd, blockSeq), [], BLOCK_HDR);
  }

  /** Appending keeps the block readable: the record fits the space left, or the block is empty. */
  lemma AppendBuilding(cd: Codec, buf: Block, recs: seq<Record>, off: nat, rec: Record)
    requires Sound(cd)
    requires Building(cd, buf, recs, off) && 0 < |rec.data| < 0x1_0000_0000
    requires off + REC_HDR + |rec.data| <= BLOCK_SIZE || recs == []
    ensures Building(cd, Append(cd, buf, off, rec), recs + [rec], off + REC_HDR + |rec.data|)
  {
    if |rec.data| > MAX_PAYLOAD {
      AppendTooLong(cd, buf, rec);
      assert recs + [rec] == [rec];
    } else {
      AppendFitting(cd, buf, recs, off, rec);
    }
  }

  /** Appending keeps the block's sequence number. */
  lemma AppendSeq(cd: Codec, buf: Block, off: nat, rec: Record)
    requires Sound(cd) && BLOCK_HDR <= off && off + REC_HDR <= BLOCK_SIZE && |rec.data| < 0x1_0000_0000
    ensures BlockHeader(cd, Append(cd, buf, off, rec)).b == BlockHeader(cd, buf).b
  {
    var b1 := CopyAt(buf, off, cd.marshal(RecHeader(cd, rec)));
    var b2 := CopyAt(b1, off + REC_HDR, rec.data);
    var h := BlockHeader(cd, b2);
    assert b2[..BLOCK_HDR] == b2[..off][..BLOCK_HDR] == b1[..off][..BLOCK_HDR] == buf[..BLOCK_HDR] by {
      assert b2[..off] == b2[..off + REC_HDR][..off] && b1[..off] == b1[..off + REC_HDR][..off];
      assert buf[..off][..BLOCK_HDR] == buf[..BLOCK_HDR];
    }
    HeaderOnly(cd, b2, h.(c := (h.c + 1) % 0x1_0000_0000));
  }

  lemma AppendTooLong(cd: Codec, buf: Block, rec: Record)
    requires Sound(cd)
    requires Building(cd, buf, [], BLOCK_HDR) && MAX_PAYLOAD < |rec.data| < 0x1_0000_0000
    ensures Building(cd, Append(cd, buf, BLOCK_HDR, rec), [rec], BLOCK_HDR + REC_HDR + |rec.data|)
  {
    AppendHeader(cd, buf, BLOCK_HDR, rec);
    TruncatedHeader(cd, buf, rec);
    assert [rec][0] == rec;
  }

  lemma AppendFitting(cd: Codec, buf: Block, recs: seq<Record>, off: nat, rec: Record)
    requires Sound(cd)
    requires Building(cd, buf, recs, off) && Good(recs) && 0 < |rec.data| <= MAX_PAYLOAD
    requires off + REC_HDR + |rec.data| <= BLOCK_SIZE
    ensures Building(cd, Append(cd, buf, off, rec), recs + [rec], off + REC_HDR + |rec.data|)
  {
    AppendHolds(cd, buf, recs, off, rec);
    ReadBack(cd, Append(cd, buf, off, rec), recs + [rec], off + REC_HDR + |rec.data|);
  }

  lemma {:induction false} FramedConcat(cd: Codec, a: seq<Record>, b: seq<Record>)
    requires Short(a) && Short(b)
    ensures FramedAll(cd, a + b) == FramedAll(cd, a) + FramedAll(cd, b)
  {
    hide FramedAll;
    var l, r := FramedAll(cd, a + b), FramedAll(cd, a) + FramedAll(cd, b);
    assert forall i :: 0 <= i < |l| ==> l[i] == Framed(cd, (a + b)[i]) == r[i];
  }
}
